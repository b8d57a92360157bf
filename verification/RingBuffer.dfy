/**
 The circular queue of client/buffer.hh.  A fixed array is used as a ring: `head` is the
 oldest item, `tail` one past the newest, and `used` tells an empty ring from a full one,
 because both have `head == tail`.  A thrown exception is a `Failure`.
 */
module RingBuffers {
  import opened Common

  datatype BufferError = InvalidArgument | NoSpace

  /** The slot `i` steps after some slot below `cap`. */
  function Wrap(i: nat, cap: nat): (slot: nat)
    requires i < 2 * cap
    ensures slot < cap
  {
    if i < cap then i else i - cap
  }

  /** A pointer that only moves round the array is a count of slots, modulo the capacity. */
  lemma WrapIsMod(a: nat, k: nat, cap: nat)
    requires k <= cap && cap > 0
    ensures a % cap + k < 2 * cap && Wrap(a % cap + k, cap) == (a + k) % cap
  {
    var q := a / cap;
    assert a == q * cap + a % cap;
    if a % cap + k < cap {
      DivModIs(a + k, cap, q, a % cap + k);
    } else {
      assert a + k == (q + 1) * cap + (a % cap + k - cap);
      DivModIs(a + k, cap, q + 1, a % cap + k - cap);
    }
  }

  /** The slot after `n` steps round an array of `cap` slots. */
  function Around(n: nat, cap: nat): (slot: nat)
    requires cap > 0
    ensures slot < cap
  {
    if n < cap then n else Around(n - cap, cap)
  }

  lemma {:induction false} AroundIsMod(n: nat, cap: nat)
    requires cap > 0
    ensures Around(n, cap) == n % cap
  {
    if n < cap {
      DivModIs(n, cap, 0, n);
    } else {
      AroundIsMod(n - cap, cap);
      var q := (n - cap) / cap;
      assert n == (q + 1) * cap + (n - cap) % cap;
      DivModIs(n, cap, q + 1, (n - cap) % cap);
    }
  }

  lemma WrapIsAround(n: nat, k: nat, cap: nat)
    requires k <= cap && cap > 0
    ensures Around(n, cap) + k < 2 * cap && Wrap(Around(n, cap) + k, cap) == Around(n + k, cap)
  {
    AroundIsMod(n, cap);
    AroundIsMod(n + k, cap);
    WrapIsMod(n, k, cap);
  }

  /** A pair of pointers into the array: `n` slots from `first`, the rest from `second`. */
  datatype Segments = Segments(first: nat, n: nat, second: Option<nat>) {

    /** The two segments lie inside an array of `cap` slots and hold `len` slots together. */
    ghost predicate Fits(len: nat, cap: nat) {
      && n <= len
      && first + n <= cap
      && (second.None? ==> n == len)
      && (second.Some? ==> second.value + (len - n) <= cap)
    }

    /** The array slot of the `i`-th item of the pair. */
    ghost function Slot(i: nat, len: nat): nat
      requires i < len && (second.None? ==> n == len)
    {
      if i < n then first + i else second.value + (i - n)
    }
  }

  /** An array of `cap` slots read from `head` round to `head`. */
  function Rotate<T>(a: seq<T>, head: nat): (s: seq<T>)
    requires head <= |a|
    ensures |s| == |a|
    ensures forall i :: 0 <= i < |a| ==> s[i] == a[Wrap(head + i, |a|)]
  {
    a[head..] + a[..head]
  }

  /** A pair of segments is, slot by slot, the `len` slots that start `used` after `head`. */
  ghost predicate IsNextFree(s: Segments, len: nat, head: nat, used: nat, cap: nat) {
    && head < cap
    && used + len <= cap
    && s.Fits(len, cap)
    && forall i :: 0 <= i < len ==> s.Slot(i, len) == Wrap(head + used + i, cap)
  }

  /** The array after copying `data` into a pair of segments. */
  function Filled<T>(a: seq<T>, s: Segments, data: seq<T>): seq<T>
    requires s.Fits(|data|, |a|)
  {
    var b := Overwrite(a, s.first, data[..s.n]);
    if s.second.Some? then Overwrite(b, s.second.value, data[s.n..]) else b
  }

  /** A slot inside a prepared segment is the free slot with that segment's offset. */
  lemma SlotOwner(s: Segments, len: nat, head: nat, used: nat, cap: nat, j: nat)
    requires IsNextFree(s, len, head, used, cap) && j < cap
    ensures var k := Wrap(head + j, cap);
            && (s.first <= k < s.first + s.n ==> j == used + (k - s.first))
            && (s.second.Some? && s.second.value <= k < s.second.value + (len - s.n) ==>
                  j == used + (k - s.second.value) + s.n)
  {
    var k := Wrap(head + j, cap);
    if s.first <= k < s.first + s.n {
      assert s.Slot(k - s.first, len) == Wrap(head + used + (k - s.first), cap);
    }
    if s.second.Some? && s.second.value <= k < s.second.value + (len - s.n) {
      var i := k - s.second.value + s.n;
      assert s.Slot(i, len) == Wrap(head + used + i, cap);
    }
  }

  /** Preparing a write never hands out a slot that holds a live item. */
  lemma PreparedMissesLive(s: Segments, len: nat, head: nat, used: nat, cap: nat, i: nat, j: nat)
    requires IsNextFree(s, len, head, used, cap) && i < len && j < used
    ensures s.Slot(i, len) != Wrap(head + j, cap)
  {
    assert s.Slot(i, len) == Wrap(head + used + i, cap);
  }

  lemma FilledAt<T>(a: seq<T>, s: Segments, data: seq<T>, head: nat, used: nat, j: nat)
    requires IsNextFree(s, |data|, head, used, |a|) && j < |a|
    ensures Rotate(Filled(a, s, data), head)[j] ==
            if used <= j < used + |data| then data[j - used] else Rotate(a, head)[j]
  {
    SlotOwner(s, |data|, head, used, |a|, j);
    if used <= j < used + |data| {
      assert s.Slot(j - used, |data|) == Wrap(head + used + (j - used), |a|);
    }
  }

  /** Filling prepared segments leaves the live items alone and puts the data right after them. */
  lemma FilledRotation<T>(a: seq<T>, s: Segments, data: seq<T>, head: nat, used: nat)
    requires IsNextFree(s, |data|, head, used, |a|)
    ensures Rotate(Filled(a, s, data), head) ==
            Rotate(a, head)[..used] + data + Rotate(a, head)[used + |data|..]
  {
    var r := Rotate(Filled(a, s, data), head);
    forall j | 0 <= j < |a|
      ensures r[j] == if used <= j < used + |data| then data[j - used] else Rotate(a, head)[j]
    {
      FilledAt(a, s, data, head, used, j);
    }
  }

  /** The items a pair of segments refers to. */
  function SegmentData<T>(a: seq<T>, s: Segments, len: nat): (d: seq<T>)
    requires s.Fits(len, |a|)
    ensures |d| == len
  {
    a[s.first..s.first + s.n] +
    if s.second.Some? then a[s.second.value..s.second.value + (len - s.n)] else []
  }

  /** Segments that are the right slots in turn refer to the right items. */
  lemma SegmentsAreRotation<T>(a: seq<T>, s: Segments, len: nat, head: nat, used: nat)
    requires IsNextFree(s, len, head, used, |a|)
    ensures SegmentData(a, s, len) == Rotate(a, head)[used..used + len]
  {
    forall i | 0 <= i < len
      ensures SegmentData(a, s, len)[i] == Rotate(a, head)[used + i]
    {
      assert s.Slot(i, len) == Wrap(head + used + i, |a|);
    }
  }

  /** Dropping from the front of the queue turns the ring. */
  lemma RotateFurther<T>(a: seq<T>, head: nat, len: nat)
    requires head < |a| && len <= |a|
    ensures Rotate(a, Wrap(head + len, |a|)) == Rotate(a, head)[len..] + Rotate(a, head)[..len]
  {
  }

  lemma CommittedContents<T>(s: seq<T>, used: nat, len: nat)
    requires used + len <= |s|
    ensures s[..used + len] == s[..used] + s[used..][..len]
    ensures s[used + len..] == s[used..][len..]
  {
  }

  lemma DroppedContents<T>(a: seq<T>, head: nat, used: nat, len: nat)
    requires head < |a| && len <= used <= |a|
    ensures Rotate(a, Wrap(head + len, |a|))[..used - len] == Rotate(a, head)[..used][len..]
  {
    RotateFurther(a, head, len);
  }

  /** The part of a prepared pair that a short read fills. */
  function Clip(s: Segments, k: nat): Segments {
    if k <= s.n then Segments(s.first, k, None) else s
  }

  lemma ClipIsNextFree(s: Segments, len: nat, head: nat, used: nat, cap: nat, k: nat)
    requires IsNextFree(s, len, head, used, cap) && k <= len
    ensures IsNextFree(Clip(s, k), k, head, used, cap)
  {
    forall i | 0 <= i < k
      ensures Clip(s, k).Slot(i, k) == Wrap(head + used + i, cap)
    {
      assert s.Slot(i, len) == Wrap(head + used + i, cap);
    }
  }

  /** Where an iterator wraps: nowhere, or from the end of the array back to its start. */
  datatype Spans = Straight | Wrapping(end1: nat, start2: nat)

  /** An iterator is a value; `++` and `--` replace it. */
  datatype BufferIterator = BufferIterator(ptr: nat, spans: Spans) {

    function Next(): BufferIterator {
      var p := ptr + 1;
      this.(ptr := if spans.Wrapping? && p == spans.end1 then spans.start2 else p)
    }

    /** Decrementing needs a slot to go back to. */
    function Prev(): BufferIterator
      requires if spans.Wrapping? && ptr == spans.start2 then spans.end1 > 0 else ptr > 0
    {
      var p := if spans.Wrapping? && ptr == spans.start2 then spans.end1 else ptr;
      this.(ptr := p - 1)
    }
  }

  class RingBuffer<T(0)> {
    const buf: array<T>
    var head: nat
    var tail: nat
    var used: nat

    ghost predicate Valid()
      reads this
    {
      && head < buf.Length
      && used <= buf.Length
      && tail == Wrap(head + used, buf.Length)
    }

    /** The whole array read from `head` round to `head`: live items first, then free slots. */
    ghost function Rotation(): (s: seq<T>)
      requires Valid()
      reads this, buf
      ensures |s| == buf.Length
    {
      Rotate(buf[..], head)
    }

    /** The queue this ring stands for, oldest item first. */
    ghost function Contents(): (s: seq<T>)
      requires Valid()
      reads this, buf
      ensures |s| == used
    {
      Rotation()[..used]
    }

    /** What the free slots hold, in the order in which they will be queued. */
    ghost function Free(): (s: seq<T>)
      requires Valid()
      reads this, buf
      ensures |s| == buf.Length - used
    {
      Rotation()[used..]
    }

    /** The array slot of the `i`-th item counted from the oldest, live or free. */
    ghost function SlotAt(i: nat): nat
      requires Valid() && i < buf.Length
      reads this
    {
      Wrap(head + i, buf.Length)
    }

    constructor (capacity: nat)
      requires capacity > 0
      ensures Valid() && fresh(buf) && buf.Length == capacity && head == 0 && Contents() == []
    {
      buf := new T[capacity];
      head, tail, used := 0, 0, 0;
    }

    function Items(): nat
      reads this
    {
      used
    }

    function Space(): nat
      requires Valid()
      reads this
    {
      buf.Length - used
    }

    /** How many slots there are from the tail to the end of the array. */
    function Run(): (n: nat)
      requires Valid()
      reads this
      ensures n > 0
    {
      buf.Length - tail
    }

    method QueuePrep(len: nat) returns (r: Result<Segments, BufferError>)
      requires Valid()
      ensures r.Failure? <==> len == 0 || len > Space()
      ensures r.Failure? ==> r.error == if len == 0 then InvalidArgument else NoSpace
      ensures r.Success? ==> r.value.first == tail && IsNextFree(r.value, len, head, used, buf.Length)
      ensures r.Success? ==> 0 < r.value.n && (r.value.second.Some? ==> r.value.first + r.value.n == buf.Length)
      ensures r.Success? ==> r.value.n == Min(len, Run())
    {
      if len == 0 {
        return Failure(InvalidArgument);
      } else if used == buf.Length {
        return Failure(NoSpace);
      } else if len > Space() {
        return Failure(NoSpace);
      }
      var n, second := len, None;
      if head <= tail {
        var avail := buf.Length - tail;
        if len >= avail {
          n, second := avail, Some(0);
        }
      }
      r := Success(Segments(tail, n, second));
    }

    method QueueCommit(len: nat) returns (r: Result<(), BufferError>)
      requires Valid()
      modifies this
      ensures Valid() && head == old(head)
      ensures r.Failure? <==> len == 0 || len > old(Space())
      ensures r.Failure? ==> r.error == if len == 0 then InvalidArgument else NoSpace
      ensures r.Failure? ==> unchanged(this)
      ensures r.Success? ==> Contents() == old(Contents()) + old(Free())[..len]
      ensures r.Success? ==> Free() == old(Free())[len..]
      ensures r.Success? ==> tail == Wrap(old(tail) + len, buf.Length)
    {
      if len == 0 {
        return Failure(InvalidArgument);
      } else if used == buf.Length {
        return Failure(NoSpace);
      } else if len > Space() {
        return Failure(NoSpace);
      }
      ghost var back := Wrap(head + used + len, buf.Length);
      CommittedContents(Rotation(), used, len);
      if head <= tail {
        var endFree := buf.Length - tail;
        if len < endFree {
          tail := tail + len;
        } else {
          tail := len - endFree;
        }
      } else {
        tail := tail + len;
      }
      used := used + len;
      assert tail == back;
      r := Success(());
    }

    /** `memcpy` into the array, which stays inside it. */
    method Copy(at: nat, data: seq<T>)
      requires at + |data| <= buf.Length
      modifies buf
      ensures buf[..] == Overwrite(old(buf[..]), at, data)
    {
      forall i | 0 <= i < |data| {
        buf[at + i] := data[i];
      }
    }

    /** The one or two copies with which a caller fills prepared segments. */
    method Fill(s: Segments, data: seq<T>)
      requires Valid() && IsNextFree(s, |data|, head, used, buf.Length)
      modifies buf
      ensures Contents() == old(Contents())
      ensures Free() == data + old(Free())[|data|..]
    {
      FilledRotation(buf[..], s, data, head, used);
      CopyBoth(s, data);
      assert Rotation()[..used] == old(Rotation())[..used];
      assert Rotation()[used..] == data + old(Rotation())[used..][|data|..];
    }

    method CopyBoth(s: Segments, data: seq<T>)
      requires s.Fits(|data|, buf.Length)
      modifies buf
      ensures buf[..] == Filled(old(buf[..]), s, data)
    {
      Copy(s.first, data[..s.n]);
      if s.second.Some? {
        Copy(s.second.value, data[s.n..]);
      }
    }

    /** At most `len` slots, contiguous; the count that was possible comes back with the first slot. */
    method Queue(len: nat) returns (r: Result<(nat, nat), BufferError>)
      requires Valid()
      modifies this
      ensures Valid() && head == old(head)
      ensures r.Failure? <==> len == 0 || old(Space()) == 0
      ensures r.Failure? ==> unchanged(this) && r.error == if len == 0 then InvalidArgument else NoSpace
      ensures r.Success? ==> r.value.0 == old(tail) == SlotAt(old(used)) && used == old(used) + r.value.1
      ensures r.Success? ==> 0 < r.value.1 <= len && r.value.0 + r.value.1 <= buf.Length
      ensures r.Success? ==> r.value.1 == len || r.value.1 == old(Space()) || r.value.0 + r.value.1 == buf.Length
      ensures r.Success? ==> Contents() == old(Contents()) + old(Free())[..r.value.1]
    {
      var want := len;
      if want > Space() && Space() > 0 {
        want := Space();
      }
      var prep := QueuePrep(want);
      if prep.Failure? {
        return Failure(prep.error);
      }
      var commit := QueueCommit(prep.value.n);
      r := Success((prep.value.first, prep.value.n));
    }

    /** Overwrites the `i`-th oldest item through a reference to its slot. */
    method Update(slot: nat, x: T, ghost i: nat)
      requires Valid() && i < used && slot == SlotAt(i)
      modifies buf
      ensures Contents() == old(Contents())[i := x]
      ensures buf[..] == old(buf[..])[slot := x]
    {
      buf[slot] := x;
      assert forall j :: 0 <= j < used ==> Contents()[j] == old(Contents())[i := x][j];
    }

    /** Returns the slot of the new item, which stands for the reference C++ returns. */
    method QueueEmplace(x: T) returns (r: Result<nat, BufferError>)
      requires Valid()
      modifies this, buf
      ensures Valid() && head == old(head)
      ensures r.Failure? <==> old(used) == buf.Length
      ensures r.Failure? ==> r.error == NoSpace && unchanged(this) && buf[..] == old(buf[..])
      ensures r.Success? ==> r.value == old(tail) && used == old(used) + 1 && r.value == SlotAt(old(used))
      ensures r.Success? ==> Contents() == old(Contents()) + [x]
      ensures r.Success? ==> buf[..] == old(buf[..])[old(tail) := x]
    {
      var q := Queue(1);
      if q.Failure? {
        return Failure(q.error);
      }
      Update(q.value.0, x, used - 1);
      r := Success(q.value.0);
    }

    method Last() returns (r: Result<nat, BufferError>)
      requires Valid()
      ensures r.Failure? <==> used == 0
      ensures r.Failure? ==> r.error == NoSpace
      ensures r.Success? ==> r.value == SlotAt(used - 1)
    {
      if used == 0 {
        return Failure(NoSpace);
      }
      if tail == 0 {
        return Success(buf.Length - 1);
      } else {
        return Success(tail - 1);
      }
    }

    method Peek(len: nat) returns (r: Result<Segments, BufferError>)
      requires Valid()
      ensures r.Failure? <==> len == 0 || len > used
      ensures r.Failure? ==> r.error == if len == 0 then InvalidArgument else NoSpace
      ensures r.Success? ==> IsNextFree(r.value, len, head, 0, buf.Length) && r.value.first == head
      ensures r.Success? ==> r.value.n == Min(len, buf.Length - head) > 0
      ensures r.Success? ==> r.value.second.Some? ==> r.value.first + r.value.n == buf.Length
      ensures r.Success? ==> SegmentData(buf[..], r.value, len) == Contents()[..len]
    {
      if len == 0 {
        return Failure(InvalidArgument);
      } else if used == 0 {
        return Failure(NoSpace);
      } else if len > Items() {
        return Failure(NoSpace);
      }
      var n, second := len, None;
      if head >= tail {
        var endUsed := buf.Length - head;
        if len > endUsed {
          n, second := endUsed, Some(0);
        }
      }
      r := Success(Segments(head, n, second));
      SegmentsAreRotation(buf[..], r.value, len, head, 0);
    }

    method Drop(len: nat) returns (r: Result<(), BufferError>)
      requires Valid()
      modifies this
      ensures Valid()
      ensures r.Failure? <==> len > old(used)
      ensures r.Failure? ==> r.error == NoSpace && unchanged(this)
      ensures r.Success? ==> Contents() == old(Contents())[len..]
      ensures r.Success? ==> head == old(Wrap(head + len, buf.Length)) && tail == old(tail)
    {
      if len == 0 {
        return Success(());
      } else if used == 0 {
        return Failure(NoSpace);
      } else if len > Items() {
        return Failure(NoSpace);
      }
      DroppedContents(buf[..], head, used, len);
      ghost var front := Wrap(head + len, buf.Length);
      if head >= tail && len >= buf.Length - head {
        head := len - (buf.Length - head);
      } else {
        head := head + len;
      }
      used := used - len;
      assert head == front;
      r := Success(());
    }

    method Clear()
      requires Valid()
      modifies this
      ensures Valid() && Contents() == []
    {
      var r := Drop(Items());
    }

    /** Hands out one contiguous run from the front of the queue and frees it. */
    method Dequeue(len: nat) returns (r: Result<(nat, nat), BufferError>)
      requires Valid()
      modifies this
      ensures Valid()
      ensures r.Failure? <==> len == 0 || old(used) == 0
      ensures r.Failure? ==> r.error == InvalidArgument && unchanged(this)
      ensures r.Success? ==> r.value.0 == old(head) && 0 < r.value.1 <= len
      ensures r.Success? ==> r.value.1 <= old(used) && r.value.0 + r.value.1 <= buf.Length
      ensures r.Success? ==> r.value.1 == len || r.value.1 == old(used) || r.value.0 + r.value.1 == buf.Length
      ensures r.Success? ==> buf[r.value.0..r.value.0 + r.value.1] == old(Contents())[..r.value.1]
      ensures r.Success? ==> Contents() == old(Contents())[r.value.1..]
      ensures r.Success? ==> head == old(Wrap(head + r.value.1, buf.Length))
    {
      var want := if len > used then used else len;
      var peek := Peek(want);
      if peek.Failure? {
        return Failure(peek.error);
      }
      ghost var data := SegmentData(buf[..], peek.value, want);
      assert data[..peek.value.n] == buf[peek.value.first..peek.value.first + peek.value.n];
      var drop := Drop(peek.value.n);
      r := Success((peek.value.first, peek.value.n));
    }

    method DequeueOne() returns (r: Result<nat, BufferError>)
      requires Valid()
      modifies this
      ensures Valid()
      ensures r.Failure? <==> old(used) == 0
      ensures r.Failure? ==> r.error == InvalidArgument && unchanged(this)
      ensures r.Success? ==> r.value == old(head) && buf[r.value] == old(Contents())[0]
      ensures r.Success? ==> Contents() == old(Contents())[1..] && head == old(Wrap(head + 1, buf.Length))
    {
      var d := Dequeue(1);
      if d.Failure? {
        return Failure(d.error);
      }
      assert buf[d.value.0..d.value.0 + d.value.1] == [buf[d.value.0]];
      r := Success(d.value.0);
    }

    /** How the iterators of `begin` and `end` wrap. */
    function IteratorSpans(): Spans
      reads this
    {
      if used == 0 || head < tail then Straight else Wrapping(buf.Length, 0)
    }

    function Begin(): BufferIterator
      reads this
    {
      BufferIterator(head, IteratorSpans())
    }

    function End(): BufferIterator
      reads this
    {
      BufferIterator(tail, IteratorSpans())
    }

    /** The array slots of the live items, oldest first. */
    ghost function LiveSlots(): (s: seq<nat>)
      requires Valid()
      reads this
    {
      LiveSlotsOf(head, used, buf.Length)
    }

    /** What a range-based `for` visits: every live slot in order, but nothing at all when the ring is full. */
    method Walk() returns (slots: seq<nat>)
      requires Valid()
      ensures slots == if used < buf.Length then LiveSlots() else []
    {
      slots := [];
      var it := Begin();
      while it != End()
        invariant |slots| <= used && (slots != [] ==> used < buf.Length)
        invariant slots == LiveSlotsOf(head, |slots|, buf.Length)
        invariant it == At(head, used, |slots|, buf.Length)
        decreases used - |slots|
      {
        slots := slots + [it.ptr];
        it := it.Next();
      }
    }
  }

  function SlotOf(head: nat, i: nat, cap: nat): nat
    requires head < cap && i <= cap
  {
    Wrap(head + i, cap)
  }

  function LiveSlotsOf(head: nat, used: nat, cap: nat): (s: seq<nat>)
    requires head < cap && used <= cap
    ensures |s| == used
  {
    seq(used, i requires 0 <= i < used => SlotOf(head, i, cap))
  }

  function SpansOf(head: nat, used: nat, cap: nat): Spans
    requires head < cap && used <= cap
  {
    if used == 0 || head < SlotOf(head, used, cap) then Straight else Wrapping(cap, 0)
  }

  /** The iterator that stands at item `i`. */
  function At(head: nat, used: nat, i: nat, cap: nat): BufferIterator
    requires head < cap && used <= cap && i <= used
  {
    BufferIterator(SlotOf(head, i, cap), SpansOf(head, used, cap))
  }

  /** `++` goes from each live slot to the next one and `--` goes back; with a free slot left, only the
      position after the last item is the end. */
  lemma IteratorSteps(head: nat, used: nat, i: nat, cap: nat)
    requires head < cap && used < cap && i < used
    ensures At(head, used, i, cap).Next() == At(head, used, i + 1, cap)
    ensures At(head, used, i + 1, cap).Prev() == At(head, used, i, cap)
    ensures At(head, used, i, cap) != At(head, used, used, cap)
  {
  }

  /** An iterator that has not reached the end is at a live slot. */
  lemma NotAtEnd(head: nat, used: nat, i: nat, cap: nat)
    requires head < cap && i <= used <= cap && (i > 0 ==> used < cap)
    requires At(head, used, i, cap) != At(head, used, used, cap)
    ensures i < used < cap
    ensures At(head, used, i, cap).ptr == Wrap(head + i, cap)
    ensures At(head, used, i, cap).Next() == At(head, used, i + 1, cap)
  {
  }
}
