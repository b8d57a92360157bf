/**
 The loader of client/load_memcache.cc on a transmit ring.  Its first window is written before the
 connection can drain anything, so that window has to fit; then all later ones do, because a set is
 only acknowledged after the server has received it.
 */
module LoaderRings {
  import opened Common
  import opened Loader
  import opened Packets
  import opened RingBuffers
  import opened Requests
  import Keys

  /** A set as it is written. */
  datatype SetWrite = SetWrite(key: seq<byte>, value: seq<byte>, quiet: bool, junk1: nat -> byte, junk2: nat -> byte)

  function Size(keysize: nat, valsize: nat): nat {
    HEADER_SIZE + LONG + keysize + valsize
  }

  ghost predicate Sized(s: SetWrite, keysize: nat, valsize: nat) {
    |s.key| == keysize && |s.value| == valsize
  }

  function PartsOf(s: SetWrite): seq<Part> {
    SetParts(s.key, s.value, s.quiet, s.junk1, s.junk2)
  }

  function AllParts(sets: seq<SetWrite>): seq<Part> {
    if sets == [] then [] else PartsOf(sets[0]) + AllParts(sets[1..])
  }

  lemma {:induction false} TotalOfBoth(a: seq<Part>, b: seq<Part>)
    ensures Total(a + b) == Total(a) + Total(b)
    ensures NoneEmpty(a + b) <==> NoneEmpty(a) && NoneEmpty(b)
    decreases |a|
  {
    if a == [] {
      assert a + b == b;
    } else {
      assert (a + b)[1..] == a[1..] + b;
      TotalOfBoth(a[1..], b);
    }
  }

  lemma OneSet(s: SetWrite, keysize: nat, valsize: nat)
    requires Sized(s, keysize, valsize)
    ensures Total(PartsOf(s)) == Size(keysize, valsize)
    ensures NoneEmpty(PartsOf(s)) <==> keysize > 0 && valsize > 0
  {
    var parts := PartsOf(s);
    assert parts == [parts[0]] + ([parts[1]] + ([parts[2]] + [parts[3]]));
    TotalOfBoth([parts[2]], [parts[3]]);
    TotalOfBoth([parts[1]], [parts[2]] + [parts[3]]);
    TotalOfBoth([parts[0]], [parts[1]] + ([parts[2]] + [parts[3]]));
    assert forall p: Part :: [p][1..] == [] && Total([p]) == |p.bytes|;
  }

  lemma {:induction false} AllSets(sets: seq<SetWrite>, keysize: nat, valsize: nat)
    requires forall s <- sets :: Sized(s, keysize, valsize)
    ensures Total(AllParts(sets)) == |sets| * Size(keysize, valsize)
    ensures sets != [] ==> (NoneEmpty(AllParts(sets)) <==> keysize > 0 && valsize > 0)
    decreases |sets|
  {
    if sets != [] {
      var first, rest := PartsOf(sets[0]), AllParts(sets[1..]);
      OneSet(sets[0], keysize, valsize);
      AllSets(sets[1..], keysize, valsize);
      TotalOfBoth(first, rest);
      assert (|sets| - 1) * Size(keysize, valsize) + Size(keysize, valsize) == |sets| * Size(keysize, valsize);
      assert sets[1..] == [] ==> rest == [];
    }
  }

  /** A window of sets is written without an exception if and only if keys and values are not empty and all the
      sets fit in the free space together. */
  lemma WindowFitsIff(sets: seq<SetWrite>, keysize: nat, valsize: nat, r: TxRing, cap: nat)
    requires sets != [] && forall s <- sets :: Sized(s, keysize, valsize)
    requires r.tail < cap && r.space <= cap && r.ok
    ensures Writes(AllParts(sets), r, cap).ok <==>
            keysize > 0 && valsize > 0 && |sets| * Size(keysize, valsize) <= r.space
  {
    AllSets(sets, keysize, valsize);
    WritesSucceedIff(AllParts(sets), r, cap);
  }

  lemma Scaled(a: nat, b: nat, size: nat)
    requires a <= b
    ensures a * size <= b * size && (b - a) * size == b * size - a * size
  {
    assert (b - a) * size >= 0;
    assert b * size == (b - a) * size + a * size;
  }

  /** Before any reply, the window is filled by the smaller of the load and the batch. */
  lemma FirstWindow(load: MemcacheLoad)
    requires load.Valid() && load.replies == 0 && (load.sent == load.toload || load.onwire >= load.batch)
    ensures load.sent == Min(load.toload, load.batch)
  {
    WrapShift(load.sent, 0);
  }

  lemma Room(sent: nat, acked: nat, window: nat, size: nat, taken: nat, cap: nat)
    requires acked <= sent && sent + 1 - acked <= window && acked * size <= taken && window * size <= cap
    ensures sent * size - taken + size <= cap
  {
    Scaled(acked, sent + 1, size);
    Scaled(sent + 1 - acked, window, size);
    assert (sent + 1) * size == sent * size + size;
  }

  /** Later on, the kernel has taken at least what was acknowledged; so if the first window fits in a ring of
      `cap` bytes, there is room for every further set. */
  lemma LaterSetsFit(load: MemcacheLoad, size: nat, taken: nat, cap: nat)
    requires load.Valid() && load.notify > 0 && load.sent < load.toload && load.onwire < load.batch
    requires Acks(load.replies, load.notify) * size <= taken <= load.sent * size
    requires Min(load.toload, load.batch) * size <= cap
    ensures load.sent * size - taken + size <= cap
  {
    load.RoomForOne();
    Acknowledged(load.replies, load.sent, load.notify, load.toload);
    Room(load.sent, Acks(load.replies, load.notify), Min(load.toload, load.batch), size, taken, cap);
  }

  /** So such a loader never runs out of ring space. */
  lemma NeverOutOfSpace(load: MemcacheLoad, s: SetWrite, keysize: nat, valsize: nat, taken: nat, r: TxRing, cap: nat)
    requires load.Valid() && load.notify > 0 && load.sent < load.toload && load.onwire < load.batch
    requires Sized(s, keysize, valsize) && keysize > 0 && valsize > 0
    requires Acks(load.replies, load.notify) * Size(keysize, valsize) <= taken <= load.sent * Size(keysize, valsize)
    requires Min(load.toload, load.batch) * Size(keysize, valsize) <= cap
    requires r.tail < cap && r.ok && |r.pending| == load.sent * Size(keysize, valsize) - taken
    requires r.space == cap - |r.pending|
    ensures Writes(PartsOf(s), r, cap).ok
  {
    LaterSetsFit(load, Size(keysize, valsize), taken, cap);
    OneSet(s, keysize, valsize);
    WritesSucceedIff(PartsOf(s), r, cap);
  }

  /** The key of every request that was written. */
  function WireKeys(wire: seq<Sent>, width: nat): (keys: seq<string>)
    ensures |keys| == |wire|
  {
    seq(|wire|, i requires 0 <= i < |wire| => Keys.Key(wire[i].id, width))
  }

  /** A loader that started at id 1 and has sent everything has stored, in order, the keys that the generator
      draws from. */
  lemma LoadStoresKeys(load: MemcacheLoad, width: nat)
    requires load.Valid() && load.notify > 0 && load.start == 1 && load.sent == load.toload
    ensures WireKeys(load.wire, width) == Keys.StoredKeys(load.toload, width)
  {
    forall i | 0 <= i < load.toload
      ensures load.wire[i].id == i + 1
    {
      RequestsAre(load.toload, 1, load.notify, load.toload, i);
    }
  }
}
