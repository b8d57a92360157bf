/**
 The window protocol of client/load_memcache.cc.  Most sets are quiet; a loud one, whose reply
 stands for `notify` sets, goes out every `notify` requests and at the very end.  Counters
 are 64-bit and wrap.
 */
module Loader {
  import opened Common

  /** `s % n`, counted up one request at a time. */
  function Phase(s: nat, n: nat): (p: nat)
    requires n > 0
    ensures p < n
  {
    if s == 0 || Phase(s - 1, n) + 1 == n then 0 else Phase(s - 1, n) + 1
  }

  lemma {:induction false} PhaseIsRemainder(s: nat, n: nat)
    requires n > 0
    ensures Phase(s, n) == s % n
    decreases s
  {
    if s == 0 {
      DivModIs(0, n, 0, 0);
    } else {
      PhaseIsRemainder(s - 1, n);
      var q := (s - 1) / n;
      if Phase(s - 1, n) + 1 == n {
        assert s == (q + 1) * n;
        DivModIs(s, n, q + 1, 0);
      } else {
        DivModIs(s, n, q, Phase(s - 1, n) + 1);
      }
    }
  }

  /** Whether the request after `s` others asks for a reply. */
  predicate Loud(s: nat, n: nat, toload: nat)
    requires n > 0
  {
    Phase(s, n) + 1 == n || s + 1 == toload
  }

  /** The test in the source. */
  lemma LoudTest(s: nat, n: nat, toload: nat)
    requires n > 0
    ensures Loud(s, n, toload) <==> (s + 1) % n == 0 || s + 1 == toload
  {
    PhaseIsRemainder(s + 1, n);
  }

  function WantsReply(sent: nat, n: nat, toload: nat): (loud: bool)
    requires n > 0 && sent < toload < TWO_64
    ensures loud == Loud(sent, n, toload)
  {
    LoudTest(sent, n, toload);
    (sent + 1) % n == 0 || sent == Wrap64(toload - 1)
  }

  /** How many of the first `s` requests ask for a reply. */
  function LoudCount(s: nat, n: nat, toload: nat): (c: nat)
    requires n > 0
    ensures c <= s
  {
    if s == 0 then 0 else LoudCount(s - 1, n, toload) + if Loud(s - 1, n, toload) then 1 else 0
  }

  lemma LoudCountGrows(s: nat, t: nat, n: nat, toload: nat)
    requires n > 0 && s <= t
    ensures LoudCount(s, n, toload) <= LoudCount(t, n, toload)
    decreases t - s
  {
    if s < t {
      LoudCountGrows(s + 1, t, n, toload);
    }
  }

  /** The sets that `r` replies acknowledge. */
  function Acks(r: nat, n: nat): nat {
    if r == 0 then 0 else Acks(r - 1, n) + n
  }

  lemma {:induction false} AcksGrow(a: nat, b: nat, n: nat)
    requires a <= b
    ensures Acks(a, n) <= Acks(b, n) && (a < b ==> Acks(a, n) + n <= Acks(b, n))
    decreases b
  {
    if a < b {
      AcksGrow(a, b - 1, n);
    }
  }

  lemma {:induction false} AcksIsProduct(r: nat, n: nat)
    ensures Acks(r, n) == r * n
    decreases r
  {
    if r > 0 {
      AcksIsProduct(r - 1, n);
      assert (r - 1) * n + n == r * n;
    }
  }

  /** With every loud request answered, only the current unfinished group is unacknowledged; at the
      end, nothing. */
  lemma {:induction false} LoudAnswered(s: nat, n: nat, toload: nat)
    requires n > 0 && s <= toload
    ensures s < toload ==> Acks(LoudCount(s, n, toload), n) + Phase(s, n) == s
    ensures s == toload ==> toload <= Acks(LoudCount(s, n, toload), n) < toload + n
    decreases s
  {
    if s > 0 {
      LoudAnswered(s - 1, n, toload);
    }
  }

  /** All loud requests: one per full group of `n`, and one for the rest. */
  function Replies(toload: nat, n: nat): nat
    requires n > 0
  {
    toload / n + if toload % n == 0 then 0 else 1
  }

  lemma LoudTotal(toload: nat, n: nat)
    requires n > 0
    ensures LoudCount(toload, n, toload) == Replies(toload, n)
  {
    LoudAnswered(toload, n, toload);
    var c := LoudCount(toload, n, toload);
    AcksIsProduct(c, n);
    var r := c * n - toload;
    if r == 0 {
      DivModIs(toload, n, c, 0);
    } else {
      assert toload == (c - 1) * n + (n - r);
      DivModIs(toload, n, c - 1, n - r);
    }
  }

  /** Acknowledged sets are sets that were sent, until the very last acknowledgement. */
  lemma Acknowledged(r: nat, s: nat, n: nat, toload: nat)
    requires n > 0 && s <= toload && r <= LoudCount(s, n, toload)
    ensures s < toload ==> Acks(r, n) <= s
    ensures r < LoudCount(toload, n, toload) ==> Acks(r, n) < toload
    ensures LoudCount(s, n, toload) <= LoudCount(toload, n, toload)
    ensures r == LoudCount(toload, n, toload) ==> s == toload
  {
    var c := LoudCount(s, n, toload);
    LoudAnswered(s, n, toload);
    AcksGrow(r, c, n);
    LoudCountGrows(s, toload, n, toload);
    LoudAnswered(toload, n, toload);
    if r < LoudCount(toload, n, toload) {
      AcksGrow(r, LoudCount(toload, n, toload), n);
    }
    assert s < toload ==> Acks(r, n) <= s;
  }

  /** With everything sent and acknowledged, the 64-bit counter says so unless rounding `toload` up to
      whole groups overflows: then the loop would wait for replies that never come. */
  lemma FinalCountIffNoOverflow(n: nat, toload: nat)
    requires 0 < n < TWO_64 && toload < TWO_64
    ensures Wrap64(Acks(Replies(toload, n), n)) >= toload <==> Acks(Replies(toload, n), n) < TWO_64
  {
    LoudTotal(toload, n);
    LoudAnswered(toload, n, toload);
    var total := Acks(Replies(toload, n), n);
    if total >= TWO_64 {
      assert Wrap64(total) == total - TWO_64 < n;
      if toload < n {
        DivModIs(toload, n, 0, toload);
        assert Acks(1, n) == Acks(0, n) + n;
      }
    }
  }

  /** The test that ends the loop: before the last reply it fails, after it it depends on the overflow. */
  lemma ExitTest(r: nat, s: nat, n: nat, toload: nat, recv: nat)
    requires 0 < n < TWO_64 && s <= toload < TWO_64 && r <= LoudCount(s, n, toload) && recv == Wrap64(Acks(r, n))
    ensures r <= LoudCount(toload, n, toload)
    ensures r < LoudCount(toload, n, toload) ==> recv == Acks(r, n) < toload
    ensures r == LoudCount(toload, n, toload) ==> s == toload && (recv >= toload <==> Acks(r, n) < TWO_64)
  {
    Acknowledged(r, s, n, toload);
    if r < LoudCount(toload, n, toload) {
      WrapShift(Acks(r, n), 0);
    } else {
      LoudTotal(toload, n);
      FinalCountIffNoOverflow(n, toload);
    }
  }

  /** A full window has a loud request in it. */
  lemma WindowFull(r: nat, s: nat, n: nat, toload: nat, batch: nat)
    requires 0 < n <= batch && s < toload < TWO_64 && r <= LoudCount(s, n, toload)
    requires Wrap64(s - Acks(r, n)) >= batch
    ensures r < LoudCount(s, n, toload)
  {
    LoudAnswered(s, n, toload);
    Acknowledged(r, s, n, toload);
    WrapShift(s - Acks(r, n), 0);
  }

  lemma OverflowExample()
    ensures Wrap64(Acks(Replies(TWO_64 - 1, 2), 2)) < TWO_64 - 1
  {
    DivModIs(TWO_64 - 1, 2, TWO_64 / 2 - 1, 1);
    AcksIsProduct(TWO_64 / 2, 2);
  }

  datatype Sent = Sent(id: nat, quiet: bool)

  /** The requests that belong on the wire: every id once, in order, loud where a reply is wanted. */
  function Requests(count: nat, start: nat, n: nat, toload: nat): (r: seq<Sent>)
    requires n > 0
    ensures |r| == count
  {
    seq(count, i requires 0 <= i < count => Sent(Wrap64(start + i), !Loud(i, n, toload)))
  }

  lemma RequestsGrow(count: nat, start: nat, n: nat, toload: nat)
    requires n > 0
    ensures Requests(count + 1, start, n, toload) ==
            Requests(count, start, n, toload) + [Sent(Wrap64(start + count), !Loud(count, n, toload))]
  {
  }

  /** The ids count up from the first one, round the end of the counter, and a request is quiet unless it closes a
      group of `n` or the load. */
  lemma RequestsAre(count: nat, start: nat, n: nat, toload: nat, i: nat)
    requires n > 0 && i < count <= TWO_64 && start < TWO_64
    ensures var r := Requests(count, start, n, toload)[i];
            && r.id == (if start + i < TWO_64 then start + i else start + i - TWO_64)
            && (r.quiet <==> (i + 1) % n != 0 && i + 1 != toload)
  {
    LoudTest(i, n, toload);
  }

  /** No id is used twice. */
  lemma IdsAreDistinct(count: nat, start: nat, n: nat, toload: nat, i: nat, j: nat)
    requires n > 0 && i < j < count < TWO_64
    ensures Requests(count, start, n, toload)[i].id != Requests(count, start, n, toload)[j].id
  {
    WrapShift(start + i, j - i);
  }

  /** How `run` ends: done, waiting for a reply, or with the exception of a division by zero. */
  datatype Outcome = Finished | Waiting | DivisionByZero

  class MemcacheLoad {
    const toload: nat
    const batch: nat
    const notify: nat
    const start: nat
    var sent: nat
    var recv: nat
    var seqid: nat
    var onwire: nat

    /** The requests written so far, and the replies that have arrived. */
    var wire: seq<Sent>
    var replies: nat

    constructor (toload: nat, startid: nat, batch: nat, notify: nat)
      requires toload < TWO_64 && startid < TWO_64 && batch < TWO_64 && notify < TWO_64
      ensures this.toload == toload && this.batch == batch && this.notify == Min(notify, batch)
      ensures start == startid && replies == 0 && sent == 0 && Valid()
    {
      this.toload, this.batch, this.notify, start := toload, batch, Min(notify, batch), startid;
      sent, recv, seqid, onwire, wire, replies := 0, 0, startid, 0, [], 0;
    }

    /** How many loud requests there are among the first `s`. */
    function LoudAmong(s: nat): nat {
      if notify == 0 then 0 else LoudCount(s, notify, toload)
    }

    /** The counters when `begun` requests have been written; inside `send_request` that is one more than
        `sent`.  The window is respected: at most `batch` sets are neither acknowledged nor unsent. */
    ghost predicate Counters(begun: nat)
      reads this
    {
      && notify <= batch < TWO_64 && (notify == 0 ==> begun == 0) && toload < TWO_64 && start < TWO_64
      && sent <= begun <= toload && begun <= sent + 1
      && replies <= LoudAmong(begun)
      && recv == Wrap64(Acks(replies, notify))
      && onwire == Wrap64(sent - Acks(replies, notify))
      && sent - Acks(replies, notify) <= batch
      && seqid == Wrap64(start + begun)
    }

    ghost predicate Valid()
      reads this
    {
      Counters(sent) && wire == if notify == 0 then [] else Requests(sent, start, notify, toload)
    }

    /** One loud reply. */
    method RecvResponse(ghost begun: nat)
      requires Counters(begun) && replies < LoudAmong(begun)
      modifies `recv, `onwire, `replies
      ensures Counters(begun) && replies == old(replies) + 1
    {
      LoudCountGrows(begun, toload, notify, toload);
      WrapShift(Acks(replies, notify), notify);
      WrapShift(sent - Acks(replies, notify), 0 - notify);
      recv := Wrap64(recv + notify);
      onwire := Wrap64(onwire - notify);
      replies := replies + 1;
    }

    /** The socket delivers up to `k` replies, but no more than were asked for. */
    method Deliver(k: nat, begun: nat)
      requires Counters(begun)
      modifies `recv, `onwire, `replies
      ensures Counters(begun)
      ensures replies == if old(replies) + k < LoudAmong(begun) then old(replies) + k else LoudAmong(begun)
    {
      var left: nat := k;
      while left > 0 && replies < LoudAmong(begun)
        invariant Counters(begun) && left <= k
        invariant replies == old(replies) + (k - left) <= LoudAmong(begun)
        decreases left
      {
        RecvResponse(begun);
        left := left - 1;
      }
    }

    /** A loud request queues a read, so replies may already arrive here. */
    method SendRequest(id: nat, quiet: bool, k: nat)
      requires Counters(sent + 1)
      modifies `recv, `onwire, `replies, `wire
      ensures Counters(sent + 1) && old(replies) <= replies
      ensures wire == old(wire) + [Sent(id, quiet)]
    {
      wire := wire + [Sent(id, quiet)];
      if !quiet {
        Deliver(k, sent + 1);
      }
    }

    /** `seqid_++`. */
    method NextId() returns (id: nat)
      requires Counters(sent) && sent < toload && onwire < batch && notify > 0
      modifies `seqid
      ensures id == Wrap64(start + sent)
      ensures Counters(sent + 1) && sent + 1 - Acks(replies, notify) <= batch
    {
      RoomForOne();
      id := seqid;
      seqid := Wrap64(seqid + 1);
    }

    /** The body of the inner loop of `run`; `k` replies reach the socket while the request is being written. */
    method SendNext(k: nat)
      requires Valid() && sent < toload && onwire < batch && notify > 0
      modifies this
      ensures Valid() && old(replies) <= replies && sent == old(sent) + 1
    {
      var loud := WantsReply(sent, notify, toload);
      var id := NextId();
      SendRequest(id, !loud, k);
      AcksGrow(old(replies), replies, notify);
      RequestsGrow(sent, start, notify, toload);
      assert wire == Requests(sent + 1, start, notify, toload);
      Count();
    }

    /** The window test is right although the counter wraps: one more set still fits in the batch. */
    lemma RoomForOne()
      requires Counters(sent) && sent < toload && onwire < batch && notify > 0
      ensures sent + 1 - Acks(replies, notify) <= batch
      ensures LoudAmong(sent) <= LoudAmong(sent + 1)
      ensures Wrap64(seqid + 1) == Wrap64(start + sent + 1)
    {
      Acknowledged(replies, sent, notify, toload);
      WrapShift(sent - Acks(replies, notify), 0);
      WrapShift(start + sent, 1);
    }

    /** `sent_++` and `onwire_++`, after the request has been written. */
    method Count()
      requires Counters(sent + 1) && sent + 1 - Acks(replies, notify) <= batch
      modifies `sent, `onwire
      ensures Counters(sent) && sent == old(sent) + 1
    {
      WrapShift(sent + 1, 0);
      WrapShift(sent - Acks(replies, notify), 1);
      sent := Wrap64(sent + 1);
      onwire := Wrap64(onwire + 1);
    }

    /** The inner loop of `run`.  With a `notify_` of zero its first request divides by zero. */
    method FillWindow(during: nat -> nat) returns (divided: bool)
      requires Valid()
      modifies this
      ensures Valid() && old(replies) <= replies
      ensures divided <==> notify == 0 && 0 < toload && 0 < batch
      ensures !divided ==> sent == toload || onwire >= batch
    {
      while sent < toload && onwire < batch
        invariant Valid() && old(replies) <= replies
        decreases toload - sent
      {
        if notify == 0 {
          return true;
        }
        SendNext(during(sent));
      }
      return false;
    }

    /** Whether the exit test can ever hold: there is a window, or nothing to load, and all acknowledgements
        together stay within 64 bits. */
    predicate CanFinish() {
      if notify == 0 then toload == 0 else Acks(LoudAmong(toload), notify) < TWO_64
    }

    /** `waits[i]` replies are ready when the `i`-th wait returns.  Running out of waits leaves the
        loader blocked, with a loud request unanswered; or for good, if it cannot finish at all. */
    method Run(during: nat -> nat, waits: seq<nat>) returns (outcome: Outcome)
      requires Valid()
      modifies this
      ensures Valid()
      ensures outcome == DivisionByZero <==> notify == 0 && 0 < toload && 0 < batch
      ensures outcome == Finished ==> sent == toload && replies == LoudAmong(toload) && CanFinish()
      ensures outcome == Waiting ==> recv < toload
      ensures outcome == Waiting ==> replies < LoudAmong(sent) || (replies == LoudAmong(toload) && !CanFinish())
      ensures (forall i :: 0 <= i < |waits| ==> waits[i] > 0) && |waits| >= LoudAmong(toload) ==>
                (outcome == Finished <==> CanFinish())
    {
      ghost var steady := forall i :: 0 <= i < |waits| ==> waits[i] > 0;
      var i := 0;
      while true
        invariant Valid() && i <= |waits|
        invariant steady ==> replies >= Min(i, LoudAmong(toload))
        decreases |waits| - i
      {
        var divided := FillWindow(during);
        if divided {
          return DivisionByZero;
        }
        NotStuck();
        if recv >= toload {
          return Finished;
        }
        if i == |waits| {
          return Waiting;
        }
        Deliver(waits[i], sent);
        i := i + 1;
      }
    }

    /** Deadlock freedom: with the window full, everything is acknowledged and `run` stops, or a loud
        request is still unanswered; unless there is no window, or the very last acknowledgement overflowed. */
    lemma NotStuck()
      requires Valid() && (sent == toload || onwire >= batch)
      requires !(notify == 0 && 0 < toload && 0 < batch)
      ensures replies <= LoudAmong(toload)
      ensures recv >= toload <==> replies == LoudAmong(toload) && CanFinish()
      ensures recv >= toload ==> sent == toload
      ensures replies < LoudAmong(toload) ==> replies < LoudAmong(sent) && recv == Acks(replies, notify)
    {
      if notify > 0 {
        ExitTest(replies, sent, notify, toload, recv);
        if replies < LoudAmong(toload) && sent < toload {
          WindowFull(replies, sent, notify, toload, batch);
        }
      }
    }
  }
}
