/**
 The asynchronous socket of client/socket_buf.cc: two byte rings and two queues of pending
 callbacks, changed in place by `rx` and `tx`.  The kernel is a list of answers, one per
 system call, with EAGAIN once the list runs out; a callback that runs is recorded in order.
 */
module Sockets {
  import opened Common
  import opened RingBuffers
  import Rx = RxFraming
  import Tx = TxStream

  datatype ReadAnswer = Bytes(bytes: seq<byte>) | ReadAgain | ReadError

  datatype WriteAnswer = Accepted(n: nat) | WriteAgain | WriteError

  datatype IoError = Ring(error: BufferError) | SystemError | TooManyBytes

  /** How a handler returned: nothing left to do, the kernel would block, or an exception. */
  datatype IoResult = Idle | Blocked | Failed(error: IoError)

  datatype RxOutcome = RxOutcome(s: Rx.RxState, result: IoResult, rest: seq<ReadAnswer>)

  datatype TxOutcome = TxOutcome(s: Tx.TxState, result: IoResult, rest: seq<WriteAnswer>)

  /** What one call of `rx` does, for an operation queue of `cap` entries and a buffer of `bufcap` bytes. */
  function RxCall(s: Rx.RxState, kernel: seq<ReadAnswer>, cap: nat, bufcap: nat): RxOutcome
    decreases |kernel|
  {
    if s.ops == [] then RxOutcome(s, Idle, kernel)
    else if |s.buf| >= bufcap then RxOutcome(s, Failed(Ring(InvalidArgument)), kernel)
    else if kernel == [] then RxOutcome(s, Blocked, [])
    else if kernel[0].ReadAgain? then RxOutcome(s, Blocked, kernel[1..])
    else if kernel[0].ReadError? || kernel[0].bytes == [] then RxOutcome(s, Failed(SystemError), kernel[1..])
    else if |s.buf| + |kernel[0].bytes| > bufcap then RxOutcome(s, Failed(TooManyBytes), kernel[1..])
    else RxCall(Rx.Arrive(s, kernel[0].bytes, cap), kernel[1..], cap, bufcap)
  }

  /** What one call of `tx` does. */
  function TxCall(s: Tx.TxState, kernel: seq<WriteAnswer>, cap: nat): (t: TxOutcome)
    requires Tx.TxInv(s, cap)
    ensures Tx.TxInv(t.s, cap)
    decreases |kernel|
  {
    if s.pending == [] then TxOutcome(s, Idle, kernel)
    else if kernel == [] then TxOutcome(s, Blocked, [])
    else if kernel[0].WriteAgain? then TxOutcome(s, Blocked, kernel[1..])
    else if kernel[0].WriteError? then TxOutcome(s, Failed(SystemError), kernel[1..])
    else if kernel[0].n > |s.pending| then TxOutcome(s, Failed(TooManyBytes), kernel[1..])
    else TxCall(Tx.AfterWrite(s, kernel[0].n, cap), kernel[1..], cap)
  }

  /** The next answer is a successful read. */
  predicate Takes(s: Rx.RxState, kernel: seq<ReadAnswer>, bufcap: nat) {
    && s.ops != [] && kernel != [] && kernel[0].Bytes?
    && 0 < |kernel[0].bytes| <= bufcap - |s.buf|
  }

  /** The successful reads from the kernel during a call of `rx`. */
  function ReadsOf(s: Rx.RxState, kernel: seq<ReadAnswer>, cap: nat, bufcap: nat): seq<Rx.RxStep>
    decreases |kernel|
  {
    if !Takes(s, kernel, bufcap) then []
    else [Rx.Received(kernel[0].bytes)] + ReadsOf(Rx.Arrive(s, kernel[0].bytes, cap), kernel[1..], cap, bufcap)
  }

  /** What one call of `rx` does, traced. */
  function RxTrace(t: Rx.Traced, kernel: seq<ReadAnswer>, cap: nat, bufcap: nat): Rx.Traced
    requires bufcap > 0 && |t.s.buf| <= t.received
    decreases |kernel|
  {
    if !Takes(t.s, kernel, bufcap) then t
    else RxTrace(Rx.TracedArrive(t, kernel[0].bytes, cap, bufcap), kernel[1..], cap, bufcap)
  }

  /** A traced call continues the traced run of the socket by its successful reads. */
  lemma {:induction false} TraceIsRun(t: Rx.Traced, steps: seq<Rx.RxStep>, kernel: seq<ReadAnswer>,
                                      cap: nat, bufcap: nat)
    requires bufcap > 0 && t == Rx.TracedReplay(steps, cap, bufcap)
    ensures RxTrace(t, kernel, cap, bufcap) ==
            Rx.TracedReplay(steps + ReadsOf(t.s, kernel, cap, bufcap), cap, bufcap)
    decreases |kernel|
  {
    if !Takes(t.s, kernel, bufcap) {
      NoRead(t.s, kernel, cap, bufcap);
      assert steps + [] == steps;
    } else {
      var read := Rx.Received(kernel[0].bytes);
      var t1 := Rx.TracedArrive(t, kernel[0].bytes, cap, bufcap);
      OneRead(t.s, kernel, cap, bufcap);
      Shift(steps, read, ReadsOf(t1.s, kernel[1..], cap, bufcap));
      Rx.OneMoreTraced(steps, read, cap, bufcap);
      TraceIsRun(t1, steps + [read], kernel[1..], cap, bufcap);
    }
  }

  lemma OneTurn(t: Rx.Traced, kernel: seq<ReadAnswer>, cap: nat, bufcap: nat)
    requires bufcap > 0 && |t.s.buf| <= t.received && Takes(t.s, kernel, bufcap)
    ensures var t1 := Rx.TracedArrive(t, kernel[0].bytes, cap, bufcap);
            && RxCall(t.s, kernel, cap, bufcap) == RxCall(t1.s, kernel[1..], cap, bufcap)
            && RxTrace(t, kernel, cap, bufcap) == RxTrace(t1, kernel[1..], cap, bufcap)
  {
  }

  lemma OneRead(s: Rx.RxState, kernel: seq<ReadAnswer>, cap: nat, bufcap: nat)
    requires Takes(s, kernel, bufcap)
    ensures var s1 := Rx.Arrive(s, kernel[0].bytes, cap);
            && RxCall(s, kernel, cap, bufcap) == RxCall(s1, kernel[1..], cap, bufcap)
            && ReadsOf(s, kernel, cap, bufcap) == [Rx.Received(kernel[0].bytes)] + ReadsOf(s1, kernel[1..], cap, bufcap)
  {
  }

  lemma NoRead(s: Rx.RxState, kernel: seq<ReadAnswer>, cap: nat, bufcap: nat)
    requires !Takes(s, kernel, bufcap)
    ensures RxCall(s, kernel, cap, bufcap).s == s && ReadsOf(s, kernel, cap, bufcap) == []
  {
  }

  /** A call of `rx` continues the run of the socket by its successful reads. */
  lemma {:induction false} ReceiveIsRun(s: Rx.RxState, steps: seq<Rx.RxStep>, kernel: seq<ReadAnswer>,
                                        cap: nat, bufcap: nat)
    requires s == Rx.Replay(steps, cap)
    ensures RxCall(s, kernel, cap, bufcap).s == Rx.Replay(steps + ReadsOf(s, kernel, cap, bufcap), cap)
    decreases |kernel|
  {
    if !Takes(s, kernel, bufcap) {
      NoRead(s, kernel, cap, bufcap);
      assert steps + [] == steps;
    } else {
      var read := Rx.Received(kernel[0].bytes);
      var s1 := Rx.Arrive(s, kernel[0].bytes, cap);
      var later := ReadsOf(s1, kernel[1..], cap, bufcap);
      OneRead(s, kernel, cap, bufcap);
      Shift(steps, read, later);
      Rx.OneMoreStep(steps, read, cap);
      ReceiveIsRun(s1, steps + [read], kernel[1..], cap, bufcap);
    }
  }

  /** Whatever the kernel answered, a call of `rx` that read anything has run exactly the callbacks that
      the reference parse owes for all bytes received since the socket was opened. */
  lemma {:induction false} ReceiveRunsWhatIsOwed(s: Rx.RxState, steps: seq<Rx.RxStep>, kernel: seq<ReadAnswer>,
                                                 cap: nat, bufcap: nat)
    requires s == Rx.Replay(steps, cap) && |s.ops| < cap && Takes(s, kernel, bufcap)
    ensures var all := steps + ReadsOf(s, kernel, cap, bufcap);
            RxCall(s, kernel, cap, bufcap).s.log == Rx.Parse(Rx.OpsOf(steps), Rx.BytesOf(all)).events
    decreases |kernel|
  {
    var data := kernel[0].bytes;
    var s1, next := Rx.Arrive(s, data, cap), steps + [Rx.Received(data)];
    var later := ReadsOf(s1, kernel[1..], cap, bufcap);
    OneRead(s, kernel, cap, bufcap);
    Shift(steps, Rx.Received(data), later);
    Rx.OneMoreStep(steps, Rx.Received(data), cap);
    if Takes(s1, kernel[1..], bufcap) {
      Rx.DrainShrinks(s.(buf := s.buf + data));
      ReceiveRunsWhatIsOwed(s1, next, kernel[1..], cap, bufcap);
    } else {
      NoRead(s1, kernel[1..], cap, bufcap);
      Rx.FramingIsFragmentationIndependent(steps, data, cap);
      assert next + [] == next;
    }
  }

  /** Once there is room and every queued read is sized, no call of `rx` runs into a full buffer. */
  lemma {:induction false} ReceiveFindsRoom(s: Rx.RxState, kernel: seq<ReadAnswer>, cap: nat, bufcap: nat)
    requires bufcap > 0 && |s.ops| < cap && Rx.AllSized(s.ops, bufcap) && Rx.HasRoom(s, bufcap)
    ensures var o := RxCall(s, kernel, cap, bufcap);
            && (o.result.Failed? ==> !o.result.error.Ring?)
            && Rx.HasRoom(o.s, bufcap) && Rx.AllSized(o.s.ops, bufcap) && |o.s.ops| <= |s.ops|
    decreases |kernel|
  {
    if Takes(s, kernel, bufcap) {
      var t := s.(buf := s.buf + kernel[0].bytes);
      OneRead(s, kernel, cap, bufcap);
      Rx.DrainMakesRoom(t, bufcap);
      Rx.DrainShrinks(t);
      ReceiveFindsRoom(Rx.Drain(t), kernel[1..], cap, bufcap);
    }
  }

  /** So with a peer that sends only what was asked for, `rx` never throws the ring's errors, whatever the
      kernel answers. */
  lemma ReceiveNeverWedges(steps: seq<Rx.RxStep>, kernel: seq<ReadAnswer>, cap: nat, bufcap: nat)
    requires bufcap > 0 && Rx.AllSized(Rx.OpsOf(steps), bufcap)
    requires Rx.Solicited(steps) && Rx.NeverFull(steps, cap)
    ensures var o := RxCall(Rx.Replay(steps, cap), kernel, cap, bufcap);
            o.result.Failed? ==> !o.result.error.Ring?
  {
    Rx.RxNeverWedges(steps, cap, bufcap);
    assert steps[..|steps|] == steps;
    ReceiveFindsRoom(Rx.Replay(steps, cap), kernel, cap, bufcap);
  }

  /** How a call of `rx` ends, told by the queue, the free space and the first answer of the kernel that is not
      a read that fits: with nothing left to read for, on EAGAIN, on an error or the end of the stream, without
      space, or on too many bytes. */
  lemma {:induction false} ReceiveEnds(s: Rx.RxState, kernel: seq<ReadAnswer>, cap: nat, bufcap: nat)
    ensures var o, k := RxCall(s, kernel, cap, bufcap), |ReadsOf(s, kernel, cap, bufcap)|;
            && k <= |kernel|
            && (o.result == Idle <==> o.s.ops == [])
            && (o.result == Failed(Ring(InvalidArgument)) <==> o.s.ops != [] && |o.s.buf| >= bufcap)
            && (o.result.Failed? && o.result.error.Ring? ==> o.result == Failed(Ring(InvalidArgument)))
            && (o.s.ops != [] && |o.s.buf| < bufcap ==>
                  && (o.result == Blocked <==> k == |kernel| || kernel[k].ReadAgain?)
                  && (o.result == Failed(SystemError) <==>
                        k < |kernel| && (kernel[k].ReadError? || kernel[k] == Bytes([])))
                  && (o.result == Failed(TooManyBytes) <==>
                        k < |kernel| && kernel[k].Bytes? && |kernel[k].bytes| > bufcap - |o.s.buf|))
            && o.rest == if o.s.ops == [] || |o.s.buf| >= bufcap then kernel[k..]
                         else if k < |kernel| then kernel[k + 1..] else []
    decreases |kernel|
  {
    if Takes(s, kernel, bufcap) {
      OneRead(s, kernel, cap, bufcap);
      ReceiveEnds(Rx.Arrive(s, kernel[0].bytes, cap), kernel[1..], cap, bufcap);
    }
  }

  /** `tx` ends: with every accepted write taking at least one byte, it makes at most one system call
      for each pending byte and one more. */
  lemma {:induction false} TransmitTerminates(s: Tx.TxState, kernel: seq<WriteAnswer>, cap: nat)
    requires Tx.TxInv(s, cap)
    requires forall a <- kernel :: a.Accepted? ==> a.n > 0
    ensures var o := TxCall(s, kernel, cap);
            && |kernel| - |o.rest| <= |s.pending| - |o.s.pending| + 1
            && (o.result == Idle ==> o.s.pending == [] && |kernel| - |o.rest| <= |s.pending|)
    decreases |kernel|
  {
    if s.pending != [] && kernel != [] && kernel[0].Accepted? && kernel[0].n <= |s.pending| {
      TransmitTerminates(Tx.AfterWrite(s, kernel[0].n, cap), kernel[1..], cap);
    }
  }

  predicate Sends(s: Tx.TxState, kernel: seq<WriteAnswer>) {
    s.pending != [] && kernel != [] && kernel[0].Accepted? && kernel[0].n <= |s.pending|
  }

  /** The successful writes during a call of `tx`. */
  function WritesOf(s: Tx.TxState, kernel: seq<WriteAnswer>, cap: nat): seq<Tx.TxStep>
    requires Tx.TxInv(s, cap)
    decreases |kernel|
  {
    if !Sends(s, kernel) then []
    else [Tx.Wrote(kernel[0].n)] + WritesOf(Tx.AfterWrite(s, kernel[0].n, cap), kernel[1..], cap)
  }

  /** How a call of `tx` ends, told by the buffer and the first answer of the kernel that is not a write. */
  lemma {:induction false} TransmitEnds(s: Tx.TxState, kernel: seq<WriteAnswer>, cap: nat)
    requires Tx.TxInv(s, cap)
    ensures var o, k := TxCall(s, kernel, cap), |WritesOf(s, kernel, cap)|;
            && k <= |kernel|
            && (o.result == Idle <==> o.s.pending == [])
            && (o.result.Failed? ==> !o.result.error.Ring?)
            && (o.s.pending != [] ==>
                  && (o.result == Blocked <==> k == |kernel| || kernel[k].WriteAgain?)
                  && (o.result == Failed(SystemError) <==> k < |kernel| && kernel[k].WriteError?)
                  && (o.result == Failed(TooManyBytes) <==>
                        k < |kernel| && kernel[k].Accepted? && kernel[k].n > |o.s.pending|))
            && o.rest == if o.s.pending == [] then kernel[k..] else if k < |kernel| then kernel[k + 1..] else []
    decreases |kernel|
  {
    if Sends(s, kernel) {
      OneWrite(s, kernel, cap);
      TransmitEnds(Tx.AfterWrite(s, kernel[0].n, cap), kernel[1..], cap);
    }
  }

  lemma BlocksNow(s: Tx.TxState, kernel: seq<WriteAnswer>, cap: nat)
    requires Tx.TxInv(s, cap) && s.pending != [] && (kernel == [] || kernel[0].WriteAgain?)
    ensures TxCall(s, kernel, cap) == TxOutcome(s, Blocked, if kernel == [] then [] else kernel[1..])
  {
  }

  lemma OneWrite(s: Tx.TxState, kernel: seq<WriteAnswer>, cap: nat)
    requires Tx.TxInv(s, cap) && Sends(s, kernel)
    ensures var s1 := Tx.AfterWrite(s, kernel[0].n, cap);
            && TxCall(s, kernel, cap) == TxCall(s1, kernel[1..], cap)
            && WritesOf(s, kernel, cap) == [Tx.Wrote(kernel[0].n)] + WritesOf(s1, kernel[1..], cap)
  {
  }

  lemma NoWrite(s: Tx.TxState, kernel: seq<WriteAnswer>, cap: nat)
    requires Tx.TxInv(s, cap) && !Sends(s, kernel)
    ensures TxCall(s, kernel, cap).s == s && WritesOf(s, kernel, cap) == []
  {
  }

  /** A call of `tx` continues the run of the socket by its successful writes. */
  lemma {:induction false} TransmitIsRun(s: Tx.TxState, steps: seq<Tx.TxStep>, kernel: seq<WriteAnswer>, cap: nat)
    requires cap > 0 && Tx.Replay(steps, cap) == Some(s)
    ensures Some(TxCall(s, kernel, cap).s) == Tx.Replay(steps + WritesOf(s, kernel, cap), cap)
    decreases |kernel|
  {
    if !Sends(s, kernel) {
      NoWrite(s, kernel, cap);
      assert steps + [] == steps;
    } else {
      var write := Tx.Wrote(kernel[0].n);
      var s1 := Tx.AfterWrite(s, kernel[0].n, cap);
      OneWrite(s, kernel, cap);
      Shift(steps, write, WritesOf(s1, kernel[1..], cap));
      WriteStep(s, steps, kernel[0].n, cap);
      TransmitIsRun(s1, steps + [write], kernel[1..], cap);
    }
  }

  lemma WriteStep(s: Tx.TxState, steps: seq<Tx.TxStep>, n: nat, cap: nat)
    requires cap > 0 && Tx.Replay(steps, cap) == Some(s) && n <= |s.pending|
    ensures Tx.Replay(steps + [Tx.Wrote(n)], cap) == Some(Tx.AfterWrite(s, n, cap))
  {
    Tx.OneMoreStep(steps, Tx.Wrote(n), cap);
  }

  lemma SameFrom<T>(a: seq<T>, b: seq<T>, i: nat)
    requires i < |a| == |b| && a[i..] == b[i..]
    ensures a[i] == b[i..][0] && a[i + 1..] == b[i..][1..] == b[i + 1..]
  {
    assert a[i] == a[i..][0];
    assert a[i + 1..] == a[i..][1..];
  }

  lemma Replaced<T>(a: seq<T>, i: nat, x: T)
    requires i < |a|
    ensures a[i := x][i..] == [x] + a[i + 1..] && a[i := x][i + 1..] == a[i + 1..]
  {
  }

  /** The receiving fields of the socket. */
  class Receiver {
    const ops: RingBuffer<Rx.IORx>
    const rbuf: RingBuffer<byte>
    var ready: bool

    /** The callbacks that ran, in order, how the headers they were given were cut by the end of the ring,
        and the number of bytes used up. */
    var log: seq<Rx.Event>
    var cuts: seq<nat>
    var taken: nat

    ghost predicate Valid()
      reads this, ops, rbuf
    {
      ops.Valid() && rbuf.Valid() && rbuf.head == taken % rbuf.buf.Length
    }

    ghost function Model(): Rx.RxState
      requires Valid()
      reads this, ops, ops.buf, rbuf, rbuf.buf
    {
      Rx.RxState(ops.Contents(), rbuf.Contents(), log)
    }

    constructor (cbcap: nat, bufcap: nat)
      requires cbcap > 0 && bufcap > 0
      ensures Valid() && fresh(Footprint())
      ensures ops.buf.Length == cbcap && rbuf.buf.Length == bufcap
      ensures Model() == Rx.RxState([], [], []) && !ready && taken == 0 && cuts == []
    {
      ops := new RingBuffer<Rx.IORx>(cbcap);
      rbuf := new RingBuffer<byte>(bufcap);
      ready, log, cuts, taken := false, [], [], 0;
    }

    ghost function Footprint(): set<object> {
      {this, ops, ops.buf, rbuf, rbuf.buf}
    }

    /** How the header of `op` is cut, if its callback runs now. */
    ghost function CutNow(op: Rx.IORx): seq<nat>
      requires Valid()
      reads this, ops, rbuf, rbuf.buf
    {
      Rx.HeaderCut(op, rbuf.Contents(), taken, rbuf.buf.Length)
    }

    /** What serving the operation at `i` did, from the queue and buffer it started with. */
    twostate predicate ServedAt(i: nat, v: Rx.Served, cut: seq<nat>)
      requires old(Valid()) && Valid() && i < old(ops.used)
      reads this, ops, ops.buf, rbuf, rbuf.buf
    {
      && ops.Contents() == old(ops.Contents())[i := v.op]
      && rbuf.Contents() == v.buf
      && log == old(log) + v.events
      && cuts == old(cuts) + cut
      && taken == old(taken) + Rx.Used(old(rbuf.Contents()), v.buf)
    }

    /** An operation without callback uses up the whole buffer, and waits for `op`. */
    method Skip(slot: nat, ghost i: nat, op: Rx.IORx)
      requires Valid() && i < ops.used && slot == ops.SlotAt(i)
      modifies `taken, ops.buf, rbuf
      ensures Valid() && ServedAt(i, Rx.Served(op, [], [], true), [])
    {
      ops.Update(slot, op, i);
      UseUp(rbuf.Items());
    }

    /** Drops the front `len` bytes. */
    method UseUp(len: nat)
      requires Valid() && len <= rbuf.used
      modifies `taken, rbuf
      ensures Valid() && rbuf.Contents() == old(rbuf.Contents())[len..] && taken == old(taken) + len
    {
      WrapIsMod(taken, len, rbuf.buf.Length);
      var d := rbuf.Drop(len);
      taken := taken + len;
    }

    /** The front `len` bytes are used up, and `op` is stored back. */
    method Finish(slot: nat, ghost i: nat, op: Rx.IORx, len: nat)
      requires Valid() && i < ops.used && slot == ops.SlotAt(i) && 0 < len <= rbuf.used
      modifies `taken, ops.buf, rbuf
      ensures Valid() && ServedAt(i, Rx.Served(op, old(rbuf.Contents())[len..], [], false), [])
    {
      UseUp(len);
      ops.Update(slot, op, i);
    }

    /** The front `len` bytes, as a callback gets them, and how many of them are in the first part. */
    method Front(len: nat) returns (data: seq<byte>, n: nat)
      requires Valid() && 0 < len <= rbuf.used
      ensures data == rbuf.Contents()[..len]
      ensures n == Min(len, rbuf.buf.Length - taken % rbuf.buf.Length)
    {
      var segs := rbuf.Peek(len);
      data := SegmentData(rbuf.buf[..], segs.value, len);
      n := segs.value.n;
    }

    /** The header half of the loop body of `rx`. */
    method ServeHeaderAt(slot: nat, ghost i: nat) returns (stuck: bool)
      requires Valid() && i < ops.used && slot == ops.SlotAt(i)
      modifies `log, `cuts, `taken, ops.buf, rbuf
      ensures Valid()
      ensures var h := Rx.ServeHeader(old(ops.Contents()[i]), old(rbuf.Contents()));
              && stuck == h.stuck
              && ServedAt(i, h, old(CutNow(ops.Contents()[i])))
    {
      var op := ops.buf[slot];
      assert op == ops.Contents()[i];
      if op.hdrlen > 0 {
        if rbuf.Items() < op.hdrlen {
          if op.hdrcb.None? {
            Skip(slot, i, op.(hdrlen := op.hdrlen - rbuf.Items()));
          }
          return true;
        }
        var len := op.hdrlen;
        if op.hdrcb.Some? {
          var hdr, n := Front(len);
          log := log + [Rx.Header(op.cbdata, hdr)];
          cuts := cuts + [n];
          op := op.(bodylen := op.hdrcb.value(hdr));
        }
        Finish(slot, i, op.(hdrlen := 0), len);
      }
      return false;
    }

    /** The body half. */
    method ServeBodyAt(slot: nat, ghost i: nat) returns (stuck: bool)
      requires Valid() && i < ops.used && slot == ops.SlotAt(i)
      modifies `log, `taken, ops.buf, rbuf
      ensures Valid()
      ensures var b := Rx.ServeBody(old(ops.Contents()[i]), old(rbuf.Contents()));
              stuck == b.stuck && ServedAt(i, b, [])
    {
      var op := ops.buf[slot];
      assert op == ops.Contents()[i];
      if op.bodylen > 0 {
        if rbuf.Items() < op.bodylen {
          if !op.bodycb {
            Skip(slot, i, op.(bodylen := op.bodylen - rbuf.Items()));
          }
          return true;
        }
        var len := op.bodylen;
        if op.bodycb {
          var body, n := Front(len);
          log := log + [Rx.Body(op.cbdata, body)];
        }
        Finish(slot, i, op.(bodylen := 0), len);
      }
      return false;
    }

    method ServeAt(slot: nat, ghost i: nat) returns (stuck: bool)
      requires Valid() && i < ops.used && slot == ops.SlotAt(i)
      modifies `log, `cuts, `taken, ops.buf, rbuf
      ensures Valid()
      ensures var v := Rx.Serve(old(ops.Contents()[i]), old(rbuf.Contents()));
              && stuck == v.stuck
              && ServedAt(i, v, old(CutNow(ops.Contents()[i])))
    {
      stuck := ServeHeaderAt(slot, i);
      if !stuck {
        stuck := ServeBodyAt(slot, i);
      }
    }

    /** The first `i` operations of `ops0` are done, and finishing the pass will lead to `goal`. */
    ghost predicate Passed(goal: Rx.Traced, ops0: seq<Rx.IORx>, i: nat)
      requires Valid()
      reads this, ops, ops.buf, rbuf, rbuf.buf
    {
      && ops.used == |ops0| && i <= ops.used
      && ops.Contents()[i..] == ops0[i..]
      && goal == Rx.TracedDrain(Rx.RxState(ops0[i..], rbuf.Contents(), log), cuts, taken, rbuf.buf.Length)
    }

    /** The pass is over, but the done operations are still queued. */
    ghost predicate Over(goal: Rx.Traced, i: nat)
      requires Valid()
      reads this, ops, ops.buf, rbuf, rbuf.buf
    {
      && i <= ops.used
      && goal == Rx.Traced(Rx.RxState(ops.Contents()[i..], rbuf.Contents(), log), cuts, taken + rbuf.used)
    }

    /** The loop body of `rx`: one operation. */
    method ServeNext(slot: nat, ghost i: nat, ghost goal: Rx.Traced, ghost ops0: seq<Rx.IORx>) returns (stuck: bool)
      requires Valid() && Passed(goal, ops0, i) && i < ops.used && slot == ops.SlotAt(i)
      modifies `log, `cuts, `taken, ops.buf, rbuf
      ensures Valid()
      ensures if stuck then Over(goal, i) else Passed(goal, ops0, i + 1)
    {
      ghost var contents, rest, buf := ops.Contents(), ops0[i..], rbuf.Contents();
      SameFrom(contents, ops0, i);
      ghost var s, v, cut := Rx.RxState(rest, buf, log), Rx.Serve(rest[0], buf), CutNow(rest[0]);
      Rx.TraceStep(s, v, cut, cuts, taken, rbuf.buf.Length);
      stuck := ServeAt(slot, i);
      Replaced(contents, i, v.op);
    }

    /** The `for` loop of `rx`; a full queue is not iterated. */
    method ServeLoop(ghost goal: Rx.Traced) returns (drop: nat, ghost stuck: bool)
      requires Valid() && goal == Rx.TracedDrain(Model(), cuts, taken, rbuf.buf.Length)
      modifies `log, `cuts, `taken, ops.buf, rbuf
      ensures Valid() && drop <= ops.used
      ensures if ops.used == ops.buf.Length then drop == 0 && Now() == old(Now())
              else if stuck then Over(goal, drop)
              else Passed(goal, old(ops.Contents()), drop) && drop == ops.used
    {
      ghost var ops0 := ops.Contents();
      assert ops0[0..] == ops0;
      drop, stuck := 0, false;
      var it := ops.Begin();
      while it != ops.End()
        invariant Valid()
        invariant drop <= ops.used && it == At(ops.head, ops.used, drop, ops.buf.Length)
        invariant drop > 0 ==> ops.used < ops.buf.Length
        invariant drop == 0 ==> Now() == old(Now())
        invariant Passed(goal, ops0, drop)
        decreases ops.used - drop
      {
        NotAtEnd(ops.head, ops.used, drop, ops.buf.Length);
        var s := ServeNext(it.ptr, drop, goal, ops0);
        if s {
          return drop, true;
        }
        it := it.Next();
        drop := drop + 1;
      }
    }

    /** The state as it is. */
    ghost function Now(): Rx.Traced
      requires Valid()
      reads this, ops, ops.buf, rbuf, rbuf.buf
    {
      Rx.Traced(Model(), cuts, taken + rbuf.used)
    }

    /** One pass over the queue: the loop and the drop after it. */
    method ServeQueue()
      requires Valid()
      modifies `log, `cuts, `taken, ops, ops.buf, rbuf
      ensures Valid()
      ensures Now() == if old(ops.used) < ops.buf.Length
                       then Rx.TracedDrain(old(Model()), old(cuts), old(taken), rbuf.buf.Length)
                       else old(Now())
    {
      ghost var goal, ops0 := Rx.TracedDrain(Model(), cuts, taken, rbuf.buf.Length), ops.Contents();
      var drop, stuck := ServeLoop(goal);
      DropDone(drop, stuck, goal, ops0);
    }

    /** Drops the operations that a pass finished. */
    method DropDone(drop: nat, ghost stuck: bool, ghost goal: Rx.Traced, ghost ops0: seq<Rx.IORx>)
      requires Valid() && drop <= ops.used
      requires if ops.used == ops.buf.Length then drop == 0
               else if stuck then Over(goal, drop)
               else Passed(goal, ops0, drop) && drop == ops.used
      modifies ops
      ensures Valid()
      ensures Now() == if old(ops.used) < ops.buf.Length then goal else old(Now())
    {
      if drop == ops.used {
        Rx.TraceOfNothing(Rx.RxState([], rbuf.Contents(), log), cuts, taken, rbuf.buf.Length);
      }
      var d := ops.Drop(drop);
    }

    /** Reads from the kernel and serves the queue until the kernel would block. */
    method Receive(kernel: seq<ReadAnswer>) returns (result: IoResult, rest: seq<ReadAnswer>)
      requires Valid()
      modifies this, ops, ops.buf, rbuf, rbuf.buf
      ensures Valid()
      ensures RxOutcome(Model(), result, rest) == RxCall(old(Model()), kernel, ops.buf.Length, rbuf.buf.Length)
      ensures Now() == RxTrace(old(Now()), kernel, ops.buf.Length, rbuf.buf.Length)
      ensures ready == (old(ready) && result != Blocked)
    {
      ghost var goal := RxCall(Model(), kernel, ops.buf.Length, rbuf.buf.Length);
      ghost var trace := RxTrace(Now(), kernel, ops.buf.Length, rbuf.buf.Length);
      rest := kernel;
      while true
        invariant Valid() && ready == old(ready)
        invariant Toward(goal, trace, rest)
        decreases |rest|
      {
        if ops.Items() == 0 {
          return Idle, rest;
        }
        var n := rbuf.Space();
        var prep := rbuf.QueuePrep(n);
        if prep.Failure? {
          return Failed(Ring(prep.error)), rest;
        }
        if rest == [] || rest[0].ReadAgain? {
          ready := false;
          return Blocked, if rest == [] then [] else rest[1..];
        } else if rest[0].ReadError? || rest[0].bytes == [] {
          return Failed(SystemError), rest[1..];
        } else if |rest[0].bytes| > n {
          return Failed(TooManyBytes), rest[1..];
        }
        ServeBytes(prep.value, rest[0].bytes, rest, goal, trace);
        rest := rest[1..];
      }
    }

    /** The rest of the call leads to these results. */
    ghost predicate Toward(goal: RxOutcome, trace: Rx.Traced, kernel: seq<ReadAnswer>)
      requires Valid()
      reads this, ops, ops.buf, rbuf, rbuf.buf
    {
      && goal == RxCall(Model(), kernel, ops.buf.Length, rbuf.buf.Length)
      && trace == RxTrace(Now(), kernel, ops.buf.Length, rbuf.buf.Length)
    }

    /** One successful read: the bytes are queued, and the operations are served. */
    method ServeBytes(segs: Segments, bytes: seq<byte>,
                      ghost kernel: seq<ReadAnswer>, ghost goal: RxOutcome, ghost trace: Rx.Traced)
      requires Valid() && Toward(goal, trace, kernel) && Takes(Model(), kernel, rbuf.buf.Length)
      requires bytes == kernel[0].bytes
      requires IsNextFree(segs, rbuf.Space(), rbuf.head, rbuf.used, rbuf.buf.Length)
      modifies `log, `cuts, `taken, ops, ops.buf, rbuf, rbuf.buf
      ensures Valid() && Toward(goal, trace, kernel[1..])
    {
      OneTurn(Now(), kernel, ops.buf.Length, rbuf.buf.Length);
      Commit(segs, bytes);
      ServeQueue();
    }

    /** The kernel fills the first bytes of the prepared segments, and they are queued. */
    method Commit(segs: Segments, bytes: seq<byte>)
      requires Valid() && 0 < |bytes| <= rbuf.Space()
      requires IsNextFree(segs, rbuf.Space(), rbuf.head, rbuf.used, rbuf.buf.Length)
      modifies rbuf, rbuf.buf
      ensures Valid()
      ensures rbuf.Contents() == old(rbuf.Contents()) + bytes
    {
      ClipIsNextFree(segs, rbuf.Space(), rbuf.head, rbuf.used, rbuf.buf.Length, |bytes|);
      rbuf.Fill(Clip(segs, |bytes|), bytes);
      var c := rbuf.QueueCommit(|bytes|);
    }

    /** `read`: queue an operation, and receive if the socket is known to be readable. */
    method Read(op: Rx.IORx, kernel: seq<ReadAnswer>) returns (result: IoResult, rest: seq<ReadAnswer>)
      requires Valid()
      modifies this, ops, ops.buf, rbuf, rbuf.buf
      ensures Valid()
      ensures if old(ops.used) == ops.buf.Length then
                result == Failed(Ring(NoSpace)) && rest == kernel && Model() == old(Model()) && ready == old(ready)
              else if !old(ready) then
                result == Idle && rest == kernel && Model() == Rx.Enqueue(old(Model()), op) && !ready
              else
                && RxOutcome(Model(), result, rest) ==
                   RxCall(Rx.Enqueue(old(Model()), op), kernel, ops.buf.Length, rbuf.buf.Length)
                && ready == (result != Blocked)
    {
      var q := ops.QueueEmplace(op);
      if q.Failure? {
        return Failed(Ring(q.error)), kernel;
      }
      if ready {
        result, rest := Receive(kernel);
      } else {
        result, rest := Idle, kernel;
      }
    }
  }

  /** The transmitting fields of the socket. */
  class Transmitter {
    const cbs: RingBuffer<Tx.IOTx>
    const wbuf: RingBuffer<byte>
    var out: nat
    var ready: bool

    /** The callbacks that ran, in order, and the bytes the kernel took. */
    var log: seq<Tx.Fired>
    var sent: seq<byte>

    ghost predicate Valid()
      reads this, cbs, cbs.buf, wbuf, wbuf.buf
    {
      cbs.Valid() && wbuf.Valid() && Tx.TxInv(Model(), cbs.buf.Length) && Placed()
    }

    /** The tail of the ring is the length of the whole stream, modulo the capacity. */
    ghost predicate Placed()
      requires wbuf.Valid()
      reads this, wbuf
    {
      wbuf.tail == Around(|sent| + wbuf.used, wbuf.buf.Length)
    }

    ghost function Model(): Tx.TxState
      requires cbs.Valid() && wbuf.Valid()
      reads this, cbs, cbs.buf, wbuf, wbuf.buf
    {
      Tx.TxState(sent, wbuf.Contents(), cbs.Contents(), out, log)
    }

    constructor (cbcap: nat, bufcap: nat)
      requires cbcap > 0 && bufcap > 0
      ensures Valid() && fresh(Footprint())
      ensures cbs.buf.Length == cbcap && wbuf.buf.Length == bufcap
      ensures Model() == Tx.TxState([], [], [], 0, []) && !ready
    {
      cbs := new RingBuffer<Tx.IOTx>(cbcap);
      wbuf := new RingBuffer<byte>(bufcap);
      out, ready, log, sent := 0, false, [], [];
    }

    ghost function Footprint(): set<object> {
      {this, cbs, cbs.buf, wbuf, wbuf.buf}
    }

    method WritePrepare(len: nat) returns (r: Result<Segments, BufferError>)
      requires Valid()
      ensures r.Failure? <==> len == 0 || len > wbuf.Space()
      ensures r.Failure? ==> r.error == if len == 0 then InvalidArgument else NoSpace
      ensures r.Success? ==> IsNextFree(r.value, len, wbuf.head, wbuf.used, wbuf.buf.Length)
      ensures r.Success? ==> r.value.n == Min(len, wbuf.Run())
    {
      r := wbuf.QueuePrep(len);
    }

    /** Commits whatever the prepared bytes hold. */
    method WriteCommit(len: nat) returns (r: Result<(), BufferError>)
      requires Valid()
      modifies wbuf
      ensures Valid()
      ensures r.Failure? <==> len == 0 || len > old(wbuf.Space())
      ensures r.Failure? ==> Model() == old(Model()) && r.error == if len == 0 then InvalidArgument else NoSpace
      ensures r.Failure? ==> wbuf.tail == old(wbuf.tail)
      ensures r.Success? ==> Model() == Tx.Apply(old(Model()), Tx.Commit(old(wbuf.Free())[..len]), cbs.buf.Length)
      ensures r.Success? ==> wbuf.tail == Wrap(old(wbuf.tail) + len, wbuf.buf.Length)
    {
      if len <= wbuf.buf.Length {
        WrapIsAround(|sent| + wbuf.used, len, wbuf.buf.Length);
      }
      r := wbuf.QueueCommit(len);
    }

    /** `write`: the bytes go to the end of the stream wherever the ring wraps. */
    method Write(data: seq<byte>) returns (r: Result<(), BufferError>)
      requires Valid()
      modifies wbuf, wbuf.buf
      ensures Valid()
      ensures r.Failure? <==> data == [] || |data| > old(wbuf.Space())
      ensures r.Failure? ==> Model() == old(Model()) && r.error == if data == [] then InvalidArgument else NoSpace
      ensures r.Failure? ==> wbuf.tail == old(wbuf.tail)
      ensures r.Success? ==> Model() == Tx.Apply(old(Model()), Tx.Commit(data), cbs.buf.Length)
      ensures r.Success? ==> wbuf.tail == Wrap(old(wbuf.tail) + |data|, wbuf.buf.Length)
    {
      var prep := WritePrepare(|data|);
      if prep.Failure? {
        return Failure(prep.error);
      }
      wbuf.Fill(prep.value, data);
      r := WriteCommit(|data|);
    }

    /** `write_emplace`.  Of an object that straddles the end of the ring, only the part in front of the
        end is copied; the rest is read from behind the object, and `junk` is whatever lies there. */
    method WriteEmplace(data: seq<byte>, junk: nat -> byte) returns (r: Result<(), BufferError>)
      requires Valid()
      modifies wbuf, wbuf.buf
      ensures Valid()
      ensures r.Failure? <==> data == [] || |data| > old(wbuf.Space())
      ensures r.Failure? ==> Model() == old(Model()) && wbuf.tail == old(wbuf.tail)
      ensures r.Failure? ==> r.error == if data == [] then InvalidArgument else NoSpace
      ensures r.Success? ==>
                && Model() == Tx.Apply(old(Model()), Tx.Commit(Garbled(data, old(wbuf.Run()), junk)), cbs.buf.Length)
                && wbuf.tail == Wrap(old(wbuf.tail) + |data|, wbuf.buf.Length)
    {
      var prep := WritePrepare(|data|);
      if prep.Failure? {
        return Failure(prep.error);
      }
      var n := prep.value.n;
      wbuf.Fill(prep.value, if prep.value.second.None? then data else Garbled(data, n, junk));
      r := WriteCommit(|data|);
    }

    method WriteCbPoint(cbdata: nat) returns (r: Result<(), BufferError>)
      requires Valid()
      modifies `out, cbs, cbs.buf
      ensures Valid()
      ensures r.Failure? <==> old(cbs.used) == cbs.buf.Length
      ensures r.Failure? ==> Model() == old(Model()) && r.error == NoSpace
      ensures r.Success? ==> Model() == Tx.AddPoint(old(Model()), cbdata, cbs.buf.Length)
    {
      var len := wbuf.Items();
      if cbs.Items() == cbs.buf.Length {
        return Failure(NoSpace);
      }
      var q;
      if cbs.Items() == 0 {
        q := cbs.QueueEmplace(Tx.IOTx(len, cbdata));
      } else {
        q := cbs.QueueEmplace(Tx.IOTx(len - out, cbdata));
      }
      out := len;
      r := Success(());
      assert Model() == Tx.AddPoint(old(Model()), cbdata, cbs.buf.Length);
    }

    /** The first `drop` of the callbacks `cbs0` ran, and the rest of the loop leads to `goal`. */
    ghost predicate Running(goal: Tx.Retired, cbs0: seq<Tx.IOTx>, drop: nat, left: nat)
      requires cbs.Valid()
      reads this, cbs, cbs.buf
    {
      cbs.Contents() == cbs0 && Tx.Retiring(goal, cbs0, drop, left, out)
    }

    /** These callbacks are the ones that ran since the log was `log0`. */
    ghost predicate Logged(log0: seq<Tx.Fired>, ran: seq<Tx.IOTx>, before: nat, after: nat)
      reads this
    {
      log == log0 + Tx.Tagged(ran, before, after)
    }

    /** The loop body of `tx`: run one callback, or shorten it and stop. */
    method RunNext(slot: nat, drop: nat, left: nat, n: nat, before: nat,
                   ghost goal: Tx.Retired, ghost cbs0: seq<Tx.IOTx>, ghost log0: seq<Tx.Fired>)
      returns (stop: bool, rest: nat)
      requires cbs.Valid() && Running(goal, cbs0, drop, left) && drop < cbs.used && slot == cbs.SlotAt(drop)
      requires Logged(log0, cbs0[..drop], before, before + n)
      modifies `out, `log, cbs.buf
      ensures cbs.Valid()
      ensures stop ==> goal == Tx.Retired(drop, cbs.Contents()[drop..], out) && log == old(log)
      ensures !stop ==> Running(goal, cbs0, drop + 1, rest) && Logged(log0, cbs0[..drop + 1], before, before + n)
    {
      var cb := cbs.buf[slot];
      assert cb == cbs0[drop];
      Tx.RetiringStep(goal, cbs0, drop, left, out);
      if cb.len > left {
        cbs.Update(slot, cb.(len := cb.len - left), drop);
        out := out - left;
        assert cbs.Contents()[drop..] == [cb.(len := cb.len - left)] + cbs0[drop + 1..];
        return true, left;
      }
      Tx.TaggedGrows(cbs0, drop, before, before + n);
      log := log + [Tx.Fired(cb.cbdata, before, before + n)];
      out := out - cb.len;
      return false, left - cb.len;
    }

    /** The iterator stands at the callback behind the `drop` that ran; a full queue is not entered. */
    ghost predicate Standing(it: BufferIterator, drop: nat)
      requires cbs.Valid()
      reads this, cbs
    {
      && drop <= cbs.used && it == At(cbs.head, cbs.used, drop, cbs.buf.Length)
      && (drop > 0 ==> cbs.used < cbs.buf.Length)
    }

    /** The loop body with `++`. */
    method RunAt(it: BufferIterator, drop: nat, left: nat, n: nat, before: nat,
                 ghost goal: Tx.Retired, ghost cbs0: seq<Tx.IOTx>, ghost log0: seq<Tx.Fired>)
      returns (stop: bool, rest: nat, next: BufferIterator)
      requires cbs.Valid() && Running(goal, cbs0, drop, left) && Standing(it, drop) && it != cbs.End()
      requires Logged(log0, cbs0[..drop], before, before + n)
      modifies `out, `log, cbs.buf
      ensures cbs.Valid() && drop < cbs.used < cbs.buf.Length
      ensures stop ==> goal == Tx.Retired(drop, cbs.Contents()[drop..], out) && log == old(log)
      ensures !stop ==> Running(goal, cbs0, drop + 1, rest) && Standing(next, drop + 1)
      ensures !stop ==> Logged(log0, cbs0[..drop + 1], before, before + n)
    {
      NotAtEnd(cbs.head, cbs.used, drop, cbs.buf.Length);
      stop, rest := RunNext(it.ptr, drop, left, n, before, goal, cbs0, log0);
      next := it.Next();
    }

    /** The loop over the callback queue after `n` bytes were written. */
    method RunLoop(n: nat, before: nat, ghost goal: Tx.Retired) returns (drop: nat)
      requires cbs.Valid() && Running(goal, cbs.Contents(), 0, n)
      modifies `out, `log, cbs.buf
      ensures cbs.Valid() && drop <= cbs.used
      ensures if cbs.used < cbs.buf.Length then goal == Tx.Retired(drop, cbs.Contents()[drop..], out)
              else drop == 0 && cbs.Contents() == old(cbs.Contents()) && out == old(out)
      ensures Logged(old(log), old(cbs.Contents())[..drop], before, before + n)
    {
      ghost var cbs0, log0 := cbs.Contents(), log;
      var left: nat := n;
      drop := 0;
      var it := cbs.Begin();
      while it != cbs.End()
        invariant cbs.Valid() && Running(goal, cbs0, drop, left) && Standing(it, drop)
        invariant drop == 0 ==> out == old(out)
        invariant Logged(log0, cbs0[..drop], before, before + n)
        decreases cbs.used - drop
      {
        var stop, rest, next := RunAt(it, drop, left, n, before, goal, cbs0, log0);
        if stop {
          return;
        }
        it, left, drop := next, rest, drop + 1;
      }
      Tx.RetiringStep(goal, cbs0, drop, left, out);
    }

    /** The loop runs the callbacks that the written bytes reach, unless the queue is full. */
    method RunCallbacks(n: nat, before: nat) returns (drop: nat)
      requires cbs.Valid() && Tx.Sum(cbs.Contents()) <= out
      modifies `out, `log, cbs.buf
      ensures cbs.Valid() && drop <= cbs.used
      ensures Tx.Retired(drop, cbs.Contents()[drop..], out) ==
              Tx.RetireQueue(old(cbs.Contents()), n, old(out), cbs.buf.Length)
      ensures log == old(log) + Tx.Tagged(old(cbs.Contents())[..drop], before, before + n)
    {
      ghost var cbs0 := cbs.Contents();
      assert cbs0[0..] == cbs0;
      drop := RunLoop(n, before, Tx.Retire(cbs0, n, out));
      ghost var cbs1 := cbs.Contents();
      assert drop == 0 ==> cbs1[drop..] == cbs1;
    }

    /** The loop and the drop after it. */
    method Retire(n: nat, before: nat, ghost points: seq<Tx.IOTx>, ghost r: Tx.Retired)
      requires cbs.Valid() && points == cbs.Contents() && Tx.Sum(points) <= out
      requires r == Tx.RetireQueue(points, n, out, cbs.buf.Length)
      modifies `out, `log, cbs, cbs.buf
      ensures cbs.Valid() && cbs.Contents() == r.rest && out == r.out
      ensures log == old(log) + Tx.Tagged(points[..r.count], before, before + n)
    {
      var drop := RunCallbacks(n, before);
      var e := cbs.Drop(drop);
    }

    /** One successful write: the kernel took `taken` from the front of the buffer. */
    method Wrote(taken: seq<byte>)
      requires Valid() && |taken| <= wbuf.used && taken == wbuf.Contents()[..|taken|]
      modifies this, cbs, cbs.buf, wbuf
      ensures Valid() && ready == old(ready)
      ensures Model() == Tx.AfterWrite(old(Model()), |taken|, cbs.buf.Length)
    {
      ghost var s := Model();
      ghost var r := Tx.RetireQueue(s.cbs, |taken|, s.out, cbs.buf.Length);
      Advance(taken, s, r);
      Tx.AfterWriteIs(s, |taken|, cbs.buf.Length, r, Model());
    }

    method Advance(taken: seq<byte>, ghost s: Tx.TxState, ghost r: Tx.Retired)
      requires cbs.Valid() && wbuf.Valid() && Placed() && s == Model() && Tx.Sum(s.cbs) <= s.out
      requires |taken| <= wbuf.used && taken == s.pending[..|taken|]
      requires r == Tx.RetireQueue(s.cbs, |taken|, s.out, cbs.buf.Length)
      modifies `sent, `out, `log, cbs, cbs.buf, wbuf
      ensures cbs.Valid() && wbuf.Valid() && Placed()
      ensures sent == s.sent + s.pending[..|taken|] && wbuf.Contents() == s.pending[|taken|..]
      ensures cbs.Contents() == r.rest && out == r.out
      ensures log == s.fired + Tx.Tagged(s.cbs[..r.count], |s.sent|, |s.sent| + |taken|)
    {
      var before := |sent|;
      Take(taken);
      assert cbs.Contents() == s.cbs;
      Retire(|taken|, before, s.cbs, r);
    }

    method Take(taken: seq<byte>)
      requires cbs.Valid() && wbuf.Valid() && Placed()
      requires |taken| <= wbuf.used && taken == wbuf.Contents()[..|taken|]
      modifies `sent, wbuf
      ensures cbs.Valid() && wbuf.Valid() && Placed()
      ensures wbuf.Contents() == old(wbuf.Contents())[|taken|..] && cbs.Contents() == old(cbs.Contents())
      ensures sent == old(sent) + old(wbuf.Contents())[..|taken|]
    {
      var d := wbuf.Drop(|taken|);
      sent := sent + taken;
    }

    /** The front of the buffer, as the kernel gets it. */
    method Unsent(n: nat) returns (data: seq<byte>)
      requires Valid() && 0 < n <= wbuf.used
      ensures data == wbuf.Contents()[..n]
    {
      var segs := wbuf.Peek(n);
      data := SegmentData(wbuf.buf[..], segs.value, n);
    }

    /** `tx`: writes to the kernel until nothing is pending or the kernel would block. */
    method Transmit(kernel: seq<WriteAnswer>) returns (result: IoResult, rest: seq<WriteAnswer>)
      requires Valid()
      modifies this, cbs, cbs.buf, wbuf
      ensures Valid()
      ensures TxOutcome(Model(), result, rest) == TxCall(old(Model()), kernel, cbs.buf.Length)
      ensures ready == (old(ready) && result != Blocked)
    {
      ghost var goal := TxCall(Model(), kernel, cbs.buf.Length);
      rest := kernel;
      while true
        invariant Valid() && ready == old(ready)
        invariant goal == TxCall(Model(), rest, cbs.buf.Length)
        decreases |rest|
      {
        var n := wbuf.Items();
        if n == 0 {
          return Idle, rest;
        }
        var data := Unsent(n);
        if rest == [] || rest[0].WriteAgain? {
          BlocksNow(Model(), rest, cbs.buf.Length);
          ready := false;
          return Blocked, if rest == [] then [] else rest[1..];
        } else if rest[0].WriteError? {
          return Failed(SystemError), rest[1..];
        } else if rest[0].n > n {
          return Failed(TooManyBytes), rest[1..];
        }
        WroteNext(data[..rest[0].n], rest, goal);
        rest := rest[1..];
      }
    }

    /** One successful write on the way to `goal`. */
    method WroteNext(taken: seq<byte>, ghost kernel: seq<WriteAnswer>, ghost goal: TxOutcome)
      requires Valid() && |taken| <= wbuf.used && taken == wbuf.Contents()[..|taken|]
      requires Sends(Model(), kernel) && kernel[0].n == |taken| && goal == TxCall(Model(), kernel, cbs.buf.Length)
      modifies this, cbs, cbs.buf, wbuf
      ensures Valid() && ready == old(ready)
      ensures goal == TxCall(Model(), kernel[1..], cbs.buf.Length)
    {
      OneWrite(Model(), kernel, cbs.buf.Length);
      Wrote(taken);
    }

    method TryTx(kernel: seq<WriteAnswer>) returns (result: IoResult, rest: seq<WriteAnswer>)
      requires Valid()
      modifies this, cbs, cbs.buf, wbuf
      ensures Valid()
      ensures if old(ready) then
                && TxOutcome(Model(), result, rest) == TxCall(old(Model()), kernel, cbs.buf.Length)
                && ready == (result != Blocked)
              else result == Idle && rest == kernel && Model() == old(Model()) && !ready
    {
      if ready {
        result, rest := Transmit(kernel);
      } else {
        result, rest := Idle, kernel;
      }
    }
  }

  /** Both halves of a connection.  They share no state, so each is left alone by the other's work. */
  class Sock {
    const rx: Receiver
    const tx: Transmitter
    var connected: bool

    ghost predicate Valid()
      reads this, rx, rx.ops, rx.rbuf, tx, tx.cbs, tx.cbs.buf, tx.wbuf, tx.wbuf.buf
    {
      rx.Valid() && tx.Valid() && rx.rbuf != tx.wbuf && rx.rbuf.buf != tx.wbuf.buf
    }

    constructor (cbcap: nat, bufcap: nat)
      requires cbcap > 0 && bufcap > 0
      ensures Valid() && fresh(rx.Footprint()) && fresh(tx.Footprint()) && !connected
      ensures rx.ops.buf.Length == tx.cbs.buf.Length == cbcap && rx.rbuf.buf.Length == tx.wbuf.buf.Length == bufcap
      ensures rx.Model() == Rx.RxState([], [], []) && tx.Model() == Tx.TxState([], [], [], 0, [])
    {
      rx := new Receiver(cbcap, bufcap);
      tx := new Transmitter(cbcap, bufcap);
      connected := false;
    }

    method OnReadable(kernel: seq<ReadAnswer>) returns (result: IoResult)
      requires Valid()
      modifies rx, rx.ops, rx.ops.buf, rx.rbuf, rx.rbuf.buf
      ensures Valid()
      ensures var r := RxCall(old(rx.Model()), kernel, rx.ops.buf.Length, rx.rbuf.buf.Length);
              rx.Model() == r.s && result == r.result && rx.ready == (result != Blocked)
    {
      rx.ready := true;
      var unread;
      result, unread := rx.Receive(kernel);
    }

    method OnWritable(socketError: bool, kernel: seq<WriteAnswer>) returns (result: IoResult)
      requires Valid()
      modifies `connected, tx, tx.cbs, tx.cbs.buf, tx.wbuf
      ensures Valid()
      ensures if !old(connected) && socketError then
                && result == Failed(SystemError) && tx.Model() == old(tx.Model())
                && tx.ready == old(tx.ready) && !connected
              else
                var t := TxCall(old(tx.Model()), kernel, tx.cbs.buf.Length);
                connected && tx.Model() == t.s && result == t.result && tx.ready == (result != Blocked)
    {
      if !connected {
        if socketError {
          return Failed(SystemError);
        }
        connected := true;
      }
      tx.ready := true;
      var unused;
      result, unused := tx.Transmit(kernel);
    }

    /** `run_io`: readable events first, then writable ones; an exception ends the handler. */
    method RunIo(readable: bool, writable: bool, socketError: bool,
                 received: seq<ReadAnswer>, accepted: seq<WriteAnswer>)
      returns (result: IoResult)
      requires Valid()
      modifies this, rx, rx.ops, rx.ops.buf, rx.rbuf, rx.rbuf.buf, tx, tx.cbs, tx.cbs.buf, tx.wbuf
      ensures Valid()
      ensures var r := if readable then RxCall(old(rx.Model()), received, rx.ops.buf.Length, rx.rbuf.buf.Length)
                       else RxOutcome(old(rx.Model()), Idle, received);
              && rx.Model() == r.s
              && if r.result.Failed? || !writable then
                   && result == r.result && tx.Model() == old(tx.Model())
                   && tx.ready == old(tx.ready) && connected == old(connected)
                 else if !old(connected) && socketError then
                   && result == Failed(SystemError) && tx.Model() == old(tx.Model())
                   && tx.ready == old(tx.ready) && !connected
                 else
                   var t := TxCall(old(tx.Model()), accepted, tx.cbs.buf.Length);
                   connected && tx.Model() == t.s && result == t.result && tx.ready == (result != Blocked)
      ensures var r := RxCall(old(rx.Model()), received, rx.ops.buf.Length, rx.rbuf.buf.Length);
              rx.ready == if readable then r.result != Blocked else old(rx.ready)
    {
      result := Idle;
      if readable {
        result := OnReadable(received);
        if result.Failed? {
          return;
        }
      }
      if writable {
        result := OnWritable(socketError, accepted);
      }
    }
  }
}
