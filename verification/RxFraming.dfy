/**
 The receive half of client/socket_buf.cc on values: what one pass over the queued read
 operations does with the buffered bytes, and why the callbacks that run do not depend on
 how the kernel cut the stream into reads.
 */
module RxFraming {
  import opened Common

  /** A queued read.  A header callback computes the body length from the header bytes. */
  datatype IORx = IORx(hdrlen: nat, hdrcb: Option<seq<byte> -> nat>, bodylen: nat, bodycb: bool, cbdata: nat)

  /** A callback that ran: which operation's, and the bytes it was given. */
  datatype Event = Header(cbdata: nat, bytes: seq<byte>) | Body(cbdata: nat, bytes: seq<byte>)

  datatype RxState = RxState(ops: seq<IORx>, buf: seq<byte>, log: seq<Event>)

  // ---------- The reference: one pass over the whole stream, from its beginning ----------

  function HeaderEvents(op: IORx, hdr: seq<byte>): seq<Event> {
    if op.hdrlen > 0 && op.hdrcb.Some? then [Header(op.cbdata, hdr)] else []
  }

  function BodyEvents(cbdata: nat, bodycb: bool, body: seq<byte>): seq<Event> {
    if body != [] && bodycb then [Body(cbdata, body)] else []
  }

  function BodyLength(op: IORx, hdr: seq<byte>): nat {
    if op.hdrlen > 0 && op.hdrcb.Some? then op.hdrcb.value(hdr) else op.bodylen
  }

  /** The callbacks that run, and the bytes left over once every operation has had its share. */
  datatype Parsed = Parsed(events: seq<Event>, rest: seq<byte>)

  function Then(events: seq<Event>, p: Parsed): Parsed {
    Parsed(events + p.events, p.rest)
  }

  /** What is owed for a stream: each operation takes a header, then a body, then the next begins. */
  function Parse(ops: seq<IORx>, stream: seq<byte>): Parsed
    decreases |ops|, 0
  {
    if ops == [] then Parsed([], stream)
    else
      var op := ops[0];
      if |stream| < op.hdrlen then Parsed([], [])
      else
        var hdr := stream[..op.hdrlen];
        Then(HeaderEvents(op, hdr),
             ParseBody(op.cbdata, op.bodycb, BodyLength(op, hdr), ops[1..], stream[op.hdrlen..]))
  }

  function ParseBody(cbdata: nat, bodycb: bool, n: nat, ops: seq<IORx>, stream: seq<byte>): Parsed
    decreases |ops|, 1
  {
    if |stream| < n then Parsed([], [])
    else Then(BodyEvents(cbdata, bodycb, stream[..n]), Parse(ops, stream[n..]))
  }

  /** A read with the bytes it is meant for. */
  datatype Message = Message(op: IORx, hdr: seq<byte>, body: seq<byte>)

  /** The header has the length that was asked for, and the body the length that the header callback computes, or
      that was asked for as well. */
  predicate Complete(m: Message) {
    && |m.hdr| == m.op.hdrlen
    && |m.body| == match m.op.hdrcb
                   case Some(cb) => if m.hdr != [] then cb(m.hdr) else m.op.bodylen
                   case None => m.op.bodylen
  }

  function Reads(ms: seq<Message>): seq<IORx> {
    if ms == [] then [] else [ms[0].op] + Reads(ms[1..])
  }

  function Bytes(ms: seq<Message>): seq<byte> {
    if ms == [] then [] else ms[0].hdr + ms[0].body + Bytes(ms[1..])
  }

  /** The callbacks: for each message the header's, if there is one and a header, and then the body's. */
  function Callbacks(ms: seq<Message>): seq<Event> {
    if ms == [] then []
    else
      var m := ms[0];
      (if m.op.hdrcb.Some? && m.hdr != [] then [Header(m.op.cbdata, m.hdr)] else []) +
      (if m.op.bodycb && m.body != [] then [Body(m.op.cbdata, m.body)] else []) +
      Callbacks(ms[1..])
  }

  /** For a stream of whole messages the reference is what one expects: every callback once, with its own bytes,
      in order, and what follows is left over. */
  lemma {:induction false} ParseOfMessages(ms: seq<Message>, rest: seq<byte>)
    requires forall i :: 0 <= i < |ms| ==> Complete(ms[i])
    ensures Parse(Reads(ms), Bytes(ms) + rest) == Parsed(Callbacks(ms), rest)
    decreases |ms|
  {
    if ms == [] {
      assert [] + rest == rest;
    } else {
      var m, later := ms[0], Bytes(ms[1..]) + rest;
      ParseOfMessages(ms[1..], rest);
      assert Bytes(ms) + rest == m.hdr + (m.body + later);
      ParseOneMessage(m, Reads(ms[1..]), later);
      assert Reads(ms)[1..] == Reads(ms[1..]);
    }
  }

  lemma ParseOneMessage(m: Message, ops: seq<IORx>, later: seq<byte>)
    requires Complete(m)
    ensures Parse([m.op] + ops, m.hdr + (m.body + later)) ==
            Then((if m.op.hdrcb.Some? && m.hdr != [] then [Header(m.op.cbdata, m.hdr)] else []) +
                 (if m.op.bodycb && m.body != [] then [Body(m.op.cbdata, m.body)] else []), Parse(ops, later))
  {
    var stream := m.hdr + (m.body + later);
    assert ([m.op] + ops)[1..] == ops;
    assert stream[..|m.hdr|] == m.hdr && stream[|m.hdr|..] == m.body + later;
    assert (m.body + later)[..|m.body|] == m.body && (m.body + later)[|m.body|..] == later;
  }

  // ---------- The machine: what the loop body of `rx` does ----------

  /** One header attempt; `stuck` means the loop breaks. */
  datatype Served = Served(op: IORx, buf: seq<byte>, events: seq<Event>, stuck: bool)

  function ServeHeader(op: IORx, buf: seq<byte>): Served {
    if op.hdrlen == 0 then Served(op, buf, [], false)
    else if |buf| < op.hdrlen then
      if op.hdrcb.None? then Served(op.(hdrlen := op.hdrlen - |buf|), [], [], true)
      else Served(op, buf, [], true)
    else
      var hdr := buf[..op.hdrlen];
      if op.hdrcb.Some? then
        Served(op.(hdrlen := 0, bodylen := op.hdrcb.value(hdr)), buf[op.hdrlen..], [Header(op.cbdata, hdr)], false)
      else
        Served(op.(hdrlen := 0), buf[op.hdrlen..], [], false)
  }

  function ServeBody(op: IORx, buf: seq<byte>): Served {
    if op.bodylen == 0 then Served(op, buf, [], false)
    else if |buf| < op.bodylen then
      if !op.bodycb then Served(op.(bodylen := op.bodylen - |buf|), [], [], true)
      else Served(op, buf, [], true)
    else if op.bodycb then
      Served(op.(bodylen := 0), buf[op.bodylen..], [Body(op.cbdata, buf[..op.bodylen])], false)
    else
      Served(op.(bodylen := 0), buf[op.bodylen..], [], false)
  }

  function Serve(op: IORx, buf: seq<byte>): Served {
    var h := ServeHeader(op, buf);
    if h.stuck then h
    else
      var b := ServeBody(h.op, h.buf);
      b.(events := h.events + b.events)
  }

  /** One `for` loop over the queue, with the finished operations dropped. */
  function Drain(s: RxState): RxState
    decreases |s.ops|
  {
    if s.ops == [] then s
    else
      var v := Serve(s.ops[0], s.buf);
      if v.stuck then RxState([v.op] + s.ops[1..], v.buf, s.log + v.events)
      else Drain(RxState(s.ops[1..], v.buf, s.log + v.events))
  }

  // ---------- Where the headers lie in the ring ----------

  /** How many bytes of the header lie in front of the end of a ring of `bufcap` bytes, if its callback runs:
      the buffer starts `at` bytes into the stream. */
  function HeaderCut(op: IORx, buf: seq<byte>, at: nat, bufcap: nat): seq<nat>
    requires bufcap > 0
  {
    if 0 < op.hdrlen <= |buf| && op.hdrcb.Some? then [Min(op.hdrlen, bufcap - at % bufcap)] else []
  }

  /** The same for all header callbacks of one pass. */
  function Cuts(s: RxState, at: nat, bufcap: nat): seq<nat>
    requires bufcap > 0
    decreases |s.ops|
  {
    if s.ops == [] then []
    else
      var v := Serve(s.ops[0], s.buf);
      HeaderCut(s.ops[0], s.buf, at, bufcap) +
      if v.stuck then []
      else Cuts(RxState(s.ops[1..], v.buf, s.log + v.events), at + Used(s.buf, v.buf), bufcap)
  }

  /** How many bytes were used up. */
  function Used(before: seq<byte>, after: seq<byte>): nat {
    if |after| <= |before| then |before| - |after| else 0
  }

  // ---------- One pass ----------

  /** An operation without header bytes left is at its body. */
  lemma ParseAtBody(op: IORx, ops: seq<IORx>, stream: seq<byte>)
    requires op.hdrlen == 0
    ensures Parse([op] + ops, stream) == ParseBody(op.cbdata, op.bodycb, op.bodylen, ops, stream)
  {
    assert ([op] + ops)[1..] == ops && stream[0..] == stream;
  }

  /** A header attempt changes nothing about what is owed, whatever arrives later. */
  lemma HeaderKeepsParse(op: IORx, ops: seq<IORx>, buf: seq<byte>, more: seq<byte>)
    ensures var h := ServeHeader(op, buf);
            Parse([op] + ops, buf + more) == Then(h.events, Parse([h.op] + ops, h.buf + more))
  {
    var h := ServeHeader(op, buf);
    var stream := buf + more;
    assert ([op] + ops)[1..] == ops && ([h.op] + ops)[1..] == ops;
    if 0 < op.hdrlen <= |buf| {
      ParseAtBody(h.op, ops, h.buf + more);
      assert stream[..op.hdrlen] == buf[..op.hdrlen];
      assert stream[op.hdrlen..] == h.buf + more;
    } else if op.hdrlen > 0 && op.hdrcb.None? && op.hdrlen <= |stream| {
      assert stream[op.hdrlen..] == (h.buf + more)[h.op.hdrlen..];
    }
  }

  /** So does a body attempt, once the header is done. */
  lemma BodyKeepsParse(op: IORx, ops: seq<IORx>, buf: seq<byte>, more: seq<byte>)
    requires op.hdrlen == 0
    ensures var b := ServeBody(op, buf);
            Parse([op] + ops, buf + more) ==
            Then(b.events, if b.stuck then Parse([b.op] + ops, b.buf + more) else Parse(ops, b.buf + more))
  {
    var b := ServeBody(op, buf);
    var stream := buf + more;
    ParseAtBody(op, ops, stream);
    if b.stuck {
      ParseAtBody(b.op, ops, b.buf + more);
      SkipInTwo(op.bodylen, buf, more);
    } else {
      assert stream[..op.bodylen] == buf[..op.bodylen];
      assert stream[op.bodylen..] == b.buf + more;
    }
  }

  /** Skipping what is buffered now and the rest later skips the same bytes. */
  lemma SkipInTwo(n: nat, buf: seq<byte>, more: seq<byte>)
    ensures |buf| <= n <= |buf + more| ==> (buf + more)[n..] == ([] + more)[n - |buf|..]
  {
  }

  lemma ThenAssociates(log: seq<Event>, now: seq<Event>, later: Parsed)
    ensures Then(log, Then(now, later)) == Then(log + now, later)
  {
  }

  /** So does serving an operation to the point where it is stuck or finished. */
  lemma ServeKeepsParse(op: IORx, ops: seq<IORx>, buf: seq<byte>, more: seq<byte>)
    ensures var v := Serve(op, buf);
            Parse([op] + ops, buf + more) ==
            Then(v.events, if v.stuck then Parse([v.op] + ops, v.buf + more) else Parse(ops, v.buf + more))
  {
    var h := ServeHeader(op, buf);
    HeaderKeepsParse(op, ops, buf, more);
    if !h.stuck {
      var b := ServeBody(h.op, h.buf);
      BodyKeepsParse(h.op, ops, h.buf, more);
      var rest := if b.stuck then Parse([b.op] + ops, b.buf + more) else Parse(ops, b.buf + more);
      ThenAssociates(h.events, b.events, rest);
    }
  }

  /** Hence so does the front operation of a queue, if it gets stuck ... */
  lemma StuckKeepsParse(s: RxState, later: seq<IORx>, more: seq<byte>)
    requires s.ops != [] && Serve(s.ops[0], s.buf).stuck
    ensures var v := Serve(s.ops[0], s.buf);
            Parse(s.ops + later, s.buf + more) == Then(v.events, Parse([v.op] + s.ops[1..] + later, v.buf + more))
  {
    var v := Serve(s.ops[0], s.buf);
    ServeKeepsParse(s.ops[0], s.ops[1..] + later, s.buf, more);
    assert s.ops + later == [s.ops[0]] + (s.ops[1..] + later);
    assert [v.op] + s.ops[1..] + later == [v.op] + (s.ops[1..] + later);
  }

  /** ... and if it is finished. */
  lemma FinishedKeepsParse(s: RxState, later: seq<IORx>, more: seq<byte>)
    requires s.ops != [] && !Serve(s.ops[0], s.buf).stuck
    ensures var v := Serve(s.ops[0], s.buf);
            Parse(s.ops + later, s.buf + more) == Then(v.events, Parse(s.ops[1..] + later, v.buf + more))
  {
    ServeKeepsParse(s.ops[0], s.ops[1..] + later, s.buf, more);
    assert s.ops + later == [s.ops[0]] + (s.ops[1..] + later);
  }

  /** One pass hands over to the reference: what it ran plus what is still owed is what was owed. */
  lemma {:induction false} DrainKeepsParse(s: RxState, later: seq<IORx>, more: seq<byte>)
    ensures var d := Drain(s);
            Then(s.log, Parse(s.ops + later, s.buf + more)) == Then(d.log, Parse(d.ops + later, d.buf + more))
    decreases |s.ops|
  {
    if s.ops != [] {
      var v := Serve(s.ops[0], s.buf);
      if v.stuck {
        StuckKeepsParse(s, later, more);
        ThenAssociates(s.log, v.events, Parse([v.op] + s.ops[1..] + later, v.buf + more));
      } else {
        FinishedKeepsParse(s, later, more);
        ThenAssociates(s.log, v.events, Parse(s.ops[1..] + later, v.buf + more));
        DrainKeepsParse(RxState(s.ops[1..], v.buf, s.log + v.events), later, more);
      }
    }
  }

  /** How many buffered bytes the front operation is waiting for. */
  function Needs(op: IORx): nat {
    if op.hdrlen > 0 then op.hdrlen else op.bodylen
  }

  /** After a pass the front operation wants more than is buffered, so nothing more is owed yet. */
  ghost predicate Waiting(s: RxState) {
    s.ops != [] ==> |s.buf| < Needs(s.ops[0])
  }

  lemma {:induction false} DrainWaits(s: RxState)
    ensures Waiting(Drain(s)) && Parse(Drain(s).ops, Drain(s).buf).events == []
    decreases |s.ops|
  {
    if s.ops != [] {
      var v := Serve(s.ops[0], s.buf);
      if !v.stuck {
        DrainWaits(RxState(s.ops[1..], v.buf, s.log + v.events));
      }
    }
  }

  // ---------- Whole runs ----------

  /** `cap` is the capacity of the operation queue; a full queue is not iterated at all. */
  function Arrive(s: RxState, data: seq<byte>, cap: nat): RxState {
    var t := s.(buf := s.buf + data);
    if |s.ops| < cap then Drain(t) else t
  }

  function Enqueue(s: RxState, op: IORx): RxState {
    s.(ops := s.ops + [op])
  }

  datatype RxStep = Read(op: IORx) | Received(data: seq<byte>)

  function Step(s: RxState, step: RxStep, cap: nat): RxState {
    match step
    case Read(op) => Enqueue(s, op)
    case Received(data) => Arrive(s, data, cap)
  }

  function Replay(steps: seq<RxStep>, cap: nat): RxState
    decreases |steps|
  {
    if steps == [] then RxState([], [], [])
    else
      var s := Replay(steps[..|steps| - 1], cap);
      Step(s, steps[|steps| - 1], cap)
  }

  function OpsOf(steps: seq<RxStep>): seq<IORx>
    decreases |steps|
  {
    if steps == [] then [] else
    var before, last := OpsOf(steps[..|steps| - 1]), steps[|steps| - 1];
    if last.Read? then before + [last.op] else before
  }

  function BytesOf(steps: seq<RxStep>): seq<byte>
    decreases |steps|
  {
    if steps == [] then [] else
    var before, last := BytesOf(steps[..|steps| - 1]), steps[|steps| - 1];
    if last.Received? then before + last.data else before
  }

  lemma OneMoreStep(steps: seq<RxStep>, step: RxStep, cap: nat)
    ensures Replay(steps + [step], cap) == Step(Replay(steps, cap), step, cap)
    ensures OpsOf(steps + [step]) == if step.Read? then OpsOf(steps) + [step.op] else OpsOf(steps)
    ensures BytesOf(steps + [step]) == if step.Received? then BytesOf(steps) + step.data else BytesOf(steps)
  {
    var all := steps + [step];
    assert all[..|all| - 1] == steps && all[|all| - 1] == step;
  }

  /** In every run, the callbacks run so far and those still owed are the reference's. */
  lemma {:induction false} NothingLost(steps: seq<RxStep>, cap: nat, later: seq<IORx>, more: seq<byte>)
    ensures var s := Replay(steps, cap);
            Parse(OpsOf(steps) + later, BytesOf(steps) + more) == Then(s.log, Parse(s.ops + later, s.buf + more))
    decreases |steps|
  {
    if steps != [] {
      var before, last := steps[..|steps| - 1], steps[|steps| - 1];
      var s := Replay(before, cap);
      match last
      case Read(op) =>
        NothingLost(before, cap, [op] + later, more);
        assert OpsOf(before) + [op] + later == OpsOf(before) + ([op] + later);
        assert s.ops + [op] + later == s.ops + ([op] + later);
      case Received(data) =>
        NothingLost(before, cap, later, data + more);
        assert BytesOf(before) + data + more == BytesOf(before) + (data + more);
        assert s.buf + data + more == s.buf + (data + more);
        DrainKeepsParse(s.(buf := s.buf + data), later, more);
    }
  }

  /** Framing does not depend on fragmentation: right after a read from the kernel, with room left
      in the operation queue, the callbacks run are the reference parse of all bytes so far. */
  lemma FramingIsFragmentationIndependent(steps: seq<RxStep>, data: seq<byte>, cap: nat)
    requires |Replay(steps, cap).ops| < cap
    ensures var all := steps + [Received(data)];
            Replay(all, cap).log == Parse(OpsOf(steps), BytesOf(steps) + data).events
  {
    var all := steps + [Received(data)];
    assert all[..|all| - 1] == steps;
    NothingLost(all, cap, [], []);
    var s := Replay(steps, cap);
    DrainWaits(s.(buf := s.buf + data));
    var t := Replay(all, cap);
    assert t.ops + [] == t.ops && t.buf + [] == t.buf;
    assert OpsOf(all) + [] == OpsOf(steps) && BytesOf(all) + [] == BytesOf(steps) + data;
  }

  /** A pass finds everything that is due exactly when the operation queue is not full: a range-based
      `for` over a full queue visits nothing. */
  lemma MaximalIffQueueHasRoom(n: nat, cap: nat)
    requires 0 < n <= cap
    ensures (forall s: RxState, data: seq<byte> :: |s.ops| == n ==>
               Parse(Arrive(s, data, cap).ops, Arrive(s, data, cap).buf).events == []) <==> n < cap
  {
    if n < cap {
      forall s: RxState, data: seq<byte> | |s.ops| == n
        ensures Parse(Arrive(s, data, cap).ops, Arrive(s, data, cap).buf).events == []
      {
        DrainWaits(s.(buf := s.buf + data));
      }
    } else {
      var op := IORx(1, Some(_ => 0), 0, false, 0);
      var s := RxState(seq(n, _ => op), [], []);
      assert s.ops[0] == op;
      assert Parse(Arrive(s, [0], cap).ops, Arrive(s, [0], cap).buf).events != [];
    }
  }

  lemma {:induction false} DrainShrinks(s: RxState)
    ensures |Drain(s).ops| <= |s.ops|
    decreases |s.ops|
  {
    if s.ops != [] {
      var v := Serve(s.ops[0], s.buf);
      if !v.stuck {
        DrainShrinks(RxState(s.ops[1..], v.buf, s.log + v.events));
      }
    }
  }

  // ---------- Runs with the cuts of the headers ----------

  /** What a pass over the queue leads to: the state, how the headers were cut, and the bytes ever received. */
  datatype Traced = Traced(s: RxState, cuts: seq<nat>, received: nat)

  function TracedDrain(s: RxState, cuts: seq<nat>, taken: nat, bufcap: nat): Traced
    requires bufcap > 0
  {
    Traced(Drain(s), cuts + Cuts(s, taken, bufcap), taken + |s.buf|)
  }

  /** Serving one operation is the first step of the pass. */
  lemma TraceStep(s: RxState, v: Served, cut: seq<nat>, cuts: seq<nat>, taken: nat, bufcap: nat)
    requires bufcap > 0 && s.ops != [] && v == Serve(s.ops[0], s.buf)
    requires cut == HeaderCut(s.ops[0], s.buf, taken, bufcap)
    ensures |v.buf| <= |s.buf|
    ensures var taken1 := taken + Used(s.buf, v.buf);
            TracedDrain(s, cuts, taken, bufcap) ==
              if v.stuck then
                Traced(RxState([v.op] + s.ops[1..], v.buf, s.log + v.events), cuts + cut, taken1 + |v.buf|)
              else
                TracedDrain(RxState(s.ops[1..], v.buf, s.log + v.events), cuts + cut, taken1, bufcap)
  {
    assert cut + [] == cut;
    if !v.stuck {
      var next := RxState(s.ops[1..], v.buf, s.log + v.events);
      var later := Cuts(next, taken + Used(s.buf, v.buf), bufcap);
      assert cuts + (cut + later) == cuts + cut + later;
    }
  }

  lemma TraceOfNothing(s: RxState, cuts: seq<nat>, taken: nat, bufcap: nat)
    requires bufcap > 0 && s.ops == []
    ensures TracedDrain(s, cuts, taken, bufcap) == Traced(s, cuts, taken + |s.buf|)
  {
    assert cuts + [] == cuts;
  }

  function TracedArrive(t: Traced, data: seq<byte>, cap: nat, bufcap: nat): (u: Traced)
    requires bufcap > 0 && |t.s.buf| <= t.received
    ensures u.s == Arrive(t.s, data, cap) && u.received == t.received + |data| && |u.s.buf| <= u.received
  {
    var s := t.s.(buf := t.s.buf + data);
    BufferShrinks(s);
    if |s.ops| < cap then TracedDrain(s, t.cuts, t.received - |t.s.buf|, bufcap)
    else Traced(s, t.cuts, t.received + |data|)
  }

  lemma ArriveIs(t: Traced, s: RxState, d: RxState, cuts: seq<nat>, data: seq<byte>, cap: nat, bufcap: nat)
    requires bufcap > 0 && |t.s.buf| <= t.received && s == t.s.(buf := t.s.buf + data)
    requires d == Drain(s) && cuts == Cuts(s, t.received - |t.s.buf|, bufcap)
    ensures TracedArrive(t, data, cap, bufcap) ==
              if |s.ops| < cap then Traced(d, t.cuts + cuts, t.received + |data|)
              else Traced(s, t.cuts, t.received + |data|)
  {
  }

  lemma {:induction false} BufferShrinks(s: RxState)
    ensures |Drain(s).buf| <= |s.buf|
    decreases |s.ops|
  {
    if s.ops != [] {
      var v := Serve(s.ops[0], s.buf);
      if !v.stuck {
        BufferShrinks(RxState(s.ops[1..], v.buf, s.log + v.events));
      }
    }
  }

  function TracedStep(t: Traced, step: RxStep, cap: nat, bufcap: nat): (u: Traced)
    requires bufcap > 0 && |t.s.buf| <= t.received
    ensures u.s == Step(t.s, step, cap) && |u.s.buf| <= u.received
    ensures u.received == t.received + if step.Received? then |step.data| else 0
  {
    if step.Read? then t.(s := Enqueue(t.s, step.op)) else TracedArrive(t, step.data, cap, bufcap)
  }

  /** A run, with how each header was cut when its callback was run. */
  function TracedReplay(steps: seq<RxStep>, cap: nat, bufcap: nat): (t: Traced)
    requires bufcap > 0
    ensures t.s == Replay(steps, cap) && t.received == |BytesOf(steps)| && |t.s.buf| <= t.received
    decreases |steps|
  {
    if steps == [] then Traced(RxState([], [], []), [], 0)
    else
      var t, last := TracedReplay(steps[..|steps| - 1], cap, bufcap), steps[|steps| - 1];
      TracedStep(t, last, cap, bufcap)
  }

  lemma OneMoreTraced(steps: seq<RxStep>, step: RxStep, cap: nat, bufcap: nat)
    requires bufcap > 0
    ensures var t := TracedReplay(steps, cap, bufcap);
            TracedReplay(steps + [step], cap, bufcap) == TracedStep(t, step, cap, bufcap)
  {
    var all := steps + [step];
    assert all[..|all| - 1] == steps && all[|all| - 1] == step;
  }

  // ---------- Room to read ----------

  /** What is handed to a callback in one piece has to fit in the receive buffer of `bufcap` bytes. */
  ghost predicate Sized(op: IORx, bufcap: nat) {
    && (op.hdrlen > 0 && op.hdrcb.Some? ==> op.hdrlen <= bufcap)
    && (op.bodycb ==> forall hdr | |hdr| == op.hdrlen :: BodyLength(op, hdr) <= bufcap)
  }

  /** `rx` will find free space if it reads now. */
  ghost predicate HasRoom(s: RxState, bufcap: nat) {
    s.ops != [] ==> |s.buf| < bufcap
  }

  /** Without a header callback the body length is fixed, so one header of the right length tells it. */
  lemma FixedBody(op: IORx, bufcap: nat)
    requires Sized(op, bufcap) && (op.hdrlen == 0 || op.hdrcb.None?)
    ensures op.bodycb ==> op.bodylen <= bufcap
  {
    assert BodyLength(op, Zeros(op.hdrlen)) == op.bodylen;
  }

  lemma ServeKeepsSized(op: IORx, buf: seq<byte>, bufcap: nat)
    requires Sized(op, bufcap) && bufcap > 0
    ensures var v := Serve(op, buf);
            v.stuck ==> Sized(v.op, bufcap) && |v.buf| < bufcap
  {
    var h := ServeHeader(op, buf);
    if !h.stuck && 0 < op.hdrlen && op.hdrcb.Some? {
      assert h.op.bodylen == BodyLength(op, buf[..op.hdrlen]);
    } else if op.hdrlen == 0 || op.hdrcb.None? {
      FixedBody(op, bufcap);
    }
  }

  lemma {:induction false} DrainMakesRoom(s: RxState, bufcap: nat)
    requires bufcap > 0 && forall op <- s.ops :: Sized(op, bufcap)
    ensures var d := Drain(s);
            HasRoom(d, bufcap) && forall op <- d.ops :: Sized(op, bufcap)
    decreases |s.ops|
  {
    if s.ops != [] {
      var v := Serve(s.ops[0], s.buf);
      ServeKeepsSized(s.ops[0], s.buf, bufcap);
      if !v.stuck {
        DrainMakesRoom(RxState(s.ops[1..], v.buf, s.log + v.events), bufcap);
      }
    }
  }

  /** The peer only ever sends what the queued reads asked for: nothing is left over at any point. */
  ghost predicate Solicited(steps: seq<RxStep>) {
    forall k :: 0 <= k <= |steps| ==> Parse(OpsOf(steps[..k]), BytesOf(steps[..k])).rest == []
  }

  ghost predicate NeverFull(steps: seq<RxStep>, cap: nat) {
    forall k :: 0 <= k <= |steps| ==> |Replay(steps[..k], cap).ops| < cap
  }

  /** `rx` never wedges: whenever an operation is queued there is free space to read into. */
  lemma {:induction false} RxNeverWedges(steps: seq<RxStep>, cap: nat, bufcap: nat)
    requires bufcap > 0 && forall op <- OpsOf(steps) :: Sized(op, bufcap)
    requires Solicited(steps) && NeverFull(steps, cap)
    ensures var s := Replay(steps, cap);
            && HasRoom(s, bufcap)
            && (s.ops == [] ==> s.buf == [])
            && forall op <- s.ops :: Sized(op, bufcap)
    decreases |steps|
  {
    var s := Replay(steps, cap);
    if s.ops == [] {
      NothingLost(steps, cap, [], []);
      assert steps[..|steps|] == steps;
      assert Parse(OpsOf(steps) + [], BytesOf(steps) + []).rest == Parse(s.ops + [], s.buf + []).rest;
      assert OpsOf(steps) + [] == OpsOf(steps) && BytesOf(steps) + [] == BytesOf(steps) && s.buf + [] == s.buf;
    }
    if steps != [] {
      var before := steps[..|steps| - 1];
      assert forall k :: 0 <= k <= |before| ==> before[..k] == steps[..k];
      RxNeverWedges(before, cap, bufcap);
      match steps[|steps| - 1]
      case Read(op) =>
        assert OpsOf(steps)[|OpsOf(before)|] == op;
      case Received(data) =>
        var t := Replay(before, cap);
        assert before == steps[..|before|];
        DrainMakesRoom(t.(buf := t.buf + data), bufcap);
    }
  }

  // ---------- Exactly when `rx` can wedge ----------

  /** The state after these reads from the kernel. */
  function Feed(s: RxState, chunks: seq<seq<byte>>, cap: nat): RxState
    decreases |chunks|
  {
    if chunks == [] then s else Feed(Arrive(s, chunks[0], cap), chunks[1..], cap)
  }

  /** `rx` can make these reads: each time an operation is queued, and the data fits in the free space. */
  predicate CanArrive(s: RxState, chunks: seq<seq<byte>>, cap: nat, bufcap: nat)
    decreases |chunks|
  {
    chunks != [] ==>
      && s.ops != [] && 0 < |chunks[0]| && |s.buf| + |chunks[0]| <= bufcap
      && CanArrive(Arrive(s, chunks[0], cap), chunks[1..], cap, bufcap)
  }

  ghost predicate AllSized(ops: seq<IORx>, bufcap: nat) {
    forall op <- ops :: Sized(op, bufcap)
  }

  lemma {:induction false} SizedNeverWedges(s: RxState, chunks: seq<seq<byte>>, cap: nat, bufcap: nat)
    requires bufcap > 0 && |s.ops| < cap && AllSized(s.ops, bufcap) && HasRoom(s, bufcap)
    requires CanArrive(s, chunks, cap, bufcap)
    ensures HasRoom(Feed(s, chunks, cap), bufcap)
    decreases |chunks|
  {
    if chunks != [] {
      var t := s.(buf := s.buf + chunks[0]);
      DrainMakesRoom(t, bufcap);
      DrainShrinks(t);
      SizedNeverWedges(Drain(t), chunks[1..], cap, bufcap);
    }
  }

  /** These reads lead to a full buffer with an operation still queued. */
  ghost predicate Wedges(s: RxState, chunks: seq<seq<byte>>, cap: nat, bufcap: nat) {
    CanArrive(s, chunks, cap, bufcap) && !HasRoom(Feed(s, chunks, cap), bufcap)
  }

  lemma OneChunk(s: RxState, data: seq<byte>, later: seq<seq<byte>>, cap: nat, bufcap: nat)
    requires s.ops != [] && 0 < |data| && |s.buf| + |data| <= bufcap
    requires Wedges(Arrive(s, data, cap), later, cap, bufcap)
    ensures Wedges(s, [data] + later, cap, bufcap)
  {
    assert ([data] + later)[1..] == later;
  }

  /** What the front operation is waiting for does not fit and is kept for a callback. */
  lemma Overfull(s: RxState, cap: nat, bufcap: nat) returns (chunks: seq<seq<byte>>)
    requires bufcap > 0 && 0 < |s.ops| <= cap && s.buf == []
    requires |s.ops| == cap || (var op := s.ops[0]; if op.hdrlen > 0 then op.hdrcb.Some? && op.hdrlen > bufcap
                                                    else op.bodycb && op.bodylen > bufcap)
    ensures Wedges(s, chunks, cap, bufcap)
  {
    var data := Zeros(bufcap);
    assert s.buf + data == data;
    assert Wedges(Arrive(s, data, cap), [], cap, bufcap);
    OneChunk(s, data, [], cap, bufcap);
    chunks := [data] + [];
  }

  lemma ServeNothing(op: IORx)
    ensures Serve(op, []) == Served(op, [], [], Needs(op) > 0)
  {
  }

  lemma DrainStep(s: RxState)
    requires s.buf == [] && s.ops != []
    ensures Drain(s) == if Needs(s.ops[0]) == 0 then Drain(RxState(s.ops[1..], [], s.log)) else s
  {
    ServeNothing(s.ops[0]);
    assert s.log + [] == s.log;
  }

  /** With nothing buffered, a pass drops the operations at the front that need nothing. */
  lemma {:induction false} DrainOfNothing(s: RxState) returns (k: nat)
    requires s.buf == []
    ensures k <= |s.ops| && Drain(s) == RxState(s.ops[k..], [], s.log)
    ensures forall i :: 0 <= i < k ==> Needs(s.ops[i]) == 0
    decreases |s.ops|
  {
    k := 0;
    if s.ops != [] {
      DrainStep(s);
      if Needs(s.ops[0]) == 0 {
        var n := DrainOfNothing(RxState(s.ops[1..], [], s.log));
        k := n + 1;
        assert s.ops[1..][n..] == s.ops[k..];
      }
    }
  }

  lemma NothingNeededIsSized(op: IORx, bufcap: nat)
    requires Needs(op) == 0
    ensures Sized(op, bufcap)
  {
  }

  /** Operations dropped because they need nothing are not to blame. */
  lemma StillOversize(s: RxState, bufcap: nat)
    requires s.buf == [] && !AllSized(s.ops, bufcap)
    ensures !AllSized(Drain(s).ops, bufcap)
  {
    var k := DrainOfNothing(s);
    var i :| 0 <= i < |s.ops| && !Sized(s.ops[i], bufcap);
    if i < k {
      NothingNeededIsSized(s.ops[i], bufcap);
    }
    assert s.ops[k..][i - k] in s.ops[k..];
  }

  /** The bytes are the rest, or a part that can be dropped, of what the operation is waiting for. */
  predicate Feeds(op: IORx, data: seq<byte>) {
    && data != []
    && if op.hdrlen > 0 then |data| == op.hdrlen || (|data| < op.hdrlen && op.hdrcb.None?)
       else |data| == op.bodylen || (|data| < op.bodylen && !op.bodycb)
  }

  /** What the operation is waiting for afterwards. */
  function Fed(op: IORx, data: seq<byte>): IORx
    requires Feeds(op, data)
  {
    if op.hdrlen > |data| then op.(hdrlen := op.hdrlen - |data|)
    else if op.hdrlen > 0 then op.(hdrlen := 0, bodylen := BodyLength(op, data))
    else op.(bodylen := op.bodylen - |data|)
  }

  /** Serving the fed operation with nothing is the rest of what serving it with the bytes did. */
  lemma FedIsServed(op: IORx, data: seq<byte>)
    requires Feeds(op, data)
    ensures var v, w := Serve(op, data), Serve(Fed(op, data), []);
            v.op == w.op && v.buf == w.buf == [] && v.stuck == w.stuck && w.events == []
  {
    assert data[..|data|] == data && data[|data|..] == [];
  }

  /** Feeding the front operation uses up exactly those bytes. */
  lemma FrontIsFed(s: RxState, data: seq<byte>, cap: nat)
    requires s.buf == [] && 0 < |s.ops| < cap && Feeds(s.ops[0], data)
    ensures Arrive(s, data, cap) ==
            Drain(RxState([Fed(s.ops[0], data)] + s.ops[1..], [], s.log + Serve(s.ops[0], data).events))
  {
    var op := s.ops[0];
    FedIsServed(op, data);
    var log := s.log + Serve(op, data).events;
    assert s.buf + data == data && log + [] == log;
    assert ([Fed(op, data)] + s.ops[1..])[1..] == s.ops[1..];
  }

  /** Bytes to feed the front operation with: a header that announces too long a body, if there is one. */
  lemma ChooseFood(op: IORx, bufcap: nat) returns (data: seq<byte>)
    requires bufcap > 0 && Needs(op) > 0
    requires op.hdrlen > 0 && op.hdrcb.Some? ==> op.hdrlen <= bufcap
    requires op.hdrlen == 0 && op.bodycb ==> op.bodylen <= bufcap
    ensures Feeds(op, data) && |data| <= bufcap
    ensures !Sized(op, bufcap) ==> !Sized(Fed(op, data), bufcap)
  {
    var need := Needs(op);
    if Sized(op, bufcap) || op.hdrlen == 0 || op.hdrcb.None? {
      data := Zeros(if need <= bufcap then need else bufcap);
      if !Sized(op, bufcap) {
        var next := Fed(op, data);
        assert BodyLength(next, Zeros(next.hdrlen)) == op.bodylen;
      }
    } else {
      data :| |data| == op.hdrlen && BodyLength(op, data) > bufcap;
      assert BodyLength(Fed(op, data), []) == BodyLength(op, data);
    }
  }

  lemma SkipFront(s: RxState, chunks: seq<seq<byte>>, cap: nat, bufcap: nat)
    requires bufcap > 0 && s.buf == [] && 0 < |s.ops| < cap && Needs(s.ops[0]) == 0
    requires Wedges(s.(ops := s.ops[1..]), chunks, cap, bufcap)
    ensures Wedges(s, chunks, cap, bufcap)
  {
    var rest := s.(ops := s.ops[1..]);
    assert chunks != [];
    assert Serve(s.ops[0], s.buf + chunks[0]) == Served(s.ops[0], s.buf + chunks[0], [], false);
    assert s.log + [] == s.log;
    assert Arrive(s, chunks[0], cap) == Arrive(rest, chunks[0], cap);
  }

  /** An operation that is not sized will be reached, wherever it is in the queue, and wedges `rx`. */
  lemma {:induction false} CanWedge(s: RxState, cap: nat, bufcap: nat) returns (chunks: seq<seq<byte>>)
    requires bufcap > 0 && s.buf == [] && 0 < |s.ops| < cap && !AllSized(s.ops, bufcap)
    ensures Wedges(s, chunks, cap, bufcap)
    decreases |s.ops|, s.ops[0].hdrlen, s.ops[0].bodylen
  {
    var op := s.ops[0];
    if Needs(op) == 0 {
      NothingNeededIsSized(op, bufcap);
      assert !AllSized(s.ops[1..], bufcap);
      chunks := CanWedge(s.(ops := s.ops[1..]), cap, bufcap);
      SkipFront(s, chunks, cap, bufcap);
    } else if if op.hdrlen > 0 then op.hdrcb.Some? && op.hdrlen > bufcap else op.bodycb && op.bodylen > bufcap {
      chunks := Overfull(s, cap, bufcap);
    } else {
      var data := ChooseFood(op, bufcap);
      var next := RxState([Fed(op, data)] + s.ops[1..], [], s.log + Serve(op, data).events);
      FrontIsFed(s, data, cap);
      KeepsOversize(s.ops, Fed(op, data), bufcap);
      StillOversize(next, bufcap);
      var k := DrainOfNothing(next);
      var later := CanWedge(Drain(next), cap, bufcap);
      OneChunk(s, data, later, cap, bufcap);
      chunks := [data] + later;
    }
  }

  lemma KeepsOversize(ops: seq<IORx>, next: IORx, bufcap: nat)
    requires ops != [] && !AllSized(ops, bufcap) && (!Sized(ops[0], bufcap) ==> !Sized(next, bufcap))
    ensures !AllSized([next] + ops[1..], bufcap)
  {
    var i :| 0 <= i < |ops| && !Sized(ops[i], bufcap);
    assert ([next] + ops[1..])[i] in [next] + ops[1..];
  }

  /** Whatever the peer sends and however it is cut up, there is room for the next read. */
  ghost predicate NeverWedges(s: RxState, cap: nat, bufcap: nat) {
    forall chunks | CanArrive(s, chunks, cap, bufcap) :: HasRoom(Feed(s, chunks, cap), bufcap)
  }

  /** A queue of reads never wedges `rx` if and only if the queue is not full and nothing that is for a
      callback can be longer than the buffer. */
  lemma NeverWedgesIffSized(ops: seq<IORx>, cap: nat, bufcap: nat)
    requires bufcap > 0 && 0 < |ops| <= cap
    ensures NeverWedges(RxState(ops, [], []), cap, bufcap) <==> |ops| < cap && AllSized(ops, bufcap)
  {
    var s := RxState(ops, [], []);
    if |ops| == cap {
      var chunks := Overfull(s, cap, bufcap);
      assert !NeverWedges(s, cap, bufcap);
    } else if !AllSized(ops, bufcap) {
      var chunks := CanWedge(s, cap, bufcap);
      assert !NeverWedges(s, cap, bufcap);
    } else {
      forall chunks | CanArrive(s, chunks, cap, bufcap)
        ensures HasRoom(Feed(s, chunks, cap), bufcap)
      {
        SizedNeverWedges(s, chunks, cap, bufcap);
      }
    }
  }
}
