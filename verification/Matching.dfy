/**
 Matching of responses to requests in client/gen_memcache.cc and client/gen_synthetic.cc.  Request `i`
 sits in slot `i % cap` of the request ring, and that slot is the argument of its read operation and of
 its callback point.  The peer answers in order, and a request only after receiving all of it.
 */
module Matching {
  import opened Common
  import Rx = RxFraming
  import Tx = TxStream
  import opened Packets
  import opened RingBuffers

  /** Memcache gets and sets, and synthetic requests that ask for an amount of work. */
  datatype Kind = Get | Set | Synthetic(work: nat)

  /** A request, whether it is to be measured, and the answer the peer will give: a header, and for a
      get the body it announces. */
  datatype Exchange = Exchange(request: seq<byte>, kind: Kind, measure: bool, header: seq<byte>, body: seq<byte>)

  /** A memcache header, or the eight-byte tag of a synthetic response. */
  function HeaderLength(kind: Kind): (n: nat)
    ensures n > 0
  {
    if kind.Synthetic? then 8 else HEADER_SIZE
  }

  /** What the header callback returns: only the answer to a get has a body to skip. */
  function AnnouncedBody(kind: Kind, header: seq<byte>): nat {
    if !kind.Get? || |header| != HEADER_SIZE then 0 else BodyLength(header)
  }

  /** The number in bytes 8 to 11 of a memcache header, the most significant byte first. */
  function LengthField(header: seq<byte>): nat
    requires |header| == 24
  {
    header[8] as nat * 0x100_0000 + header[9] as nat * 0x1_0000 + header[10] as nat * 0x100 + header[11] as nat
  }

  /** What a peer sends: a header of 24 bytes, or of 8 for a synthetic request, and to a get as many body bytes
      as the header has in its length field. */
  predicate WellFormed(e: Exchange) {
    && e.request != []
    && |e.header| == (if e.kind.Synthetic? then 8 else 24)
    && |e.body| == if e.kind.Get? then LengthField(e.header) else 0
  }

  /** The header callback announces exactly that: for a get what the length field says, and nothing for any
      other request. */
  lemma AnnouncedIsField(kind: Kind, header: seq<byte>)
    requires |header| == if kind.Synthetic? then 8 else 24
    ensures |header| == HeaderLength(kind)
    ensures AnnouncedBody(kind, header) == if kind.Get? then LengthField(header) else 0
  {
    if kind.Get? {
      LengthsAreBytes(header);
    }
  }

  lemma WellFormedIs(e: Exchange)
    requires WellFormed(e)
    ensures |e.header| == HeaderLength(e.kind) && |e.body| == AnnouncedBody(e.kind, e.header)
  {
    AnnouncedIsField(e.kind, e.header);
  }

  function OpOf(kind: Kind, slot: nat): Rx.IORx {
    Rx.IORx(HeaderLength(kind), Some(h => AnnouncedBody(kind, h)), 0, false, slot)
  }

  /** The read operations of exchanges number `from` on. */
  function OpsFrom(es: seq<Exchange>, from: nat, cap: nat): (ops: seq<Rx.IORx>)
    requires cap > 0
    ensures |ops| == |es|
    decreases |es|
  {
    if es == [] then [] else [OpOf(es[0].kind, from % cap)] + OpsFrom(es[1..], from + 1, cap)
  }

  function Answers(es: seq<Exchange>): seq<byte>
    decreases |es|
  {
    if es == [] then [] else es[0].header + es[0].body + Answers(es[1..])
  }

  /** One header callback per exchange, in order, each with its own slot and its own header. */
  function HeaderEvents(es: seq<Exchange>, from: nat, cap: nat): (ev: seq<Rx.Event>)
    requires cap > 0
    ensures |ev| == |es|
    decreases |es|
  {
    if es == [] then [] else [Rx.Header(from % cap, es[0].header)] + HeaderEvents(es[1..], from + 1, cap)
  }

  // ---------- What the answers are parsed into ----------

  /** One read meets its answer. */
  lemma ParseOneAnswer(e: Exchange, slot: nat, ops: seq<Rx.IORx>, rest: seq<byte>)
    requires WellFormed(e)
    ensures Rx.Parse([OpOf(e.kind, slot)] + ops, e.header + rest) ==
            Rx.Then([Rx.Header(slot, e.header)],
                    if |rest| < |e.body| then Rx.Parsed([], []) else Rx.Parse(ops, rest[|e.body|..]))
  {
    WellFormedIs(e);
    var op, stream := OpOf(e.kind, slot), e.header + rest;
    assert ([op] + ops)[1..] == ops;
    assert stream[..op.hdrlen] == e.header && stream[op.hdrlen..] == rest;
    var p := Rx.ParseBody(slot, false, |e.body|, ops, rest);
    assert Rx.Parse([op] + ops, stream) == Rx.Then([Rx.Header(slot, e.header)], p);
    NoBodyCallback(slot, |e.body|, ops, rest);
  }

  lemma NoBodyCallback(slot: nat, n: nat, ops: seq<Rx.IORx>, rest: seq<byte>)
    ensures Rx.ParseBody(slot, false, n, ops, rest) ==
            if |rest| < n then Rx.Parsed([], []) else Rx.Parse(ops, rest[n..])
  {
  }

  lemma ParseTooShort(op: Rx.IORx, ops: seq<Rx.IORx>, stream: seq<byte>)
    requires |stream| < op.hdrlen
    ensures Rx.Parse([op] + ops, stream) == Rx.Parsed([], [])
  {
  }

  /** Any part of the answer stream, however much has arrived, is parsed into the headers of some number
      of exchanges, in order, and leaves nothing over. */
  lemma {:induction false} ParseOfAnswers(es: seq<Exchange>, from: nat, cap: nat, stream: seq<byte>, c: nat)
    returns (m: nat)
    requires cap > 0 && c <= |es| && stream <= Answers(es[..c])
    requires forall i :: 0 <= i < |es| ==> WellFormed(es[i])
    ensures m <= c
    ensures Rx.Parse(OpsFrom(es, from, cap), stream) == Rx.Parsed(HeaderEvents(es[..m], from, cap), [])
    decreases |es|
  {
    m := 0;
    if es == [] {
      return;
    }
    var e, ops := es[0], OpsFrom(es[1..], from + 1, cap);
    if |stream| < |e.header| {
      ParseTooShort(OpOf(e.kind, from % cap), ops, stream);
      assert es[..0] == [];
      return;
    }
    var rest := stream[|e.header|..];
    FirstAnswer(es, from, cap, stream, c);
    m := 1;
    HeaderEventsGrow(es, from, cap, 0);
    if |rest| >= |e.body| {
      var k := ParseOfAnswers(es[1..], from + 1, cap, rest[|e.body|..], c - 1);
      m := k + 1;
      HeaderEventsGrow(es, from, cap, k);
    }
  }

  /** The header of the first answer is there, and nothing is known about its body. */
  lemma FirstAnswer(es: seq<Exchange>, from: nat, cap: nat, stream: seq<byte>, c: nat)
    requires cap > 0 && es != [] && WellFormed(es[0]) && c <= |es|
    requires stream <= Answers(es[..c]) && |stream| >= |es[0].header|
    ensures c > 0
    ensures var e, rest := es[0], stream[|es[0].header|..];
            && (|rest| >= |e.body| ==> rest[|e.body|..] <= Answers(es[1..][..c - 1]))
            && Rx.Parse(OpsFrom(es, from, cap), stream) ==
               Rx.Then([Rx.Header(from % cap, e.header)],
                       if |rest| < |e.body| then Rx.Parsed([], [])
                       else Rx.Parse(OpsFrom(es[1..], from + 1, cap), rest[|e.body|..]))
  {
    WellFormedIs(es[0]);
    SomeAnswers(es, c, stream);
    AnswersSplit(es, c, stream);
    ParseOneAnswer(es[0], from % cap, OpsFrom(es[1..], from + 1, cap), stream[|es[0].header|..]);
  }

  lemma SomeAnswers(es: seq<Exchange>, c: nat, stream: seq<byte>)
    requires es != [] && c <= |es| && stream <= Answers(es[..c]) && stream != []
    ensures c > 0
  {
    assert es[..0] == [];
  }

  lemma HeaderEventsGrow(es: seq<Exchange>, from: nat, cap: nat, k: nat)
    requires cap > 0 && k < |es|
    ensures HeaderEvents(es[..k + 1], from, cap) ==
            [Rx.Header(from % cap, es[0].header)] + HeaderEvents(es[1..][..k], from + 1, cap)
    ensures HeaderEvents([], from + 1, cap) == [] && es[1..][..0] == []
  {
    assert es[..k + 1][1..] == es[1..][..k];
  }

  lemma AnswersSplit(es: seq<Exchange>, c: nat, stream: seq<byte>)
    requires 0 < c <= |es| && stream <= Answers(es[..c]) && |stream| >= |es[0].header|
    ensures var e, rest := es[0], stream[|es[0].header|..];
            && stream == e.header + rest
            && (|rest| >= |e.body| ==> rest[|e.body|..] <= Answers(es[1..][..c - 1]))
  {
    var e, later := es[0], Answers(es[1..][..c - 1]);
    assert es[..c][1..] == es[1..][..c - 1];
    assert Answers(es[..c]) == e.header + (e.body + later);
    assert stream[|e.header|..] <= e.body + later;
  }

  // ---------- A connection and its peer ----------

  /** What has happened on a connection: the exchanges begun, the steps of the two halves of its socket,
      and how many requests the peer had received in full when it last sent anything. */
  datatype Conn = Conn(es: seq<Exchange>, rx: seq<Rx.RxStep>, tx: seq<Tx.TxStep>, served: nat)

  /** `_send_request` with the writes that happen inside it, a write or a read later on. */
  datatype Step = Send(e: Exchange, writes: seq<nat>) | Wrote(n: nat) | Received(data: seq<byte>, served: nat)

  /** The bytes of all these requests. */
  function Size(es: seq<Exchange>): nat
    decreases |es|
  {
    if es == [] then 0 else Size(es[..|es| - 1]) + |es[|es| - 1].request|
  }

  function WriteSteps(ns: seq<nat>): (w: seq<Tx.TxStep>)
    ensures |w| == |ns|
  {
    seq(|ns|, i requires 0 <= i < |ns| => Tx.Wrote(ns[i]))
  }

  function RxOf(c: Conn, cap: nat): Rx.RxState {
    Rx.Replay(c.rx, cap)
  }

  function Next(c: Conn, step: Step, cap: nat): Conn
    requires cap > 0
  {
    match step
    case Send(e, writes) =>
      var slot := |c.es| % cap;
      Conn(c.es + [e], c.rx + [Rx.Read(OpOf(e.kind, slot))],
           c.tx + [Tx.Commit(e.request)] + [Tx.Point(slot)] + WriteSteps(writes), c.served)
    case Wrote(n) => c.(tx := c.tx + [Tx.Wrote(n)])
    case Received(data, served) => c.(rx := c.rx + [Rx.Received(data)], served := served)
  }

  /** A request is only sent with room to spare in both callback queues; the kernel takes no more than
      there is; and the peer has sent no more than its answers to the requests it received in full. */
  ghost predicate Possible(c: Conn, step: Step, cap: nat)
    requires cap > 0 && Tx.Replay(c.tx, cap).Some?
  {
    && Tx.Replay(Next(c, step, cap).tx, cap).Some?
    && match step
       case Send(e, _) => WellFormed(e) && |RxOf(c, cap).ops| + 1 < cap && |Tx.Replay(c.tx, cap).value.cbs| + 1 < cap
       case Wrote(_) => true
       case Received(data, served) =>
         && served <= |c.es| && Size(c.es[..served]) <= |Tx.Replay(c.tx, cap).value.sent|
         && Rx.BytesOf(c.rx) + data <= Answers(c.es[..served])
  }

  /** The callback points set so far: each request's slot, at the end of that request in the stream. */
  ghost predicate PointsMatch(points: seq<Tx.PointSet>, es: seq<Exchange>, cap: nat)
    requires cap > 0
  {
    && |points| == |es|
    && forall i :: 0 <= i < |es| ==>
         points[i].target == Tx.Target(i % cap, Size(es[..i + 1])) && points[i].sent < points[i].target.at
  }

  /** The receiving half has exactly the reads of these exchanges, and room in its queue. */
  ghost predicate LinkedRx(es: seq<Exchange>, rx: seq<Rx.RxStep>, cap: nat)
    requires cap > 0
  {
    |Rx.Replay(rx, cap).ops| < cap && Rx.OpsOf(rx) == OpsFrom(es, 0, cap)
  }

  /** The transmitting half has written exactly these requests, with a point after each. */
  ghost predicate LinkedTx(es: seq<Exchange>, tx: seq<Tx.TxStep>, cap: nat)
    requires cap > 0
  {
    && Tx.Replay(tx, cap).Some? && |Tx.Replay(tx, cap).value.cbs| < cap
    && |Tx.WrittenOf(tx)| == Size(es) && PointsMatch(Tx.PointsOf(tx, cap), es, cap)
  }

  /** What every run keeps. */
  ghost predicate Linked(c: Conn, cap: nat)
    requires cap > 0
  {
    && LinkedRx(c.es, c.rx, cap) && LinkedTx(c.es, c.tx, cap)
    && (forall i :: 0 <= i < |c.es| ==> WellFormed(c.es[i]))
    && c.served <= |c.es| && Size(c.es[..c.served]) <= |Tx.Replay(c.tx, cap).value.sent|
    && Rx.BytesOf(c.rx) <= Answers(c.es[..c.served])
  }

  lemma {:induction false} OpsFromSnoc(es: seq<Exchange>, e: Exchange, from: nat, cap: nat)
    requires cap > 0
    ensures OpsFrom(es + [e], from, cap) == OpsFrom(es, from, cap) + [OpOf(e.kind, (from + |es|) % cap)]
    decreases |es|
  {
    if es == [] {
      assert [e][1..] == [];
    } else {
      assert (es + [e])[1..] == es[1..] + [e];
      OpsFromSnoc(es[1..], e, from + 1, cap);
    }
  }

  /** Writing changes neither what was written nor the points; it only moves bytes to the kernel. */
  lemma {:induction false} WritesKeepPoints(tx: seq<Tx.TxStep>, ns: seq<nat>, cap: nat)
    requires cap > 0 && Tx.Replay(tx + WriteSteps(ns), cap).Some?
    ensures Tx.Replay(tx, cap).Some?
    ensures Tx.WrittenOf(tx + WriteSteps(ns)) == Tx.WrittenOf(tx)
    ensures Tx.PointsOf(tx + WriteSteps(ns), cap) == Tx.PointsOf(tx, cap)
    ensures var t, u := Tx.Replay(tx, cap).value, Tx.Replay(tx + WriteSteps(ns), cap).value;
            |t.sent| <= |u.sent| && |u.cbs| <= |t.cbs|
    decreases |ns|
  {
    if ns == [] {
      assert tx + [] == tx;
    } else {
      var k := |ns| - 1;
      var before := tx + WriteSteps(ns[..k]);
      assert tx + WriteSteps(ns) == before + [Tx.Wrote(ns[k])];
      Tx.OneMoreStep(before, Tx.Wrote(ns[k]), cap);
      WritesKeepPoints(tx, ns[..k], cap);
      WriteShrinks(Tx.Replay(before, cap).value, ns[k], cap);
    }
  }

  lemma WriteShrinks(s: Tx.TxState, n: nat, cap: nat)
    requires Tx.TxInv(s, cap) && n <= |s.pending|
    ensures |Tx.AfterWrite(s, n, cap).cbs| <= |s.cbs| && |Tx.AfterWrite(s, n, cap).sent| == |s.sent| + n
  {
  }

  lemma SizeSnoc(es: seq<Exchange>, e: Exchange)
    ensures Size(es + [e]) == Size(es) + |e.request|
  {
    assert (es + [e])[..|es|] == es;
  }

  lemma PointsMatchSnoc(points: seq<Tx.PointSet>, es: seq<Exchange>, p: Tx.PointSet, e: Exchange, cap: nat)
    requires cap > 0 && PointsMatch(points, es, cap)
    requires p.target == Tx.Target(|es| % cap, Size(es) + |e.request|) && p.sent < p.target.at
    ensures PointsMatch(points + [p], es + [e], cap)
  {
    SizeSnoc(es, e);
    forall i | 0 <= i < |es| + 1
      ensures (points + [p])[i].target == Tx.Target(i % cap, Size((es + [e])[..i + 1]))
    {
      if i < |es| {
        assert (es + [e])[..i + 1] == es[..i + 1];
      } else {
        assert (es + [e])[..i + 1] == es + [e];
      }
    }
  }

  /** Writing a request and setting its point. */
  lemma RequestKeepsTx(es: seq<Exchange>, tx: seq<Tx.TxStep>, e: Exchange, cap: nat)
    requires cap > 0 && LinkedTx(es, tx, cap) && e.request != []
    requires |Tx.Replay(tx, cap).value.cbs| + 1 < cap
    ensures var tx2 := tx + [Tx.Commit(e.request)] + [Tx.Point(|es| % cap)];
            LinkedTx(es + [e], tx2, cap) && Tx.Replay(tx2, cap).value.sent == Tx.Replay(tx, cap).value.sent
  {
    var slot := |es| % cap;
    var tx1 := tx + [Tx.Commit(e.request)];
    Tx.OneMoreStep(tx, Tx.Commit(e.request), cap);
    Tx.OneMoreStep(tx1, Tx.Point(slot), cap);
    Tx.StreamIsFaithful(tx, cap);
    SizeSnoc(es, e);
    var sent := |Tx.Replay(tx, cap).value.sent|;
    PointsMatchSnoc(Tx.PointsOf(tx, cap), es, Tx.PointSet(Tx.Target(slot, |Tx.WrittenOf(tx1)|), sent), e, cap);
  }

  lemma WritesKeepTx(es: seq<Exchange>, tx: seq<Tx.TxStep>, ns: seq<nat>, cap: nat)
    requires cap > 0 && LinkedTx(es, tx, cap) && Tx.Replay(tx + WriteSteps(ns), cap).Some?
    ensures LinkedTx(es, tx + WriteSteps(ns), cap)
    ensures |Tx.Replay(tx, cap).value.sent| <= |Tx.Replay(tx + WriteSteps(ns), cap).value.sent|
  {
    WritesKeepPoints(tx, ns, cap);
  }

  lemma ReadKeepsRx(es: seq<Exchange>, rx: seq<Rx.RxStep>, e: Exchange, cap: nat)
    requires cap > 0 && LinkedRx(es, rx, cap) && |Rx.Replay(rx, cap).ops| + 1 < cap
    ensures var read := Rx.Read(OpOf(e.kind, |es| % cap));
            LinkedRx(es + [e], rx + [read], cap) && Rx.BytesOf(rx + [read]) == Rx.BytesOf(rx)
  {
    var op := OpOf(e.kind, |es| % cap);
    OpsFromSnoc(es, e, 0, cap);
    OneMoreRead(rx, op, cap);
  }

  lemma OneMoreRead(rx: seq<Rx.RxStep>, op: Rx.IORx, cap: nat)
    ensures Rx.Replay(rx + [Rx.Read(op)], cap) == Rx.Enqueue(Rx.Replay(rx, cap), op)
    ensures Rx.OpsOf(rx + [Rx.Read(op)]) == Rx.OpsOf(rx) + [op]
    ensures Rx.BytesOf(rx + [Rx.Read(op)]) == Rx.BytesOf(rx)
  {
    Rx.OneMoreStep(rx, Rx.Read(op), cap);
  }

  lemma ReceivedKeepsRx(es: seq<Exchange>, rx: seq<Rx.RxStep>, data: seq<byte>, cap: nat)
    requires cap > 0 && LinkedRx(es, rx, cap)
    ensures LinkedRx(es, rx + [Rx.Received(data)], cap)
    ensures Rx.BytesOf(rx + [Rx.Received(data)]) == Rx.BytesOf(rx) + data
  {
    Rx.OneMoreStep(rx, Rx.Received(data), cap);
    var s := Rx.Replay(rx, cap);
    Rx.DrainShrinks(s.(buf := s.buf + data));
  }

  lemma SendKeepsLinked(c: Conn, e: Exchange, writes: seq<nat>, cap: nat)
    requires cap > 0 && Linked(c, cap) && Possible(c, Send(e, writes), cap)
    ensures Linked(Next(c, Send(e, writes), cap), cap)
  {
    RequestKeepsTx(c.es, c.tx, e, cap);
    WritesKeepTx(c.es + [e], c.tx + [Tx.Commit(e.request)] + [Tx.Point(|c.es| % cap)], writes, cap);
    ReadKeepsRx(c.es, c.rx, e, cap);
    assert (c.es + [e])[..c.served] == c.es[..c.served];
  }

  lemma StepKeepsLinked(c: Conn, step: Step, cap: nat)
    requires cap > 0 && Linked(c, cap) && Possible(c, step, cap)
    ensures Linked(Next(c, step, cap), cap)
  {
    match step
    case Send(e, writes) => SendKeepsLinked(c, e, writes, cap);
    case Wrote(n) =>
      assert WriteSteps([n]) == [Tx.Wrote(n)];
      WritesKeepTx(c.es, c.tx, [n], cap);
    case Received(data, served) => ReceivedKeepsRx(c.es, c.rx, data, cap);
  }

  /** A connection that some run leads to. */
  ghost predicate Reached(c: Conn, run: seq<Step>, cap: nat)
    requires cap > 0
    decreases |run|
  {
    if run == [] then c == Conn([], [], [], 0)
    else exists b :: Reached(b, run[..|run| - 1], cap) && Tx.Replay(b.tx, cap).Some?
                     && Possible(b, run[|run| - 1], cap) && c == Next(b, run[|run| - 1], cap)
  }

  lemma {:induction false} ReachedIsLinked(c: Conn, run: seq<Step>, cap: nat)
    requires cap > 0 && Reached(c, run, cap)
    ensures Linked(c, cap)
    decreases |run|
  {
    if run == [] {
      assert Tx.PointsOf([], cap) == [];
    } else {
      var last := run[|run| - 1];
      var b :| Reached(b, run[..|run| - 1], cap) && Tx.Replay(b.tx, cap).Some? && Possible(b, last, cap)
               && c == Next(b, last, cap);
      ReachedIsLinked(b, run[..|run| - 1], cap);
      StepKeepsLinked(b, last, cap);
    }
  }

  // ---------- What the runs guarantee ----------

  function Answered(c: Conn, cap: nat): nat {
    |RxOf(c, cap).log|
  }

  /** How many requests have had their transmit callback. */
  function Stamped(c: Conn, cap: nat): nat
    requires cap > 0 && Tx.Replay(c.tx, cap).Some?
  {
    |Tx.Replay(c.tx, cap).value.fired|
  }

  lemma {:induction false} HeaderEventsPrefix(es: seq<Exchange>, from: nat, cap: nat, k: nat)
    requires cap > 0 && k <= |es|
    ensures HeaderEvents(es[..k], from, cap) == HeaderEvents(es, from, cap)[..k]
    decreases |es|
  {
    if k > 0 {
      assert es[..k][1..] == es[1..][..k - 1];
      HeaderEventsPrefix(es[1..], from + 1, cap, k - 1);
    } else {
      assert es[..0] == [];
    }
  }

  lemma {:induction false} HeaderEventAt(es: seq<Exchange>, from: nat, cap: nat, k: nat)
    requires cap > 0 && k < |es|
    ensures HeaderEvents(es, from, cap)[k] == Rx.Header((from + k) % cap, es[k].header)
    decreases k
  {
    if k > 0 {
      HeaderEventAt(es[1..], from + 1, cap, k - 1);
    }
  }

  /** The answers handed out so far are those of the first exchanges, in order, each with its own slot
      and its own header, and the peer had received all of those requests. */
  lemma AnsweredInOrder(c: Conn, cap: nat)
    requires cap > 0 && Linked(c, cap)
    ensures Answered(c, cap) <= c.served
    ensures RxOf(c, cap).log == HeaderEvents(c.es[..Answered(c, cap)], 0, cap)
  {
    var s := RxOf(c, cap);
    var m := ParseOfAnswers(c.es, 0, cap, Rx.BytesOf(c.rx), c.served);
    Rx.NothingLost(c.rx, cap, [], []);
    assert Rx.OpsOf(c.rx) + [] == Rx.OpsOf(c.rx) && Rx.BytesOf(c.rx) + [] == Rx.BytesOf(c.rx);
    var owed := Rx.Parse(s.ops + [], s.buf + []).events;
    assert s.log + owed == HeaderEvents(c.es[..m], 0, cap);
    assert s.log == HeaderEvents(c.es[..m], 0, cap)[..|s.log|];
    HeaderEventsPrefix(c.es[..m], 0, cap, |s.log|);
    assert c.es[..m][..|s.log|] == c.es[..|s.log|];
  }

  lemma {:induction false} SizeGrows(es: seq<Exchange>, k: nat)
    requires k <= |es|
    ensures Size(es[..k]) <= Size(es)
    decreases |es| - k
  {
    if k == |es| {
      assert es[..k] == es;
    } else {
      var longer := es[..k + 1];
      assert longer[..|longer| - 1] == es[..k];
      SizeGrows(es, k + 1);
    }
  }

  /** A waiting point set with bytes unsent before it lies beyond what has been sent. */
  lemma WaitingIsBeyond(cbs: seq<Tx.IOTx>, sent: nat, points: seq<Tx.PointSet>, i: nat)
    requires Tx.AllWaiting(cbs, sent, points) && i < |points| && points[i].sent < points[i].target.at
    ensures points[i].target.at > sent
  {
    Tx.TargetsFrom(cbs, sent);
    assert Tx.Targets(cbs, sent)[i] == points[i].target;
  }

  /** A request whose callback has not run is not yet sent in full. */
  lemma UnstampedIsUnsent(c: Conn, cap: nat, i: nat)
    requires cap > 0 && Linked(c, cap) && Stamped(c, cap) <= i < |c.es|
    ensures Size(c.es[..i + 1]) > |Tx.Replay(c.tx, cap).value.sent|
  {
    var t, points := Tx.Replay(c.tx, cap).value, Tx.PointsOf(c.tx, cap);
    Tx.DeltasRefinePositions(c.tx, cap);
    WaitingIsAhead(t, points, i);
  }

  lemma WaitingIsAhead(t: Tx.TxState, points: seq<Tx.PointSet>, i: nat)
    requires Tx.Refines(t, points) && |t.fired| <= i < |points| && points[i].sent < points[i].target.at
    ensures points[i].target.at > |t.sent|
  {
    var k := |t.fired|;
    assert points[k..][i - k] == points[i];
    WaitingIsBeyond(t.cbs, |t.sent|, points[k..], i - k);
  }

  /** Every request that the peer has received in full has had its transmit callback. */
  lemma ServedAreStamped(c: Conn, cap: nat)
    requires cap > 0 && Linked(c, cap)
    ensures c.served <= Stamped(c, cap) <= |c.es|
  {
    Tx.DeltasRefinePositions(c.tx, cap);
    var k := Stamped(c, cap);
    if k < c.served {
      assert c.es[..c.served][..k + 1] == c.es[..k + 1];
      SizeGrows(c.es[..c.served], k + 1);
      UnstampedIsUnsent(c, cap, k);
    }
  }

  /** The transmit callbacks run in the order of the requests, each with its own slot. */
  lemma StampedInOrder(c: Conn, cap: nat, i: nat)
    requires cap > 0 && Linked(c, cap) && i < Stamped(c, cap)
    ensures i < |c.es| && Tx.Replay(c.tx, cap).value.fired[i].cbdata == i % cap
  {
    var t, points := Tx.Replay(c.tx, cap).value, Tx.PointsOf(c.tx, cap);
    Tx.DeltasRefinePositions(c.tx, cap);
    assert Tx.FirstReached(t.fired[i], points[..|t.fired|][i]);
  }

  /** Every answered request has already had its transmit callback run. */
  lemma AnsweredAreStamped(c: Conn, cap: nat)
    requires cap > 0 && Linked(c, cap)
    ensures Answered(c, cap) <= Stamped(c, cap) <= |c.es|
  {
    AnsweredInOrder(c, cap);
    ServedAreStamped(c, cap);
  }

  // ---------- The read queue and the request ring ----------

  /** The arguments of the queued reads whose header has not been parsed. */
  function Unparsed(ops: seq<Rx.IORx>): seq<nat>
    decreases |ops|
  {
    if ops == [] then [] else (if ops[0].hdrlen > 0 then [ops[0].cbdata] else []) + Unparsed(ops[1..])
  }

  function Arguments(log: seq<Rx.Event>): (a: seq<nat>)
    ensures |a| == |log|
  {
    seq(|log|, i requires 0 <= i < |log| => log[i].cbdata)
  }

  ghost predicate HeadersOnly(ops: seq<Rx.IORx>) {
    forall i :: 0 <= i < |ops| ==> ops[i].hdrcb.Some? && !ops[i].bodycb
  }

  lemma ServeKeepsOrder(op: Rx.IORx, buf: seq<byte>)
    requires op.hdrcb.Some? && !op.bodycb
    ensures var v := Rx.Serve(op, buf);
            && v.op.hdrcb.Some? && !v.op.bodycb
            && Arguments(v.events) + (if v.stuck && v.op.hdrlen > 0 then [v.op.cbdata] else []) ==
               (if op.hdrlen > 0 then [op.cbdata] else [])
  {
  }

  /** A pass moves arguments from the unparsed reads to the callbacks, in order. */
  lemma {:induction false} DrainKeepsOrder(s: Rx.RxState)
    requires HeadersOnly(s.ops)
    ensures var d := Rx.Drain(s);
            Arguments(d.log) + Unparsed(d.ops) == Arguments(s.log) + Unparsed(s.ops) && HeadersOnly(d.ops)
    decreases |s.ops|
  {
    if s.ops != [] {
      var v := Rx.Serve(s.ops[0], s.buf);
      var rest := s.ops[1..];
      ServeKeepsOrder(s.ops[0], s.buf);
      MoveArguments(s.log, v.events, if v.stuck && v.op.hdrlen > 0 then [v.op.cbdata] else [],
                    if s.ops[0].hdrlen > 0 then [s.ops[0].cbdata] else [], Unparsed(rest));
      if v.stuck {
        assert ([v.op] + rest)[1..] == rest;
      } else {
        assert [] + Unparsed(rest) == Unparsed(rest);
        DrainKeepsOrder(Rx.RxState(rest, v.buf, s.log + v.events));
      }
    }
  }

  lemma MoveArguments(log: seq<Rx.Event>, ev: seq<Rx.Event>, left: seq<nat>, first: seq<nat>, rest: seq<nat>)
    requires Arguments(ev) + left == first
    ensures Arguments(log + ev) + (left + rest) == Arguments(log) + (first + rest)
  {
    assert Arguments(log + ev) == Arguments(log) + Arguments(ev);
  }

  lemma {:induction false} UnparsedSnoc(ops: seq<Rx.IORx>, op: Rx.IORx)
    requires op.hdrlen > 0
    ensures Unparsed(ops + [op]) == Unparsed(ops) + [op.cbdata]
    decreases |ops|
  {
    if ops == [] {
      assert ([] + [op])[1..] == [];
    } else {
      assert (ops + [op])[1..] == ops[1..] + [op];
      UnparsedSnoc(ops[1..], op);
    }
  }

  ghost predicate AskForHeaders(ops: seq<Rx.IORx>) {
    forall i :: 0 <= i < |ops| ==> ops[i].hdrcb.Some? && !ops[i].bodycb && ops[i].hdrlen > 0
  }

  /** The arguments of the callbacks that ran, then those of the unparsed reads, are those of `ops`. */
  ghost predicate InOrder(s: Rx.RxState, ops: seq<Rx.IORx>) {
    HeadersOnly(s.ops) && Arguments(s.log) + Unparsed(s.ops) == Unparsed(ops)
  }

  lemma EnqueueKeepsOrder(s: Rx.RxState, ops: seq<Rx.IORx>, op: Rx.IORx)
    requires InOrder(s, ops) && op.hdrcb.Some? && !op.bodycb && op.hdrlen > 0
    ensures InOrder(Rx.Enqueue(s, op), ops + [op])
  {
    UnparsedSnoc(s.ops, op);
    UnparsedSnoc(ops, op);
    assert Arguments(s.log) + (Unparsed(s.ops) + [op.cbdata]) == Unparsed(ops) + [op.cbdata];
  }

  lemma AskedBefore(ops: seq<Rx.IORx>, op: Rx.IORx)
    requires AskForHeaders(ops + [op])
    ensures AskForHeaders(ops) && op.hdrcb.Some? && !op.bodycb && op.hdrlen > 0
  {
    assert forall i :: 0 <= i < |ops| ==> ops[i] == (ops + [op])[i];
    assert (ops + [op])[|ops|] == op;
  }

  /** Callbacks run and unparsed reads together are the reads ever queued, in order. */
  lemma {:induction false} OrderIsKept(rx: seq<Rx.RxStep>, cap: nat)
    requires AskForHeaders(Rx.OpsOf(rx))
    ensures InOrder(Rx.Replay(rx, cap), Rx.OpsOf(rx))
    decreases |rx|
  {
    if rx != [] {
      var before, last := rx[..|rx| - 1], rx[|rx| - 1];
      var s := Rx.Replay(before, cap);
      Rx.OneMoreStep(before, last, cap);
      assert rx == before + [last];
      match last
      case Read(op) =>
        AskedBefore(Rx.OpsOf(before), op);
        OrderIsKept(before, cap);
        EnqueueKeepsOrder(s, Rx.OpsOf(before), op);
      case Received(data) =>
        OrderIsKept(before, cap);
        DrainKeepsOrder(s.(buf := s.buf + data));
    }
  }

  lemma {:induction false} SlotsOf(es: seq<Exchange>, from: nat, cap: nat)
    requires cap > 0
    ensures |Unparsed(OpsFrom(es, from, cap))| == |es|
    ensures forall i :: 0 <= i < |es| ==> Unparsed(OpsFrom(es, from, cap))[i] == (from + i) % cap
    ensures AskForHeaders(OpsFrom(es, from, cap))
    decreases |es|
  {
    if es != [] {
      SlotsOf(es[1..], from + 1, cap);
      var ops, later := OpsFrom(es, from, cap), OpsFrom(es[1..], from + 1, cap);
      assert ops[1..] == later;
      assert Unparsed(ops) == [from % cap] + Unparsed(later);
      forall i | 1 <= i < |es|
        ensures Unparsed(ops)[i] == (from + i) % cap && ops[i] == later[i - 1]
      {
        assert Unparsed(later)[i - 1] == (from + 1 + (i - 1)) % cap;
      }
    }
  }

  /** The unparsed reads are those of the exchanges that have not been answered. */
  lemma UnparsedAreLast(es: seq<Exchange>, rx: seq<Rx.RxStep>, cap: nat)
    requires cap > 0 && LinkedRx(es, rx, cap)
    ensures var s := Rx.Replay(rx, cap);
            && |s.log| <= |es| == |Unparsed(OpsFrom(es, 0, cap))|
            && Unparsed(s.ops) == Unparsed(OpsFrom(es, 0, cap))[|s.log|..]
            && |es| - |s.log| <= |s.ops|
  {
    var s := Rx.Replay(rx, cap);
    SlotsOf(es, 0, cap);
    OrderIsKept(rx, cap);
    UnparsedIsShort(s.ops);
    assert Arguments(s.log) + Unparsed(s.ops) == Unparsed(OpsFrom(es, 0, cap));
  }

  lemma LastAreLive(es: seq<Exchange>, a: nat, cap: nat)
    requires cap > 0 && a <= |es| && |es| - a <= cap
    ensures |Unparsed(OpsFrom(es, 0, cap))| == |es|
    ensures a % cap < cap && Unparsed(OpsFrom(es, 0, cap))[a..] == LiveSlotsOf(a % cap, |es| - a, cap)
  {
    SlotsOf(es, 0, cap);
    var all := Unparsed(OpsFrom(es, 0, cap));
    forall i | 0 <= i < |es| - a
      ensures all[a..][i] == SlotOf(a % cap, i, cap)
    {
      assert all[a..][i] == all[a + i];
      WrapIsMod(a, i, cap);
    }
  }

  /** Lockstep: the slots of the unanswered requests, in ring order, are the arguments of the queued
      reads whose header has not been parsed. */
  lemma ReadsMatchRequests(c: Conn, cap: nat)
    requires cap > 0 && Linked(c, cap)
    ensures var a := Answered(c, cap);
            a <= |c.es| && |c.es| - a <= cap && a % cap < cap &&
            Unparsed(RxOf(c, cap).ops) == LiveSlotsOf(a % cap, |c.es| - a, cap)
  {
    UnparsedAreLast(c.es, c.rx, cap);
    LastAreLive(c.es, Answered(c, cap), cap);
  }

  lemma {:induction false} UnparsedIsShort(ops: seq<Rx.IORx>)
    ensures |Unparsed(ops)| <= |ops|
    decreases |ops|
  {
    if ops != [] {
      UnparsedIsShort(ops[1..]);
    }
  }

  // ---------- Room to receive ----------

  /** With no read queued, no byte is left in the receive buffer. */
  lemma IdleIsEmpty(c: Conn, cap: nat)
    requires cap > 0 && Linked(c, cap) && RxOf(c, cap).ops == []
    ensures RxOf(c, cap).buf == []
  {
    var s := RxOf(c, cap);
    var m := ParseOfAnswers(c.es, 0, cap, Rx.BytesOf(c.rx), c.served);
    Rx.NothingLost(c.rx, cap, [], []);
    assert Rx.OpsOf(c.rx) + [] == Rx.OpsOf(c.rx) && Rx.BytesOf(c.rx) + [] == Rx.BytesOf(c.rx);
    assert Rx.Parse(s.ops + [], s.buf + []).rest == s.buf;
  }

  /** A buffer that holds one header never wedges the receive loop: whenever a read is queued there is
      free space, however long the bodies to skip are. */
  lemma {:induction false} ConnectionNeverWedges(c: Conn, run: seq<Step>, cap: nat, bufcap: nat)
    requires cap > 0 && bufcap >= HEADER_SIZE && Reached(c, run, cap)
    ensures Rx.HasRoom(RxOf(c, cap), bufcap)
    ensures forall op <- RxOf(c, cap).ops :: Rx.Sized(op, bufcap)
    decreases |run|
  {
    if run != [] {
      var last := run[|run| - 1];
      var b :| Reached(b, run[..|run| - 1], cap) && Tx.Replay(b.tx, cap).Some? && Possible(b, last, cap)
               && c == Next(b, last, cap);
      ConnectionNeverWedges(b, run[..|run| - 1], cap, bufcap);
      ReachedIsLinked(b, run[..|run| - 1], cap);
      StepLeavesRoom(b, last, cap, bufcap);
    }
  }

  lemma StepLeavesRoom(b: Conn, step: Step, cap: nat, bufcap: nat)
    requires cap > 0 && bufcap >= HEADER_SIZE && Linked(b, cap) && Possible(b, step, cap)
    requires Rx.HasRoom(RxOf(b, cap), bufcap) && forall op <- RxOf(b, cap).ops :: Rx.Sized(op, bufcap)
    ensures Rx.HasRoom(RxOf(Next(b, step, cap), cap), bufcap)
    ensures forall op <- RxOf(Next(b, step, cap), cap).ops :: Rx.Sized(op, bufcap)
  {
    var s := RxOf(b, cap);
    match step
    case Send(e, _) =>
      Rx.OneMoreStep(b.rx, Rx.Read(OpOf(e.kind, |b.es| % cap)), cap);
      if s.ops == [] {
        IdleIsEmpty(b, cap);
      }
    case Wrote(_) =>
    case Received(data, _) =>
      Rx.OneMoreStep(b.rx, Rx.Received(data), cap);
      Rx.DrainMakesRoom(s.(buf := s.buf + data), bufcap);
  }

  // ---------- Where the answers lie in the receive ring ----------

  /** How many bytes of the header of answer `i` lie in front of the end of a ring of `bufcap` bytes. */
  function CutAt(es: seq<Exchange>, i: nat, bufcap: nat): nat
    requires i < |es| && bufcap > 0
  {
    Min(HeaderLength(es[i].kind), bufcap - |Answers(es[..i])| % bufcap)
  }

  /** Answer `i` lies across the end of the ring: its place in the stream of all answers tells. */
  predicate Straddles(es: seq<Exchange>, i: nat, bufcap: nat)
    requires i < |es| && bufcap > 0
  {
    |Answers(es[..i])| % bufcap + HeaderLength(es[i].kind) > bufcap
  }

  function CutsFrom(es: seq<Exchange>, from: nat, upTo: nat, bufcap: nat): (cuts: seq<nat>)
    requires from <= upTo <= |es| && bufcap > 0
    ensures |cuts| == upTo - from
    decreases upTo - from
  {
    if from == upTo then [] else [CutAt(es, from, bufcap)] + CutsFrom(es, from + 1, upTo, bufcap)
  }

  lemma {:induction false} AnswersAppend(a: seq<Exchange>, b: seq<Exchange>)
    ensures Answers(a + b) == Answers(a) + Answers(b)
    decreases |a|
  {
    if a == [] {
      assert a + b == b;
    } else {
      assert (a + b)[1..] == a[1..] + b;
      AnswersAppend(a[1..], b);
      var first := a[0].header + a[0].body;
      assert first + (Answers(a[1..]) + Answers(b)) == first + Answers(a[1..]) + Answers(b);
    }
  }

  /** What is left of the answer stream after the first `i` answers begins with the next one. */
  lemma NextAnswer(es: seq<Exchange>, i: nat)
    requires i < |es|
    ensures Answers(es[i..]) == es[i].header + es[i].body + Answers(es[i + 1..])
    ensures |Answers(es[..i + 1])| == |Answers(es[..i])| + |es[i].header| + |es[i].body|
  {
    assert es[i..][1..] == es[i + 1..];
    assert es[..i + 1] == es[..i] + [es[i]];
    AnswersAppend(es[..i], [es[i]]);
    assert [es[i]][1..] == [] && Answers([]) == [];
  }

  /** The header is done, and part of a body that nobody wants is still to come. */
  predicate Skipping(op: Rx.IORx) {
    op.hdrlen == 0 && op.bodylen > 0 && !op.bodycb
  }

  /** The reads are those of exchanges `i` up to `n`, behind the rest of the body of the last answer, if that
      is still being skipped; `left` is how much of it is missing. */
  ghost predicate Reading(ops: seq<Rx.IORx>, es: seq<Exchange>, i: nat, n: nat, left: nat, cap: nat)
    requires cap > 0
  {
    && i <= n <= |es|
    && if left == 0 then ops == OpsFrom(es[i..n], i, cap)
       else ops != [] && Skipping(ops[0]) && ops[0].bodylen == left && ops[1..] == OpsFrom(es[i..n], i, cap)
  }

  /** All answers before `i` have been used up, except for `left` bytes, and the buffer goes on from there. */
  ghost predicate Aligned(s: Rx.RxState, es: seq<Exchange>, i: nat, n: nat, left: nat, used: nat, cap: nat)
    requires cap > 0
  {
    && Reading(s.ops, es, i, n, left, cap)
    && |s.log| == i
    && used + left == |Answers(es[..i])|
    && if |s.buf| <= left then true else s.buf[left..] <= Answers(es[i..])
  }

  lemma ReadingNext(es: seq<Exchange>, i: nat, n: nat, cap: nat)
    requires cap > 0 && i < n <= |es|
    ensures OpsFrom(es[i..n], i, cap) == [OpOf(es[i].kind, i % cap)] + OpsFrom(es[i + 1..n], i + 1, cap)
  {
    assert es[i..n][1..] == es[i + 1..n];
  }

  /** The front operation is skipping a body: it uses up what there is of it. */
  lemma SkippingIsAligned(s: Rx.RxState, es: seq<Exchange>, i: nat, n: nat, left: nat, used: nat, cap: nat)
    requires cap > 0 && Aligned(s, es, i, n, left, used, cap) && left > 0
    ensures var v := Rx.Serve(s.ops[0], s.buf);
            && v.events == [] && Rx.HeaderCut(s.ops[0], s.buf, used, 1) == []
            && (v.stuck <==> |s.buf| < left)
            && if v.stuck then v.op == s.ops[0].(bodylen := left - |s.buf|) && v.buf == []
               else v.buf == s.buf[left..]
  {
  }

  /** The front operation is at its header. */
  lemma HeaderIsAligned(s: Rx.RxState, es: seq<Exchange>, i: nat, n: nat, used: nat, cap: nat)
    requires cap > 0 && Aligned(s, es, i, n, 0, used, cap) && i < n && WellFormed(es[i])
    ensures var e, v := es[i], Rx.Serve(s.ops[0], s.buf);
            var h, b := |e.header|, |e.body|;
            if |s.buf| < h then v.stuck && v.op == s.ops[0] && v.buf == s.buf && v.events == []
            else
              && |v.events| == 1
              && (v.stuck <==> |s.buf| < h + b)
              && if v.stuck then Skipping(v.op) && v.op.bodylen == h + b - |s.buf| && v.buf == []
                 else v.buf == s.buf[h + b..]
  {
    ReadingNext(es, i, n, cap);
    NextAnswer(es, i);
    WellFormedIs(es[i]);
    var e := es[i];
    assert s.buf[0..] == s.buf;
    if |s.buf| >= |e.header| {
      assert s.buf[..|e.header|] == Answers(es[i..])[..|e.header|] == e.header;
    }
  }

  ghost predicate AllWellFormed(es: seq<Exchange>) {
    forall i :: 0 <= i < |es| ==> WellFormed(es[i])
  }

  /** One step of a pass: the front operation gets stuck, or the rest of the pass begins aligned as well. */
  lemma ServeAligned(s: Rx.RxState, next: Rx.RxState, cut: seq<nat>,
                     es: seq<Exchange>, i: nat, n: nat, left: nat, used: nat, used1: nat, cap: nat, bufcap: nat)
    returns (j: nat, left2: nat)
    requires cap > 0 && bufcap > 0 && Aligned(s, es, i, n, left, used, cap) && AllWellFormed(es) && s.ops != []
    requires |next.buf| <= |s.buf| && used1 == used + |s.buf| - |next.buf|
    requires next == Served(s) && cut == Rx.HeaderCut(s.ops[0], s.buf, used, bufcap)
    ensures i <= j <= n
    ensures cut == CutsFrom(es, i, j, bufcap)
    ensures Aligned(next, es, j, n, left2, used1, cap)
  {
    var v := Rx.Serve(s.ops[0], s.buf);
    if left > 0 {
      SkippingIsAligned(s, es, i, n, left, used, cap);
      j, left2 := i, if v.stuck then left - |s.buf| else 0;
      assert v.buf[0..] == v.buf;
    } else {
      assert es[i..i] == [];
      ReadingNext(es, i, n, cap);
      HeaderIsAligned(s, es, i, n, used, cap);
      NextAnswer(es, i);
      var h, b := |es[i].header|, |es[i].body|;
      if |s.buf| < h {
        j, left2 := i, 0;
      } else {
        j, left2 := i + 1, if v.stuck then h + b - |s.buf| else 0;
        assert CutsFrom(es, i, i + 1, bufcap) == [CutAt(es, i, bufcap)];
        if !v.stuck {
          assert s.buf[0..] == s.buf && v.buf[0..] == v.buf;
          assert v.buf <= Answers(es[i..])[h + b..] == Answers(es[i + 1..]);
        }
      }
    }
  }

  lemma {:induction false} CutsJoin(es: seq<Exchange>, i: nat, j: nat, k: nat, bufcap: nat)
    requires i <= j <= k <= |es| && bufcap > 0
    ensures CutsFrom(es, i, j, bufcap) + CutsFrom(es, j, k, bufcap) == CutsFrom(es, i, k, bufcap)
    decreases j - i
  {
    if i == j {
      assert [] + CutsFrom(es, j, k, bufcap) == CutsFrom(es, j, k, bufcap);
    } else {
      CutsJoin(es, i + 1, j, k, bufcap);
      var first := [CutAt(es, i, bufcap)];
      assert first + CutsFrom(es, i + 1, j, bufcap) + CutsFrom(es, j, k, bufcap) ==
             first + (CutsFrom(es, i + 1, j, bufcap) + CutsFrom(es, j, k, bufcap));
    }
  }

  /** A pass is the first operation and, unless that gets stuck, the pass over the others. */
  lemma PassUnfolds(s: Rx.RxState, next: Rx.RxState, cut: seq<nat>, used: nat, used1: nat, bufcap: nat)
    returns (later: seq<nat>)
    requires bufcap > 0 && s.ops != [] && next == Served(s) && cut == Rx.HeaderCut(s.ops[0], s.buf, used, bufcap)
    requires used1 == used + |s.buf| - |next.buf|
    ensures Rx.Cuts(s, used, bufcap) == cut + later
    ensures if Rx.Serve(s.ops[0], s.buf).stuck then Rx.Drain(s) == next && later == []
            else Rx.Drain(s) == Rx.Drain(next) && later == Rx.Cuts(next, used1, bufcap)
  {
    later := [];
    if !Rx.Serve(s.ops[0], s.buf).stuck {
      later := Rx.Cuts(next, used1, bufcap);
    }
  }

  /** The state after the first operation of a pass. */
  function Served(s: Rx.RxState): Rx.RxState
    requires s.ops != []
  {
    var v := Rx.Serve(s.ops[0], s.buf);
    Rx.RxState(if v.stuck then [v.op] + s.ops[1..] else s.ops[1..], v.buf, s.log + v.events)
  }

  /** A pass keeps the connection aligned, and cuts each header as its place in the answer stream says. */
  lemma {:induction false} DrainAligned(s: Rx.RxState, d: Rx.RxState, cuts: seq<nat>,
                                        es: seq<Exchange>, i: nat, n: nat, left: nat, used: nat, cap: nat, bufcap: nat)
    returns (j: nat, left2: nat)
    requires cap > 0 && bufcap > 0 && Aligned(s, es, i, n, left, used, cap) && AllWellFormed(es)
    requires d == Rx.Drain(s) && cuts == Rx.Cuts(s, used, bufcap)
    ensures i <= j <= n && |d.buf| <= |s.buf|
    ensures Aligned(d, es, j, n, left2, used + |s.buf| - |d.buf|, cap)
    ensures cuts == CutsFrom(es, i, j, bufcap)
    decreases |s.ops|
  {
    if s.ops == [] {
      return i, left;
    }
    var next, cut := Served(s), Rx.HeaderCut(s.ops[0], s.buf, used, bufcap);
    Rx.BufferShrinks(s);
    Rx.BufferShrinks(next);
    assert |next.buf| <= |s.buf|;
    var used1 := used + |s.buf| - |next.buf|;
    var k, left1 := ServeAligned(s, next, cut, es, i, n, left, used, used1, cap, bufcap);
    var later := PassUnfolds(s, next, cut, used, used1, bufcap);
    if Rx.Serve(s.ops[0], s.buf).stuck {
      j, left2 := k, left1;
      NothingLater(cut, later);
    } else {
      j, left2 := DrainAligned(next, d, later, es, k, n, left1, used1, cap, bufcap);
      CutsJoin(es, i, k, j, bufcap);
    }
  }

  lemma NothingLater(a: seq<nat>, b: seq<nat>)
    requires b == []
    ensures a + b == a
  {
  }

  lemma ServedSuffix(s: Rx.RxState, next: Rx.RxState)
    requires s.ops != [] && next == Served(s)
    ensures |next.buf| <= |s.buf| && next.buf == s.buf[|s.buf| - |next.buf|..]
    ensures !Rx.Serve(s.ops[0], s.buf).stuck ==> |next.ops| < |s.ops|
  {
  }

  lemma DrainGoesOn(s: Rx.RxState, next: Rx.RxState)
    requires s.ops != [] && next == Served(s)
    ensures Rx.Drain(s) == if Rx.Serve(s.ops[0], s.buf).stuck then next else Rx.Drain(next)
  {
  }

  /** What a pass leaves in the buffer is the end of it. */
  lemma {:induction false} DrainSuffix(s: Rx.RxState, d: Rx.RxState)
    requires d == Rx.Drain(s)
    ensures |d.buf| <= |s.buf| && d.buf == s.buf[|s.buf| - |d.buf|..]
    decreases |s.ops|
  {
    if s.ops != [] {
      var next := Served(s);
      ServedSuffix(s, next);
      DrainGoesOn(s, next);
      if d != next {
        DrainSuffix(next, d);
        SuffixOfSuffix(s.buf, next.buf, |s.buf| - |next.buf|, d.buf);
      }
    }
  }

  lemma ReadAligned(s: Rx.RxState, op: Rx.IORx, es: seq<Exchange>, i: nat, n: nat, left: nat, used: nat, cap: nat)
    requires cap > 0 && n < |es| && Aligned(s, es, i, n, left, used, cap) && op == OpOf(es[n].kind, n % cap)
    ensures Aligned(Rx.Enqueue(s, op), es, i, n + 1, left, used, cap)
  {
    assert es[i..n + 1] == es[i..n] + [es[n]];
    OpsFromSnoc(es[i..n], es[n], i, cap);
    if left > 0 {
      assert (s.ops + [op])[1..] == s.ops[1..] + [op];
    }
  }

  /** What arrives goes on with the answer stream where the buffer ends. */
  lemma ArrivesAligned(s: Rx.RxState, data: seq<byte>, bytes: seq<byte>,
                       es: seq<Exchange>, i: nat, n: nat, left: nat, used: nat, cap: nat)
    requires cap > 0 && Aligned(s, es, i, n, left, used, cap) && used <= |bytes| && s.buf == bytes[used..]
    requires bytes + data <= Answers(es)
    ensures Aligned(s.(buf := s.buf + data), es, i, n, left, used, cap)
    ensures s.buf + data == (bytes + data)[used..]
  {
    var buf := s.buf + data;
    assert buf == (bytes + data)[used..];
    if |buf| > left {
      assert es == es[..i] + es[i..];
      AnswersAppend(es[..i], es[i..]);
      assert buf[left..] == (bytes + data)[used + left..];
      assert Answers(es)[used + left..] == Answers(es[i..]);
    }
  }

  lemma OpsFromAt(es: seq<Exchange>, from: nat, cap: nat, k: nat)
    requires cap > 0 && k < |es|
    ensures OpsFrom(es, from, cap)[k] == OpOf(es[k].kind, (from + k) % cap)
    decreases k
  {
    if k > 0 {
      OpsFromAt(es[1..], from + 1, cap, k - 1);
    }
  }

  /** The run is aligned after `bytes` and `n` reads, and the headers were cut in their places. */
  ghost predicate InPlace(t: Rx.Traced, bytes: seq<byte>, es: seq<Exchange>, i: nat, n: nat, left: nat,
                          cap: nat, bufcap: nat)
    requires cap > 0 && bufcap > 0
  {
    && i <= |es| && |t.s.buf| <= t.received == |bytes|
    && Aligned(t.s, es, i, n, left, t.received - |t.s.buf|, cap)
    && t.cuts == CutsFrom(es, 0, i, bufcap)
    && t.s.buf == bytes[t.received - |t.s.buf|..]
  }

  lemma ReceivedInPlace(t: Rx.Traced, u: Rx.Traced, data: seq<byte>, bytes: seq<byte>,
                        es: seq<Exchange>, i: nat, n: nat, left: nat, cap: nat, bufcap: nat)
    returns (j: nat, left2: nat)
    requires cap > 0 && bufcap > 0 && AllWellFormed(es)
    requires InPlace(t, bytes, es, i, n, left, cap, bufcap) && bytes + data <= Answers(es)
    requires u == Rx.TracedArrive(t, data, cap, bufcap)
    ensures InPlace(u, bytes + data, es, j, n, left2, cap, bufcap)
  {
    var used, s := t.received - |t.s.buf|, t.s.(buf := t.s.buf + data);
    var d, cuts := Rx.Drain(s), Rx.Cuts(s, used, bufcap);
    ArrivesAligned(t.s, data, bytes, es, i, n, left, used, cap);
    Rx.ArriveIs(t, s, d, cuts, data, cap, bufcap);
    j, left2 := i, left;
    if |s.ops| < cap {
      j, left2 := DrainedInPlace(s, d, cuts, t.cuts, bytes + data, es, i, n, left, used, cap, bufcap);
    }
  }

  lemma DrainedInPlace(s: Rx.RxState, d: Rx.RxState, cuts: seq<nat>, before: seq<nat>, bytes: seq<byte>,
                       es: seq<Exchange>, i: nat, n: nat, left: nat, used: nat, cap: nat, bufcap: nat)
    returns (j: nat, left2: nat)
    requires cap > 0 && bufcap > 0 && AllWellFormed(es) && Aligned(s, es, i, n, left, used, cap)
    requires d == Rx.Drain(s) && cuts == Rx.Cuts(s, used, bufcap) && before == CutsFrom(es, 0, i, bufcap)
    requires used <= |bytes| && s.buf == bytes[used..]
    ensures InPlace(Rx.Traced(d, before + cuts, |bytes|), bytes, es, j, n, left2, cap, bufcap)
  {
    j, left2 := DrainAligned(s, d, cuts, es, i, n, left, used, cap, bufcap);
    CutsJoin(es, 0, i, j, bufcap);
    DrainSuffix(s, d);
    SuffixOfSuffix(bytes, s.buf, used, d.buf);
  }

  lemma ReadInPlace(t: Rx.Traced, op: Rx.IORx, bytes: seq<byte>,
                    es: seq<Exchange>, i: nat, n: nat, left: nat, cap: nat, bufcap: nat)
    requires cap > 0 && bufcap > 0 && InPlace(t, bytes, es, i, n, left, cap, bufcap)
    requires n < |es| && op == OpsFrom(es, 0, cap)[n]
    ensures InPlace(t.(s := Rx.Enqueue(t.s, op)), bytes, es, i, n + 1, left, cap, bufcap)
  {
    OpsFromAt(es, 0, cap, n);
    ReadAligned(t.s, op, es, i, n, left, t.received - |t.s.buf|, cap);
  }

  lemma SuffixOfSuffix(a: seq<byte>, b: seq<byte>, k: nat, c: seq<byte>)
    requires k <= |a| && b == a[k..] && |c| <= |b| && c == b[|b| - |c|..]
    ensures c == a[|a| - |c|..]
  {
  }

  /** Every run stays aligned: its headers are cut where their place in the answer stream says. */
  lemma {:induction false} RunAligned(rx: seq<Rx.RxStep>, es: seq<Exchange>, cap: nat, bufcap: nat)
    returns (i: nat, left: nat)
    requires cap > 0 && bufcap > 0 && AllWellFormed(es)
    requires Rx.OpsOf(rx) <= OpsFrom(es, 0, cap) && Rx.BytesOf(rx) <= Answers(es)
    ensures InPlace(Rx.TracedReplay(rx, cap, bufcap), Rx.BytesOf(rx), es, i, |Rx.OpsOf(rx)|, left, cap, bufcap)
    decreases |rx|
  {
    if rx == [] {
      assert es[0..0] == [] && es[..0] == [];
      return 0, 0;
    }
    var before, last := rx[..|rx| - 1], rx[|rx| - 1];
    var n, t := |Rx.OpsOf(before)|, Rx.TracedReplay(before, cap, bufcap);
    assert rx == before + [last];
    Rx.OneMoreStep(before, last, cap);
    Rx.OneMoreTraced(before, last, cap, bufcap);
    assert Rx.OpsOf(before) <= Rx.OpsOf(rx) && Rx.BytesOf(before) <= Rx.BytesOf(rx);
    i, left := RunAligned(before, es, cap, bufcap);
    if last.Read? {
      assert last.op == Rx.OpsOf(rx)[n] == OpsFrom(es, 0, cap)[n];
      ReadInPlace(t, last.op, Rx.BytesOf(before), es, i, n, left, cap, bufcap);
    } else {
      var u := Rx.TracedArrive(t, last.data, cap, bufcap);
      i, left := ReceivedInPlace(t, u, last.data, Rx.BytesOf(before), es, i, n, left, cap, bufcap);
    }
  }

  /** On every linked connection, the header of each answer so far was cut by the end of the receive ring
      exactly where its place in the stream of all answers says. */
  lemma HeadersAreCutInPlace(c: Conn, cap: nat, bufcap: nat)
    requires cap > 0 && bufcap > 0 && Linked(c, cap)
    ensures Answered(c, cap) <= |c.es|
    ensures Rx.TracedReplay(c.rx, cap, bufcap).cuts == CutsFrom(c.es, 0, Answered(c, cap), bufcap)
  {
    assert c.es == c.es[..c.served] + c.es[c.served..];
    AnswersAppend(c.es[..c.served], c.es[c.served..]);
    var i, left := RunAligned(c.rx, c.es, cap, bufcap);
  }
}
