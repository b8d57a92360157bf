/**
 The request ring of client/gen_memcache.cc and its three handlers.  `Perform` runs the handlers that
 one step of a connection calls, in the order in which the socket calls them.  The clock is read anew
 for each time stamp; it never goes back, but two readings may be the same.
 */
module Generators {
  import opened Common
  import opened RingBuffers
  import opened Packets
  import opened Matching
  import Rx = RxFraming
  import Tx = TxStream

  /** An outstanding request, of either generator. */
  datatype Req = Req(kind: Kind, measure: bool, start: int, sent: int)

  /** The exceptions of the handlers.  `OutsideHeader` is none: the program writes outside the header object
      that it puts a response together in, and what happens then is undefined. */
  datatype GenError =
    | RingError(error: BufferError) | WrongMatch | SentBeforeGenerated | ArrivedBeforeSent | PacketSizeError
    | OutsideHeader

  /** What is recorded for an answer. */
  datatype Sample = Sample(queue: int, service: int, wait: int, bytes: nat, measure: bool)

  /** A clock that never goes back; two readings may well be the same. */
  ghost predicate Steady(time: nat -> int) {
    forall i, j :: 0 <= i <= j ==> 0 <= time(i) <= time(j)
  }

  /** A clock on which no two readings are the same. */
  ghost predicate Strict(time: nat -> int) {
    forall i, j :: 0 <= i < j ==> time(i) < time(j)
  }

  /** The time a synthetic request waited beyond the work it asked for. */
  function Waited(kind: Kind, service: int): int {
    if kind.Synthetic? && service > kind.work then service - kind.work else 0
  }

  /** The header is not put together from two parts, or nobody reads it. */
  predicate Whole(kind: Kind, n: nat) {
    kind.Get? ==> n >= HEADER_SIZE
  }

  /** That is exactly when no copy goes outside the header object. */
  lemma WholeIsInside(kind: Kind, n: nat)
    requires n > 0
    ensures Whole(kind, n) <==> !kind.Get? || CopyStaysInside(n)
  {
    CopyStaysInsideIff(n);
  }

  /** When each request was generated, sent and answered, in the order of the requests. */
  datatype Times = Times(starts: seq<int>, sents: seq<int>, arrivals: seq<int>)

  /** All readings lie in the past, and each stage of a request comes after the one before it. */
  ghost predicate Ordered(t: Times, now: int) {
    && |t.arrivals| <= |t.sents| <= |t.starts|
    && (forall i :: 0 <= i < |t.starts| ==> 0 <= t.starts[i] <= now)
    && (forall i :: 0 <= i < |t.sents| ==> t.starts[i] <= t.sents[i] <= now)
    && (forall i :: 0 <= i < |t.arrivals| ==> t.starts[i] < t.sents[i] <= t.arrivals[i])
  }

  /** Every request was sent after it was generated, and one that is sent now will be. */
  ghost predicate Apart(t: Times, now: int) {
    && |t.sents| <= |t.starts|
    && (forall i :: 0 <= i < |t.starts| ==> t.starts[i] < now)
    && (forall i :: 0 <= i < |t.sents| ==> t.starts[i] < t.sents[i])
  }

  /** A request in the ring; one that has not been sent has the time stamp zero for it. */
  function Outstanding(e: Exchange, t: Times, i: nat): Req
    requires i < |t.starts|
  {
    Req(e.kind, e.measure, t.starts[i], if i < |t.sents| then t.sents[i] else 0)
  }

  /** Request `i` was sent, and some time after it was generated. */
  predicate SentLater(starts: seq<int>, sents: seq<int>, i: nat) {
    i < |sents| && i < |starts| && starts[i] < sents[i]
  }

  /** What is recorded for an exchange with these times. */
  function Recorded(e: Exchange, start: int, sent: int, arrived: int): Sample {
    Sample(sent - start, arrived - start, Waited(e.kind, arrived - start), |e.header| + |e.body|, e.measure)
  }

  /** What a sample means: the time until the request was sent, the time until it was answered, what a synthetic
      request had to wait beyond its work, and the size of the whole response. */
  lemma SampleLaws(e: Exchange, start: int, sent: int, arrived: int)
    requires WellFormed(e) && start < sent <= arrived
    ensures var s := Recorded(e, start, sent, arrived);
            && start + s.queue == sent && start + s.service == arrived && 0 < s.queue <= s.service
            && s.bytes == (match e.kind case Get => 24 + LengthField(e.header) case Set => 24 case Synthetic(_) => 8)
            && s.measure == e.measure
            && (e.kind.Synthetic? ==> s.wait >= 0 && s.wait + e.kind.work >= s.service
                                      && (s.wait > 0 ==> s.wait + e.kind.work == s.service))
            && (!e.kind.Synthetic? ==> s.wait == 0)
  {
  }

  /** The ring holds the requests from number `|t.arrivals|` on. */
  ghost predicate Holds(contents: seq<Req>, es: seq<Exchange>, t: Times) {
    && |t.arrivals| <= |t.sents| <= |t.starts| == |es| && |contents| == |es| - |t.arrivals|
    && forall k :: 0 <= k < |contents| ==>
         contents[k] == Outstanding(es[|t.arrivals| + k], t, |t.arrivals| + k)
  }

  /** Every answer was recorded with its times and the size of the whole response. */
  ghost predicate AllRecorded(samples: seq<Sample>, es: seq<Exchange>, t: Times) {
    && |samples| == |t.arrivals| <= |t.sents| <= |t.starts| == |es|
    && forall i :: 0 <= i < |samples| ==> samples[i] == Recorded(es[i], t.starts[i], t.sents[i], t.arrivals[i])
  }

  /** The ring, the recorded answers and the times agree with the exchanges. */
  ghost predicate Agrees(contents: seq<Req>, samples: seq<Sample>, es: seq<Exchange>, t: Times, now: int) {
    Holds(contents, es, t) && AllRecorded(samples, es, t) && Ordered(t, now)
  }

  lemma Begun(contents: seq<Req>, samples: seq<Sample>, es: seq<Exchange>, e: Exchange, t: Times, now: int, next: int)
    requires Agrees(contents, samples, es, t, now) && 0 <= now <= next
    ensures Agrees(contents + [Req(e.kind, e.measure, now, 0)], samples, es + [e], t.(starts := t.starts + [now]), next)
  {
    var t2 := t.(starts := t.starts + [now]);
    forall k | 0 <= k < |contents|
      ensures contents[k] == Outstanding((es + [e])[|t.arrivals| + k], t2, |t.arrivals| + k)
    {
      assert contents[k] == Outstanding(es[|t.arrivals| + k], t, |t.arrivals| + k);
    }
    assert AllRecorded(samples, es + [e], t2);
    assert Ordered(t2, next);
  }

  lemma Sent(contents: seq<Req>, samples: seq<Sample>, es: seq<Exchange>, t: Times, k: nat, now: int, next: int)
    requires Agrees(contents, samples, es, t, now) && now <= next && |t.sents| < |es| && k == |t.sents| - |t.arrivals|
    ensures k < |contents|
    ensures Agrees(contents[k := contents[k].(sent := now)], samples, es, t.(sents := t.sents + [now]), next)
  {
    var t2 := t.(sents := t.sents + [now]);
    var contents2 := contents[k := contents[k].(sent := now)];
    forall j | 0 <= j < |contents|
      ensures contents2[j] == Outstanding(es[|t.arrivals| + j], t2, |t.arrivals| + j)
    {
      assert contents[j] == Outstanding(es[|t.arrivals| + j], t, |t.arrivals| + j);
    }
    assert AllRecorded(samples, es, t2);
    assert Ordered(t2, next);
  }

  lemma Arrived(contents: seq<Req>, samples: seq<Sample>, es: seq<Exchange>, t: Times, now: int, next: int)
    requires Agrees(contents, samples, es, t, now) && now <= next
    requires |t.arrivals| < |t.sents| && t.starts[|t.arrivals|] < t.sents[|t.arrivals|]
    ensures contents != []
    ensures var a := |t.arrivals|;
            Agrees(contents[1..], samples + [Recorded(es[a], t.starts[a], t.sents[a], now)],
                   es, t.(arrivals := t.arrivals + [now]), next)
  {
    var a := |t.arrivals|;
    var t2 := t.(arrivals := t.arrivals + [now]);
    forall k | 0 <= k < |contents| - 1
      ensures contents[1..][k] == Outstanding(es[a + 1 + k], t2, a + 1 + k)
    {
      assert contents[k + 1] == Outstanding(es[a + (k + 1)], t, a + (k + 1));
    }
    assert AllRecorded(samples + [Recorded(es[a], t.starts[a], t.sents[a], now)], es, t2);
    assert Ordered(t2, next);
  }

  class Generator {
    const requests: RingBuffer<Req>
    const synthetic: bool

    /** The `k`-th reading of the clock, and how many readings there have been. */
    const time: nat -> int
    var ticks: nat

    var samples: seq<Sample>

    /** When each request was generated, sent and answered. */
    var times: Times

    /** The ring holds the requests not yet answered, those that were sent with both time stamps, and
        every answer was recorded with its times and the size of the whole response. */
    ghost predicate InStep(es: seq<Exchange>, answered: nat, stamped: nat)
      reads this, requests, requests.buf
    {
      && requests.Valid() && Steady(time)
      && (forall i :: 0 <= i < |es| ==> es[i].kind.Synthetic? == synthetic)
      && |times.sents| == stamped && |times.arrivals| == answered
      && requests.head == answered % requests.buf.Length
      && Agrees(requests.Contents(), samples, es, times, time(ticks))
      && (Strict(time) ==> Apart(times, time(ticks)))
    }

    /** The size of a response header in this generator's protocol. */
    function PacketSize(): nat {
      if synthetic then 8 else HEADER_SIZE
    }

    constructor (cap: nat, synthetic: bool, time: nat -> int)
      requires cap > 0 && Steady(time)
      ensures this.synthetic == synthetic && this.time == time
      ensures requests.buf.Length == cap && fresh(requests) && fresh(requests.buf) && InStep([], 0, 0)
    {
      requests := new RingBuffer<Req>(cap);
      this.synthetic, this.time, ticks := synthetic, time, 0;
      samples, times := [], Times([], [], []);
    }

    method Now() returns (now: int)
      requires Steady(time)
      modifies `ticks
      ensures now == time(old(ticks)) <= time(ticks)
      ensures Strict(time) ==> now < time(ticks)
    {
      now := time(ticks);
      ticks := ticks + 1;
    }

    /** The part of `_send_request` that emplaces the request and stamps it. */
    method Begin(kind: Kind, measure: bool,
                 ghost es: seq<Exchange>, ghost e: Exchange, ghost answered: nat, ghost stamped: nat)
      returns (r: Result<nat, GenError>)
      requires InStep(es, answered, stamped)
      requires e.kind == kind && e.measure == measure && kind.Synthetic? == synthetic
      modifies `ticks, `times, requests, requests.buf
      ensures r.Failure? <==> |es| - answered == requests.buf.Length
      ensures r.Success? ==> r.value == |es| % requests.buf.Length && InStep(es + [e], answered, stamped)
      ensures r.Success? ==> times == old(times).(starts := old(times).starts + [time(old(ticks))])
    {
      ghost var contents := requests.Contents();
      var now;
      r, now := Emplace(kind, measure);
      if r.Success? {
        WrapIsMod(answered, |contents|, requests.buf.Length);
        Begun(contents, samples, es, e, times, now, time(ticks));
        times := times.(starts := times.starts + [now]);
      }
    }

    method Emplace(kind: Kind, measure: bool) returns (r: Result<nat, GenError>, now: int)
      requires requests.Valid() && Steady(time)
      modifies `ticks, requests, requests.buf
      ensures requests.Valid() && (r.Failure? <==> old(requests.used) == requests.buf.Length)
      ensures r.Success? ==> r.value == old(requests.SlotAt(requests.used)) && requests.head == old(requests.head)
      ensures r.Success? ==>
                requests.Contents() == old(requests.Contents()) + [Req(kind, measure, now, 0)]
      ensures r.Success? ==> now == time(old(ticks)) <= time(ticks) && (Strict(time) ==> now < time(ticks))
    {
      var q := requests.QueueEmplace(Req(kind, measure, 0, 0));
      if q.Failure? {
        return Failure(RingError(q.error)), 0;
      }
      now := Now();
      requests.Update(q.value, Req(kind, measure, now, 0), requests.used - 1);
      r := Success(q.value);
    }

    /** `sent_request`, for the request that is next in line. */
    method SentRequest(data: nat, ghost es: seq<Exchange>, ghost answered: nat, ghost stamped: nat)
      requires InStep(es, answered, stamped) && stamped < |es| && data == stamped % requests.buf.Length
      modifies `ticks, `times, requests.buf
      ensures InStep(es, answered, stamped + 1)
      ensures times == old(times).(sents := old(times).sents + [time(old(ticks))])
    {
      ghost var contents := requests.Contents();
      var now := Stamp(data, answered, stamped - answered);
      Sent(contents, samples, es, times, stamped - answered, now, time(ticks));
      times := times.(sents := times.sents + [now]);
    }

    /** Sets the time stamp of the `k`-th request in the ring. */
    method Stamp(data: nat, ghost answered: nat, ghost k: nat) returns (now: int)
      requires requests.Valid() && Steady(time) && requests.head == answered % requests.buf.Length
      requires k < requests.used && data == (answered + k) % requests.buf.Length
      modifies `ticks, requests.buf
      ensures requests.Contents() == old(requests.Contents())[k := old(requests.Contents())[k].(sent := now)]
      ensures now == time(old(ticks)) <= time(ticks) && (Strict(time) ==> now < time(ticks))
    {
      WrapIsMod(answered, k, requests.buf.Length);
      var req := requests.buf[data];
      assert req == requests.Contents()[k];
      now := Now();
      requests.Update(data, req.(sent := now), k);
    }

    /** The part of `recv_response` after the request was found, for a header whose first part is `n` bytes
        long.  The two checks throw exactly for a request that was not sent after it was generated, and for an
        answer that does not come after the start; a header of a get in two parts is written outside of. */
    method Record(req: Req, header: seq<byte>, n: nat) returns (r: Result<nat, GenError>)
      requires Steady(time)
      modifies `ticks, `samples, `times
      ensures r == Failure(SentBeforeGenerated) <==> req.sent <= req.start
      ensures r == Failure(ArrivedBeforeSent) <==> req.sent > req.start >= time(old(ticks))
      ensures r == Failure(OutsideHeader) <==>
                req.start < req.sent && req.start < time(old(ticks)) && !Whole(req.kind, n)
      ensures r.Success? <==> req.start < req.sent && req.start < time(old(ticks)) && Whole(req.kind, n)
      ensures time(old(ticks)) <= time(ticks) && (Strict(time) ==> time(old(ticks)) < time(ticks))
      ensures r.Failure? ==> samples == old(samples) && times == old(times)
      ensures r.Success? ==> r.value == AnnouncedBody(req.kind, header)
      ensures r.Success? ==> times == old(times).(arrivals := old(times).arrivals + [time(old(ticks))])
      ensures r.Success? ==>
                var service := time(old(ticks)) - req.start;
                samples == old(samples) +
                  [Sample(req.sent - req.start, service, Waited(req.kind, service),
                          PacketSize() + r.value, req.measure)]
    {
      var now := Now();
      var queue := req.sent - req.start;
      if queue <= 0 {
        return Failure(SentBeforeGenerated);
      }
      var service := now - req.start;
      if service <= 0 {
        return Failure(ArrivedBeforeSent);
      }
      if req.kind.Get? && n < HEADER_SIZE {
        return Failure(OutsideHeader);
      }
      var bodylen := AnnouncedBody(req.kind, header);
      samples := samples + [Sample(queue, service, Waited(req.kind, service), PacketSize() + bodylen, req.measure)];
      times := times.(arrivals := times.arrivals + [now]);
      r := Success(bodylen);
    }

    /** The header is one of this protocol, and for the oldest request. */
    ghost predicate Meets(data: nat, header: seq<byte>, es: seq<Exchange>, answered: nat)
      reads requests.buf
      requires requests.buf.Length > 0
    {
      |header| == PacketSize() && answered < |es| && data == answered % requests.buf.Length
    }

    /** `recv_response`, for a header whose first part in the receive ring is `n` bytes long. */
    method RecvResponse(data: nat, header: seq<byte>, n: nat,
                        ghost es: seq<Exchange>, ghost answered: nat, ghost stamped: nat)
      returns (r: Result<nat, GenError>)
      requires InStep(es, answered, stamped)
      modifies `ticks, `samples, `times, requests
      ensures |header| != PacketSize() ==> r == Failure(PacketSizeError)
      ensures |header| == PacketSize() && answered == |es| ==> r == Failure(RingError(InvalidArgument))
      ensures |header| == PacketSize() && answered < |es| && data != answered % requests.buf.Length ==>
                r == Failure(WrongMatch)
      ensures old(Meets(data, header, es, answered)) ==>
                var later := SentLater(old(times.starts), old(times.sents), answered);
                && (r == Failure(SentBeforeGenerated) <==> !later)
                && (r == Failure(OutsideHeader) <==> later && !Whole(es[answered].kind, n))
                && (r.Success? <==> later && Whole(es[answered].kind, n))
      ensures r.Success? ==> r.value == if es[answered].kind.Get? then LengthField(header) else 0
      ensures times.starts == old(times.starts) && times.sents == old(times.sents)
      ensures r.Success? && WellFormed(es[answered]) && header == es[answered].header ==>
                r.value == |es[answered].body| && InStep(es, answered + 1, stamped)
    {
      if |header| != PacketSize() {
        return Failure(PacketSizeError);
      }
      ghost var before := requests.Contents();
      var d := requests.DequeueOne();
      if d.Failure? {
        return Failure(RingError(d.error));
      }
      if data != d.value {
        return Failure(WrongMatch);
      }
      assert requests.buf[d.value] == before[0] == Outstanding(es[answered], times, answered);
      AnnouncedIsField(es[answered].kind, header);
      r := Record(requests.buf[d.value], header, n);
      NextHead(answered, requests.buf.Length);
      if r.Success? && WellFormed(es[answered]) {
        WellFormedIs(es[answered]);
        Arrived(before, old(samples), es, old(times), time(old(ticks)), time(ticks));
      }
    }

    /** The transmit callbacks that have not run yet, in order. */
    method StampAll(fired: seq<Tx.Fired>, from: nat, ghost es: seq<Exchange>, ghost answered: nat)
      requires InStep(es, answered, from) && from <= |fired| <= |es|
      requires forall i :: 0 <= i < |fired| ==> fired[i].cbdata == i % requests.buf.Length
      modifies `ticks, `times, requests.buf
      ensures InStep(es, answered, |fired|)
    {
      for i := from to |fired|
        invariant InStep(es, answered, i)
      {
        SentRequest(fired[i].cbdata, es, answered, i);
      }
    }

    /** The receive callbacks that have not run yet, in order, with the lengths of the first parts of their
        headers; `ok` means that all of them went well. */
    method AnswerAll(log: seq<Rx.Event>, cuts: seq<nat>, from: nat, ghost es: seq<Exchange>, ghost stamped: nat)
      returns (ok: bool)
      requires InStep(es, from, stamped) && from <= |log| == |cuts| <= stamped
      requires forall i :: 0 <= i < |es| ==> WellFormed(es[i])
      requires forall i :: 0 <= i < |log| ==> log[i] == Rx.Header(i % requests.buf.Length, es[i].header)
      modifies `ticks, `samples, `times, requests
      ensures ok <==> AllFine(es, cuts, from, |log|, old(times.starts), old(times.sents))
      ensures ok ==> InStep(es, |log|, stamped)
    {
      for i := from to |log|
        invariant InStep(es, i, stamped)
        invariant times.starts == old(times.starts) && times.sents == old(times.sents)
        invariant forall j :: from <= j < i ==> Fine(es[j].kind, cuts[j], old(times.starts), old(times.sents), j)
      {
        var answered := AnswerOne(log[i], cuts[i], es, i, stamped);
        if !answered {
          assert !Fine(es[i].kind, cuts[i], old(times.starts), old(times.sents), i);
          return false;
        }
      }
      return true;
    }

    /** One of them. */
    method AnswerOne(event: Rx.Event, n: nat, ghost es: seq<Exchange>, ghost i: nat, ghost stamped: nat)
      returns (ok: bool)
      requires InStep(es, i, stamped) && i < stamped && WellFormed(es[i])
      requires event == Rx.Header(i % requests.buf.Length, es[i].header)
      modifies `ticks, `samples, `times, requests
      ensures ok <==> Fine(es[i].kind, n, old(times.starts), old(times.sents), i)
      ensures ok ==> InStep(es, i + 1, stamped)
      ensures times.starts == old(times.starts) && times.sents == old(times.sents)
    {
      var r := RecvResponse(event.cbdata, event.bytes, n, es, i, stamped);
      ok := r.Success?;
    }

    /** The receive callbacks of a connection from number `from` on. */
    method AnswerNew(c: Conn, from: nat, bufcap: nat) returns (ok: bool)
      requires var cap := requests.buf.Length;
               && cap > 0 && bufcap > 0 && Linked(c, cap)
               && from <= Answered(c, cap) && InStep(c.es, from, Stamped(c, cap))
      modifies `ticks, `samples, `times, requests
      ensures var n := Answered(c, requests.buf.Length);
              && n <= |c.es|
              && (ok <==> AllAnswerable(c.es, from, n, old(times.starts), old(times.sents), bufcap))
              && (ok ==> InStep(c.es, n, Stamped(c, requests.buf.Length)))
    {
      var cap := requests.buf.Length;
      CallbacksMatch(c, cap);
      HeadersAreCutInPlace(c, cap, bufcap);
      CutsAreFine(c.es, from, Answered(c, cap), times.starts, times.sents, bufcap);
      var cuts := Rx.TracedReplay(c.rx, cap, bufcap).cuts;
      ok := AnswerAll(RxOf(c, cap).log, cuts, from, c.es, Stamped(c, cap));
    }

    /** Whatever a connection with a receive ring of `bufcap` bytes does next: no handler throws or goes outside
        a header, and the ring stays in step, if and only if every request answered by it was sent some time
        after it was generated, and no header of a get among the answers straddles the end of the receive ring.
        The former is certain on a clock without equal readings. */
    method Perform(c: Conn, step: Step, bufcap: nat) returns (next: Conn, ok: bool)
      requires var cap := requests.buf.Length;
               cap > 0 && Linked(c, cap) && Possible(c, step, cap) && InStep(c.es, Answered(c, cap), Stamped(c, cap))
      requires step.Send? ==> step.e.kind.Synthetic? == synthetic
      requires bufcap > 0
      modifies this, requests, requests.buf
      ensures var cap := requests.buf.Length;
              && next == Next(c, step, cap) && Linked(next, cap) && Answered(next, cap) <= |next.es|
              && (ok <==> AllAnswerable(next.es, Answered(c, cap), Answered(next, cap),
                                        old(times.starts), old(times.sents), bufcap))
              && (ok ==> InStep(next.es, Answered(next, cap), Stamped(next, cap)))
              && (Strict(time) ==> forall i :: Answered(c, cap) <= i < Answered(next, cap) ==>
                    SentLater(old(times.starts), old(times.sents), i))
    {
      var cap := requests.buf.Length;
      next := Next(c, step, cap);
      StepKeepsLinked(c, step, cap);
      StepGrows(c, step, cap);
      CallbacksMatch(next, cap);
      ok := true;
      match step {
        case Send(e, _) =>
          RingHasRoom(c, cap);
          var r := Begin(e.kind, e.measure, c.es, e, Answered(c, cap), Stamped(c, cap));
          StampAll(Tx.Replay(next.tx, cap).value.fired, Stamped(c, cap), next.es, Answered(c, cap));
          ok := r.Success?;
        case Wrote(_) =>
          StampAll(Tx.Replay(next.tx, cap).value.fired, Stamped(c, cap), next.es, Answered(c, cap));
        case Received(_, _) =>
          ok := AnswerNew(next, Answered(c, cap), bufcap);
      }
    }
  }

  /** The handler of answer `i` neither throws nor goes outside the header. */
  predicate Fine(kind: Kind, n: nat, starts: seq<int>, sents: seq<int>, i: nat) {
    SentLater(starts, sents, i) && Whole(kind, n)
  }

  lemma {:induction false} CutsFromAt(es: seq<Exchange>, from: nat, upTo: nat, bufcap: nat, k: nat)
    requires from <= k < upTo <= |es| && bufcap > 0
    ensures CutsFrom(es, from, upTo, bufcap)[k - from] == CutAt(es, k, bufcap)
    decreases k - from
  {
    if k > from {
      CutsFromAt(es, from + 1, upTo, bufcap, k);
    }
  }

  ghost predicate AllFine(es: seq<Exchange>, cuts: seq<nat>, from: nat, n: nat, starts: seq<int>, sents: seq<int>)
    requires n <= |es| && n <= |cuts|
  {
    forall i :: from <= i < n ==> Fine(es[i].kind, cuts[i], starts, sents, i)
  }

  /** Each of the requests `from` up to `n` was sent some time after it was generated, and the header of its
      answer does not straddle the end of the receive ring, if it is a get. */
  ghost predicate AllAnswerable(es: seq<Exchange>, from: nat, n: nat, starts: seq<int>, sents: seq<int>, bufcap: nat)
    requires n <= |es| && bufcap > 0
  {
    forall i :: from <= i < n ==> SentLater(starts, sents, i) && !(es[i].kind.Get? && Straddles(es, i, bufcap))
  }

  lemma CutsAreFine(es: seq<Exchange>, from: nat, n: nat, starts: seq<int>, sents: seq<int>, bufcap: nat)
    requires from <= n <= |es| && bufcap > 0
    ensures AllFine(es, CutsFrom(es, 0, n, bufcap), from, n, starts, sents) <==>
            AllAnswerable(es, from, n, starts, sents, bufcap)
  {
    var cuts := CutsFrom(es, 0, n, bufcap);
    forall i | from <= i < n
      ensures Fine(es[i].kind, cuts[i], starts, sents, i) <==>
              SentLater(starts, sents, i) && !(es[i].kind.Get? && Straddles(es, i, bufcap))
    {
      CutsFromAt(es, 0, n, bufcap, i);
    }
  }

  /** Every recorded sample is that of its answer. */
  lemma SamplesInOrder(g: Generator, es: seq<Exchange>, answered: nat, stamped: nat, i: nat)
    requires g.InStep(es, answered, stamped) && i < answered
    ensures i < |es| && i < |g.samples| && i < |g.times.starts| && i < |g.times.sents| && i < |g.times.arrivals|
    ensures g.times.starts[i] < g.times.sents[i] <= g.times.arrivals[i]
    ensures g.samples[i] == Recorded(es[i], g.times.starts[i], g.times.sents[i], g.times.arrivals[i])
  {
  }

  lemma NextHead(a: nat, cap: nat)
    requires cap > 0
    ensures Wrap(a % cap + 1, cap) == (a + 1) % cap
  {
    if cap > 1 {
      WrapIsMod(a, 1, cap);
    }
  }

  /** The queue never holds more unanswered requests than there are reads in it. */
  lemma RingHasRoom(c: Conn, cap: nat)
    requires cap > 0 && Linked(c, cap)
    ensures |c.es| - Answered(c, cap) < cap
  {
    ReadsMatchRequests(c, cap);
    UnparsedIsShort(RxOf(c, cap).ops);
  }

  /** The callbacks of a linked connection, one by one. */
  lemma CallbacksMatch(c: Conn, cap: nat)
    requires cap > 0 && Linked(c, cap)
    ensures Answered(c, cap) <= Stamped(c, cap) <= |c.es|
    ensures forall i :: 0 <= i < Answered(c, cap) ==> RxOf(c, cap).log[i] == Rx.Header(i % cap, c.es[i].header)
    ensures forall i :: 0 <= i < Stamped(c, cap) ==> Tx.Replay(c.tx, cap).value.fired[i].cbdata == i % cap
  {
    AnsweredAreStamped(c, cap);
    AnsweredInOrder(c, cap);
    forall i | 0 <= i < Answered(c, cap)
      ensures RxOf(c, cap).log[i] == Rx.Header(i % cap, c.es[i].header)
    {
      HeaderEventAt(c.es[..Answered(c, cap)], 0, cap, i);
    }
    forall i | 0 <= i < Stamped(c, cap)
      ensures Tx.Replay(c.tx, cap).value.fired[i].cbdata == i % cap
    {
      StampedInOrder(c, cap, i);
    }
  }

  lemma {:induction false} DrainLogs(s: Rx.RxState)
    ensures |s.log| <= |Rx.Drain(s).log|
    decreases |s.ops|
  {
    if s.ops != [] {
      var v := Rx.Serve(s.ops[0], s.buf);
      if !v.stuck {
        DrainLogs(Rx.RxState(s.ops[1..], v.buf, s.log + v.events));
      }
    }
  }

  lemma {:induction false} WritesFire(tx: seq<Tx.TxStep>, ns: seq<nat>, cap: nat)
    requires cap > 0 && Tx.Replay(tx + WriteSteps(ns), cap).Some?
    ensures Tx.Replay(tx, cap).Some?
    ensures |Tx.Replay(tx, cap).value.fired| <= |Tx.Replay(tx + WriteSteps(ns), cap).value.fired|
    decreases |ns|
  {
    if ns == [] {
      assert tx + [] == tx;
    } else {
      var k := |ns| - 1;
      var before := tx + WriteSteps(ns[..k]);
      assert tx + WriteSteps(ns) == before + [Tx.Wrote(ns[k])];
      Tx.OneMoreStep(before, Tx.Wrote(ns[k]), cap);
      WritesFire(tx, ns[..k], cap);
    }
  }

  /** A step runs more callbacks, never fewer; reads do not answer and answers do not stamp. */
  lemma StepGrows(c: Conn, step: Step, cap: nat)
    requires cap > 0 && Linked(c, cap) && Possible(c, step, cap)
    ensures var d := Next(c, step, cap);
            Tx.Replay(d.tx, cap).Some? && Stamped(c, cap) <= Stamped(d, cap) && Answered(c, cap) <= Answered(d, cap)
    ensures step.Send? || step.Wrote? ==> Answered(Next(c, step, cap), cap) == Answered(c, cap)
    ensures step.Received? ==> Stamped(Next(c, step, cap), cap) == Stamped(c, cap)
  {
    match step
    case Send(e, writes) =>
      var tx1 := c.tx + [Tx.Commit(e.request)];
      Tx.OneMoreStep(c.tx, Tx.Commit(e.request), cap);
      Tx.OneMoreStep(tx1, Tx.Point(|c.es| % cap), cap);
      WritesFire(tx1 + [Tx.Point(|c.es| % cap)], writes, cap);
      Rx.OneMoreStep(c.rx, Rx.Read(OpOf(e.kind, |c.es| % cap)), cap);
    case Wrote(n) =>
      assert WriteSteps([n]) == [Tx.Wrote(n)];
      WritesFire(c.tx, [n], cap);
    case Received(data, _) =>
      Rx.OneMoreStep(c.rx, Rx.Received(data), cap);
      var s := RxOf(c, cap);
      DrainLogs(s.(buf := s.buf + data));
  }
}
