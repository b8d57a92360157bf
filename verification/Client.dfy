/**
 The experiment driver of client/client.cc with the reference counts of client/generator.hh.
 Generators live in a list that stands for the heap: a generator's address is its index and
 deleting it leaves `None`, so using one after it was freed would be a failed lookup.
 */
module Clients {
  import opened Common
  import opened Schedules

  /** A request: its place in the schedule, and whether it is to be measured. */
  datatype Req = Req(index: nat, measure: bool)

  /** A generator: its reference count, the requests it still has to answer, and the calls of
      `send_request` and `run_io` that are active on it. */
  datatype Gen = Gen(refCnt: int, pooled: bool, pending: seq<Req>, frames: nat)

  type Heap = seq<Option<Gen>>

  // ---------- Reference counts ----------

  /** Every reference has an owner: the pool, an outstanding request, or an active call. */
  predicate Counted(g: Gen) {
    g.refCnt == (if g.pooled then 1 else 0) + |g.pending| + g.frames && g.refCnt > 0
  }

  ghost predicate AllCounted(gens: Heap) {
    forall i :: 0 <= i < |gens| && gens[i].Some? ==> Counted(gens[i].value)
  }

  ghost predicate NoFrames(gens: Heap) {
    forall i :: 0 <= i < |gens| && gens[i].Some? ==> gens[i].value.frames == 0
  }

  predicate Live(gens: Heap, g: nat) {
    g < |gens| && gens[g].Some?
  }

  /** What `put` makes of a generator: one reference less, deleted with the last one. */
  function Released(g: Gen): Option<Gen> {
    if g.refCnt - 1 == 0 then None else Some(g.(refCnt := g.refCnt - 1))
  }

  // ---------- What is outstanding ----------

  function PendingOf(g: Option<Gen>): seq<Req> {
    if g.Some? then g.value.pending else []
  }

  /** The outstanding requests of the first `n` generators. */
  function PendingUpTo(gens: Heap, n: nat): multiset<Req>
    requires n <= |gens|
  {
    if n == 0 then multiset{} else PendingUpTo(gens, n - 1) + multiset(PendingOf(gens[n - 1]))
  }

  function AllPending(gens: Heap): multiset<Req> {
    PendingUpTo(gens, |gens|)
  }

  function OutstandingUpTo(gens: Heap, n: nat): nat
    requires n <= |gens|
  {
    if n == 0 then 0 else OutstandingUpTo(gens, n - 1) + |PendingOf(gens[n - 1])|
  }

  function Outstanding(gens: Heap): nat {
    OutstandingUpTo(gens, |gens|)
  }

  lemma {:induction false} SameUpTo(gens: Heap, other: Heap, n: nat)
    requires n <= |gens| && n <= |other| && forall i :: 0 <= i < n ==> gens[i] == other[i]
    ensures PendingUpTo(gens, n) == PendingUpTo(other, n)
  {
    if n > 0 {
      SameUpTo(gens, other, n - 1);
    }
  }

  lemma {:induction false} ChangesUpTo(gens: Heap, g: nat, x: Option<Gen>, n: nat)
    requires g < n <= |gens|
    ensures PendingUpTo(gens[g := x], n) + multiset(PendingOf(gens[g])) ==
            PendingUpTo(gens, n) + multiset(PendingOf(x))
  {
    var after := gens[g := x];
    if g == n - 1 {
      SameUpTo(gens, after, n - 1);
      Swap(PendingUpTo(gens, n - 1), multiset(PendingOf(x)), multiset(PendingOf(gens[g])));
    } else {
      ChangesUpTo(gens, g, x, n - 1);
      Shuffle(PendingUpTo(after, n - 1), multiset(PendingOf(gens[g])), PendingUpTo(gens, n - 1),
              multiset(PendingOf(x)), multiset(PendingOf(gens[n - 1])));
    }
  }

  /** Replacing a generator replaces its outstanding requests. */
  lemma PendingChanges(gens: Heap, g: nat, x: Option<Gen>)
    requires g < |gens|
    ensures AllPending(gens[g := x]) + multiset(PendingOf(gens[g])) == AllPending(gens) + multiset(PendingOf(x))
  {
    ChangesUpTo(gens, g, x, |gens|);
  }

  lemma Swap<T>(a: multiset<T>, b: multiset<T>, c: multiset<T>)
    ensures (a + b) + c == (a + c) + b
  {
  }

  lemma Shuffle<T>(a: multiset<T>, b: multiset<T>, c: multiset<T>, d: multiset<T>, more: multiset<T>)
    requires a + b == c + d
    ensures (a + more) + b == (c + more) + d
  {
    assert (a + more) + b == (a + b) + more;
  }

  /** One request goes from the outstanding ones to the answered ones. */
  lemma Moved<T>(done: multiset<T>, r: T, rest: multiset<T>, before: multiset<T>, after: multiset<T>, all: multiset<T>)
    requires after + (multiset{r} + rest) == before + rest
    requires done + before == all
    ensures (done + multiset{r}) + after == all
  {
    forall x
      ensures (after + multiset{r})[x] == before[x]
    {
      assert (after + (multiset{r} + rest))[x] == (before + rest)[x];
    }
    assert after + multiset{r} == before;
  }

  lemma Cancel<T>(a: multiset<T>, b: multiset<T>, c: multiset<T>)
    requires a + c == b + c
    ensures a == b
  {
    forall x
      ensures a[x] == b[x]
    {
      assert (a + c)[x] == (b + c)[x];
    }
  }

  lemma SamePending(gens: Heap, g: nat, x: Option<Gen>)
    requires g < |gens| && PendingOf(x) == PendingOf(gens[g])
    ensures AllPending(gens[g := x]) == AllPending(gens)
  {
    PendingChanges(gens, g, x);
    Cancel(AllPending(gens[g := x]), AllPending(gens), multiset(PendingOf(x)));
  }

  lemma OneMorePending(gens: Heap, g: nat, x: Option<Gen>, req: Req)
    requires g < |gens| && PendingOf(x) == PendingOf(gens[g]) + [req]
    ensures AllPending(gens[g := x]) == AllPending(gens) + multiset{req}
  {
    PendingChanges(gens, g, x);
    var p := multiset(PendingOf(gens[g]));
    assert AllPending(gens[g := x]) + p == (AllPending(gens) + multiset{req}) + p;
    Cancel(AllPending(gens[g := x]), AllPending(gens) + multiset{req}, p);
  }

  lemma PendingGrows(gens: Heap, x: Option<Gen>)
    ensures AllPending(gens + [x]) == AllPending(gens) + multiset(PendingOf(x))
  {
    SameUpTo(gens, gens + [x], |gens|);
  }

  lemma {:induction false} OutstandingIsSize(gens: Heap, n: nat)
    requires n <= |gens|
    ensures |PendingUpTo(gens, n)| == OutstandingUpTo(gens, n)
  {
    if n > 0 {
      OutstandingIsSize(gens, n - 1);
      assert |multiset(PendingOf(gens[n - 1]))| == |PendingOf(gens[n - 1])|;
    }
  }

  lemma {:induction false} NothingOutstanding(gens: Heap, n: nat)
    requires n <= |gens| && forall g :: 0 <= g < n ==> PendingOf(gens[g]) == []
    ensures OutstandingUpTo(gens, n) == 0
  {
    if n > 0 {
      NothingOutstanding(gens, n - 1);
    }
  }

  lemma {:induction false} NoneOutstanding(gens: Heap, n: nat, g: nat)
    requires g < n <= |gens| && OutstandingUpTo(gens, n) == 0
    ensures PendingOf(gens[g]) == []
  {
    if g < n - 1 {
      NoneOutstanding(gens, n - 1, g);
    }
  }

  // ---------- The requests of an experiment ----------

  /** The first `n` requests of the schedule; those from `pre` on are measured, `measure` of them. */
  function Issued(n: nat, pre: nat, measure: nat): (r: seq<Req>)
    ensures |r| == n
  {
    seq(n, i requires 0 <= i < n => Req(i, pre <= i < pre + measure))
  }

  function SamplesOf(answered: seq<Req>): (s: seq<nat>)
    ensures |s| <= |answered|
  {
    if answered == [] then []
    else
      var last := answered[|answered| - 1];
      SamplesOf(answered[..|answered| - 1]) + if last.measure then [last.index] else []
  }

  lemma SamplesSnoc(a: seq<Req>, r: Req)
    ensures SamplesOf(a + [r]) == SamplesOf(a) + if r.measure then [r.index] else []
  {
    assert (a + [r])[..|a|] == a;
  }

  lemma {:induction false} SamplesWithout(front: seq<Req>, r: Req, back: seq<Req>)
    ensures multiset(SamplesOf(front + [r] + back)) ==
            multiset(SamplesOf(front + back)) + (if r.measure then multiset{r.index} else multiset{})
    decreases |back|
  {
    if back == [] {
      SamplesSnoc(front, r);
      assert front + [r] + [] == front + [r] && front + [] == front;
    } else {
      var n := |back| - 1;
      SamplesWithout(front, r, back[..n]);
      SamplesSnoc(front + [r] + back[..n], back[n]);
      SamplesSnoc(front + back[..n], back[n]);
      assert front + [r] + back == front + [r] + back[..n] + [back[n]];
      assert front + back == front + back[..n] + [back[n]];
    }
  }

  /** Which samples are recorded does not depend on the order of the replies. */
  lemma {:induction false} SamplesOfMultiset(a: seq<Req>, b: seq<Req>)
    requires multiset(a) == multiset(b)
    ensures multiset(SamplesOf(a)) == multiset(SamplesOf(b))
    decreases |a|
  {
    if a == [] {
      EmptyMultiset(b);
    } else {
      var n := |a| - 1;
      var k := FindLast(a, b);
      assert a == a[..n] + [a[n]];
      SamplesOfMultiset(a[..n], b[..k] + b[k + 1..]);
      SamplesSnoc(a[..n], a[n]);
      SamplesWithout(b[..k], b[k], b[k + 1..]);
    }
  }

  /** The schedule indices `[pre, pre + measure)`. */
  function Measured(pre: nat, measure: nat): (r: seq<nat>)
    ensures |r| == measure
  {
    seq(measure, i requires 0 <= i < measure => pre + i)
  }

  lemma {:induction false} SamplesOfIssued(n: nat, pre: nat, measure: nat)
    ensures SamplesOf(Issued(n, pre, measure)) ==
            Measured(pre, if n < pre then 0 else if n < pre + measure then n - pre else measure)
    decreases n
  {
    if n > 0 {
      SamplesOfIssued(n - 1, pre, measure);
      assert Issued(n, pre, measure) == Issued(n - 1, pre, measure) + [Req(n - 1, pre <= n - 1 < pre + measure)];
      SamplesSnoc(Issued(n - 1, pre, measure), Req(n - 1, pre <= n - 1 < pre + measure));
    }
  }

  /** Once every request has been answered, in any order, exactly the measured indices were recorded. */
  lemma AllAnswered(answered: seq<Req>, total: nat, pre: nat, measure: nat)
    requires pre + measure <= total && multiset(answered) == multiset(Issued(total, pre, measure))
    ensures multiset(SamplesOf(answered)) == multiset(Measured(pre, measure)) && |SamplesOf(answered)| == measure
  {
    SamplesOfMultiset(answered, Issued(total, pre, measure));
    SamplesOfIssued(total, pre, measure);
    assert |multiset(SamplesOf(answered))| == |SamplesOf(answered)|;
  }

  /** Sent is received plus outstanding, request by request. */
  ghost predicate Balanced(answered: seq<Req>, gens: Heap, issued: seq<Req>) {
    forall r :: (multiset(answered) + AllPending(gens))[r] == multiset(issued)[r]
  }

  /** The request was handed to one of the connections. */
  ghost predicate Gained(before: Heap, after: Heap, req: Req) {
    forall r :: AllPending(after)[r] == (AllPending(before) + multiset{req})[r]
  }

  lemma BalanceIsEquality(answered: seq<Req>, gens: Heap, issued: seq<Req>)
    ensures Balanced(answered, gens, issued) <==> multiset(answered) + AllPending(gens) == multiset(issued)
  {
  }

  lemma BalanceGains(answered: seq<Req>, before: Heap, after: Heap, issued: seq<Req>, req: Req)
    requires Balanced(answered, before, issued) && Gained(before, after, req)
    ensures Balanced(answered, after, issued + [req])
  {
    BalanceIsEquality(answered, before, issued);
    assert AllPending(after) == AllPending(before) + multiset{req};
    SumAssociates(multiset(answered), AllPending(before), multiset{req});
  }

  lemma SumAssociates<T>(a: multiset<T>, b: multiset<T>, c: multiset<T>)
    ensures a + (b + c) == (a + b) + c
  {
  }

  lemma BalanceStays(answered: seq<Req>, gens: Heap, g: nat, x: Option<Gen>, issued: seq<Req>)
    requires Balanced(answered, gens, issued) && g < |gens| && PendingOf(x) == PendingOf(gens[g])
    ensures Balanced(answered, gens[g := x], issued)
  {
    SamePending(gens, g, x);
  }

  lemma IssuedGrows(n: nat, pre: nat, measure: nat)
    ensures Issued(n + 1, pre, measure) == Issued(n, pre, measure) + [Req(n, pre <= n < pre + measure)]
  {
  }

  function PendingAt(gens: Heap, g: nat): seq<Req> {
    if g < |gens| then PendingOf(gens[g]) else []
  }

  /** The list has grown by the first `n` of `p`, or all if there are fewer. */
  ghost predicate Grown(before: seq<Req>, after: seq<Req>, p: seq<Req>, n: nat) {
    after == before + p[..Min(n, |p|)]
  }

  /** Request `i` of the schedule, measured or not. */
  function ReqAt(i: nat, pre: nat, measure: nat): Req {
    Req(i, i >= pre && i < pre + measure)
  }

  /** Request `i` gets a connection of its own exactly in that mode, and round robin takes them in turn. */
  ghost predicate Handed(mode: ConnMode, conns: seq<nat>, i: nat, before: Heap, g: nat) {
    && (mode == PerRequest <==> g == |before|)
    && (mode == RoundRobin ==> conns != [] && g == conns[i % |conns|])
  }

  lemma NextPending(before: seq<Req>, p: seq<Req>, k: nat)
    requires k < |p|
    ensures before + p[..k] + [p[k..][0]] == before + p[..k + 1] && p[k..][1..] == p[k + 1..]
  {
  }

  /** Nothing but generator `g` differs. */
  ghost predicate OnlyChanged(before: Heap, after: Heap, g: nat) {
    |after| == |before| && g < |after| && after == before[g := after[g]]
  }

  /** Generator `g` was taken from the pool or is new, and no other one was touched. */
  ghost predicate Chosen(before: Heap, after: Heap, g: nat) {
    && |before| <= |after| && Live(after, g)
    && (forall h :: 0 <= h < |before| && h != g ==> after[h] == before[h])
    && (g < |before| ==> after[g].value.pooled)
  }

  /** Generators that were alive stay alive. */
  ghost predicate NoneFreed(before: Heap, after: Heap) {
    forall h :: Live(before, h) ==> Live(after, h)
  }

  lemma ChosenFreesNone(before: Heap, after: Heap, g: nat)
    requires Chosen(before, after, g)
    ensures NoneFreed(before, after)
  {
  }

  /** A generator that is not pooled was not there before, so none is lost if it is freed. */
  lemma StillNoneFreed(before: Heap, between: Heap, after: Heap, g: nat)
    requires NoneFreed(before, between) && OnlyChanged(between, after, g)
    requires Live(before, g) ==> Live(after, g)
    ensures NoneFreed(before, after)
  {
  }

  /** The counters of the client agree with what was answered. */
  ghost predicate Tally(answered: seq<Req>, rcvd: nat, samples: seq<nat>, measureCount: nat, ended: nat, measure: nat) {
    && rcvd == |answered| && samples == SamplesOf(answered) && measureCount == |samples|
    && ended == (if measure > 0 && measureCount >= measure then 1 else 0)
  }

  datatype ConnMode = PerRequest | RoundRobin | Random

  /** Something `epoll_wait` reports: the timer, or a connection with `replies` complete answers to read. */
  datatype Event = Timer(now: int) | Io(gen: nat, replies: nat)

  /** Sends that were late by more than the threshold when their turn came. */
  function Missed(deadlines: seq<int>, lo: nat, hi: nat, now: int, threshold: int): nat
    requires hi <= |deadlines|
    decreases hi
  {
    if hi <= lo then 0
    else (if deadlines[hi - 1] - now < threshold then 1 else 0) + Missed(deadlines, lo, hi - 1, now, threshold)
  }

  lemma MissedGrows(deadlines: seq<int>, lo: nat, hi: nat, now: int, threshold: int)
    requires lo <= hi + 1 && hi < |deadlines|
    ensures Missed(deadlines, lo, hi + 1, now, threshold) ==
            Missed(deadlines, lo, hi, now, threshold) + if hi >= lo && deadlines[hi] - now < threshold then 1 else 0
  {
  }

  /** It counts each late request once. */
  lemma {:induction false} MissedIsCount(deadlines: seq<int>, lo: nat, hi: nat, now: int, threshold: int)
    requires hi <= |deadlines|
    ensures Missed(deadlines, lo, hi, now, threshold) == |set i | lo <= i < hi && deadlines[i] - now < threshold|
    decreases hi
  {
    var late := set i | lo <= i < hi && deadlines[i] - now < threshold;
    if hi <= lo {
      assert late == {};
    } else {
      MissedIsCount(deadlines, lo, hi - 1, now, threshold);
      var before := set i | lo <= i < hi - 1 && deadlines[i] - now < threshold;
      assert late == if deadlines[hi - 1] - now < threshold then before + {hi - 1} else before;
    }
  }

  // ---------- Round robin ----------

  /** How many of `k` requests in a row fall on connection `j` of `n`, if the first falls on `p`. */
  function Hits(p: nat, k: nat, n: nat, j: nat): nat
    requires p < n && j < n
    decreases k
  {
    if k == 0 then 0 else (if p == j then 1 else 0) + Hits(if p + 1 == n then 0 else p + 1, k - 1, n, j)
  }

  /** The first comes after `d` others, and from then on every `n`-th. */
  lemma {:induction false} HitsAre(p: nat, k: nat, n: nat, j: nat, d: nat)
    requires p < n && j < n && d == (if p <= j then j - p else j + n - p)
    ensures Hits(p, k, n, j) == if k <= d then 0 else (k - d - 1) / n + 1
    decreases k
  {
    if k > 0 {
      var q := if p + 1 == n then 0 else p + 1;
      if p == j {
        HitsAre(q, k - 1, n, j, n - 1);
        if k > n {
          OnePeriod(k - 1, n);
        } else {
          DivModIs(k - 1, n, 0, k - 1);
        }
      } else {
        HitsAre(q, k - 1, n, j, d - 1);
      }
    }
  }

  lemma OnePeriod(a: nat, n: nat)
    requires 0 < n <= a
    ensures (a - n) / n + 1 == a / n
  {
    var q, r := (a - n) / n, (a - n) % n;
    assert a == (q + 1) * n + r;
    DivModIs(a, n, q + 1, r);
  }

  /** So any `k` requests in a row are spread over the pool with counts that differ by one at the most. */
  lemma RoundRobinSpreads(p: nat, k: nat, n: nat, j: nat)
    requires p < n && j < n
    ensures k / n <= Hits(p, k, n, j) <= k / n + 1
  {
    var d := if p <= j then j - p else j + n - p;
    HitsAre(p, k, n, j, d);
    if k > d {
      QuotientsAreClose(k, d, k - d - 1, n);
    } else {
      DivModIs(k, n, 0, k);
    }
  }

  lemma QuotientsAreClose(k: nat, d: nat, e: nat, n: nat)
    requires d < n && k == e + d + 1
    ensures e / n <= k / n <= e / n + 1
  {
    var q, r := e / n, e % n;
    assert e == q * n + r;
    if r + d + 1 < n {
      DivModIs(k, n, q, r + d + 1);
    } else {
      assert (q + 1) * n == q * n + n;
      DivModIs(k, n, q + 1, r + d + 1 - n);
    }
  }

  /** The step from one request to the next, as the program makes it with a counter and a remainder. */
  lemma NextInTurn(i: nat, n: nat)
    requires n > 0
    ensures (i + 1) % n == if i % n + 1 == n then 0 else i % n + 1
  {
    var q, r := i / n, i % n;
    assert i == q * n + r;
    if r + 1 == n {
      assert i + 1 == (q + 1) * n;
      DivModIs(i + 1, n, q + 1, 0);
    } else {
      DivModIs(i + 1, n, q, r + 1);
    }
  }

  class Client {
    const mode: ConnMode
    const deadlines: seq<int>
    const pre: nat
    const measure: nat
    const threshold: int
    const conns: seq<nat>

    var gens: Heap
    var next: nat
    var sent: nat
    var rcvd: nat
    var measureCount: nat
    var started: nat
    var ended: nat
    var missed: nat
    var armed: Option<int>
    var exited: bool

    /** The requests answered so far, and the schedule indices whose samples were recorded. */
    var answered: seq<Req>
    var samples: seq<nat>

    /** The reports of `epoll_wait` that were handled. */
    var handled: seq<Event>

    ghost predicate Config() {
      && |deadlines| > 0 && pre + measure <= |deadlines| && NonDecreasing(deadlines)
      && (mode != PerRequest ==> conns != [])
    }

    ghost predicate Pooled(heap: Heap) {
      forall c :: c in conns ==> Live(heap, c) && heap[c].value.pooled
    }

    /** The state when `begun` requests have been handed to a generator: `sent`, or one more while
        `send_request` is active. */
    ghost predicate Inv(begun: nat)
      reads this
    {
      && Config()
      && sent <= begun <= sent + 1 && begun <= |deadlines|
      && AllCounted(gens) && Pooled(gens) && Balanced(answered, gens, Issued(begun, pre, measure))
      && Tally(answered, rcvd, samples, measureCount, ended, measure)
      && started == (if begun > pre then 1 else 0)
      && (mode == RoundRobin ==> next == begun)
      && (exited <==> rcvd >= |deadlines|)
    }

    /** Between handlers nothing is active and the deadlines already served lie in the past. */
    ghost predicate Boundary(now: int)
      reads this
    {
      Inv(sent) && NoFrames(gens) && forall i :: 0 <= i < sent ==> deadlines[i] <= now
    }

    method Get(g: nat)
      requires Live(gens, g)
      modifies `gens
      ensures gens == old(gens)[g := Some(old(gens[g].value).(refCnt := old(gens[g].value).refCnt + 1))]
    {
      var gen := gens[g].value;
      gens := gens[g := Some(gen.(refCnt := gen.refCnt + 1))];
    }

    /** The exception for a negative count cannot be reached from a counted generator. */
    method Put(g: nat)
      requires Live(gens, g) && gens[g].value.refCnt > 0
      modifies `gens
      ensures gens == old(gens)[g := Released(old(gens[g].value))]
    {
      var gen := gens[g].value;
      var left := gen.refCnt - 1;
      if left == 0 {
        gens := gens[g := None];
      } else {
        gens := gens[g := Some(gen.(refCnt := left))];
      }
    }

    /** The answered request leaves the connection, and its reference is dropped.  The call that is
        active on the generator still holds one, so nothing is freed here. */
    method Finish(g: nat) returns (req: Req)
      requires Live(gens, g) && gens[g].value.pending != [] && gens[g].value.frames > 0
      requires AllCounted(gens) && Pooled(gens)
      modifies `gens
      ensures AllCounted(gens) && Pooled(gens)
      ensures var gen := old(gens[g].value);
              && req == gen.pending[0]
              && gens == old(gens)[g := Some(gen.(pending := gen.pending[1..], refCnt := gen.refCnt - 1))]
    {
      var gen := gens[g].value;
      req := gen.pending[0];
      gens := gens[g := Some(gen.(pending := gen.pending[1..]))];
      Put(g);
    }

    /** The part of `record_sample` that counts. */
    method Count(req: Req)
      requires Tally(answered, rcvd, samples, measureCount, ended, measure) && rcvd < |deadlines| && !exited
      modifies `rcvd, `measureCount, `samples, `answered, `ended, `exited
      ensures answered == old(answered) + [req]
      ensures Tally(answered, rcvd, samples, measureCount, ended, measure)
      ensures exited <==> rcvd >= |deadlines|
    {
      if req.measure {
        measureCount := measureCount + 1;
        samples := samples + [req.index];
        if measureCount == measure {
          ended := ended + 1;
        }
      }
      rcvd := rcvd + 1;
      if rcvd >= |deadlines| {
        exited := true;
      }
      SamplesSnoc(answered, req);
      answered := answered + [req];
    }

    /** `record_sample` for the oldest outstanding request of `g`, called back from an active call. */
    method RecordSample(g: nat, ghost begun: nat)
      requires Inv(begun) && !exited
      requires Live(gens, g) && gens[g].value.pending != [] && gens[g].value.frames > 0
      modifies `gens, `rcvd, `measureCount, `samples, `answered, `ended, `exited
      ensures Inv(begun) && answered == old(answered) + [old(gens[g].value).pending[0]]
      ensures var gen := old(gens[g].value);
              gens == old(gens)[g := Some(gen.(pending := gen.pending[1..], refCnt := gen.refCnt - 1))]
    {
      var req := Finish(g);
      Count(req);
      Answered(old(gens), g, old(answered), begun);
    }

    lemma Answered(before: Heap, g: nat, was: seq<Req>, begun: nat)
      requires Live(before, g) && before[g].value.pending != [] && g < |gens|
      requires gens == before[g := gens[g]] && PendingOf(gens[g]) == before[g].value.pending[1..]
      requires answered == was + [before[g].value.pending[0]]
      requires Balanced(was, before, Issued(begun, pre, measure))
      ensures Balanced(answered, gens, Issued(begun, pre, measure))
    {
      var p := before[g].value.pending;
      PendingChanges(before, g, gens[g]);
      assert p == [p[0]] + p[1..];
      BalanceIsEquality(was, before, Issued(begun, pre, measure));
      Moved(multiset(was), p[0], multiset(p[1..]), AllPending(before), AllPending(gens),
            multiset(Issued(begun, pre, measure)));
    }

    /** When the process has exited, no generator has anything outstanding. */
    lemma ExitedIsDone(begun: nat, g: nat)
      requires Inv(begun) && exited && g < |gens|
      ensures PendingOf(gens[g]) == []
    {
      SentIsReceivedPlusOutstanding(begun);
      NoneOutstanding(gens, |gens|, g);
    }

    /** The first `k` of `p` have been answered, and the rest is outstanding on `g`. */
    ghost predicate Answering(before: seq<Req>, p: seq<Req>, k: nat, g: nat)
      requires k <= |p|
      reads this
    {
      Live(gens, g) && answered == before + p[..k] && gens[g].value.pending == p[k..]
    }

    method RecordNext(g: nat, ghost before: seq<Req>, ghost p: seq<Req>, ghost k: nat, ghost begun: nat)
      requires Inv(begun) && !exited && Live(gens, g) && gens[g].value.frames > 0
      requires k < |p| && Answering(before, p, k, g)
      modifies `gens, `rcvd, `measureCount, `samples, `answered, `ended, `exited
      ensures Inv(begun) && OnlyChanged(old(gens), gens, g) && Answering(before, p, k + 1, g)
      ensures gens[g].value.frames == old(gens[g].value).frames && gens[g].value.pooled == old(gens[g].value).pooled
    {
      NextPending(before, p, k);
      RecordSample(g, begun);
    }

    /** The `n` answers that have arrived are read from `g` and called back, oldest first. */
    method Replies(g: nat, n: nat, ghost begun: nat)
      requires Inv(begun) && !exited && Live(gens, g) && gens[g].value.frames > 0
      modifies `gens, `rcvd, `measureCount, `samples, `answered, `ended, `exited
      ensures Inv(begun) && OnlyChanged(old(gens), gens, g) && Live(gens, g)
      ensures gens[g].value.frames == old(gens[g].value).frames && gens[g].value.pooled == old(gens[g].value).pooled
      ensures Grown(old(answered), answered, old(gens[g].value).pending, n)
      ensures gens[g].value.pending == old(gens[g].value).pending[Min(n, |old(gens[g].value).pending|)..]
    {
      ghost var p := gens[g].value.pending;
      var left: nat := n;
      assert p[..0] == [] && p[0..] == p;
      while left > 0 && !exited && gens[g].value.pending != []
        invariant Inv(begun) && OnlyChanged(old(gens), gens, g) && Live(gens, g)
        invariant gens[g].value.frames == old(gens[g].value).frames
        invariant gens[g].value.pooled == old(gens[g].value).pooled
        invariant left <= n && n - left <= |p|
        invariant Answering(old(answered), p, n - left, g)
        decreases left
      {
        RecordNext(g, old(answered), p, n - left, begun);
        left := left - 1;
      }
      if exited {
        ExitedIsDone(begun, g);
      }
    }

    /** `get` on the way into `send_request` or `run_io`. */
    method Enter(g: nat, ghost begun: nat)
      requires Inv(begun) && Live(gens, g)
      modifies `gens
      ensures Inv(begun) && OnlyChanged(old(gens), gens, g) && Live(gens, g)
      ensures gens[g].value.frames == old(gens[g].value).frames + 1
      ensures gens[g].value.pooled == old(gens[g].value).pooled
      ensures gens[g].value.pending == old(gens[g].value).pending
    {
      var gen := gens[g].value;
      ghost var x := gen.(refCnt := gen.refCnt + 1, frames := gen.frames + 1);
      BalanceStays(answered, gens, g, Some(x), Issued(begun, pre, measure));
      Replaced(gens, g, x);
      Get(g);
      gens := gens[g := Some(gens[g].value.(frames := gen.frames + 1))];
      assert gens == old(gens)[g := Some(x)];
    }

    /** `put` on the way out: a generator without pool and requests is deleted here, any other stays. */
    method Leave(g: nat, ghost begun: nat)
      requires Inv(begun) && Live(gens, g) && gens[g].value.frames > 0
      modifies `gens
      ensures Inv(begun) && OnlyChanged(old(gens), gens, g)
      ensures var gen := old(gens[g].value);
              && (Live(gens, g) <==> gen.pooled || gen.pending != [] || gen.frames > 1)
              && (Live(gens, g) ==> gens[g].value.frames == gen.frames - 1)
              && PendingOf(gens[g]) == gen.pending
    {
      var gen := gens[g].value;
      ghost var x := Released(gen.(frames := gen.frames - 1));
      BalanceStays(answered, gens, g, x, Issued(begun, pre, measure));
      Let(gens, g, x);
      gens := gens[g := Some(gen.(frames := gen.frames - 1))];
      Put(g);
      assert gens == old(gens)[g := x];
    }

    /** `send_request` and `run_io` of a generator: a reference is held while the socket works and
        answers are called back.  When the process has exited nothing more is done. */
    method Frame(g: nat, n: nat, ghost begun: nat)
      requires Inv(begun) && !exited && Live(gens, g) && NoFrames(gens)
      modifies `gens, `rcvd, `measureCount, `samples, `answered, `ended, `exited
      ensures Inv(begun) && OnlyChanged(old(gens), gens, g)
      ensures !exited ==> NoFrames(gens)
      ensures old(gens[g].value).pooled ==> Live(gens, g)
      ensures Grown(old(answered), answered, old(gens[g].value).pending, n)
      ensures PendingOf(gens[g]) == old(gens[g].value).pending[Min(n, |old(gens[g].value).pending|)..]
    {
      Enter(g, begun);
      Replies(g, n, begun);
      if exited {
        return;
      }
      Leave(g, begun);
    }

    lemma Replaced(before: Heap, g: nat, x: Gen)
      requires AllCounted(before) && Pooled(before) && Live(before, g)
      requires Counted(x) && x.pooled == before[g].value.pooled
      ensures AllCounted(before[g := Some(x)]) && Pooled(before[g := Some(x)])
      ensures NoFrames(before) && x.frames == 0 ==> NoFrames(before[g := Some(x)])
    {
    }

    lemma Let(before: Heap, g: nat, x: Option<Gen>)
      requires AllCounted(before) && Pooled(before) && Live(before, g)
      requires var gen := before[g].value; gen.frames > 0 && x == Released(gen.(frames := gen.frames - 1))
      ensures AllCounted(before[g := x]) && Pooled(before[g := x])
    {
    }

    /** A generator of the pool gets one more request, and one more reference for it. */
    method Assign(g: nat, req: Req)
      requires AllCounted(gens) && Pooled(gens) && NoFrames(gens) && g in conns
      modifies `gens
      ensures AllCounted(gens) && Pooled(gens) && NoFrames(gens) && OnlyChanged(old(gens), gens, g) && Live(gens, g)
      ensures Gained(old(gens), gens, req) && gens[g].value.pooled
      ensures gens[g].value.pending == PendingAt(old(gens), g) + [req]
    {
      var gen := gens[g].value;
      ghost var x := gen.(refCnt := gen.refCnt + 1, pending := gen.pending + [req]);
      OneMorePending(gens, g, Some(x), req);
      Replaced(gens, g, x);
      Get(g);
      gens := gens[g := Some(gens[g].value.(pending := gen.pending + [req]))];
      assert gens == old(gens)[g := Some(x)];
    }

    /** A connection of its own starts with the reference of its only request. */
    method NewConnection(req: Req) returns (g: nat)
      requires AllCounted(gens) && Pooled(gens) && NoFrames(gens)
      modifies `gens
      ensures AllCounted(gens) && Pooled(gens) && NoFrames(gens) && g == |old(gens)| && Live(gens, g)
      ensures gens == old(gens) + [gens[g]] && gens[g].value.pending == [req]
      ensures Gained(old(gens), gens, req)
    {
      g := |gens|;
      PendingGrows(gens, Some(Gen(1, false, [req], 0)));
      gens := gens + [Some(Gen(1, false, [req], 0))];
    }

    /** Chooses the connection for a request and takes a reference for it. */
    method GetConnection(req: Req, choice: nat) returns (g: nat)
      requires AllCounted(gens) && Pooled(gens) && NoFrames(gens) && (mode != PerRequest ==> conns != [])
      modifies `gens, `next
      ensures AllCounted(gens) && Pooled(gens) && NoFrames(gens) && Live(gens, g)
      ensures Gained(old(gens), gens, req)
      ensures Chosen(old(gens), gens, g) && gens[g].value.pending == PendingAt(old(gens), g) + [req]
      ensures mode == PerRequest <==> g == |old(gens)|
      ensures |gens| == |old(gens)| + if mode == PerRequest then 1 else 0
      ensures mode == RoundRobin ==> g == conns[old(next) % |conns|] && next == old(next) + 1
      ensures mode == Random ==> g == conns[choice % |conns|]
    {
      if mode == PerRequest {
        g := NewConnection(req);
      } else {
        if mode == RoundRobin {
          g := conns[next % |conns|];
          next := next + 1;
        } else {
          g := conns[choice % |conns|];
        }
        Assign(g, req);
      }
    }

    /** The first half of `send_request`: a connection is chosen, and the request now belongs to it. */
    method Begin(choice: nat) returns (g: nat)
      requires Inv(sent) && !exited && sent < |deadlines| && NoFrames(gens)
      modifies `gens, `next, `started
      ensures Inv(sent + 1) && NoFrames(gens) && Live(gens, g) && NoneFreed(old(gens), gens)
      ensures Live(old(gens), g) ==> gens[g].value.pooled
      ensures Handed(mode, conns, sent, old(gens), g)
      ensures gens[g].value.pending == PendingAt(old(gens), g) + [ReqAt(sent, pre, measure)]
    {
      var req := ReqAt(sent, pre, measure);
      MaybeStart();
      g := Hand(req, choice);
    }

    /** A connection is chosen for the next request of the schedule. */
    method Hand(req: Req, choice: nat) returns (g: nat)
      requires AllCounted(gens) && Pooled(gens) && NoFrames(gens) && (mode != PerRequest ==> conns != [])
      requires Balanced(answered, gens, Issued(req.index, pre, measure))
      requires req.measure == (pre <= req.index < pre + measure)
      requires mode == RoundRobin ==> next == req.index
      modifies `gens, `next
      ensures AllCounted(gens) && Pooled(gens) && NoFrames(gens) && Live(gens, g)
      ensures Balanced(answered, gens, Issued(req.index + 1, pre, measure)) && NoneFreed(old(gens), gens)
      ensures Live(old(gens), g) ==> gens[g].value.pooled
      ensures Handed(mode, conns, req.index, old(gens), g) && (mode == RoundRobin ==> next == req.index + 1)
      ensures gens[g].value.pending == PendingAt(old(gens), g) + [req]
    {
      g := GetConnection(req, choice);
      BalanceGains(answered, old(gens), gens, Issued(req.index, pre, measure), req);
      IssuedGrows(req.index, pre, measure);
      ChosenFreesNone(old(gens), gens, g);
    }

    method MaybeStart()
      requires started == (if sent > pre then 1 else 0)
      modifies `started
      ensures started == (if sent + 1 > pre then 1 else 0)
    {
      if sent == pre {
        started := started + 1;
      }
    }

    /** The answers that arrive while the request is being sent are those to the oldest requests of its
        connection. */
    method SendRequest(choice: nat, replies: nat) returns (g: nat)
      requires Inv(sent) && !exited && sent < |deadlines| && NoFrames(gens)
      modifies `gens, `next, `started, `rcvd, `measureCount, `samples, `answered, `ended, `exited
      ensures Inv(sent + 1) && NoneFreed(old(gens), gens) && (!exited ==> NoFrames(gens))
      ensures Handed(mode, conns, sent, old(gens), g) && g < |gens|
      ensures Grown(old(answered), answered, PendingAt(old(gens), g) + [ReqAt(sent, pre, measure)], replies)
      ensures var p := PendingAt(old(gens), g) + [ReqAt(sent, pre, measure)];
              PendingOf(gens[g]) == p[Min(replies, |p|)..]
    {
      g := Begin(choice);
      FirstFrame(g, replies, old(gens), PendingAt(old(gens), g) + [ReqAt(sent, pre, measure)]);
    }

    /** The call that sends the request just handed over; `before` is the heap without it. */
    method FirstFrame(g: nat, n: nat, ghost before: Heap, ghost p: seq<Req>)
      requires Inv(sent + 1) && !exited && Live(gens, g) && NoFrames(gens)
      requires NoneFreed(before, gens) && (Live(before, g) ==> gens[g].value.pooled) && gens[g].value.pending == p
      modifies `gens, `rcvd, `measureCount, `samples, `answered, `ended, `exited
      ensures Inv(sent + 1) && (!exited ==> NoFrames(gens)) && NoneFreed(before, gens) && g < |gens|
      ensures Grown(old(answered), answered, p, n) && PendingOf(gens[g]) == p[Min(n, |p|)..]
    {
      ghost var begun := sent + 1;
      Frame(g, n, begun);
      StillNoneFreed(before, old(gens), gens, g);
      assert begun == sent + 1;
    }

    /** One due request of the loop below. */
    method SendDue(now: int, choice: nat, replies: nat)
      requires Boundary(now) && !exited && sent < |deadlines| && deadlines[sent] <= now
      modifies `gens, `next, `started, `rcvd, `measureCount, `samples, `answered, `ended, `exited, `sent
      ensures NoneFreed(old(gens), gens)
      ensures exited ==> Inv(|deadlines|)
      ensures !exited ==> Boundary(now) && sent == old(sent) + 1
    {
      var g := SendRequest(choice, replies);
      if exited {
        Exhausted();
      } else {
        sent := sent + 1;
      }
    }

    /** The handler that started with request `first` has counted every late send since. */
    ghost predicate CountedMisses(first: nat, before: nat, now: int)
      reads this
    {
      first <= sent <= |deadlines| && missed == before + Missed(deadlines, first + 1, sent, now, threshold)
    }

    /** Everything due has been sent, and the timer is armed for what is left. */
    ghost predicate CaughtUp(now: int)
      reads this
    {
      && Boundary(now) && sent <= |deadlines|
      && armed == (if sent < |deadlines| then Some(deadlines[sent] - now) else None)
      && (sent < |deadlines| ==> deadlines[sent] > now)
    }

    /** The count is ahead by the request that is about to be sent. */
    method CountLate(sleep: int, first: nat, now: int, ghost before: nat)
      requires sent < |deadlines| && sleep == deadlines[sent] - now && CountedMisses(first, before, now)
      modifies `missed
      ensures first <= sent && missed == before + Missed(deadlines, first + 1, sent + 1, now, threshold)
    {
      MissedGrows(deadlines, first + 1, sent, now, threshold);
      if sent > first && sleep < threshold {
        missed := missed + 1;
      }
    }

    /** The loop body of `timer_handler`; `stop` is a return from it. */
    method Tick(now: int, first: nat, choice: nat, replies: nat, ghost before: nat) returns (stop: bool)
      requires Boundary(now) && !exited && sent < |deadlines| && armed == None && CountedMisses(first, before, now)
      modifies `gens, `next, `started, `rcvd, `measureCount, `samples, `answered, `ended, `exited, `sent,
               `missed, `armed
      ensures NoneFreed(old(gens), gens)
      ensures exited ==> stop && Inv(|deadlines|)
      ensures !exited ==> CountedMisses(first, before, now)
      ensures !exited && stop ==> CaughtUp(now)
      ensures !stop ==> Boundary(now) && old(sent) < sent < |deadlines| && armed == None
    {
      var sleep := deadlines[sent] - now;
      if sleep > 0 {
        armed := Some(sleep);
        return true;
      }
      CountLate(sleep, first, now, before);
      SendDue(now, choice, replies);
      stop := exited || sent >= |deadlines|;
    }

    /** Sends everything that is due, then arms the timer for exactly the next deadline. */
    method TimerHandler(now: int, choices: nat -> nat, replies: nat -> nat)
      requires Boundary(now) && !exited && sent < |deadlines|
      modifies `gens, `next, `started, `rcvd, `measureCount, `samples, `answered, `ended, `exited, `sent,
               `missed, `armed
      ensures NoneFreed(old(gens), gens)
      ensures exited ==> Inv(|deadlines|)
      ensures !exited ==> CaughtUp(now)
      ensures !exited ==> missed == old(missed) + |set i | old(sent) + 1 <= i < sent && deadlines[i] - now < threshold|
    {
      armed := None;
      var first, stop := sent, false;
      ghost var before := missed;
      while !stop
        invariant NoneFreed(old(gens), gens)
        invariant exited ==> stop && Inv(|deadlines|)
        invariant !exited ==> CountedMisses(first, before, now)
        invariant !exited && stop ==> CaughtUp(now)
        invariant !stop ==> Boundary(now) && sent < |deadlines| && armed == None
        decreases !stop, |deadlines| - sent
      {
        stop := Tick(now, first, choices(sent), replies(sent), before);
      }
      if !exited {
        MissedIsCount(deadlines, first + 1, sent, now, threshold);
      }
    }

    /** Being caught up means that the number sent is the number of deadlines that have passed. */
    lemma CaughtUpIsExact(now: int)
      requires CaughtUp(now)
      ensures forall i :: 0 <= i < |deadlines| ==> (i < sent <==> deadlines[i] <= now)
      ensures sent < |deadlines| ==> armed.Some? && armed.value > 0 && armed.value == deadlines[sent] - now
    {
      forall i | sent <= i < |deadlines|
        ensures deadlines[i] > now
      {
        assert deadlines[sent] <= deadlines[i];
      }
    }

    /** The process only exits when the whole schedule has been sent and answered. */
    lemma Exhausted()
      requires Inv(sent + 1) && exited
      ensures sent + 1 == |deadlines| && Inv(|deadlines|)
    {
      SentIsReceivedPlusOutstanding(sent + 1);
    }

    /** At a handler boundary, sent is received plus outstanding, summed over the connections. */
    lemma SentIsReceivedPlusOutstanding(begun: nat)
      requires Inv(begun)
      ensures begun == rcvd + Outstanding(gens)
    {
      OutstandingIsSize(gens, |gens|);
      BalanceIsEquality(answered, gens, Issued(begun, pre, measure));
      assert |multiset(answered) + AllPending(gens)| == |multiset(Issued(begun, pre, measure))| == begun;
      assert |multiset(answered)| == rcvd;
    }

    /** What the run leaves behind: every request was answered, exactly the requests of the measurement
        phase were recorded, and the end of the measurements was marked once. */
    lemma ExactlyMeasured()
      requires Inv(|deadlines|) && exited
      ensures rcvd == |deadlines| && Outstanding(gens) == 0
      ensures measureCount == measure && multiset(samples) == multiset(Measured(pre, measure))
      ensures ended == (if measure > 0 then 1 else 0) && started == (if |deadlines| > pre then 1 else 0)
    {
      SentIsReceivedPlusOutstanding(|deadlines|);
      OutstandingIsSize(gens, |gens|);
      assert AllPending(gens) == multiset{};
      AllAnswered(answered, |deadlines|, pre, measure);
    }

    /** Once everything is sent and nothing is outstanding any more, the process has exited. */
    lemma ExitsWhenAnswered()
      requires Inv(|deadlines|) && forall g :: 0 <= g < |gens| ==> PendingOf(gens[g]) == []
      ensures exited
    {
      NothingOutstanding(gens, |gens|);
      SentIsReceivedPlusOutstanding(|deadlines|);
    }

    /** Between handlers, only generators of the pool and those with a request to answer are alive. */
    lemma AliveOnlyIfNeeded(now: int, g: nat)
      requires Boundary(now) && Live(gens, g)
      ensures gens[g].value.pooled || gens[g].value.pending != []
    {
    }

    /** A readable connection: the generator itself, and it alone, may be freed by its last answer. */
    method RunIo(g: nat, replies: nat, ghost now: int)
      requires Boundary(now) && !exited && Live(gens, g)
      modifies `gens, `rcvd, `measureCount, `samples, `answered, `ended, `exited
      ensures OnlyChanged(old(gens), gens, g)
      ensures exited ==> Inv(|deadlines|)
      ensures !exited ==> Boundary(now)
      ensures old(gens[g].value).pooled ==> Live(gens, g)
      ensures Grown(old(answered), answered, old(gens[g].value).pending, replies)
      ensures PendingOf(gens[g]) == old(gens[g].value).pending[Min(replies, |old(gens[g].value).pending|)..]
    {
      ghost var begun := sent;
      Frame(g, replies, begun);
      if exited {
        AllSent(begun);
      }
    }

    lemma AllSent(begun: nat)
      requires Inv(begun) && exited
      ensures begun == |deadlines|
    {
      SentIsReceivedPlusOutstanding(begun);
    }

    /** An armed timer has something left to send. */
    ghost predicate TimerSane()
      reads this
    {
      armed.Some? ==> sent < |deadlines|
    }

    /** One report of `epoll_wait`.  The rest of the batch stays possible: no other report can have been
        for a generator that this one freed. */
    method Handle(batch: seq<Event>, clock: int, choices: nat -> nat, replies: nat -> nat) returns (clock2: int)
      requires batch != [] && Possible(batch, gens, armed.Some?, clock)
      requires Boundary(clock) && !exited && TimerSane()
      modifies this
      ensures exited ==> Inv(|deadlines|)
      ensures !exited ==> Boundary(clock2) && TimerSane() && Possible(batch[1..], gens, armed.Some?, clock2)
      ensures handled == old(handled) + [batch[0]]
      ensures match batch[0]
              case Timer(now) => !exited ==> clock2 == now && CaughtUp(now)
              case Io(g, n) => clock2 == clock && sent == old(sent)
                               && Grown(old(answered), answered, old(PendingAt(gens, g)), n)
    {
      var event := batch[0];
      handled := handled + [event];
      if event.Timer? {
        clock2 := event.now;
        TimerHandler(event.now, choices, replies);
      } else {
        clock2 := clock;
        RunIo(event.gen, event.replies, clock);
      }
      RestPossible(batch, old(gens), gens, old(armed.Some?), armed.Some?, clock, clock2);
    }

    /** The events of one `epoll_wait`, in order, until the process exits. */
    method RunBatch(batch: seq<Event>, clock: int, choices: nat -> nat, replies: nat -> nat) returns (clock2: int)
      requires Possible(batch, gens, armed.Some?, clock)
      requires Boundary(clock) && !exited && TimerSane()
      modifies this
      ensures exited ==> Inv(|deadlines|)
      ensures !exited ==> Boundary(clock2) && TimerSane()
      ensures old(handled) <= handled && handled[|old(handled)|..] <= batch
      ensures !exited ==> handled == old(handled) + batch
    {
      clock2 := clock;
      var rest := batch;
      while rest != []
        invariant Suffix(old(handled), batch, handled, rest)
        invariant Possible(rest, gens, armed.Some?, clock2)
        invariant Boundary(clock2) && !exited && TimerSane()
        decreases |rest|
      {
        StepOn(old(handled), batch, handled, rest);
        clock2 := Handle(rest, clock2, choices, replies);
        if exited {
          return;
        }
        rest := rest[1..];
      }
    }

    /** The main loop on any batches of events; one that `epoll_wait` cannot report is passed over. */
    method Run(start: int, batches: seq<seq<Event>>, choices: nat -> nat, replies: nat -> nat) returns (clock: int)
      requires Boundary(start) && !exited && sent == 0
      modifies this
      ensures exited ==> Inv(|deadlines|)
      ensures !exited ==> Boundary(clock) && TimerSane()
    {
      clock := start;
      TimerHandler(start, choices, replies);
      var i := 0;
      while i < |batches| && !exited
        invariant exited ==> Inv(|deadlines|)
        invariant !exited ==> Boundary(clock) && TimerSane()
        decreases |batches| - i
      {
        if Possible(batches[i], gens, armed.Some?, clock) {
          clock := RunBatch(batches[i], clock, choices, replies);
        }
        i := i + 1;
      }
    }

    /** A client with its schedule and, unless every request gets its own connection, a pool. */
    constructor (mode: ConnMode, deadlines: seq<int>, pre: nat, measure: nat, threshold: int, connCnt: nat)
      requires |deadlines| > 0 && pre + measure <= |deadlines| && NonDecreasing(deadlines)
      requires mode != PerRequest ==> connCnt > 0
      ensures this.mode == mode && this.deadlines == deadlines && this.pre == pre && this.measure == measure
      ensures Inv(0) && sent == 0 && !exited && NoFrames(gens) && armed == None
    {
      var pool := if mode == PerRequest then 0 else connCnt;
      this.mode, this.deadlines, this.pre, this.measure, this.threshold := mode, deadlines, pre, measure, threshold;
      conns := seq(pool, i => i);
      gens := seq(pool, _ => Some(Gen(1, true, [], 0)));
      next, sent, rcvd, measureCount, started, ended, missed := 0, 0, 0, 0, 0, 0, 0;
      armed, exited, answered, samples, handled := None, false, [], [], [];
      new;
      IdlePool(gens, pool);
    }
  }

  /** Two reports in one batch come from different descriptors. */
  predicate Apart(a: Event, b: Event) {
    if a.Timer? then b.Io? else b.Io? ==> a.gen != b.gen
  }

  /** What `epoll_wait` can report: each descriptor at most once, only connections that are open, and
      the timer only if it is armed and not before the last time it was read. */
  predicate Possible(batch: seq<Event>, gens: Heap, armed: bool, clock: int) {
    && (forall i, j :: 0 <= i < j < |batch| ==> Apart(batch[i], batch[j]))
    && (forall i :: 0 <= i < |batch| ==>
          if batch[i].Timer? then armed && batch[i].now >= clock else Live(gens, batch[i].gen))
  }

  /** Of `batch`, everything but `rest` has been handled. */
  predicate Suffix(before: seq<Event>, batch: seq<Event>, handled: seq<Event>, rest: seq<Event>) {
    |rest| <= |batch| && rest == batch[|batch| - |rest|..] && handled == before + batch[..|batch| - |rest|]
  }

  lemma StepOn(before: seq<Event>, batch: seq<Event>, handled: seq<Event>, rest: seq<Event>)
    requires Suffix(before, batch, handled, rest) && rest != []
    ensures Suffix(before, batch, handled + [rest[0]], rest[1..])
    ensures before <= handled + [rest[0]] && (handled + [rest[0]])[|before|..] <= batch
  {
    var n := |batch| - |rest|;
    assert batch[..n] + [rest[0]] == batch[..n + 1];
    assert (handled + [rest[0]])[|before|..] == batch[..n + 1];
  }

  lemma RestPossible(batch: seq<Event>, before: Heap, after: Heap, armed: bool, armed2: bool, clock: int, clock2: int)
    requires batch != [] && Possible(batch, before, armed, clock)
    requires batch[0].Timer? ==> forall h :: Live(before, h) ==> Live(after, h)
    requires batch[0].Io? ==> armed2 == armed && clock2 == clock
    requires batch[0].Io? ==> forall h :: Live(before, h) && h != batch[0].gen ==> Live(after, h)
    ensures Possible(batch[1..], after, armed2, clock2)
  {
    forall i | 0 <= i < |batch[1..]|
      ensures if batch[1..][i].Timer? then armed2 && batch[1..][i].now >= clock2 else Live(after, batch[1..][i].gen)
    {
      assert Apart(batch[0], batch[1 + i]);
    }
    forall i, j | 0 <= i < j < |batch[1..]|
      ensures Apart(batch[1..][i], batch[1..][j])
    {
      assert Apart(batch[1 + i], batch[1 + j]);
    }
  }

  lemma {:induction false} IdlePool(gens: Heap, n: nat)
    requires n <= |gens| && forall i :: 0 <= i < n ==> PendingOf(gens[i]) == []
    ensures PendingUpTo(gens, n) == multiset{}
  {
    if n > 0 {
      IdlePool(gens, n - 1);
    }
  }
}
