/**
 The transmit half of client/socket_buf.cc on values.  A callback point is stored as the
 number of bytes between it and the point before it; these lemmas show that the stored
 differences always stand for the absolute stream positions at which the points were set.
 */
module TxStream {
  import opened Common

  /** A queued callback point: bytes still to send after the previous point, and its argument. */
  datatype IOTx = IOTx(len: nat, cbdata: nat)

  /** A callback that ran in a write that took the total sent from `before` to `after`. */
  datatype Fired = Fired(cbdata: nat, before: nat, after: nat)

  /** `sent` is what the kernel took, `pending` what waits in the buffer, `out` is `tx_out_`. */
  datatype TxState = TxState(sent: seq<byte>, pending: seq<byte>, cbs: seq<IOTx>, out: nat, fired: seq<Fired>)

  function Sum(cbs: seq<IOTx>): nat {
    if cbs == [] then 0 else cbs[0].len + Sum(cbs[1..])
  }

  /** A callback point as its caller sees it: the argument, and the stream position it waits for. */
  datatype Target = Target(cbdata: nat, at: nat)

  /** What the stored differences stand for, when `base` bytes have been sent. */
  function Targets(cbs: seq<IOTx>, base: nat): (p: seq<Target>)
    ensures |p| == |cbs|
    decreases |cbs|
  {
    if cbs == [] then []
    else [Target(cbs[0].cbdata, base + cbs[0].len)] + Targets(cbs[1..], base + cbs[0].len)
  }

  // ---------- The loop over the callback queue after `n` bytes were written ----------

  datatype Retired = Retired(count: nat, rest: seq<IOTx>, out: nat)

  /** How many points run, what stays queued, and the new `tx_out_`. */
  function Retire(cbs: seq<IOTx>, n: nat, out: nat): (r: Retired)
    requires Sum(cbs) <= out
    ensures r.count + |r.rest| == |cbs|
    decreases |cbs|
  {
    if cbs == [] then Retired(0, [], out)
    else if cbs[0].len > n then Retired(0, [cbs[0].(len := cbs[0].len - n)] + cbs[1..], out - n)
    else
      var r := Retire(cbs[1..], n - cbs[0].len, out - cbs[0].len);
      r.(count := r.count + 1)
  }

  /** After `drop` callbacks, the rest of the loop leads to `goal`. */
  ghost predicate Retiring(goal: Retired, cbs: seq<IOTx>, drop: nat, left: nat, out: nat) {
    && drop <= |cbs|
    && Sum(cbs[drop..]) <= out
    && goal == Retire(cbs[drop..], left, out).(count := goal.count)
    && goal.count == drop + Retire(cbs[drop..], left, out).count
  }

  lemma RetiringStep(goal: Retired, cbs: seq<IOTx>, drop: nat, left: nat, out: nat)
    requires Retiring(goal, cbs, drop, left, out)
    ensures drop == |cbs| ==> goal == Retired(drop, [], out)
    ensures drop < |cbs| ==> cbs[drop].len <= out
    ensures drop < |cbs| && cbs[drop].len > left ==>
              goal == Retired(drop, [cbs[drop].(len := cbs[drop].len - left)] + cbs[drop + 1..], out - left)
    ensures drop < |cbs| && cbs[drop].len <= left ==>
              Retiring(goal, cbs, drop + 1, left - cbs[drop].len, out - cbs[drop].len)
  {
    if drop < |cbs| {
      assert cbs[drop..][1..] == cbs[drop + 1..];
    }
  }

  /** Retiring runs exactly the points at or before the new position, and the rest keep their positions. */
  lemma {:induction false} RetireRefinesTargets(cbs: seq<IOTx>, n: nat, out: nat, base: nat)
    requires Sum(cbs) <= out
    ensures var r := Retire(cbs, n, out);
            && r.out - Sum(r.rest) == out - Sum(cbs)
            && Targets(r.rest, base + n) == Targets(cbs, base)[r.count..]
            && (forall i :: 0 <= i < r.count ==> Targets(cbs, base)[i].at <= base + n)
            && (forall i :: r.count <= i < |cbs| ==> Targets(cbs, base)[i].at > base + n)
            && (n >= Sum(cbs) ==> r.rest == [])
            && (n < Sum(cbs) ==> Sum(r.rest) == Sum(cbs) - n)
    decreases |cbs|
  {
    if cbs == [] {
    } else if cbs[0].len > n {
      TargetsFrom(cbs[1..], base + cbs[0].len);
      var rest := [cbs[0].(len := cbs[0].len - n)] + cbs[1..];
      assert rest[1..] == cbs[1..];
    } else {
      RetireRefinesTargets(cbs[1..], n - cbs[0].len, out - cbs[0].len, base + cbs[0].len);
    }
  }

  lemma TargetsFrom(cbs: seq<IOTx>, base: nat)
    ensures forall i :: 0 <= i < |cbs| ==> base <= Targets(cbs, base)[i].at <= base + Sum(cbs)
    decreases |cbs|
  {
    if cbs != [] {
      TargetsFrom(cbs[1..], base + cbs[0].len);
    }
  }

  /** A new point is stored as its distance from the last one, which puts it at the end of the stream. */
  lemma {:induction false} AppendPoint(cbs: seq<IOTx>, c: IOTx, base: nat)
    ensures Sum(cbs + [c]) == Sum(cbs) + c.len
    ensures Targets(cbs + [c], base) == Targets(cbs, base) + [Target(c.cbdata, base + Sum(cbs) + c.len)]
    decreases |cbs|
  {
    if cbs == [] {
      assert [] + [c] == [c];
    } else {
      assert (cbs + [c])[1..] == cbs[1..] + [c];
      AppendPoint(cbs[1..], c, base + cbs[0].len);
    }
  }

  // ---------- Steps and runs ----------

  /** What the loop over the callback queue does; a full queue is not iterated. */
  function RetireQueue(cbs: seq<IOTx>, n: nat, out: nat, cap: nat): Retired
    requires Sum(cbs) <= out
  {
    if |cbs| < cap then Retire(cbs, n, out) else Retired(0, cbs, out)
  }

  datatype TxStep = Commit(data: seq<byte>) | Point(cbdata: nat) | Wrote(n: nat)

  /** What the code maintains; a full callback queue is never walked, so nothing is promised for it. */
  ghost predicate TxInv(s: TxState, cap: nat) {
    && |s.cbs| <= cap
    && Sum(s.cbs) == s.out
    && (|s.cbs| < cap ==> s.out <= |s.pending|)
  }

  function Tagged(cbs: seq<IOTx>, before: nat, after: nat): (f: seq<Fired>)
    ensures |f| == |cbs|
  {
    seq(|cbs|, i requires 0 <= i < |cbs| => Fired(cbs[i].cbdata, before, after))
  }

  lemma TaggedGrows(cbs: seq<IOTx>, drop: nat, before: nat, after: nat)
    requires drop < |cbs|
    ensures Tagged(cbs[..drop + 1], before, after) ==
            Tagged(cbs[..drop], before, after) + [Fired(cbs[drop].cbdata, before, after)]
  {
  }

  /** Whether the source can take the step: the queue has a free entry, the kernel takes what there is. */
  predicate Enabled(s: TxState, step: TxStep, cap: nat) {
    match step
    case Commit(data) => true
    case Point(_) => |s.cbs| < cap
    case Wrote(n) => n <= |s.pending|
  }

  function AddPoint(s: TxState, d: nat, cap: nat): (t: TxState)
    requires TxInv(s, cap) && |s.cbs| < cap
    ensures TxInv(t, cap)
  {
    var len := |s.pending|;
    var c := IOTx(if |s.cbs| == 0 then len else len - s.out, d);
    AppendPoint(s.cbs, c, 0);
    s.(cbs := s.cbs + [c], out := len)
  }

  function AfterWrite(s: TxState, n: nat, cap: nat): (t: TxState)
    requires TxInv(s, cap) && n <= |s.pending|
    ensures TxInv(t, cap)
  {
    RetireRefinesTargets(s.cbs, n, s.out, 0);
    var r := RetireQueue(s.cbs, n, s.out, cap);
    TxState(s.sent + s.pending[..n], s.pending[n..], r.rest, r.out,
            s.fired + Tagged(s.cbs[..r.count], |s.sent|, |s.sent| + n))
  }

  lemma AfterWriteIs(s: TxState, n: nat, cap: nat, r: Retired, t: TxState)
    requires TxInv(s, cap) && n <= |s.pending| && r == RetireQueue(s.cbs, n, s.out, cap)
    requires t.sent == s.sent + s.pending[..n] && t.pending == s.pending[n..]
    requires t.cbs == r.rest && t.out == r.out
    requires t.fired == s.fired + Tagged(s.cbs[..r.count], |s.sent|, |s.sent| + n)
    ensures t == AfterWrite(s, n, cap)
  {
  }

  function Apply(s: TxState, step: TxStep, cap: nat): (t: TxState)
    requires TxInv(s, cap) && Enabled(s, step, cap)
    ensures TxInv(t, cap)
  {
    match step
    case Commit(data) => s.(pending := s.pending + data)
    case Point(d) => AddPoint(s, d, cap)
    case Wrote(n) => AfterWrite(s, n, cap)
  }

  /** The state after a list of steps, or nothing if one of them could not be taken. */
  function Replay(steps: seq<TxStep>, cap: nat): (s: Option<TxState>)
    requires cap > 0
    ensures s.Some? ==> TxInv(s.value, cap)
    decreases |steps|
  {
    if steps == [] then Some(TxState([], [], [], 0, []))
    else
      var s := Replay(steps[..|steps| - 1], cap);
      var last := steps[|steps| - 1];
      if s.Some? && Enabled(s.value, last, cap) then Some(Apply(s.value, last, cap)) else None
  }

  function WrittenOf(steps: seq<TxStep>): seq<byte>
    decreases |steps|
  {
    if steps == [] then [] else
    var before, last := WrittenOf(steps[..|steps| - 1]), steps[|steps| - 1];
    if last.Commit? then before + last.data else before
  }

  /** A callback point when it is set: what it waits for, and how much had been sent by then. */
  datatype PointSet = PointSet(target: Target, sent: nat)

  function PointsOf(steps: seq<TxStep>, cap: nat): seq<PointSet>
    requires cap > 0 && Replay(steps, cap).Some?
    decreases |steps|
  {
    if steps == [] then [] else
    var before, last := steps[..|steps| - 1], steps[|steps| - 1];
    if last.Point? then
      PointsOf(before, cap) +
      [PointSet(Target(last.cbdata, |WrittenOf(before)|), |Replay(before, cap).value.sent|)]
    else PointsOf(before, cap)
  }

  lemma OneMoreStep(steps: seq<TxStep>, step: TxStep, cap: nat)
    requires cap > 0
    ensures var s := Replay(steps, cap);
            && Replay(steps + [step], cap) ==
               (if s.Some? && Enabled(s.value, step, cap) then Some(Apply(s.value, step, cap)) else None)
            && WrittenOf(steps + [step]) == WrittenOf(steps) + (if step.Commit? then step.data else [])
            && (Replay(steps + [step], cap).Some? ==>
                  PointsOf(steps + [step], cap) == PointsOf(steps, cap) +
                    if step.Point? then [PointSet(Target(step.cbdata, |WrittenOf(steps)|), |s.value.sent|)] else [])
  {
    var all := steps + [step];
    assert all[..|all| - 1] == steps && all[|all| - 1] == step;
  }

  /** The kernel has taken, and the buffer still holds, exactly what was written, in order. */
  lemma {:induction false} StreamIsFaithful(steps: seq<TxStep>, cap: nat)
    requires cap > 0 && Replay(steps, cap).Some?
    ensures var s := Replay(steps, cap).value;
            s.sent + s.pending == WrittenOf(steps)
    decreases |steps|
  {
    if steps != [] {
      var before, last := steps[..|steps| - 1], steps[|steps| - 1];
      var s := Replay(before, cap).value;
      StreamIsFaithful(before, cap);
      match last
      case Commit(data) => assert s.sent + (s.pending + data) == WrittenOf(before) + data;
      case Point(_) =>
      case Wrote(n) => assert s.pending[..n] + s.pending[n..] == s.pending;
    }
  }

  /** The write that took the total from `before` to `after` is the first to reach the point; a point
      set with nothing unsent runs in the next write. */
  predicate FirstReached(f: Fired, p: PointSet) {
    && f.cbdata == p.target.cbdata
    && f.before <= p.target.at <= f.after
    && (f.before == p.target.at ==> p.sent == p.target.at)
  }

  ghost predicate AllFirstReached(fired: seq<Fired>, points: seq<PointSet>) {
    |fired| == |points| && forall i :: 0 <= i < |fired| ==> FirstReached(fired[i], points[i])
  }

  /** The stored differences stand for the targets of these points, which nothing sent so far had to run. */
  ghost predicate AllWaiting(cbs: seq<IOTx>, sent: nat, points: seq<PointSet>) {
    && |cbs| == |points|
    && (forall i :: 0 <= i < |cbs| ==> Targets(cbs, sent)[i] == points[i].target)
    && (forall i :: 0 <= i < |cbs| && points[i].target.at == sent ==> points[i].sent == sent)
  }

  /** The callbacks that ran are the oldest points in order, each in the first write that reached it;
      the queue holds all the others. */
  ghost predicate Refines(s: TxState, points: seq<PointSet>) {
    var k := |s.fired|;
    && k <= |points|
    && AllFirstReached(s.fired, points[..k])
    && AllWaiting(s.cbs, |s.sent|, points[k..])
  }

  lemma WroteSplits(cbs: seq<IOTx>, sent: nat, points: seq<PointSet>, n: nat, out: nat)
    requires Sum(cbs) <= out && AllWaiting(cbs, sent, points)
    ensures var r := Retire(cbs, n, out);
            && AllFirstReached(Tagged(cbs[..r.count], sent, sent + n), points[..r.count])
            && AllWaiting(r.rest, sent + n, points[r.count..])
  {
    RetireRefinesTargets(cbs, n, out, sent);
    TargetsFrom(cbs, sent);
    var r := Retire(cbs, n, out);
    forall i | 0 <= i < r.count
      ensures FirstReached(Tagged(cbs[..r.count], sent, sent + n)[i], points[i])
    {
      assert Targets(cbs, sent)[i] == points[i].target;
      TargetArgument(cbs, sent, i);
    }
  }

  lemma TargetArgument(cbs: seq<IOTx>, base: nat, i: nat)
    requires i < |cbs|
    ensures Targets(cbs, base)[i].cbdata == cbs[i].cbdata
    decreases |cbs|
  {
    if i > 0 {
      TargetArgument(cbs[1..], base + cbs[0].len, i - 1);
    }
  }

  lemma Extend(f1: seq<Fired>, f2: seq<Fired>, p1: seq<PointSet>, p2: seq<PointSet>)
    requires AllFirstReached(f1, p1) && AllFirstReached(f2, p2)
    ensures AllFirstReached(f1 + f2, p1 + p2)
  {
  }

  /** Moving some points from the waiting part to the part that ran. */
  lemma Moved(t: TxState, f1: seq<Fired>, f2: seq<Fired>, points: seq<PointSet>)
    requires |f1| + |f2| <= |points| && t.fired == f1 + f2
    requires AllFirstReached(f1, points[..|f1|])
    requires AllFirstReached(f2, points[|f1|..][..|f2|])
    requires AllWaiting(t.cbs, |t.sent|, points[|f1|..][|f2|..])
    ensures Refines(t, points)
  {
    var k := |f1| + |f2|;
    Extend(f1, f2, points[..|f1|], points[|f1|..][..|f2|]);
    assert points[..|f1|] + points[|f1|..][..|f2|] == points[..k];
    assert points[|f1|..][|f2|..] == points[k..];
  }

  lemma SplitMoves(s: TxState, t: TxState, points: seq<PointSet>, n: nat, r: Retired, f: seq<Fired>)
    requires Refines(s, points) && Sum(s.cbs) <= s.out
    requires r == Retire(s.cbs, n, s.out) && f == Tagged(s.cbs[..r.count], |s.sent|, |s.sent| + n)
    requires t.fired == s.fired + f && t.cbs == r.rest && |t.sent| == |s.sent| + n
    ensures Refines(t, points)
  {
    WroteSplits(s.cbs, |s.sent|, points[|s.fired|..], n, s.out);
    Moved(t, s.fired, f, points);
  }

  lemma WroteRefines(s: TxState, points: seq<PointSet>, n: nat, cap: nat)
    requires TxInv(s, cap) && |s.cbs| < cap && n <= |s.pending|
    requires Refines(s, points)
    ensures Refines(AfterWrite(s, n, cap), points)
  {
    var r := Retire(s.cbs, n, s.out);
    SplitMoves(s, AfterWrite(s, n, cap), points, n, r, Tagged(s.cbs[..r.count], |s.sent|, |s.sent| + n));
  }

  lemma OneMoreWaiting(cbs: seq<IOTx>, sent: nat, points: seq<PointSet>, c: IOTx, p: PointSet)
    requires AllWaiting(cbs, sent, points)
    requires p.target == Target(c.cbdata, sent + Sum(cbs) + c.len) && p.sent == sent
    ensures AllWaiting(cbs + [c], sent, points + [p])
  {
    AppendPoint(cbs, c, sent);
  }

  lemma PointRefines(s: TxState, points: seq<PointSet>, d: nat, cap: nat)
    requires TxInv(s, cap) && |s.cbs| < cap && Refines(s, points)
    ensures Refines(AddPoint(s, d, cap),
                    points + [PointSet(Target(d, |s.sent| + |s.pending|), |s.sent|)])
  {
    var p := PointSet(Target(d, |s.sent| + |s.pending|), |s.sent|);
    OneMoreWaiting(s.cbs, |s.sent|, points[|s.fired|..], IOTx(|s.pending| - s.out, d), p);
    Appended(s.fired, s.cbs + [IOTx(|s.pending| - s.out, d)], |s.sent|, points, p);
  }

  lemma Appended(fired: seq<Fired>, cbs: seq<IOTx>, sent: nat, points: seq<PointSet>, p: PointSet)
    requires |fired| <= |points| && AllFirstReached(fired, points[..|fired|])
    requires AllWaiting(cbs, sent, points[|fired|..] + [p])
    ensures AllFirstReached(fired, (points + [p])[..|fired|]) && AllWaiting(cbs, sent, (points + [p])[|fired|..])
  {
    var k := |fired|;
    assert (points + [p])[..k] == points[..k] && (points + [p])[k..] == points[k..] + [p];
  }

  /** Delta encoding refines absolute positions in every run whose callback queue is not full at the end.
      (A full queue is never walked again, so a queue with room now always had room.) */
  lemma {:induction false} DeltasRefinePositions(steps: seq<TxStep>, cap: nat)
    requires cap > 0 && Replay(steps, cap).Some? && |Replay(steps, cap).value.cbs| < cap
    ensures Refines(Replay(steps, cap).value, PointsOf(steps, cap))
    decreases |steps|
  {
    if steps != [] {
      var before, last := steps[..|steps| - 1], steps[|steps| - 1];
      var s := Replay(before, cap).value;
      DeltasRefinePositions(before, cap);
      StreamIsFaithful(before, cap);
      match last
      case Commit(data) =>
      case Point(d) => PointRefines(s, PointsOf(before, cap), d, cap);
      case Wrote(n) => WroteRefines(s, PointsOf(before, cap), n, cap);
    }
  }

  /** Right after a write, a point has run exactly when the total sent has reached it. */
  lemma FiredIffReached(steps: seq<TxStep>, n: nat, cap: nat)
    requires cap > 0 && Replay(steps + [Wrote(n)], cap).Some?
    requires |Replay(steps + [Wrote(n)], cap).value.cbs| < cap
    ensures var s, points := Replay(steps + [Wrote(n)], cap).value, PointsOf(steps + [Wrote(n)], cap);
            forall i :: 0 <= i < |points| ==> (i < |s.fired| <==> points[i].target.at <= |s.sent|)
  {
    var all := steps + [Wrote(n)];
    assert all[..|all| - 1] == steps;
    DeltasRefinePositions(all, cap);
    var s, points := Replay(all, cap).value, PointsOf(all, cap);
    var t := Replay(steps, cap).value;
    var k := |s.fired|;
    RetireRefinesTargets(t.cbs, n, t.out, |t.sent|);
    forall i | 0 <= i < |points|
      ensures i < k <==> points[i].target.at <= |s.sent|
    {
      if i >= k {
        assert Targets(s.cbs, |s.sent|)[i - k] == points[k..][i - k].target;
      } else {
        FiredBefore(all, cap, i);
        assert FirstReached(s.fired[i], points[..k][i]);
      }
    }
  }

  /** No callback was run by a write beyond what has been sent by now. */
  lemma {:induction false} FiredBefore(steps: seq<TxStep>, cap: nat, i: nat)
    requires cap > 0 && Replay(steps, cap).Some? && i < |Replay(steps, cap).value.fired|
    ensures var s := Replay(steps, cap).value;
            s.fired[i].after <= |s.sent|
    decreases |steps|
  {
    var before := steps[..|steps| - 1];
    if i < |Replay(before, cap).value.fired| {
      FiredBefore(before, cap, i);
    }
  }

  /** Room in the queue is exactly what a write needs: the stored differences keep standing for the
      targets of the points that did not run if and only if the callback queue was not full. */
  lemma WriteRefinesIffQueueHasRoom(s: TxState, n: nat, cap: nat)
    requires cap > 0 && TxInv(s, cap) && s.cbs != [] && 0 < n <= |s.pending|
    ensures var t := AfterWrite(s, n, cap);
            Targets(t.cbs, |t.sent|) == Targets(s.cbs, |s.sent|)[|t.fired| - |s.fired|..] <==> |s.cbs| < cap
  {
    var t := AfterWrite(s, n, cap);
    if |s.cbs| < cap {
      RetireRefinesTargets(s.cbs, n, s.out, |s.sent|);
    } else {
      assert Targets(t.cbs, |t.sent|)[0].at == Targets(s.cbs, |s.sent|)[0].at + n;
    }
  }
}
