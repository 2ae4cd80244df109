/** Which callbacks the timer server makes, over every run of append, run and sort steps. */
module TimerRuns {
  import opened Arith
  import opened TimerServer

  /** A period of 0 ticks wraps around once before it ends. */
  function Period(b: Birth): (p: nat)
    ensures p > 0
  {
    if b.period == 0 then W32 else b.period
  }

  /** Whether a timer fires in its k-th pass. */
  predicate FiresAt(b: Birth, k: nat) {
    k > 0 && if b.reload then k % Period(b) == 0 else k == Period(b)
  }

  /** Passes left before a timer fires. */
  function Left(t: Timer): nat {
    if t.tick == 0 then W32 else t.tick
  }

  /** The state of a timer k passes after it was appended. */
  predicate TimerAt(t: Timer, b: Birth, k: nat) {
    && t.saveTick == b.period < W32 && t.reload == b.reload && t.tick < W32
    && if b.reload then !t.destroy && Left(t) == Period(b) - k % Period(b)
       else if k < Period(b) then !t.destroy && Left(t) == Period(b) - k
       else t.destroy
  }

  lemma ModNext(k: nat, p: nat)
    requires p > 0
    ensures k % p < p && (k + 1) % p == if k % p + 1 == p then 0 else k % p + 1
  {
    var q, r := k / p, k % p;
    assert k + 1 == q * p + (r + 1);
    if r + 1 == p {
      assert (q + 1) * p == q * p + p;
      DivModUnique(k + 1, p, q + 1, 0);
    } else {
      DivModUnique(k + 1, p, q, r + 1);
    }
  }

  /** One pass: a timer fires exactly when its pass count says so, and its state keeps up. */
  lemma TickStep(t: Timer, b: Birth, k: nat)
    requires TimerAt(t, b, k)
    ensures TimerAt(Ticked(t), b, k + 1)
    ensures Due(t) <==> FiresAt(b, k + 1)
  {
    ModNext(k, Period(b));
    var m, m' := k % Period(b), (k + 1) % Period(b);
  }

  lemma NewTimer(id: nat, tick: nat, reload: bool, p: nat)
    requires tick < W32
    ensures TimerAt(Timer(id, tick, tick, reload, false), Birth(p, tick, reload), 0)
  {
  }

  // ----- the invariant -----

  ghost predicate Good(w: World, t: Timer) {
    && t.id < |w.births| && w.births[t.id].pass <= w.passes
    && TimerAt(t, w.births[t.id], w.passes - w.births[t.id].pass)
  }

  ghost predicate IdsGrow(ts: seq<Timer>) {
    forall i, j :: 0 <= i < j < |ts| ==> ts[i].id < ts[j].id
  }

  ghost predicate Listed(ts: seq<Timer>, id: nat) {
    exists i :: 0 <= i < |ts| && ts[i].id == id
  }

  /** A one-shot timer whose period is over. */
  ghost predicate Finished(w: World, id: nat) {
    id < |w.births| && w.births[id].pass <= w.passes
    && !w.births[id].reload && w.passes - w.births[id].pass >= Period(w.births[id])
  }

  /** Callbacks in the order of passes and, within a pass, of the timers' creation. */
  predicate Before(f: Firing, g: Firing) {
    f.pass < g.pass || (f.pass == g.pass && f.id < g.id)
  }

  ghost predicate InOrder(tr: seq<Firing>) {
    forall i, j :: 0 <= i < j < |tr| ==> Before(tr[i], tr[j])
  }

  /** The callbacks that are due by the timers' births and the passes so far. */
  predicate Expected(births: seq<Birth>, passes: nat, f: Firing) {
    && f.id < |births| && births[f.id].pass < f.pass <= passes
    && FiresAt(births[f.id], f.pass - births[f.id].pass)
  }

  ghost predicate TraceExact(w: World) {
    InOrder(w.trace) && forall f :: f in w.trace <==> Expected(w.births, w.passes, f)
  }

  ghost predicate Timers(w: World) {
    && IdsGrow(w.timers)
    && (forall i :: 0 <= i < |w.timers| ==> Good(w, w.timers[i]))
    && (forall id: nat :: id < |w.births| ==>
          w.births[id].pass <= w.passes && (Listed(w.timers, id) || Finished(w, id)))
  }

  ghost predicate Inv(w: World) {
    Timers(w) && TraceExact(w)
  }

  // ----- what a pass fires -----

  lemma {:induction false} FiredMembers(ts: seq<Timer>, p: nat, f: Firing)
    ensures f in Fired(ts, p) <==> f.pass == p && exists i :: 0 <= i < |ts| && Due(ts[i]) && ts[i].id == f.id
  {
    hide Due;
    if ts == [] {
    } else {
      var n := |ts| - 1;
      FiredMembers(ts[..n], p, f);
      assert forall i :: 0 <= i < n ==> ts[..n][i] == ts[i];
      if exists i :: 0 <= i < |ts| && Due(ts[i]) && ts[i].id == f.id {
        var i :| 0 <= i < |ts| && Due(ts[i]) && ts[i].id == f.id;
        if i < n {
          assert ts[..n][i] == ts[i];
        }
      }
    }
  }

  lemma {:induction false} FiredInOrder(ts: seq<Timer>, p: nat)
    requires IdsGrow(ts)
    ensures InOrder(Fired(ts, p))
  {
    hide Due;
    if ts == [] {
    } else {
      var n := |ts| - 1;
      FiredInOrder(ts[..n], p);
      forall f | f in Fired(ts[..n], p)
        ensures Before(f, Firing(p, ts[n].id))
      {
        FiredMembers(ts[..n], p, f);
      }
    }
  }

  /** A timer of the list is due in the next pass exactly if a callback is expected. */
  lemma DueExpected(w: World, id: nat)
    requires Timers(w) && id < |w.births|
    ensures (exists i :: 0 <= i < |w.timers| && Due(w.timers[i]) && w.timers[i].id == id)
            <==> Expected(w.births, w.passes + 1, Firing(w.passes + 1, id))
  {
    hide Due, TimerAt, FiresAt;
    var b := w.births[id];
    forall i | 0 <= i < |w.timers| && w.timers[i].id == id
      ensures Due(w.timers[i]) <==> FiresAt(b, w.passes + 1 - b.pass)
    {
      assert Good(w, w.timers[i]);
      TickStep(w.timers[i], b, w.passes - b.pass);
    }
    assert w.births[id].pass <= w.passes;
    if !Listed(w.timers, id) {
      NotAgain(w, id);
    }
  }

  lemma NotAgain(w: World, id: nat)
    requires Finished(w, id)
    ensures !FiresAt(w.births[id], w.passes + 1 - w.births[id].pass)
  {
  }

  /** The trace stays exact over a pass. */
  lemma RunTrace(w: World)
    requires Inv(w)
    ensures TraceExact(Apply(w, Run))
  {
    hide Due, TimerAt, FiresAt, Good, Fired;
    var p := w.passes + 1;
    var now := Fired(w.timers, p);
    var w' := Apply(w, Run);
    forall f: Firing
      ensures f in now <==> f.pass == p && Expected(w.births, p, f)
    {
      FiredMembers(w.timers, p, f);
      if f.id < |w.births| {
        DueExpected(w, f.id);
      } else {
        NoSuchTimer(w, f.id);
      }
    }
    forall f: Firing
      ensures f in w'.trace <==> Expected(w.births, p, f)
    {
      assert f in w'.trace <==> f in w.trace || f in now;
    }
    FiredInOrder(w.timers, p);
    OrderJoined(w.trace, now, w.passes);
  }

  lemma NoSuchTimer(w: World, id: nat)
    requires Timers(w) && id >= |w.births|
    ensures !exists i :: 0 <= i < |w.timers| && Due(w.timers[i]) && w.timers[i].id == id
  {
    hide TimerAt, Due;
    forall i | 0 <= i < |w.timers|
      ensures w.timers[i].id < |w.births|
    {
      assert Good(w, w.timers[i]);
    }
  }

  lemma OrderJoined(a: seq<Firing>, b: seq<Firing>, p: nat)
    requires InOrder(a) && InOrder(b)
    requires forall f :: f in a ==> f.pass <= p
    requires forall f :: f in b ==> f.pass == p + 1
    ensures InOrder(a + b)
  {
  }

  lemma RunTimersKept(w: World)
    requires Timers(w)
    ensures Timers(Apply(w, Run))
  {
    hide TimerAt, Fired, Ticked, Period;
    var w' := Apply(w, Run);
    forall i | 0 <= i < |w'.timers|
      ensures Good(w', w'.timers[i]) && w'.timers[i].id == w.timers[i].id
    {
      assert Good(w, w.timers[i]);
      TickStep(w.timers[i], w.births[w.timers[i].id], w.passes - w.births[w.timers[i].id].pass);
      TickedId(w.timers[i]);
    }
    forall id: nat | id < |w.births|
      ensures w'.births[id].pass <= w'.passes && (Listed(w'.timers, id) || Finished(w', id))
    {
      if Listed(w.timers, id) {
        var i :| 0 <= i < |w.timers| && w.timers[i].id == id;
        assert w'.timers[i].id == id;
      }
    }
  }

  lemma TickedId(t: Timer)
    ensures Ticked(t).id == t.id
  {
  }

  // ----- sorting and appending -----

  lemma {:induction false} LiveMembers(ts: seq<Timer>, t: Timer)
    ensures t in Live(ts) <==> t in ts && !t.destroy
  {
    if ts == [] {
    } else {
      var n := |ts| - 1;
      LiveMembers(ts[..n], t);
      assert ts == ts[..n] + [ts[n]];
    }
  }

  lemma {:induction false} LiveGrows(ts: seq<Timer>)
    requires IdsGrow(ts)
    ensures IdsGrow(Live(ts))
  {
    if ts == [] {
    } else {
      var n := |ts| - 1;
      LiveGrows(ts[..n]);
      forall t | t in Live(ts[..n])
        ensures t.id < ts[n].id
      {
        LiveMembers(ts[..n], t);
      }
    }
  }

  lemma SortKept(w: World)
    requires Timers(w)
    ensures Timers(Apply(w, Sort))
  {
    hide Live, Period;
    var w' := Apply(w, Sort);
    LiveGrows(w.timers);
    forall i | 0 <= i < |w'.timers|
      ensures Good(w', w'.timers[i])
    {
      var t := w'.timers[i];
      LiveMembers(w.timers, t);
      assert Good(w, t);
    }
    forall id: nat | id < |w.births|
      ensures Listed(w'.timers, id) || Finished(w', id)
    {
      if Listed(w.timers, id) {
        var i :| 0 <= i < |w.timers| && w.timers[i].id == id;
        var t := w.timers[i];
        assert Good(w, t);
        LiveMembers(w.timers, t);
        if !t.destroy {
          var j :| 0 <= j < |w'.timers| && w'.timers[j] == t;
          assert Listed(w'.timers, id);
        }
      }
    }
  }

  lemma AppendKept(w: World, tick: nat, reload: bool)
    requires Inv(w) && tick < W32
    ensures Inv(Apply(w, Append(tick, reload)))
  {
    hide TimerAt, FiresAt, Period;
    var w' := Apply(w, Append(tick, reload));
    var n := |w.timers|;
    NewTimer(|w.births|, tick, reload, w.passes);
    forall i | 0 <= i < |w'.timers|
      ensures Good(w', w'.timers[i]) && (i < n ==> w'.timers[i].id < |w.births|)
    {
      if i < n {
        assert Good(w, w.timers[i]);
      }
    }
    forall id: nat | id < |w'.births|
      ensures w'.births[id].pass <= w'.passes && (Listed(w'.timers, id) || Finished(w', id))
    {
      if id < |w.births| {
        if Listed(w.timers, id) {
          var i :| 0 <= i < |w.timers| && w.timers[i].id == id;
          assert w'.timers[i].id == id;
        }
      } else {
        assert w'.timers[n].id == id;
      }
    }
    assert forall f :: Expected(w'.births, w'.passes, f) <==> Expected(w.births, w.passes, f);
  }

  // ----- every run -----

  ghost predicate Legal(ops: seq<Op>) {
    forall i :: 0 <= i < |ops| && ops[i].Append? ==> ops[i].tick < W32
  }

  lemma StepKept(w: World, op: Op)
    requires Inv(w) && (op.Append? ==> op.tick < W32)
    ensures Inv(Apply(w, op))
  {
    hide Timers, TraceExact;
    match op
    case Append(tick, reload) => AppendKept(w, tick, reload);
    case Run =>
      RunTrace(w);
      RunTimersKept(w);
    case Sort =>
      SortKept(w);
      SortTrace(w);
  }

  lemma SortTrace(w: World)
    requires TraceExact(w)
    ensures TraceExact(Apply(w, Sort))
  {
  }

  lemma {:induction false} RunKept(w: World, ops: seq<Op>)
    requires Inv(w) && Legal(ops)
    ensures Inv(ApplyAll(w, ops))
    decreases |ops|
  {
    hide Inv;
    if ops == [] {
    } else {
      StepKept(w, ops[0]);
      RunKept(Apply(w, ops[0]), ops[1..]);
    }
  }

  /** In every run, the callbacks made are exactly those due by the timers' periods: a one-shot
      timer fires once, in its p-th pass, a reloading one in passes p, 2p, 3p, ... of its life. */
  lemma EveryRunFiresOnTime(ops: seq<Op>)
    requires Legal(ops)
    ensures var w := ApplyAll(START, ops);
      && InOrder(w.trace)
      && forall f :: f in w.trace <==> Expected(w.births, w.passes, f)
  {
    RunKept(START, ops);
  }

  /** The same run without its sort steps. */
  function NoSort(ops: seq<Op>): seq<Op> {
    if ops == [] then []
    else (if ops[0].Sort? then [] else [ops[0]]) + NoSort(ops[1..])
  }

  lemma {:induction false} LiveJoined(a: seq<Timer>, t: Timer)
    ensures Live(a + [t]) == Live(a) + if t.destroy then [] else [t]
  {
    assert (a + [t])[..|a|] == a;
  }

  lemma {:induction false} LiveTwice(ts: seq<Timer>)
    ensures Live(Live(ts)) == Live(ts)
  {
    if ts != [] {
      var n := |ts| - 1;
      LiveTwice(ts[..n]);
      LiveJoined(Live(ts[..n]), ts[n]);
      assert ts[n].destroy ==> Live(ts) == Live(ts[..n]);
    } else {
      assert Live(ts) == [];
    }
  }

  lemma PassJoined(a: seq<Timer>, t: Timer, p: nat)
    ensures AllTicked(a + [t]) == AllTicked(a) + [Ticked(t)]
    ensures Fired(a + [t], p) == Fired(a, p) + if Due(t) then [Firing(p, t.id)] else []
  {
    hide Due, Ticked;
    assert (a + [t])[..|a|] == a;
  }

  lemma DeadIsIdle(t: Timer)
    requires t.destroy
    ensures Ticked(t) == t && !Due(t)
  {
  }

  /** Finished timers have no part in a pass. */
  lemma {:induction false} PassLive(ts: seq<Timer>, p: nat)
    ensures Fired(ts, p) == Fired(Live(ts), p)
    ensures Live(AllTicked(ts)) == Live(AllTicked(Live(ts)))
  {
    if ts == [] {
      assert Live(ts) == ts;
    } else {
      var n := |ts| - 1;
      var a, t := ts[..n], ts[n];
      assert ts == a + [t];
      PassLive(a, p);
      LiveJoined(a, t);
      PassJoined(a, t, p);
      LiveJoined(AllTicked(a), Ticked(t));
      if t.destroy {
        DeadIsIdle(t);
      }
      hide Live, AllTicked, Fired, Due, Ticked;
      if !t.destroy {
        PassJoined(Live(a), t, p);
        LiveJoined(AllTicked(Live(a)), Ticked(t));
      } else {
        assert Live(ts) == Live(a) && Fired(ts, p) == Fired(a, p);
        assert Live(AllTicked(ts)) == Live(AllTicked(a));
      }
    }
  }

  /** Two worlds that differ in finished timers only. */
  ghost predicate Alike(w: World, v: World) {
    Live(w.timers) == Live(v.timers) && w.passes == v.passes && w.births == v.births && w.trace == v.trace
  }

  lemma StepAlike(w: World, v: World, op: Op)
    requires Alike(w, v)
    ensures if op.Sort? then Alike(Apply(w, op), v) else Alike(Apply(w, op), Apply(v, op))
  {
    hide Live, AllTicked, Fired;
    match op
    case Append(tick, reload) =>
      LiveJoined(w.timers, Timer(|w.births|, tick, tick, reload, false));
      LiveJoined(v.timers, Timer(|w.births|, tick, tick, reload, false));
    case Run =>
      PassLive(w.timers, w.passes + 1);
      PassLive(v.timers, w.passes + 1);
    case Sort =>
      LiveTwice(w.timers);
  }

  /** Sort steps never change the firing trace. */
  lemma {:induction false} SortInvisible(w: World, v: World, ops: seq<Op>)
    requires Alike(w, v)
    ensures Alike(ApplyAll(w, ops), ApplyAll(v, NoSort(ops)))
    ensures ApplyAll(w, ops).trace == ApplyAll(v, NoSort(ops)).trace
    decreases |ops|
  {
    hide Live, AllTicked, Fired, Apply, Alike;
    if ops == [] {
      AlikeTrace(w, v);
    } else {
      StepAlike(w, v, ops[0]);
      var rest := ops[1..];
      if ops[0].Sort? {
        assert NoSort(ops) == NoSort(rest);
        SortInvisible(Apply(w, ops[0]), v, rest);
      } else {
        assert NoSort(ops)[1..] == NoSort(rest);
        SortInvisible(Apply(w, ops[0]), Apply(v, ops[0]), rest);
      }
    }
  }

  lemma AlikeTrace(w: World, v: World)
    requires Alike(w, v)
    ensures w.trace == v.trace
  {
  }

  /** A finished one-shot timer was called once, an unfinished one never. */
  lemma OneShotOnce(w: World, id: nat)
    requires Inv(w) && id < |w.births| && !w.births[id].reload
    ensures var f := Firing(w.births[id].pass + Period(w.births[id]), id);
      if f.pass <= w.passes
        then exists i ::
               && 0 <= i < |w.trace| && w.trace[i] == f
               && forall j :: 0 <= j < |w.trace| && w.trace[j].id == id ==> j == i
        else forall j :: 0 <= j < |w.trace| ==> w.trace[j].id != id
  {
    hide Timers;
    var f := Firing(w.births[id].pass + Period(w.births[id]), id);
    forall j | 0 <= j < |w.trace| && w.trace[j].id == id
      ensures w.trace[j] == f && f.pass <= w.passes
    {
      assert w.trace[j] in w.trace;
    }
    if f.pass <= w.passes {
      assert Expected(w.births, w.passes, f);
      var i :| 0 <= i < |w.trace| && w.trace[i] == f;
      forall j | 0 <= j < |w.trace| && w.trace[j].id == id
        ensures j == i
      {
        assert i < j ==> Before(w.trace[i], w.trace[j]);
        assert j < i ==> Before(w.trace[j], w.trace[i]);
      }
    }
  }

  /** The server itself, over any run: its callbacks stay exactly the expected ones. */
  method Drive(s: Server, ops: seq<Op>)
    requires s.Valid() && Legal(ops) && Inv(s.State())
    modifies s, s.list, s.list.nodes
    ensures s.Valid() && s.State() == ApplyAll(old(s.State()), ops) && Inv(s.State())
  {
    hide Inv, Apply, Server.Valid, Server.State;
    var k := 0;
    ghost var w := s.State();
    while k < |ops|
      invariant 0 <= k <= |ops| && s.Valid() && Inv(s.State())
      invariant ApplyAll(s.State(), ops[k..]) == ApplyAll(w, ops)
      invariant forall i :: 0 <= i < |s.list.nodes| ==> s.list.nodes[i] in old(s.list.nodes) || fresh(s.list.nodes[i])
    {
      StepKept(s.State(), ops[k]);
      assert ops[k..][0] == ops[k] && ops[k..][1..] == ops[k + 1..];
      match ops[k] {
        case Append(tick, reload) => s.AppendTimer(tick, reload, true);
        case Run => s.RunTimers();
        case Sort => s.SortTimers();
      }
      k := k + 1;
    }
    assert ops[k..] == [];
  }
}
