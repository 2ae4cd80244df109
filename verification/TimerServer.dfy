/** The software timers: appendTimerServer, runTimerServer, sortTimerServer. */
module TimerServer {
  import opened Arith
  import opened IList

  /** What a timer object holds. */
  datatype Timer = Timer(id: nat, tick: nat, saveTick: nat, reload: bool, destroy: bool)

  /** When a timer was appended, in passes of the server, and how. */
  datatype Birth = Birth(pass: nat, period: nat, reload: bool)

  /** Callback of timer `id` in pass `pass`. */
  datatype Firing = Firing(pass: nat, id: nat)

  /** The timers in list order, the passes run, all timers ever appended, all callbacks made. */
  datatype World = World(timers: seq<Timer>, passes: nat, births: seq<Birth>, trace: seq<Firing>)

  datatype Op = Append(tick: nat, reload: bool) | Run | Sort

  const START: World := World([], 0, [], [])

  // ----- one pass -----

  /** `destroy == 0 && --tick == 0` */
  predicate Due(t: Timer) {
    !t.destroy && Sub32(t.tick, 1) == 0
  }

  function Ticked(t: Timer): Timer {
    if t.destroy then t
    else if !Due(t) then t.(tick := Sub32(t.tick, 1))
    else if t.reload then t.(tick := t.saveTick)
    else t.(tick := 0, destroy := true)
  }

  function AllTicked(ts: seq<Timer>): (r: seq<Timer>)
    ensures |r| == |ts| && forall i :: 0 <= i < |ts| ==> r[i] == Ticked(ts[i])
  {
    seq(|ts|, i requires 0 <= i < |ts| => Ticked(ts[i]))
  }

  /** The callbacks of pass p, in list order. */
  function Fired(ts: seq<Timer>, p: nat): (r: seq<Firing>)
  {
    if ts == [] then []
    else Fired(ts[..|ts| - 1], p) + if Due(ts[|ts| - 1]) then [Firing(p, ts[|ts| - 1].id)] else []
  }

  /** The timers that are not finished. */
  function Live(ts: seq<Timer>): (r: seq<Timer>)
    ensures |r| <= |ts|
  {
    if ts == [] then []
    else Live(ts[..|ts| - 1]) + if ts[|ts| - 1].destroy then [] else [ts[|ts| - 1]]
  }

  /** What an operation does to the world. */
  function Apply(w: World, op: Op): World {
    match op
    case Append(tick, reload) =>
      w.(timers := w.timers + [Timer(|w.births|, tick, tick, reload, false)],
         births := w.births + [Birth(w.passes, tick, reload)])
    case Run =>
      w.(timers := AllTicked(w.timers), passes := w.passes + 1, trace := w.trace + Fired(w.timers, w.passes + 1))
    case Sort =>
      w.(timers := Live(w.timers))
  }

  function ApplyAll(w: World, ops: seq<Op>): World
    decreases |ops|
  {
    if ops == [] then w else ApplyAll(Apply(w, ops[0]), ops[1..])
  }

  // ----- the server -----

  ghost function Snapshot(n: Node): Timer
    reads n`tick, n`destroy
  {
    Timer(n.id, n.tick, n.saveTick, n.reload, n.destroy)
  }

  ghost function Snapshots(s: seq<Node>): (r: seq<Timer>)
    reads s`tick, s`destroy
    ensures |r| == |s| && forall i :: 0 <= i < |s| ==> r[i] == Snapshot(s[i])
  {
    if s == [] then [] else Snapshots(s[..|s| - 1]) + [Snapshot(s[|s| - 1])]
  }

  lemma Appended(w: World, w': World, tick: nat, reload: bool)
    requires w'.timers == w.timers + [Timer(|w.births|, tick, tick, reload, false)]
    requires w'.births == w.births + [Birth(w.passes, tick, reload)]
    requires w'.passes == w.passes && w'.trace == w.trace
    ensures w' == Apply(w, Append(tick, reload))
  {
  }

  lemma SnapshotsAppend(s: seq<Node>, n: Node)
    ensures Snapshots(s + [n]) == Snapshots(s) + [Snapshot(n)]
  {
    assert (s + [n])[..|s|] == s;
  }

  class Server {
    const list: ListHandle
    ghost var passes: nat
    ghost var births: seq<Birth>
    ghost var trace: seq<Firing>

    ghost predicate Valid()
      reads this, list, list.nodes`pNext
    {
      list.Valid()
    }

    ghost function State(): World
      reads this, list`nodes, list.nodes`tick, list.nodes`destroy
    {
      World(Snapshots(list.nodes), passes, births, trace)
    }

    /** initListTimerServer. */
    constructor ()
      ensures Valid() && State() == START && fresh(list)
    {
      list := new ListHandle();
      passes, births, trace := 0, [], [];
    }

    /** appendTimerServer, with a callback; `room` is false when the memory pool is used up. */
    method AppendTimer(tick: Dword, reload: bool, room: bool)
      requires Valid()
      modifies this, list, list.nodes`pNext
      ensures Valid()
      ensures State() == if room then Apply(old(State()), Append(tick, reload)) else old(State())
      ensures forall i :: 0 <= i < |list.nodes| ==> list.nodes[i] in old(list.nodes) || fresh(list.nodes[i])
    {
      hide ListHandle.Valid, Snapshots, Apply;
      if room {
        ghost var w := State();
        var plink := new Node(tick, reload, |births|);
        Enlist(plink);
        births := births + [Birth(passes, tick, reload)];
        Appended(w, State(), tick, reload);
      }
    }

    /** Put the new timer at the end of the list. */
    method Enlist(plink: Node)
      requires Valid() && plink !in list.nodes
      modifies list, plink`pNext, list.nodes`pNext
      ensures Valid() && Snapshots(list.nodes) == old(Snapshots(list.nodes)) + [Snapshot(plink)]
      ensures list.nodes == old(list.nodes) + [plink]
    {
      hide Snapshots, ListHandle.Valid;
      list.Append(plink);
      SnapshotsAppend(old(list.nodes), plink);
    }

    /** One timer of the pass. */
    method TickTimer(plink: Node)
      modifies this`trace, plink`tick, plink`destroy
      ensures Snapshot(plink) == Ticked(old(Snapshot(plink)))
      ensures trace == old(trace) + if Due(old(Snapshot(plink))) then [Firing(passes, old(Snapshot(plink)).id)] else []
    {
      if !plink.destroy {
        plink.tick := Sub32(plink.tick, 1);
        if plink.tick == 0 {
          if !plink.reload {
            plink.destroy := true;
          } else {
            plink.tick := plink.saveTick;
          }
          trace := trace + [Firing(passes, plink.id)];
        }
      }
    }

    /** The timer at place k of the list. */
    method TickAt(plink: Node, ghost k: nat)
      requires Valid() && k < |list.nodes| && plink == list.nodes[k]
      modifies this`trace, list.nodes`tick, list.nodes`destroy
      ensures Valid()
      ensures Snapshots(list.nodes) == old(Snapshots(list.nodes))[k := Ticked(old(Snapshots(list.nodes))[k])]
      ensures trace == old(trace) +
                       if Due(old(Snapshots(list.nodes))[k]) then [Firing(passes, old(Snapshots(list.nodes))[k].id)]
                       else []
    {
      hide Ticked, Due, Snapshot, Snapshots, Mod16, Linked;
      ghost var s, ts := list.nodes, Snapshots(list.nodes);
      assert Snapshot(plink) == ts[k];
      TickTimer(plink);
      assert forall i :: 0 <= i < |s| && i != k ==> s[i] != plink;
      assert forall i :: 0 <= i < |s| && i != k ==> Snapshot(s[i]) == ts[i];
    }

    /** runTimerServer: one pass over the list. The callbacks do not touch the list. */
    method RunTimers()
      requires Valid()
      modifies this, list.nodes`tick, list.nodes`destroy
      ensures Valid() && State() == Apply(old(State()), Run)
    {
      hide Ticked, Due, Snapshots, ListHandle.Valid, Fired, AllTicked;
      passes := passes + 1;
      TickAll();
    }

    /** The loop of runTimerServer. */
    method TickAll()
      requires Valid()
      modifies this`trace, list.nodes`tick, list.nodes`destroy
      ensures Valid()
      ensures Snapshots(list.nodes) == AllTicked(old(Snapshots(list.nodes)))
      ensures trace == old(trace) + Fired(old(Snapshots(list.nodes)), passes)
    {
      hide Ticked, Due, Snapshots, ListHandle.Valid, Fired, AllTicked, HalfTicked;
      ghost var ts := Snapshots(list.nodes);
      var plink := list.GetFirst();
      ghost var k: nat := 0;
      NoneYet(ts, passes);
      while plink != null
        invariant k <= |list.nodes| && Valid()
        invariant plink == if k < |list.nodes| then list.nodes[k] else null
        invariant trace == old(trace) + Fired(ts[..k], passes)
        invariant HalfTicked(ts, Snapshots(list.nodes), k)
        decreases |list.nodes| - k
      {
        FiredNext(ts, k, passes);
        TickedNext(ts, Snapshots(list.nodes), k);
        TickAt(plink, k);
        plink := list.Next(plink, k);
        k := k + 1;
      }
      AllDone(ts, Snapshots(list.nodes), passes);
    }

    /** sortTimerServer: take the finished timers out of the list. */
    method SortTimers()
      requires Valid()
      modifies list, list.nodes`pNext
      ensures Valid() && State() == Apply(old(State()), Sort)
      ensures forall i :: 0 <= i < |list.nodes| ==> list.nodes[i] in old(list.nodes)
    {
      hide Snapshots, ListHandle.Valid, Live, Without, HalfSorted;
      ghost var ts := Snapshots(list.nodes);
      var plink := list.GetFirst();
      ghost var k: nat := 0;
      ghost var p: nat := 0;
      NoneSorted(ts);
      while plink != null
        invariant Valid() && HalfSorted(ts, Snapshots(list.nodes), k, p)
        invariant p <= |list.nodes| && forall i :: 0 <= i < |list.nodes| ==> list.nodes[i] in old(list.nodes)
        invariant plink == if p < |list.nodes| then list.nodes[p] else null
        decreases |list.nodes| - p
      {
        plink, p := SortStep(plink, ts, k, p);
        k := k + 1;
      }
      AllSorted(ts, Snapshots(list.nodes), k, p);
    }

    /** One timer of sortTimerServer. */
    method SortStep(plink: Node, ghost ts: seq<Timer>, ghost k: nat, ghost p: nat) returns (nxt: Node?, ghost p': nat)
      requires Valid() && HalfSorted(ts, Snapshots(list.nodes), k, p)
      requires p < |list.nodes| && plink == list.nodes[p]
      modifies list, list.nodes`pNext
      ensures Valid() && HalfSorted(ts, Snapshots(list.nodes), k + 1, p')
      ensures p' <= |list.nodes| && nxt == if p' < |list.nodes| then list.nodes[p'] else null
      ensures forall i :: 0 <= i < |list.nodes| ==> list.nodes[i] in old(list.nodes)
      ensures |list.nodes| - p' < old(|list.nodes|) - p
    {
      hide Snapshots, ListHandle.Valid, Live, Without, HalfSorted;
      SortedNext(ts, Snapshots(list.nodes), k, p);
      assert Snapshots(list.nodes)[p].destroy == plink.destroy;
      p' := p;
      if plink.destroy {
        var ptemp := list.Next(plink, p);
        WithoutAt(list.nodes, p);
        DeleteAt(plink, p);
        nxt := ptemp;
      } else {
        nxt := list.Next(plink, p);
        p' := p + 1;
      }
    }

    lemma ValidIs()
      ensures Valid() <==> list.Valid()
      ensures Valid() ==> NoDuplicates(list.nodes)
    {
    }

    /** removeObject of the timer at place p. */
    method DeleteAt(plink: Node, ghost p: nat)
      requires Valid() && p < |list.nodes| && plink == list.nodes[p]
      modifies list, list.nodes`pNext
      ensures Valid() && list.nodes == Without(old(list.nodes), p)
      ensures Snapshots(list.nodes) == Without(old(Snapshots(list.nodes)), p)
      ensures forall i :: 0 <= i < |list.nodes| ==> list.nodes[i] in old(list.nodes)
    {
      hide *;
      ValidIs();
      ghost var ns, ts := list.nodes, Snapshots(list.nodes);
      var found := list.Delete(plink);
      DeletedPlace(ns, p, list.nodes);
      SnapshotsTaken(list.nodes, ns, p);
      assert Snapshots(ns) == ts;
      ValidIs();
    }
  }

  lemma DeletedPlace(s: seq<Node>, p: nat, r: seq<Node>)
    requires NoDuplicates(s) && p < |s| && LacksOne(s, s[p], r)
    ensures r == Without(s, p) && forall i :: 0 <= i < |r| ==> r[i] in s
  {
  }

  lemma SnapshotsTaken(a: seq<Node>, s: seq<Node>, p: nat)
    requires p < |s| && a == Without(s, p)
    ensures Snapshots(a) == Without(Snapshots(s), p)
  {
  }

  lemma WithoutAt(s: seq<Node>, p: nat)
    requires p < |s|
    ensures |Without(s, p)| == |s| - 1
    ensures p + 1 < |s| ==> Without(s, p)[p] == s[p + 1]
  {
  }

  /** The first k timers are sorted, p of them were kept. */
  ghost predicate HalfSorted(ts: seq<Timer>, now: seq<Timer>, k: nat, p: nat) {
    k <= |ts| && p == |Live(ts[..k])| && now == Live(ts[..k]) + ts[k..]
  }

  lemma NoneSorted(ts: seq<Timer>)
    ensures HalfSorted(ts, ts, 0, 0)
  {
  }

  lemma SortedNext(ts: seq<Timer>, now: seq<Timer>, k: nat, p: nat)
    requires HalfSorted(ts, now, k, p) && p < |now|
    ensures k < |ts| && now[p] == ts[k]
    ensures if now[p].destroy then HalfSorted(ts, Without(now, p), k + 1, p) else HalfSorted(ts, now, k + 1, p + 1)
  {
    assert ts[..k + 1][..k] == ts[..k];
    assert ts[k..] == [ts[k]] + ts[k + 1..];
  }

  lemma AllSorted(ts: seq<Timer>, now: seq<Timer>, k: nat, p: nat)
    requires HalfSorted(ts, now, k, p) && p >= |now|
    ensures now == Live(ts)
  {
    assert ts[..k] == ts;
  }

  /** The pass has ticked the first k timers. */
  ghost predicate HalfTicked(ts: seq<Timer>, now: seq<Timer>, k: nat) {
    |now| == |ts| && forall i :: 0 <= i < |ts| ==> now[i] == if i < k then Ticked(ts[i]) else ts[i]
  }

  lemma NoneYet(ts: seq<Timer>, p: nat)
    ensures HalfTicked(ts, ts, 0) && Fired(ts[..0], p) == []
  {
  }

  lemma TickedNext(ts: seq<Timer>, now: seq<Timer>, k: nat)
    requires HalfTicked(ts, now, k) && k < |ts|
    ensures k < |now| && now[k] == ts[k] && HalfTicked(ts, now[k := Ticked(ts[k])], k + 1)
  {
  }

  lemma AllDone(ts: seq<Timer>, now: seq<Timer>, p: nat)
    requires HalfTicked(ts, now, |ts|)
    ensures now == AllTicked(ts) && Fired(ts[..|ts|], p) == Fired(ts, p)
  {
    assert ts[..|ts|] == ts;
  }

  lemma FiredNext(ts: seq<Timer>, k: nat, p: nat)
    requires k < |ts|
    ensures Fired(ts[..k + 1], p) == Fired(ts[..k], p) + if Due(ts[k]) then [Firing(p, ts[k].id)] else []
  {
    assert ts[..k + 1][..k] == ts[..k];
  }
}
