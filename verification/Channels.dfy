// Creating, deleting and reaping media channels. A channel is a child process; its record is in the map from the time
// its creator has stored it until the reaper takes it out. Every step happens under one mutex, or touches nothing
// that is shared.
module Channels {
  import opened Basics

  /** A child is known by the number of children forked before it. */
  type Child = nat

  /** What a thread that creates a channel is doing. */
  datatype Creator = Idle | Checked(name: string) | Forked(name: string, child: Child)

  /** What the reaper is doing. */
  datatype Reaper = Resting | Picked(name: string) | Detached(child: Child) | Killed(child: Child)

  /** `requests` and `consumed` are histories; `lost` are the children for which waiting has failed. */
  datatype State = State(map_: map<string, Option<Child>>, requests: seq<string>, creators: seq<Creator>,
    reaper: Reaper,
                         forked: nat, killed: set<Child>, reaped: set<Child>, lost: set<Child>,
                         asked: multiset<string>, consumed: multiset<string>)

  datatype Action =
    | Check(i: nat, name: string)
    | Fork(i: nat)
    | Store(i: nat)
    | Delete(name: string)
    | Pick
    | Detach
    | Kill
    | Wait(succeeds: bool)

  function Init(n: nat): State {
    State(map[], [], seq(n, _ => Idle), Resting, 0, {}, {}, {}, multiset{}, multiset{})
  }

  /** Looking a name up with `[]` stores a null entry if there is none. */
  function LookUp(m: map<string, Option<Child>>, name: string): (m': map<string, Option<Child>>)
    ensures name in m' && forall x :: x != name ==> (x in m' <==> x in m) && (x in m ==> m'[x] == m[x])
  {
    if name in m then m else m[name := None]
  }

  /** The record under a name; null counts as none. */
  function Entry(m: map<string, Option<Child>>, name: string): Option<Child> {
    if name in m then m[name] else None
  }

  ghost predicate OtherEntries(m: map<string, Option<Child>>, m': map<string, Option<Child>>, name: string) {
    forall x :: x != name ==> Entry(m', x) == Entry(m, x)
  }

  ghost predicate SameEntries(m: map<string, Option<Child>>, m': map<string, Option<Child>>) {
    forall x :: Entry(m', x) == Entry(m, x)
  }

  predicate Enabled(s: State, a: Action) {
    match a
    case Check(i, _) => i < |s.creators| && s.creators[i] == Idle
    case Fork(i) => i < |s.creators| && s.creators[i].Checked?
    case Store(i) => i < |s.creators| && s.creators[i].Forked?
    case Delete(_) => true
    case Pick => s.reaper == Resting && s.requests != []
    case Detach => s.reaper.Picked?
    case Kill => s.reaper.Detached?
    case Wait(_) => s.reaper.Killed?
  }

  function Step(s: State, a: Action): State
    requires Enabled(s, a)
  {
    match a
    case Check(i, name) =>
      s.(map_ := LookUp(s.map_, name),
         creators := s.creators[i := if Entry(s.map_, name).Some? then Idle else Checked(name)])
    case Fork(i) =>
      s.(forked := s.forked + 1, creators := s.creators[i := Forked(s.creators[i].name, s.forked)])
    case Store(i) =>
      s.(map_ := s.map_[s.creators[i].name := Some(s.creators[i].child)], creators := s.creators[i := Idle])
    case Delete(name) =>
      s.(requests := [name] + s.requests, asked := s.asked + multiset{name})
    case Pick =>
      s.(requests := s.requests[1..], consumed := s.consumed + multiset{s.requests[0]},
         reaper := if s.requests[0] == "" then Resting else Picked(s.requests[0]))
    case Detach =>
      var e := Entry(s.map_, s.reaper.name);
      s.(map_ := if e.Some? then s.map_ - {s.reaper.name} else LookUp(s.map_, s.reaper.name),
         reaper := if e.Some? then Detached(e.value) else Resting)
    case Kill => s.(killed := s.killed + {s.reaper.child}, reaper := Killed(s.reaper.child))
    case Wait(succeeds) =>
      s.(reaper := Resting,
         reaped := if succeeds then s.reaped + {s.reaper.child} else s.reaped,
         lost := if succeeds then s.lost else s.lost + {s.reaper.child})
  }

  // ----- the critical sections -----------------------------------------------------------------------------

  /** The two shared containers; each method is what one thread does while it holds the mutex of the one it uses. */
  class ChannelManager {
    var chanMap: map<string, Option<Child>>
    var delChanList: seq<string>

    constructor (ghost n: nat)
      ensures Shows(Init(n))
    {
      chanMap, delChanList := map[], [];
    }

    ghost predicate Shows(s: State)
      reads this
    {
      chanMap == s.map_ && delChanList == s.requests
    }

    /** Whether there is a record; asking leaves a null entry behind if there is none. */
    method Exists(channel: string, ghost s: State, ghost i: nat) returns (found: bool)
      requires Shows(s) && Enabled(s, Check(i, channel))
      modifies this`chanMap
      ensures Shows(Step(s, Check(i, channel))) && (found <==> Step(s, Check(i, channel)).creators[i] == Idle)
      ensures found == Entry(old(chanMap), channel).Some? && SameEntries(old(chanMap), chanMap)
    {
      if channel !in chanMap { chanMap := chanMap[channel := None]; }
      found := chanMap[channel] != None;
    }

    method Insert(channel: string, child: Child, ghost s: State, ghost i: nat)
      requires Shows(s) && Enabled(s, Store(i)) && s.creators[i] == Forked(channel, child)
      modifies this`chanMap
      ensures Shows(Step(s, Store(i))) && Entry(chanMap, channel) == Some(child)
      ensures OtherEntries(old(chanMap), chanMap, channel)
    {
      chanMap := chanMap[channel := Some(child)];
    }

    method DelChannel(channel: string, ghost s: State)
      requires Shows(s)
      modifies this`delChanList
      ensures Shows(Step(s, Delete(channel))) && delChanList == [channel] + old(delChanList)
    {
      delChanList := [channel] + delChanList;
    }

    /** Takes the request at the front; the empty name if there is none. */
    method TakeRequest(ghost s: State) returns (chanId: string)
      requires Shows(s) && s.reaper == Resting
      modifies this`delChanList
      ensures s.requests == [] ==> chanId == "" && Shows(s)
      ensures s.requests != [] ==> Shows(Step(s, Pick))
      ensures s.requests != [] ==> Step(s, Pick).reaper == if chanId == "" then Resting else Picked(chanId)
      ensures old(delChanList) != [] ==> old(delChanList) == [chanId] + delChanList
    {
      chanId := "";
      if delChanList != [] {
        chanId := delChanList[0];
        delChanList := delChanList[1..];
      }
    }

    /** Takes the record of a channel out of the map. */
    method TakeOut(chanId: string, ghost s: State) returns (child: Option<Child>)
      requires Shows(s) && s.reaper == Picked(chanId)
      modifies this`chanMap
      ensures Shows(Step(s, Detach)) && Step(s, Detach).reaper ==
              (if child.Some? then Detached(child.value) else Resting)
      ensures child == Entry(old(chanMap), chanId) && Entry(chanMap, chanId) == None
      ensures OtherEntries(old(chanMap), chanMap, chanId)
    {
      if chanId !in chanMap { chanMap := chanMap[chanId := None]; }
      child := chanMap[chanId];
      if child.Some? { chanMap := chanMap - {chanId}; }
    }
  }

  // ----- where a child is ----------------------------------------------------------------------------------

  predicate WithCreator(s: State, c: Child) {
    exists i :: 0 <= i < |s.creators| && s.creators[i].Forked? && s.creators[i].child == c
  }

  ghost predicate InMap(s: State, c: Child) {
    exists name :: name in s.map_ && s.map_[name] == Some(c)
  }

  predicate WithReaper(s: State, c: Child) {
    (s.reaper.Detached? || s.reaper.Killed?) && s.reaper.child == c
  }

  function Count(b: bool): nat { if b then 1 else 0 }

  /** In how many places a child is. */
  ghost function Places(s: State, c: Child): nat {
    Count(WithCreator(s, c)) + Count(InMap(s, c)) + Count(WithReaper(s, c)) + Count(c in s.reaped) + Count(c in s.lost)
  }

  // ----- what a step keeps ---------------------------------------------------------------------------------

  /** Every child that has been forked is in exactly one place, and no other child anywhere. */
  ghost predicate Exact(s: State) {
    forall c: Child {:trigger Places(s, c)} :: Places(s, c) == Count(c < s.forked)
  }

  /** Any number of creators. */
  ghost predicate Invariant(s: State) {
    && Exact(s)
    && (forall x, y :: x in s.map_ && y in s.map_ && s.map_[x].Some? && s.map_[x] == s.map_[y] ==> x == y)
    && (forall i, j :: 0 <= i < j < |s.creators| && s.creators[i].Forked? && s.creators[j].Forked? ==>
          s.creators[i].child != s.creators[j].child)
    && (forall c :: c in s.killed <==> c in s.reaped || c in s.lost || (s.reaper.Killed? && s.reaper.child == c))
    && s.asked == s.consumed + multiset(s.requests)
  }

  /** The step stores over a record. */
  predicate Overwrites(s: State, a: Action)
    requires Enabled(s, a)
  {
    a.Store? && Entry(s.map_, s.creators[a.i].name).Some?
  }

  lemma InitHolds(n: nat)
    ensures Invariant(Init(n))
  {
    forall c: Child ensures Places(Init(n), c) == 0 {}
  }

  /** A name other than `name` keeps its entry. */
  lemma OthersInMap(s: State, t: State, name: string, c: Child)
    requires forall x :: x != name ==> (Entry(s.map_, x) == Entry(t.map_, x))
    ensures Entry(s.map_, name) != Some(c) && Entry(t.map_, name) != Some(c) ==> InMap(s, c) == InMap(t, c)
  {
    if Entry(s.map_, name) != Some(c) && Entry(t.map_, name) != Some(c) {
      if InMap(s, c) {
        var x :| x in s.map_ && s.map_[x] == Some(c);
        assert Entry(t.map_, x) == Some(c);
      }
      if InMap(t, c) {
        var x :| x in t.map_ && t.map_[x] == Some(c);
        assert Entry(s.map_, x) == Some(c);
      }
    }
  }

  predicate Holds(r: Creator, c: Child) {
    r.Forked? && r.child == c
  }

  /** Creators other than `i` hold what they held. */
  lemma OtherCreators(s: State, t: State, i: nat, c: Child)
    requires i < |s.creators| == |t.creators| && t.creators == s.creators[i := t.creators[i]]
    ensures !Holds(s.creators[i], c) && !Holds(t.creators[i], c) ==> WithCreator(s, c) == WithCreator(t, c)
    ensures Holds(s.creators[i], c) ==> WithCreator(s, c)
    ensures Holds(t.creators[i], c) ==> WithCreator(t, c)
  {
    if !Holds(s.creators[i], c) && !Holds(t.creators[i], c) {
      if WithCreator(s, c) {
        var j :| 0 <= j < |s.creators| && s.creators[j].Forked? && s.creators[j].child == c;
        assert t.creators[j] == s.creators[j];
      }
      if WithCreator(t, c) {
        var j :| 0 <= j < |t.creators| && t.creators[j].Forked? && t.creators[j].child == c;
        assert t.creators[j] == s.creators[j];
      }
    }
  }

  lemma StepKeeps(s: State, a: Action)
    requires Invariant(s) && Enabled(s, a) && !Overwrites(s, a)
    ensures Invariant(Step(s, a))
  {
    match a
    case Check(i, name) => CheckKeeps(s, i, name);
    case Fork(i) => ForkKeeps(s, i);
    case Store(i) => StoreKeeps(s, i);
    case Delete(name) => QueueKeeps(s, a);
    case Pick => QueueKeeps(s, a);
    case Detach => DetachKeeps(s);
    case Kill => KillKeeps(s);
    case Wait(succeeds) => WaitKeeps(s, succeeds);
  }

  lemma CheckKeeps(s: State, i: nat, name: string)
    requires Invariant(s) && Enabled(s, Check(i, name))
    ensures Invariant(Step(s, Check(i, name)))
  {
    var t := Step(s, Check(i, name));
    forall c: Child ensures Places(t, c) == Places(s, c) {
      OthersInMap(s, t, name, c);
      OtherCreators(s, t, i, c);
      if Entry(s.map_, name) == Some(c) { assert s.map_[name] == Some(c) && t.map_[name] == Some(c); }
    }
    assert forall j :: 0 <= j < |t.creators| && t.creators[j].Forked? ==> t.creators[j] == s.creators[j];
  }

  lemma ForkKeeps(s: State, i: nat)
    requires Invariant(s) && Enabled(s, Fork(i))
    ensures Invariant(Step(s, Fork(i)))
  {
    var t := Step(s, Fork(i));
    assert Places(s, s.forked) == 0;
    assert t.creators[i].child == s.forked;
    forall c: Child ensures Places(t, c) == Count(c < t.forked) {
      assert Places(s, c) == Count(c < s.forked);
      OtherCreators(s, t, i, c);
      assert InMap(t, c) == InMap(s, c);
    }
    forall j | 0 <= j < |s.creators| && s.creators[j].Forked? ensures s.creators[j].child != s.forked {
      assert s.creators[j].child == s.forked ==> WithCreator(s, s.forked);
    }
  }

  lemma StoreKeeps(s: State, i: nat)
    requires Invariant(s) && Enabled(s, Store(i)) && !Overwrites(s, Store(i))
    ensures Invariant(Step(s, Store(i)))
  {
    var t := Step(s, Store(i));
    var name, child := s.creators[i].name, s.creators[i].child;
    assert WithCreator(s, child);
    assert Places(s, child) == Count(child < s.forked);
    NoLongerWithCreator(s, i);
    forall c: Child ensures Places(t, c) == Count(c < t.forked) {
      assert Places(s, c) == Count(c < s.forked);
      OthersInMap(s, t, name, c);
      OtherCreators(s, t, i, c);
      assert t.map_[name] == Some(child);
    }
    assert forall x :: x in s.map_ ==> s.map_[x] != Some(child);
    forall x, y | x in t.map_ && y in t.map_ && t.map_[x].Some? && t.map_[x] == t.map_[y] ensures x == y {
      assert x != name ==> x in s.map_ && s.map_[x] == t.map_[x];
      assert y != name ==> y in s.map_ && s.map_[y] == t.map_[y];
    }
  }

  lemma NoLongerWithCreator(s: State, i: nat)
    requires Invariant(s) && Enabled(s, Store(i))
    ensures !WithCreator(Step(s, Store(i)), s.creators[i].child)
  {
    var t := Step(s, Store(i));
    forall j | 0 <= j < |t.creators| ensures !Holds(t.creators[j], s.creators[i].child) {
      if j != i { assert t.creators[j] == s.creators[j]; }
    }
  }

  lemma {:induction false} QueueKeeps(s: State, a: Action)
    requires Invariant(s) && Enabled(s, a) && (a.Delete? || a.Pick?)
    ensures Invariant(Step(s, a))
  {
    var t := Step(s, a);
    forall c: Child ensures Places(t, c) == Places(s, c) { assert InMap(t, c) == InMap(s, c); }
    if a.Pick? { assert s.requests == [s.requests[0]] + t.requests; }
  }

  lemma DetachKeeps(s: State)
    requires Invariant(s) && Enabled(s, Detach)
    ensures Invariant(Step(s, Detach))
  {
    var t := Step(s, Detach);
    var name := s.reaper.name;
    forall c: Child ensures Places(t, c) == Count(c < t.forked) {
      assert Places(s, c) == Count(c < s.forked);
      OthersInMap(s, t, name, c);
      if Entry(s.map_, name) == Some(c) {
        assert s.map_[name] == Some(c);
        assert !InMap(t, c);
      }
    }
  }

  lemma KillKeeps(s: State)
    requires Invariant(s) && Enabled(s, Kill)
    ensures Invariant(Step(s, Kill)) && s.reaper.child !in s.killed
  {
    var t := Step(s, Kill);
    assert Places(s, s.reaper.child) <= 1;
    forall c: Child ensures Places(t, c) == Places(s, c) { assert InMap(t, c) == InMap(s, c); }
  }

  lemma WaitKeeps(s: State, succeeds: bool)
    requires Invariant(s) && Enabled(s, Wait(succeeds))
    ensures Invariant(Step(s, Wait(succeeds)))
  {
    var t := Step(s, Wait(succeeds));
    assert Places(s, s.reaper.child) <= 1;
    forall c: Child ensures Places(t, c) == Places(s, c) { assert InMap(t, c) == InMap(s, c); }
  }

  /** If it does store over a record, the child of that record is nowhere. */
  lemma {:induction false} OverwrittenIsLost(s: State, a: Action) returns (c: Child)
    requires Invariant(s) && Enabled(s, a) && Overwrites(s, a)
    ensures c < Step(s, a).forked && Places(Step(s, a), c) == 0
  {
    var t := Step(s, a);
    var name, child := s.creators[a.i].name, s.creators[a.i].child;
    c := s.map_[name].value;
    assert InMap(s, c) && WithCreator(s, child);
    assert Places(s, c) == Count(c < s.forked) && Places(s, child) == Count(child < s.forked);
    OtherCreators(s, t, a.i, c);
    assert forall x :: x in t.map_ && x != name ==> x in s.map_ && s.map_[x] == t.map_[x];
    assert !InMap(t, c);
  }

  // ----- runs ----------------------------------------------------------------------------------------------

  /** The states a run with `n` creating threads goes through, and its steps. */
  ghost predicate Run(run: seq<State>, actions: seq<Action>, n: nat) {
    && |run| == |actions| + 1 && run[0] == Init(n)
    && forall k: nat {:trigger StepAt(run, actions, k)} :: k < |actions| ==> StepAt(run, actions, k)
  }

  ghost predicate StepAt(run: seq<State>, actions: seq<Action>, k: nat)
    requires |run| == |actions| + 1 && k < |actions|
  {
    Enabled(run[k], actions[k]) && run[k + 1] == Step(run[k], actions[k])
  }

  /** No step before `m` stores over a record. */
  ghost predicate NoneOverwritten(run: seq<State>, actions: seq<Action>, n: nat, m: nat)
    requires Run(run, actions, n) && m <= |actions|
  {
    forall k: nat {:trigger StepAt(run, actions, k)} :: k < m && StepAt(run, actions, k) ==>
      !Overwrites(run[k], actions[k])
  }

  lemma {:induction false} RunKeeps(run: seq<State>, actions: seq<Action>, n: nat, m: nat)
    requires Run(run, actions, n) && m <= |actions| && NoneOverwritten(run, actions, n, m)
    ensures Invariant(run[m])
    decreases m
  {
    if m == 0 {
      InitHolds(n);
    } else {
      RunKeeps(run, actions, n, m - 1);
      assert StepAt(run, actions, m - 1);
      StepKeeps(run[m - 1], actions[m - 1]);
    }
  }

  /** In a run with any number of creating threads, every child that has been forked is at all times in exactly one
      place if and only if no step stores over a record. */
  lemma {:induction false} OwnershipIff(run: seq<State>, actions: seq<Action>, n: nat)
    requires Run(run, actions, n)
    ensures (forall m :: 0 <= m < |run| ==> Exact(run[m])) <==> NoneOverwritten(run, actions, n, |actions|)
  {
    if NoneOverwritten(run, actions, n, |actions|) {
      forall m | 0 <= m < |run| ensures Exact(run[m]) { RunKeeps(run, actions, n, m); }
    } else {
      var k := FirstOverwriting(run, actions, n, |actions|);
      RunKeeps(run, actions, n, k);
      var c := OverwrittenIsLost(run[k], actions[k]);
      assert !Exact(run[k + 1]);
    }
  }

  lemma {:induction false} FirstOverwriting(run: seq<State>, actions: seq<Action>, n: nat, m: nat) returns (k: nat)
    requires Run(run, actions, n) && m <= |actions| && !NoneOverwritten(run, actions, n, m)
    ensures k < m && NoneOverwritten(run, actions, n, k) && StepAt(run, actions, k) && Overwrites(run[k], actions[k])
    decreases m
  {
    if NoneOverwritten(run, actions, n, m - 1) {
      k := m - 1;
    } else {
      k := FirstOverwriting(run, actions, n, m - 1);
    }
  }

  /** Then each delete request is waiting or has been consumed, once; and a child that has been killed is out of the
      map. */
  lemma Ownership(run: seq<State>, actions: seq<Action>, n: nat, m: nat, c: Child)
    requires Run(run, actions, n) && m <= |actions| && NoneOverwritten(run, actions, n, m)
    ensures Places(run[m], c) == Count(c < run[m].forked)
    ensures run[m].asked == run[m].consumed + multiset(run[m].requests)
    ensures c in run[m].killed ==> !InMap(run[m], c) && !WithCreator(run[m], c)
  {
    RunKeeps(run, actions, n, m);
    assert Places(run[m], c) <= 1;
  }

  /** And no step kills a child that is in the map or was killed before, or frees a record twice. */
  lemma NothingTwice(run: seq<State>, actions: seq<Action>, n: nat, m: nat, a: Action)
    requires Run(run, actions, n) && m <= |actions| && NoneOverwritten(run, actions, n, m) && Enabled(run[m], a)
    ensures a.Kill? ==> run[m].reaper.child !in run[m].killed && !InMap(run[m], run[m].reaper.child)
    ensures a.Wait? ==>
            run[m].reaper.child !in run[m].reaped && run[m].reaper.child !in run[m].lost &&
              !InMap(run[m], run[m].reaper.child)
  {
    RunKeeps(run, actions, n, m);
    AtReaper(run[m]);
  }

  lemma AtReaper(s: State)
    requires Invariant(s)
    ensures s.reaper.Detached? || s.reaper.Killed? ==>
      !InMap(s, s.reaper.child) && s.reaper.child !in s.reaped && s.reaper.child !in s.lost
  {
    if s.reaper.Detached? || s.reaper.Killed? { assert Places(s, s.reaper.child) <= 1; }
  }

  // ----- what deleting does --------------------------------------------------------------------------------

  /** From picking a request for `name`, whose record is that of `c`, to the end of the reaper's round. */
  ghost predicate OnItsWay(s: State, name: string, c: Child) {
    || (s.reaper == Picked(name) && Entry(s.map_, name) == Some(c))
    || s.reaper == Detached(c)
    || (s.reaper == Killed(c) && c in s.killed)
  }

  lemma StaysOnItsWay(s: State, a: Action, name: string, c: Child)
    requires Enabled(s, a) && !Overwrites(s, a) && OnItsWay(s, name, c) && Step(s, a).reaper != Resting
    ensures OnItsWay(Step(s, a), name, c)
  {
  }

  /** The reaper is at work in all states between `k` and `m`. */
  ghost predicate AtWork(run: seq<State>, k: nat, m: nat) {
    k < m < |run| && forall j :: k < j < m ==> run[j].reaper != Resting
  }

  lemma {:induction false} RemainsOnItsWay(run: seq<State>, actions: seq<Action>, n: nat, k: nat, m: nat, c: Child)
    requires Run(run, actions, n) && NoneOverwritten(run, actions, n, |actions|)
    requires AtWork(run, k, m) && actions[k] == Pick && run[m].reaper != Resting
    requires run[k].requests != [] && Entry(run[k].map_, run[k].requests[0]) == Some(c) && run[k].requests[0] != ""
    ensures OnItsWay(run[m], run[k].requests[0], c)
    decreases m
  {
    assert StepAt(run, actions, m - 1);
    if k + 1 < m {
      RemainsOnItsWay(run, actions, n, k, m - 1, c);
      StaysOnItsWay(run[m - 1], actions[m - 1], run[k].requests[0], c);
    }
  }

  /** If a request is picked while there is a record under its name, then the next time the reaper rests, the child of
      that record has been killed and waited for, and is out of the map. */
  lemma {:induction false} DeletedIsKilled(run: seq<State>, actions: seq<Action>, n: nat, k: nat, m: nat, c: Child)
    requires Run(run, actions, n) && NoneOverwritten(run, actions, n, |actions|)
    requires AtWork(run, k, m) && actions[k] == Pick && run[m].reaper == Resting
    requires run[k].requests != [] && Entry(run[k].map_, run[k].requests[0]) == Some(c) && run[k].requests[0] != ""
    ensures c in run[m].killed && (c in run[m].reaped || c in run[m].lost) && !InMap(run[m], c)
  {
    var name := run[k].requests[0];
    assert StepAt(run, actions, k) && StepAt(run, actions, m - 1);
    assert k + 1 < m;
    RemainsOnItsWay(run, actions, n, k, m - 1, c);
    RunKeeps(run, actions, n, m);
    assert Places(run[m], c) <= 1;
  }

  lemma {:induction false} NoRecordNoChange(s: State, a: Action, name: string)
    requires Enabled(s, a) && s.reaper == Picked(name) && Entry(s.map_, name) == None
    ensures Step(s, a).killed == s.killed && (Step(s, a).reaper == s.reaper || Step(s, a).reaper == Resting)
  {
  }

  /** If there is never a record under the name until the reaper rests, nobody is killed. */
  lemma {:induction false} NoRecordNobodyKilled(run: seq<State>, actions: seq<Action>, n: nat, k: nat, m: nat)
    requires Run(run, actions, n) && AtWork(run, k, m) && actions[k] == Pick
    requires run[k].requests != [] && forall j :: k <= j < m ==> Entry(run[j].map_, run[k].requests[0]) == None
    ensures run[m].killed == run[k].killed && (run[m].reaper == Resting || run[m].reaper == Picked(run[k].requests[0]))
    decreases m
  {
    assert StepAt(run, actions, m - 1);
    if k + 1 < m {
      NoRecordNobodyKilled(run, actions, n, k, m - 1);
      NoRecordNoChange(run[m - 1], actions[m - 1], run[k].requests[0]);
    }
  }

  /** Some step before `m` has stored child `c` under `name`. */
  ghost predicate StoredUnder(run: seq<State>, actions: seq<Action>, m: nat, name: string, c: Child)
    requires |run| == |actions| + 1 && m <= |actions|
  {
    exists k: nat {:trigger actions[k]} :: k < m && actions[k].Store? && actions[k].i < |run[k].creators| &&
      run[k].creators[actions[k].i] == Forked(name, c)
  }

  /** And the name has been asked for. */
  ghost predicate Requested(run: seq<State>, actions: seq<Action>, m: nat, c: Child)
    requires |run| == |actions| + 1 && m <= |actions|
  {
    exists name :: name in run[m].asked && StoredUnder(run, actions, m, name, c)
  }

  /** Where names and children come from. */
  ghost predicate Origins(run: seq<State>, actions: seq<Action>, m: nat)
    requires |run| == |actions| + 1 && m <= |actions|
  {
    var s := run[m];
    && (forall name :: Entry(s.map_, name).Some? ==> StoredUnder(run, actions, m, name, Entry(s.map_, name).value))
    && (forall x :: x in s.requests ==> x in s.asked)
    && (s.reaper.Picked? ==> s.reaper.name in s.asked)
    && (s.reaper.Detached? || s.reaper.Killed? ==> Requested(run, actions, m, s.reaper.child))
    && (forall c :: c in s.killed ==> Requested(run, actions, m, c))
  }

  lemma {:induction false} StoredStays(run: seq<State>, actions: seq<Action>, m: nat, name: string, c: Child)
    requires |run| == |actions| + 1 && m < |actions| && StoredUnder(run, actions, m, name, c)
    ensures StoredUnder(run, actions, m + 1, name, c)
  {
  }

  lemma {:induction false} RequestedStays(run: seq<State>, actions: seq<Action>, n: nat, m: nat, c: Child)
    requires Run(run, actions, n) && m < |actions| && Requested(run, actions, m, c)
    ensures Requested(run, actions, m + 1, c)
  {
    assert StepAt(run, actions, m);
    var name :| name in run[m].asked && StoredUnder(run, actions, m, name, c);
    StoredStays(run, actions, m, name, c);
    assert name in run[m + 1].asked;
  }

  lemma {:induction false} OriginsKept(run: seq<State>, actions: seq<Action>, n: nat, m: nat)
    requires Run(run, actions, n) && m < |actions| && Origins(run, actions, m)
    ensures Origins(run, actions, m + 1)
  {
    var s, t, a := run[m], run[m + 1], actions[m];
    assert StepAt(run, actions, m);
    forall name | Entry(t.map_, name).Some?
      ensures StoredUnder(run, actions, m + 1, name, Entry(t.map_, name).value) {
      if Entry(t.map_, name) == Entry(s.map_, name) {
        StoredStays(run, actions, m, name, Entry(t.map_, name).value);
      } else {
        assert a.Store? && s.creators[a.i] == Forked(name, Entry(t.map_, name).value);
        assert actions[m] == a;
      }
    }
    if a.Detach? && t.reaper.Detached? {
      StoredStays(run, actions, m, s.reaper.name, t.reaper.child);
      assert s.reaper.name in t.asked;
    } else if t.reaper.Detached? || t.reaper.Killed? {
      RequestedStays(run, actions, n, m, t.reaper.child);
    }
    forall c | c in t.killed ensures Requested(run, actions, m + 1, c) { RequestedStays(run, actions, n, m, c); }
  }

  lemma {:induction false} OriginsHold(run: seq<State>, actions: seq<Action>, n: nat, m: nat)
    requires Run(run, actions, n) && m <= |actions|
    ensures Origins(run, actions, m)
    decreases m
  {
    if m > 0 {
      OriginsHold(run, actions, n, m - 1);
      OriginsKept(run, actions, n, m - 1);
    }
  }

  /** Every child that has been killed was stored under a name that had been asked for. */
  lemma {:induction false} KilledWasAskedFor(run: seq<State>, actions: seq<Action>, n: nat, m: nat, c: Child)
    requires Run(run, actions, n) && m <= |actions| && c in run[m].killed
    ensures exists name, k :: name in run[m].asked && 0 <= k < m && actions[k].Store? &&
              actions[k].i < |run[k].creators| && run[k].creators[actions[k].i] == Forked(name, c)
  {
    OriginsHold(run, actions, n, m);
    var name :| name in run[m].asked && StoredUnder(run, actions, m, name, c);
    var k: nat :| k < m && actions[k].Store? && actions[k].i < |run[k].creators| &&
      run[k].creators[actions[k].i] == Forked(name, c);
    assert 0 <= k < m && name in run[m].asked;
  }

  // ----- how many creators ---------------------------------------------------------------------------------

  /** No two creators are between looking and storing for the same name. */
  ghost predicate NamesApart(s: State) {
    forall i, j :: 0 <= i < j < |s.creators| && s.creators[i] != Idle && s.creators[j] != Idle ==>
      s.creators[i].name != s.creators[j].name
  }

  /** A creator that has found no record can store one. */
  ghost predicate NamesFree(s: State) {
    forall i :: 0 <= i < |s.creators| && s.creators[i] != Idle ==> Entry(s.map_, s.creators[i].name) == None
  }

  lemma NamesStayFree(s: State, a: Action)
    requires Enabled(s, a) && NamesApart(s) && NamesFree(s)
    ensures !Overwrites(s, a) && NamesFree(Step(s, a))
  {
    var t := Step(s, a);
    forall i | 0 <= i < |t.creators| && t.creators[i] != Idle ensures Entry(t.map_, t.creators[i].name) == None {
      if a.Store? && i != a.i { assert s.creators[i].name != s.creators[a.i].name; }
    }
  }

  /** If no two creators ever hold one name, nothing is overwritten. */
  lemma {:induction false} ApartIsEnough(run: seq<State>, actions: seq<Action>, n: nat, m: nat)
    requires Run(run, actions, n) && m <= |actions| && forall k :: 0 <= k < |run| ==> NamesApart(run[k])
    ensures NoneOverwritten(run, actions, n, m) && NamesFree(run[m])
    decreases m
  {
    if m > 0 {
      ApartIsEnough(run, actions, n, m - 1);
      assert StepAt(run, actions, m - 1);
      NamesStayFree(run[m - 1], actions[m - 1]);
    }
  }

  lemma {:induction false} CreatorsStay(run: seq<State>, actions: seq<Action>, n: nat, m: nat)
    requires Run(run, actions, n) && m <= |actions|
    ensures |run[m].creators| == n
    decreases m
  {
    if m > 0 {
      CreatorsStay(run, actions, n, m - 1);
      assert StepAt(run, actions, m - 1);
    }
  }

  /** Two threads that create one channel both find no record; the second one stores over the first one's child, which
      then is nowhere. */
  lemma {:induction false} TwoCreatorsLoseAChild(n: nat) returns (run: seq<State>, actions: seq<Action>)
    requires n >= 2
    ensures Run(run, actions, n) && |run| == 7 && run[6].forked == 2 && Places(run[6], 0) == 0
  {
    actions := [Check(0, "a"), Check(1, "a"), Fork(0), Fork(1), Store(0), Store(1)];
    var s1 := Step(Init(n), actions[0]);
    var s2 := Step(s1, actions[1]);
    var s3 := Step(s2, actions[2]);
    var s4 := Step(s3, actions[3]);
    var s5 := Step(s4, actions[4]);
    var s6 := Step(s5, actions[5]);
    run := [Init(n), s1, s2, s3, s4, s5, s6];
    forall k: nat | k < |actions| ensures StepAt(run, actions, k) {
      assert Enabled(run[k], actions[k]) && run[k + 1] == Step(run[k], actions[k]);
    }
    assert s6.map_ == map["a" := Some(1)];
    assert forall i :: 0 <= i < n ==> s6.creators[i] == Idle;
  }

  /** Every child is kept in every run. */
  ghost predicate KeepsChildren(n: nat) {
    forall run: seq<State>, actions: seq<Action> :: Run(run, actions, n) ==>
      forall m :: 0 <= m < |run| ==> Exact(run[m])
  }

  /** That is so with at most one creating thread, and with no other number. */
  lemma {:induction false} OneCreatorIff(n: nat)
    ensures KeepsChildren(n) <==> n <= 1
  {
    if n <= 1 {
      forall run: seq<State>, actions: seq<Action> | Run(run, actions, n)
        ensures forall m :: 0 <= m < |run| ==> Exact(run[m]) {
        forall k | 0 <= k < |run| ensures NamesApart(run[k]) { CreatorsStay(run, actions, n, k); }
        ApartIsEnough(run, actions, n, |actions|);
        OwnershipIff(run, actions, n);
      }
    } else {
      var run, actions := TwoCreatorsLoseAChild(n);
      assert !Exact(run[6]);
    }
  }
}
