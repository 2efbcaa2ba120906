/** volumeLocks, and the account choice of CreateVolume under any interleaving of concurrent requests. */
module VolumeLock {

  /** A set of keys with an operation in progress. */
  class VolumeLocks {
    var locks: set<string>

    constructor ()
      ensures locks == {}
    {
      locks := {};
    }

    method TryAcquire(volumeID: string) returns (acquired: bool)
      modifies this
      ensures acquired <==> volumeID !in old(locks)
      ensures locks == old(locks) + {volumeID}
    {
      if volumeID in locks {
        return false;
      }
      locks := locks + {volumeID};
      return true;
    }

    method Release(volumeID: string)
      modifies this
      ensures locks == old(locks) - {volumeID}
    {
      locks := locks - {volumeID};
    }
  }
}

module OperationRuns {

  type Pid = nat

  /** A request. `searchKey` stands for the long key CreateVolume builds from its parameters. */
  datatype Op =
    | Create(name: string, searchKey: string, account: string, hasSecrets: bool)
    | Delete(volumeID: string)
    | Stage(volumeID: string, target: string)
    | Unstage(volumeID: string, target: string)
  {
    function Key(): string {
      match this
      case Create(name, _, _, _) => name
      case Delete(volumeID) => volumeID
      case Stage(volumeID, target) => volumeID + "-" + target
      case Unstage(volumeID, target) => volumeID + "-" + target
    }

    /** The driver has to pick the account itself. */
    predicate PicksAccount() {
      Create? && !hasSecrets && account == ""
    }
  }

  datatype Source = Given | FromVolMap | FromSearchCache | FromEnsure

  /** Progress of a request that holds its key. */
  datatype Phase =
    | Locked
    | Missed                                // not in volMap
    | Ensuring                              // not in the search cache either
    | Cached(account: string)               // ensured, and put in the search cache
    | Chosen(account: string, source: Source)

  datatype State = State(
    locks: set<string>,
    active: map<Pid, (Op, Phase)>,
    volMap: map<string, string>,
    searchCache: map<string, string>)
  {
    function To(p: Pid, phase: Phase): State
      requires p in active
    {
      this.(active := active[p := (active[p].0, phase)])
    }
  }

  ghost predicate Init(s: State) {
    s == State({}, map[], map[], map[])
  }

  datatype Step =
    | Begin(p: Pid, op: Op)
    | Refuse(p: Pid, op: Op)
    | UseGiven(p: Pid)
    | LookUp(p: Pid)
    | Search(p: Pid)
    | Ensure(p: Pid, account: string)
    | Record(p: Pid)
    | End(p: Pid)
    | Expire(searchKey: string)

  predicate Enabled(s: State, step: Step) {
    match step
    case Begin(p, op) => p !in s.active && op.Key() !in s.locks
    case Refuse(p, op) => p !in s.active && op.Key() in s.locks
    case UseGiven(p) => p in s.active && s.active[p].1.Locked? && s.active[p].0.Create? && !s.active[p].0.PicksAccount()
    case LookUp(p) => p in s.active && s.active[p].1.Locked? && s.active[p].0.PicksAccount()
    case Search(p) => p in s.active && s.active[p].1.Missed? && s.active[p].0.Create?
    case Ensure(p, _) => p in s.active && s.active[p].1.Ensuring? && s.active[p].0.Create?
    case Record(p) => p in s.active && s.active[p].1.Cached? && s.active[p].0.Create?
    case End(p) => p in s.active
    case Expire(k) => true
  }

  /** An operation may end in any phase: every error path releases the key. */
  function Apply(s: State, step: Step): State
    requires Enabled(s, step)
  {
    match step
    case Begin(p, op) => s.(locks := s.locks + {op.Key()}, active := s.active[p := (op, Locked)])
    case Refuse(p, op) => s
    case UseGiven(p) => s.To(p, Chosen(s.active[p].0.account, Given))
    case LookUp(p) =>
      var name := s.active[p].0.name;
      s.To(p, if name in s.volMap then Chosen(s.volMap[name], FromVolMap) else Missed)
    case Search(p) =>
      var k := s.active[p].0.searchKey;
      s.To(p, if k in s.searchCache then Chosen(s.searchCache[k], FromSearchCache) else Ensuring)
    case Ensure(p, account) =>
      s.(searchCache := s.searchCache[s.active[p].0.searchKey := account]).To(p, Cached(account))
    case Record(p) =>
      var account := s.active[p].1.account;
      s.(volMap := s.volMap[s.active[p].0.name := account]).To(p, Chosen(account, FromEnsure))
    case End(p) => s.(locks := s.locks - {s.active[p].0.Key()}, active := s.active - {p})
    case Expire(k) => s.(searchCache := s.searchCache - {k})
  }

  ghost predicate Runs(s: State, steps: seq<Step>, t: State)
    decreases |steps|
  {
    if steps == [] then t == s
    else Enabled(s, steps[0]) && Runs(Apply(s, steps[0]), steps[1..], t)
  }

  // ---------------------------------------------------------------- invariant

  /** The lock set is exactly the keys of the operations in progress, one owner each. */
  ghost predicate LocksOk(s: State) {
    && (forall p :: p in s.active ==> s.active[p].0.Key() in s.locks)
    && (forall k :: k in s.locks ==> exists p :: p in s.active && s.active[p].0.Key() == k)
    && (forall p, q :: p in s.active && q in s.active && s.active[p].0.Key() == s.active[q].0.Key() ==> p == q)
  }

  /** Between its miss and its store a request's name stays out of volMap;
      a request that picked an account agrees with volMap from then on. */
  ghost predicate PhaseOk(s: State, p: Pid)
    requires p in s.active
  {
    var (op, phase) := s.active[p];
    match phase
    case Locked => true
    case Chosen(account, source) =>
      && op.Create?
      && (source.Given? <==> !op.PicksAccount())
      && (source.Given? ==> account == op.account)
      && (!source.Given? && op.name in s.volMap ==> s.volMap[op.name] == account)
      && (source.FromVolMap? || source.FromEnsure? ==> op.name in s.volMap)
      && (source.FromSearchCache? ==> op.name !in s.volMap)
    case _ => op.PicksAccount() && op.name !in s.volMap
  }

  ghost predicate Inv(s: State) {
    LocksOk(s) && forall p :: p in s.active ==> PhaseOk(s, p)
  }

  lemma StepKeepsLocks(s: State, step: Step)
    requires Inv(s) && Enabled(s, step)
    ensures LocksOk(Apply(s, step))
  {
    match step {
      case Begin(p, op) => BeginKeepsLocks(s, p, op);
      case End(p) => EndKeepsLocks(s, p);
      case Refuse(_, _) =>
      case Expire(_) =>
      case _ => MoveKeepsLocks(s, Apply(s, step), step.p);
    }
  }

  /** Moving an operation to its next phase changes no key. */
  lemma MoveKeepsLocks(s: State, t: State, p: Pid)
    requires LocksOk(s) && p in s.active && p in t.active
    requires t.locks == s.locks && t.active == s.active[p := (s.active[p].0, t.active[p].1)]
    ensures LocksOk(t)
  {
    forall k | k in t.locks
      ensures exists q :: q in t.active && t.active[q].0.Key() == k
    {
      var q :| q in s.active && s.active[q].0.Key() == k;
      assert q in t.active;
    }
  }

  lemma BeginKeepsLocks(s: State, p: Pid, op: Op)
    requires Inv(s) && Enabled(s, Begin(p, op))
    ensures LocksOk(Apply(s, Begin(p, op)))
  {
    var t := Apply(s, Begin(p, op));
    assert p in t.active && t.active[p].0.Key() == op.Key();
    assert forall q :: q in s.active ==> q in t.active && t.active[q] == s.active[q];
  }

  lemma EndKeepsLocks(s: State, p: Pid)
    requires Inv(s) && Enabled(s, End(p))
    ensures LocksOk(Apply(s, End(p)))
  {
    var t := Apply(s, End(p));
    assert forall q :: q in s.active && q != p ==> q in t.active && t.active[q] == s.active[q];
  }

  lemma StepKeepsPhases(s: State, step: Step)
    requires Inv(s) && Enabled(s, step)
    ensures forall p :: p in Apply(s, step).active ==> PhaseOk(Apply(s, step), p)
  {
    var t := Apply(s, step);
    forall p | p in t.active
      ensures PhaseOk(t, p)
    {
      if p in s.active {
        assert PhaseOk(s, p);
        if step.Record? && p != step.p && t.active[p].0.Create? {
          assert s.active[p].0.Key() != s.active[step.p].0.Key();
        }
      }
    }
  }

  /** volMap is write-once: a step never changes or drops an entry. */
  lemma StepKeepsVolMap(s: State, step: Step, name: string)
    requires Inv(s) && Enabled(s, step) && name in s.volMap
    ensures name in Apply(s, step).volMap && Apply(s, step).volMap[name] == s.volMap[name]
  {
    if step.Record? {
      assert PhaseOk(s, step.p);
    }
  }

  lemma {:induction false} RunsKeepInv(s: State, steps: seq<Step>, t: State)
    requires Inv(s) && Runs(s, steps, t)
    ensures Inv(t)
    ensures forall name :: name in s.volMap ==> name in t.volMap && t.volMap[name] == s.volMap[name]
    decreases |steps|
  {
    if steps != [] {
      StepKeepsLocks(s, steps[0]);
      StepKeepsPhases(s, steps[0]);
      forall name | name in s.volMap
        ensures name in Apply(s, steps[0]).volMap && Apply(s, steps[0]).volMap[name] == s.volMap[name]
      {
        StepKeepsVolMap(s, steps[0], name);
      }
      RunsKeepInv(Apply(s, steps[0]), steps[1..], t);
    }
  }

  // ---------------------------------------------------------------- over every run

  lemma LockSetIsExact(s: State, steps: seq<Step>, t: State)
    requires Init(s) && Runs(s, steps, t)
    ensures forall k :: k in t.locks <==> exists p :: p in t.active && t.active[p].0.Key() == k
    ensures forall p, q :: p in t.active && q in t.active && p != q ==> t.active[p].0.Key() != t.active[q].0.Key()
  {
    RunsKeepInv(s, steps, t);
  }

  /** At no time are two operations in progress that stage or unstage one volume at one target, in whatever combination, or
      that create one name, or that delete one volume. */
  lemma OperationsExclude(s: State, steps: seq<Step>, t: State, p: Pid, q: Pid)
    requires Init(s) && Runs(s, steps, t) && p in t.active && q in t.active && p != q
    ensures var (a, b) := (t.active[p].0, t.active[q].0);
            && ((a.Stage? || a.Unstage?) && (b.Stage? || b.Unstage?) ==> a.volumeID != b.volumeID || a.target != b.target)
            && (a.Create? && b.Create? ==> a.name != b.name)
            && (a.Delete? && b.Delete? ==> a.volumeID != b.volumeID)
  {
    RunsKeepInv(s, steps, t);
  }

  /** Staging at one target keeps staging at another one out only if the two keys, each made of a volume and a target, are cut
      at different places. */
  lemma StagesConflictExactly(volumeID: string, target: string, other: string, otherTarget: string)
    requires Stage(volumeID, target).Key() == Unstage(other, otherTarget).Key()
    ensures volumeID == other && target == otherTarget <==> |volumeID| == |other|
    ensures Stage("a", "b-c").Key() == Stage("a-b", "c").Key()
  {
    var k := Stage(volumeID, target).Key();
    if |volumeID| == |other| {
      assert volumeID == k[..|volumeID|] && other == k[..|other|];
      assert target == k[|volumeID| + 1..] && otherTarget == k[|other| + 1..];
    }
    assert "a" + "-" + "b-c" == "a-b-c" == "a-b" + "-" + "c";
  }

  /** A request that brings an account or secrets gets the account it brings, and only such a request does. */
  lemma GivenIsChosenExactly(s: State, steps: seq<Step>, t: State, p: Pid)
    requires Init(s) && Runs(s, steps, t) && p in t.active && t.active[p].1.Chosen?
    ensures t.active[p].0.Create?
    ensures t.active[p].1 == Chosen(t.active[p].0.account, Given) <==> t.active[p].0.hasSecrets || t.active[p].0.account != ""
  {
    RunsKeepInv(s, steps, t);
    assert PhaseOk(t, p);
  }

  /** Once EnsureStorageAccount fixed an account for a volume name, volMap keeps it for ever, and every request for that
      name that brings neither account nor secrets and has picked an account, has picked that one. */
  lemma AccountIsStable(s: State, before: seq<Step>, t: State, after: seq<Step>, u: State, name: string)
    requires Init(s) && Runs(s, before, t) && Runs(t, after, u)
    requires name in t.volMap
    ensures name in u.volMap && u.volMap[name] == t.volMap[name]
    ensures forall p :: p in u.active && u.active[p].1.Chosen? && u.active[p].0.PicksAccount() && u.active[p].0.name == name
                        ==> u.active[p].1.account == t.volMap[name]
  {
    RunsKeepInv(s, before, t);
    RunsKeepInv(t, after, u);
    forall p | p in u.active && u.active[p].1.Chosen? && u.active[p].0.PicksAccount() && u.active[p].0.name == name
      ensures u.active[p].1.account == t.volMap[name]
    {
      assert PhaseOk(u, p);
    }
  }

  /** Every later pick for the name agrees. */
  ghost predicate LaterPicksAgree(t: State, name: string, account: string) {
    forall after, u, p ::
      Runs(t, after, u) && p in u.active && u.active[p].1.Chosen? && u.active[p].0.PicksAccount() && u.active[p].0.name == name
      ==> u.active[p].1.account == account
  }

  /** The picked account binds every later request for the name exactly when volMap recorded it, which is exactly when it
      does not come from the search cache: after such a pick, a retry may end up with any other account. */
  lemma PickIsBindingExactly(s: State, before: seq<Step>, t: State, p: Pid)
    requires Init(s) && Runs(s, before, t)
    requires p in t.active && t.active[p].1.Chosen? && t.active[p].0.PicksAccount()
    ensures LaterPicksAgree(t, t.active[p].0.name, t.active[p].1.account) <==> t.active[p].0.name in t.volMap
    ensures !t.active[p].1.source.FromSearchCache? <==> t.active[p].0.name in t.volMap
  {
    var (op, phase) := t.active[p];
    RunsKeepInv(s, before, t);
    assert PhaseOk(t, p);
    if op.name in t.volMap {
      forall after, u, q | Runs(t, after, u) && q in u.active && u.active[q].1.Chosen?
                           && u.active[q].0.PicksAccount() && u.active[q].0.name == op.name
        ensures u.active[q].1.account == phase.account
      {
        AccountIsStable(s, before, t, after, u, op.name);
      }
    } else {
      var after, u := RetryElsewhere(t, p, phase.account + "x");
      assert u.active[p].1.account != phase.account;
    }
  }

  /** The request ends, the cache entry expires, and the same request is made again. */
  lemma RetryElsewhere(t: State, p: Pid, account: string) returns (after: seq<Step>, u: State)
    requires Inv(t) && p in t.active && t.active[p].0.PicksAccount() && t.active[p].0.name !in t.volMap
    ensures Runs(t, after, u)
    ensures p in u.active && u.active[p] == (t.active[p].0, Chosen(account, FromEnsure))
  {
    var op := t.active[p].0;
    var t1 := Apply(t, End(p));
    var t2 := Apply(t1, Expire(op.searchKey));
    var t3 := Apply(t2, Begin(p, op));
    var t4 := Apply(t3, LookUp(p));
    var t5 := Apply(t4, Search(p));
    var t6 := Apply(t5, Ensure(p, account));
    u := Apply(t6, Record(p));
    after := Prepend(t6, Record(p), [], u);
    after := Prepend(t5, Ensure(p, account), after, u);
    after := Prepend(t4, Search(p), after, u);
    after := Prepend(t3, LookUp(p), after, u);
    after := Prepend(t2, Begin(p, op), after, u);
    after := Prepend(t1, Expire(op.searchKey), after, u);
    after := Prepend(t, End(p), after, u);
  }

  lemma Prepend(s: State, step: Step, rest: seq<Step>, u: State) returns (steps: seq<Step>)
    requires Enabled(s, step) && Runs(Apply(s, step), rest, u)
    ensures Runs(s, steps, u) && steps == [step] + rest
  {
    steps := [step] + rest;
    assert steps[1..] == rest;
  }

  /** Two requests with one search key: the second picks the account from the search cache, and it is not recorded. */
  lemma SearchCachePickHappens(name: string, other: string, searchKey: string, account: string)
    returns (steps: seq<Step>, t: State)
    requires name != other
    ensures Runs(State({}, map[], map[], map[]), steps, t)
    ensures 1 in t.active && t.active[1].0.PicksAccount() && t.active[1].1 == Chosen(account, FromSearchCache)
    ensures t.active[1].0.name == other && other !in t.volMap
  {
    var a, b := Create(name, searchKey, "", false), Create(other, searchKey, "", false);
    var s := State({}, map[], map[], map[]);
    var s1 := Apply(s, Begin(0, a));
    var s2 := Apply(s1, LookUp(0));
    var s3 := Apply(s2, Search(0));
    var s4 := Apply(s3, Ensure(0, account));
    var s5 := Apply(s4, Begin(1, b));
    var s6 := Apply(s5, LookUp(1));
    t := Apply(s6, Search(1));
    assert Runs(t, [], t);
    steps := Prepend(s6, Search(1), [], t);
    steps := Prepend(s5, LookUp(1), steps, t);
    steps := Prepend(s4, Begin(1, b), steps, t);
    steps := Prepend(s3, Ensure(0, account), steps, t);
    steps := Prepend(s2, Search(0), steps, t);
    steps := Prepend(s1, LookUp(0), steps, t);
    steps := Prepend(s, Begin(0, a), steps, t);
  }
}
