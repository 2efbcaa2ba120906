/** Any number of overlapping calls of updateSubnetServiceEndpoints. One step is one call to Azure, to the cache or to the
    lock; everything a call read before may be out of date by the time it writes. */
module SubnetRuns {
  import opened Text
  import opened Wrappers
  import opened Subnets

  type Pid = nat

  /** Where a call is. `targets` are the subnets it is about, `copies` what it read of them. */
  datatype Phase =
    | Idle
    | Called(a: Args)
    | Waiting(a: Args)
    | Reading(a: Args, targets: seq<SubnetId>, copies: seq<Subnet>)
    | Writing(a: Args, targets: seq<SubnetId>, copies: seq<Subnet>, i: nat)
    | Returned(a: Args, ids: seq<SubnetId>, hit: bool)
    | GaveUp
  {
    predicate InSection() {
      Reading? || Writing?
    }
  }

  /** `successes` records the calls that went all the way, with what they returned. */
  datatype State = State(
    cloud: Cloud,
    cache: map<string, seq<SubnetId>>,
    phases: map<Pid, Phase>,
    successes: set<(Args, seq<SubnetId>)>)
  {
    function At(p: Pid): Phase {
      if p in phases then phases[p] else Idle
    }

    function Goto(p: Pid, phase: Phase): State {
      this.(phases := phases[p := phase])
    }
  }

  datatype Step =
    | Call(p: Pid, a: Args)
    | LookUp(p: Pid)
    | TakeLock(p: Pid)
    | ReadOne(p: Pid)
    | ReadAll(p: Pid, listed: seq<SubnetId>)
    | StartWriting(p: Pid)
    | WriteOne(p: Pid)
    | Finish(p: Pid)
    | GiveUp(p: Pid)       // any error
    | Expire(key: string)

  /** The lock of the key is free. */
  predicate LockFree(s: State, key: string) {
    forall q :: q in s.phases && s.phases[q].InSection() ==> s.phases[q].a.Key() != key
  }

  ghost predicate Enabled(s: State, step: Step) {
    match step
    case Call(p, a) => s.At(p).Idle?
    case LookUp(p) => s.At(p).Called?
    case TakeLock(p) => s.At(p).Waiting? && LockFree(s, s.At(p).a.Key())
    case ReadOne(p) =>
      var r := s.At(p);
      r.Reading? && r.a.subnets != "" && |r.copies| < |r.targets| && r.targets[|r.copies|] in s.cloud
    case ReadAll(p, listed) =>
      var r := s.At(p);
      && r.Reading? && r.a.subnets == ""
      && forall id :: id in listed <==> id in s.cloud && id.resourceGroup == r.a.resourceGroup && id.vnet == r.a.vnet
    case StartWriting(p) => s.At(p).Reading? && |s.At(p).copies| == |s.At(p).targets|
    case WriteOne(p) => var w := s.At(p); w.Writing? && w.i < |w.copies| && w.i < |w.targets|
    case Finish(p) => s.At(p).Writing? && s.At(p).i == |s.At(p).targets|
    case GiveUp(p) => !s.At(p).Idle? && !s.At(p).Returned?
    case Expire(key) => true
  }

  function Targets(a: Args): seq<SubnetId> {
    if a.subnets == "" then [] else NamedSubnets(a)
  }

  ghost function Apply(s: State, step: Step, location: string): State
    requires Enabled(s, step)
  {
    match step
    case Call(p, a) => s.Goto(p, Called(a))
    case LookUp(p) =>
      var a := s.At(p).a;
      if a.Key() in s.cache then s.Goto(p, Returned(a, s.cache[a.Key()], true)) else s.Goto(p, Waiting(a))
    case TakeLock(p) => s.Goto(p, Reading(s.At(p).a, Targets(s.At(p).a), []))
    case ReadOne(p) =>
      var r := s.At(p);
      s.Goto(p, Reading(r.a, r.targets, r.copies + [s.cloud[r.targets[|r.copies|]]]))
    case ReadAll(p, listed) => s.Goto(p, Reading(s.At(p).a, listed, Copies(s.cloud, listed)))
    case StartWriting(p) => s.Goto(p, Writing(s.At(p).a, s.At(p).targets, s.At(p).copies, 0))
    case WriteOne(p) =>
      var w := s.At(p);
      var moved := s.Goto(p, Writing(w.a, w.targets, w.copies, w.i + 1));
      if w.copies[w.i].HasStorage() then moved
      else moved.(cloud := s.cloud[w.targets[w.i] := w.copies[w.i].WithStorage(location)])
    case Finish(p) =>
      var w := s.At(p);
      s.Goto(p, Returned(w.a, w.targets, false)).(
        cache := s.cache[w.a.Key() := w.targets], successes := s.successes + {(w.a, w.targets)})
    case GiveUp(p) => s.Goto(p, GaveUp)
    case Expire(key) => s.(cache := s.cache - {key})
  }

  predicate Init(s: State) {
    s.cache == map[] && s.phases == map[] && s.successes == {}
  }

  ghost predicate Runs(s: State, steps: seq<Step>, location: string, t: State)
    decreases |steps|
  {
    if steps == [] then s == t
    else Enabled(s, steps[0]) && Runs(Apply(s, steps[0], location), steps[1..], location, t)
  }

  // ---------------------------------------------------------------- what every step keeps

  /** As in the beginning, or with the storage endpoint added. */
  predicate IsVersion(was: Subnet, now: Subnet, location: string) {
    now == was || now == was.WithStorage(location)
  }

  ghost predicate AllStored(cloud: Cloud, ids: seq<SubnetId>, n: nat)
    requires n <= |ids|
  {
    forall i :: 0 <= i < n ==> ids[i] in cloud && cloud[ids[i]].HasStorage()
  }

  /** What was read of each subnet is a version of it, and not ahead of the subnet. */
  ghost predicate WereRead(first: Cloud, cloud: Cloud, targets: seq<SubnetId>, copies: seq<Subnet>, location: string) {
    && |copies| <= |targets|
    && forall i :: 0 <= i < |copies| ==>
         && targets[i] in first && IsVersion(first[targets[i]], copies[i], location)
         && targets[i] in cloud && (copies[i].HasStorage() ==> cloud[targets[i]].HasStorage())
  }

  /** The subnets lie in the network of the call. */
  ghost predicate InNetwork(a: Args, ids: seq<SubnetId>) {
    forall id :: id in ids ==> id.resourceGroup == a.resourceGroup && id.vnet == a.vnet
  }

  /** Some call with this key went all the way and returned these subnets. */
  ghost predicate Succeeded(s: State, key: string, ids: seq<SubnetId>) {
    exists a :: (a, ids) in s.successes && a.Key() == key
  }

  ghost predicate AnswerOk(s: State, key: string, ids: seq<SubnetId>) {
    Succeeded(s, key, ids) && AllStored(s.cloud, ids, |ids|)
  }

  ghost predicate PhaseOk(first: Cloud, s: State, phase: Phase, location: string) {
    match phase
    case Reading(a, targets, copies) =>
      && WereRead(first, s.cloud, targets, copies, location)
      && InNetwork(a, targets) && (a.subnets != "" ==> targets == NamedSubnets(a))
    case Writing(a, targets, copies, i) =>
      && WereRead(first, s.cloud, targets, copies, location)
      && InNetwork(a, targets) && (a.subnets != "" ==> targets == NamedSubnets(a))
      && |copies| == |targets| && i <= |targets| && AllStored(s.cloud, targets, i)
    case Returned(a, ids, _) => AnswerOk(s, a.Key(), ids)
    case _ => true
  }

  ghost predicate Inv(first: Cloud, s: State, location: string) {
    && Conserved(first, s.cloud, location)
    && (forall p :: p in s.phases ==> PhaseOk(first, s, s.phases[p], location))
    && (forall key :: key in s.cache ==> AnswerOk(s, key, s.cache[key]))
    && (forall a, ids :: (a, ids) in s.successes ==> InNetwork(a, ids) && (a.subnets != "" ==> ids == NamedSubnets(a)))
  }

  /** Nothing that was established about subnets is undone. */
  ghost predicate Grows(s: State, t: State) {
    && s.successes <= t.successes && s.cloud.Keys <= t.cloud.Keys
    && forall id :: id in s.cloud && s.cloud[id].HasStorage() ==> t.cloud[id].HasStorage()
  }

  lemma GrowsKeepsAnswer(s: State, t: State, key: string, ids: seq<SubnetId>)
    requires Grows(s, t) && AnswerOk(s, key, ids)
    ensures AnswerOk(t, key, ids)
  {
    var a :| (a, ids) in s.successes && a.Key() == key;
    assert (a, ids) in t.successes;
  }

  lemma GrowsKeeps(first: Cloud, s: State, t: State, phase: Phase, location: string)
    requires Grows(s, t) && PhaseOk(first, s, phase, location)
    ensures PhaseOk(first, t, phase, location)
  {
    if phase.Returned? {
      GrowsKeepsAnswer(s, t, phase.a.Key(), phase.ids);
    }
  }

  /** A write never takes a storage endpoint away: what was read without one is as in the beginning. */
  lemma WriteGrows(first: Cloud, s: State, p: Pid, location: string)
    requires Inv(first, s, location) && Enabled(s, WriteOne(p))
    ensures var t := Apply(s, WriteOne(p), location);
            Grows(s, t) && Conserved(first, t.cloud, location) && t.cloud[s.At(p).targets[s.At(p).i]].HasStorage()
  {
    var w := s.At(p);
    var id := w.targets[w.i];
    WithStorageKeeps(first[id], location);
    assert PhaseOk(first, s, w, location);
    assert IsVersion(first[id], w.copies[w.i], location);
  }

  lemma AlsoStored(cloud: Cloud, ids: seq<SubnetId>, n: nat)
    requires n < |ids| && AllStored(cloud, ids, n) && ids[n] in cloud && cloud[ids[n]].HasStorage()
    ensures AllStored(cloud, ids, n + 1)
  {
  }

  lemma WriteAdvances(first: Cloud, s: State, p: Pid, location: string)
    requires Inv(first, s, location) && Enabled(s, WriteOne(p))
    ensures var t := Apply(s, WriteOne(p), location); PhaseOk(first, t, t.At(p), location)
  {
    var t, w := Apply(s, WriteOne(p), location), s.At(p);
    WriteGrows(first, s, p, location);
    GrowsKeeps(first, s, t, w, location);
    AlsoStored(t.cloud, w.targets, w.i);
  }

  lemma ReadIsVersion(first: Cloud, s: State, p: Pid, location: string)
    requires Inv(first, s, location) && Enabled(s, ReadOne(p))
    ensures var t := Apply(s, ReadOne(p), location); PhaseOk(first, t, t.At(p), location)
  {
    var r := s.At(p);
    assert PhaseOk(first, s, r, location);
    ReadOneMore(first, s.cloud, r.targets, r.copies, location);
  }

  lemma ReadOneMore(first: Cloud, cloud: Cloud, targets: seq<SubnetId>, copies: seq<Subnet>, location: string)
    requires Conserved(first, cloud, location) && WereRead(first, cloud, targets, copies, location)
    requires |copies| < |targets| && targets[|copies|] in cloud
    ensures WereRead(first, cloud, targets, copies + [cloud[targets[|copies|]]], location)
  {
  }

  lemma ListIsVersion(first: Cloud, s: State, p: Pid, listed: seq<SubnetId>, location: string)
    requires Inv(first, s, location) && Enabled(s, ReadAll(p, listed))
    ensures var t := Apply(s, ReadAll(p, listed), location); PhaseOk(first, t, t.At(p), location)
  {
    CopiesAreVersions(first, s.cloud, listed, location);
  }

  lemma CopiesAreVersions(first: Cloud, cloud: Cloud, listed: seq<SubnetId>, location: string)
    requires Conserved(first, cloud, location) && forall id :: id in listed ==> id in cloud
    ensures WereRead(first, cloud, listed, Copies(cloud, listed), location)
  {
    forall i | 0 <= i < |listed| ensures listed[i] in first && IsVersion(first[listed[i]], cloud[listed[i]], location) {
      assert listed[i] in listed;
    }
  }

  lemma StepGrows(first: Cloud, s: State, step: Step, location: string)
    requires Inv(first, s, location) && Enabled(s, step)
    ensures Grows(s, Apply(s, step, location)) && Conserved(first, Apply(s, step, location).cloud, location)
  {
    if step.WriteOne? {
      WriteGrows(first, s, step.p, location);
    }
  }

  lemma StepMoves(first: Cloud, s: State, step: Step, location: string)
    requires Inv(first, s, location) && Enabled(s, step) && !step.Expire?
    ensures var t := Apply(s, step, location); PhaseOk(first, t, t.At(step.p), location)
  {
    match step {
      case ReadOne(p) => ReadIsVersion(first, s, p, location);
      case ReadAll(p, listed) => ListIsVersion(first, s, p, listed, location);
      case WriteOne(p) => WriteAdvances(first, s, p, location);
      case Finish(p) =>
        assert PhaseOk(first, s, s.At(p), location);
        assert (s.At(p).a, s.At(p).targets) in Apply(s, step, location).successes;
      case _ =>
    }
  }

  lemma StepKeepsPhases(first: Cloud, s: State, step: Step, location: string)
    requires Inv(first, s, location) && Enabled(s, step)
    ensures var t := Apply(s, step, location); forall q :: q in t.phases ==> PhaseOk(first, t, t.phases[q], location)
  {
    var t := Apply(s, step, location);
    StepGrows(first, s, step, location);
    forall q | q in t.phases ensures PhaseOk(first, t, t.phases[q], location) {
      if !step.Expire? && q == step.p {
        StepMoves(first, s, step, location);
      } else {
        GrowsKeeps(first, s, t, s.phases[q], location);
      }
    }
  }

  lemma StepKeepsInv(first: Cloud, s: State, step: Step, location: string)
    requires Inv(first, s, location) && Enabled(s, step)
    ensures Inv(first, Apply(s, step, location), location)
  {
    var t := Apply(s, step, location);
    StepGrows(first, s, step, location);
    StepKeepsPhases(first, s, step, location);
    forall key | key in t.cache ensures AnswerOk(t, key, t.cache[key]) {
      if step.Finish? && key == t.At(step.p).a.Key() {
        assert PhaseOk(first, t, t.At(step.p), location);
      } else {
        GrowsKeepsAnswer(s, t, key, s.cache[key]);
      }
    }
  }

  lemma {:induction false} RunsKeepInv(first: Cloud, s: State, steps: seq<Step>, location: string, t: State)
    requires Inv(first, s, location) && Runs(s, steps, location, t)
    ensures Inv(first, t, location)
    decreases |steps|
  {
    if steps != [] {
      StepKeepsInv(first, s, steps[0], location);
      RunsKeepInv(first, Apply(s, steps[0], location), steps[1..], location, t);
    }
  }

  // ---------------------------------------------------------------- the theorems

  /** Over every run, subnets keep all their endpoints in front and gain at most one, however the calls overlap. */
  lemma EndpointsAreConserved(s: State, steps: seq<Step>, location: string, t: State, id: SubnetId)
    requires Init(s) && Runs(s, steps, location, t) && id in s.cloud
    ensures id in t.cloud && s.cloud[id].endpoints <= t.cloud[id].endpoints
    ensures |t.cloud[id].endpoints| <= |s.cloud[id].endpoints| + if s.cloud[id].HasStorage() then 0 else 1
  {
    RunsKeepInv(s.cloud, s, steps, location, t);
    WithStorageKeeps(s.cloud[id], location);
  }

  /** Every call that returned, whether from the cache or not, returned subnets that all have the endpoint by now, and
      that an earlier call with the same key returned when it went all the way. */
  lemma ReturnedHaveStorage(s: State, steps: seq<Step>, location: string, t: State, p: Pid)
    requires Init(s) && Runs(s, steps, location, t) && t.At(p).Returned?
    ensures forall id :: id in t.At(p).ids ==> id in t.cloud && t.cloud[id].HasStorage()
    ensures Succeeded(t, t.At(p).a.Key(), t.At(p).ids)
    ensures forall id :: id in t.At(p).ids ==>
              exists e :: e in t.cloud[id].endpoints && e.service.Some? && "Microsoft.Storage" <= e.service.value
  {
    RunsKeepInv(s.cloud, s, steps, location, t);
    forall id | id in t.At(p).ids
      ensures exists e :: e in t.cloud[id].endpoints && e.service.Some? && "Microsoft.Storage" <= e.service.value
    {
      StorageIsByName(t.cloud[id]);
    }
  }

  /** If calls with the same key are calls with the same arguments, a call that names subnets returns exactly these. */
  lemma ReturnsWhatWasNamed(s: State, steps: seq<Step>, location: string, t: State, p: Pid)
    requires Init(s) && Runs(s, steps, location, t) && t.At(p).Returned? && t.At(p).a.subnets != ""
    requires forall b, ids :: (b, ids) in t.successes && b.Key() == t.At(p).a.Key() ==> b == t.At(p).a
    ensures t.At(p).ids == NamedSubnets(t.At(p).a)
  {
    RunsKeepInv(s.cloud, s, steps, location, t);
  }

  lemma NamedSubnetsExactly(a: Args, b: Args)
    requires a.Key() == b.Key()
    ensures NamedSubnets(a) == NamedSubnets(b) <==> |a.resourceGroup| == |b.resourceGroup| && |a.vnet| == |b.vnet|
  {
    SameKeyExactly(a, b);
    assert NamedSubnets(a)[0].resourceGroup == a.resourceGroup && NamedSubnets(a)[0].vnet == a.vnet;
    assert NamedSubnets(b)[0].resourceGroup == b.resourceGroup && NamedSubnets(b)[0].vnet == b.vnet;
  }

  /** A call that answers with what a success of another call left, whether they name subnets or list their network, answers
      with subnets of its own network exactly when the names of resource group and network have the same lengths in both;
      and if both name subnets, with just those that it named. */
  lemma AnswersOwnNetworkExactly(s: State, steps: seq<Step>, location: string, t: State, p: Pid, b: Args)
    requires Init(s) && Runs(s, steps, location, t) && t.At(p).Returned? && t.At(p).ids != []
    requires (b, t.At(p).ids) in t.successes && b.Key() == t.At(p).a.Key()
    ensures var a, ids := t.At(p).a, t.At(p).ids;
            var sameLengths := |a.resourceGroup| == |b.resourceGroup| && |a.vnet| == |b.vnet|;
            && (InNetwork(a, ids) <==> sameLengths)
            && (a.subnets != "" && b.subnets != "" ==> (ids == NamedSubnets(a) <==> sameLengths))
  {
    RunsKeepInv(s.cloud, s, steps, location, t);
    SameKeyExactly(t.At(p).a, b);
    NamedSubnetsExactly(t.At(p).a, b);
    var id := t.At(p).ids[0];
    assert id in t.At(p).ids && id.resourceGroup == b.resourceGroup && id.vnet == b.vnet;
  }

  /** A call for one subnet that nothing has been cached for takes the lock. */
  lemma CallLocks(s: State, p: Pid, a: Args, location: string) returns (steps: seq<Step>, t: State)
    requires s.At(p).Idle? && a.subnets != "" && a.Key() !in s.cache && LockFree(s, a.Key())
    ensures Runs(s, steps, location, t) && t == s.Goto(p, Called(a)).Goto(p, Waiting(a)).Goto(p, Reading(a, NamedSubnets(a), []))
  {
    var s1 := Apply(s, Call(p, a), location);
    var s2 := Apply(s1, LookUp(p), location);
    assert LockFree(s2, a.Key());
    t := Apply(s2, TakeLock(p), location);
    assert Runs(t, [], location, t);
    steps := Prepend(s2, TakeLock(p), [], location, t);
    steps := Prepend(s1, LookUp(p), steps, location, t);
    steps := Prepend(s, Call(p, a), steps, location, t);
  }

  /** It goes on to update the subnet and to cache it. */
  lemma LockedFinishes(s: State, p: Pid, a: Args, id: SubnetId, location: string) returns (steps: seq<Step>, t: State)
    requires s.At(p) == Reading(a, [id], []) && a.subnets != "" && id in s.cloud && !s.cloud[id].HasStorage()
    ensures Runs(s, steps, location, t)
    ensures t.cache == s.cache[a.Key() := [id]] && t.cloud == s.cloud[id := s.cloud[id].WithStorage(location)]
    ensures forall q: Pid :: q != p ==> t.At(q) == s.At(q)
  {
    var s1 := Apply(s, ReadOne(p), location);
    assert s1.At(p) == Reading(a, [id], [s.cloud[id]]);
    var s2 := Apply(s1, StartWriting(p), location);
    var s3 := Apply(s2, WriteOne(p), location);
    t := Apply(s3, Finish(p), location);
    assert Runs(t, [], location, t);
    steps := Prepend(s3, Finish(p), [], location, t);
    steps := Prepend(s2, WriteOne(p), steps, location, t);
    steps := Prepend(s1, StartWriting(p), steps, location, t);
    steps := Prepend(s, ReadOne(p), steps, location, t);
  }

  /** A later call with the same key answers from the cache. */
  lemma CallHits(s: State, p: Pid, a: Args, location: string) returns (steps: seq<Step>, t: State)
    requires s.At(p).Idle? && a.Key() in s.cache
    ensures Runs(s, steps, location, t) && t.At(p) == Returned(a, s.cache[a.Key()], true) && t.cloud == s.cloud
  {
    var s1 := Apply(s, Call(p, a), location);
    t := Apply(s1, LookUp(p), location);
    assert Runs(t, [], location, t);
    steps := Prepend(s1, LookUp(p), [], location, t);
    steps := Prepend(s, Call(p, a), steps, location, t);
  }

  lemma {:induction false} RunsCompose(s: State, first: seq<Step>, u: State, last: seq<Step>, location: string, t: State)
    requires Runs(s, first, location, u) && Runs(u, last, location, t)
    ensures Runs(s, first + last, location, t)
    decreases |first|
  {
    if first == [] {
      assert first + last == last;
    } else {
      assert (first + last)[1..] == first[1..] + last;
      RunsCompose(Apply(s, first[0], location), first[1..], u, last, location, t);
    }
  }

  lemma OneSubnet(a: Args)
    requires a.subnets == "s"
    ensures NamedSubnets(a) == [SubnetId(a.resourceGroup, a.vnet, "s")]
  {
    SplitNone("s", ',');
  }

  /** Two calls, one after the other: the second returns the subnet of another network, and leaves its own alone. */
  lemma WrongNetworkAnswers(location: string) returns (s: State, steps: seq<Step>, t: State)
    ensures Init(s) && Runs(s, steps, location, t) && t.At(1).Returned? && t.At(1).hit
    ensures t.At(1).ids != NamedSubnets(t.At(1).a)
    ensures forall id :: id in NamedSubnets(t.At(1).a) ==> id in t.cloud && t.cloud[id] == Subnet(Some("s"), [])
  {
    var a, b := Args("r", "gv", "s"), Args("rg", "v", "s");
    var mine, other := SubnetId("r", "gv", "s"), SubnetId("rg", "v", "s");
    OneSubnet(a);
    OneSubnet(b);
    assert a.Key() == "rgvs" == b.Key();
    assert mine != other by { assert |mine.resourceGroup| != |other.resourceGroup|; }
    s := State(map[mine := Subnet(Some("s"), []), other := Subnet(Some("s"), [])], map[], map[], {});
    var first, u := CallLocks(s, 0, b, location);
    var second, v := LockedFinishes(u, 0, b, other, location);
    var third, w := CallHits(v, 1, a, location);
    t := w;
    RunsCompose(s, first, u, second, location, v);
    RunsCompose(s, first + second, v, third, location, t);
    steps := first + second + third;
  }

  lemma Prepend(s: State, step: Step, rest: seq<Step>, location: string, t: State) returns (steps: seq<Step>)
    requires Enabled(s, step) && Runs(Apply(s, step, location), rest, location, t)
    ensures Runs(s, steps, location, t) && steps == [step] + rest
  {
    steps := [step] + rest;
    assert steps[1..] == rest;
  }

  // ---------------------------------------------------------------- the lock

  ghost predicate OneAtATime(s: State) {
    forall p: Pid, q: Pid :: p != q && s.At(p).InSection() && s.At(q).InSection() ==> s.At(p).a.Key() != s.At(q).a.Key()
  }

  lemma StepKeepsTurns(s: State, step: Step, location: string)
    requires OneAtATime(s) && Enabled(s, step)
    ensures OneAtATime(Apply(s, step, location))
  {
    var t := Apply(s, step, location);
    forall p: Pid, q: Pid | p != q && t.At(p).InSection() && t.At(q).InSection()
      ensures t.At(p).a.Key() != t.At(q).a.Key()
    {
      if step.TakeLock? && step.p in {p, q} {
        var other := if p == step.p then q else p;
        assert other in s.phases && s.phases[other].InSection();
      } else {
        assert s.At(p).InSection() && s.At(q).InSection();
      }
    }
  }

  lemma {:induction false} CallsWithOneKeyTakeTurns(s: State, steps: seq<Step>, location: string, t: State)
    requires OneAtATime(s) && Runs(s, steps, location, t)
    ensures OneAtATime(t)
    decreases |steps|
  {
    if steps != [] {
      StepKeepsTurns(s, steps[0], location);
      CallsWithOneKeyTakeTurns(Apply(s, steps[0], location), steps[1..], location, t);
    }
  }
}
