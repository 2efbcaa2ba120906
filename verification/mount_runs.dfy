/** Runs of the node's calls, of dying fuse processes, and of mount calls that end behind the back of other calls: those
    that the driver stopped waiting for, and those of a publish that others overtook after it had looked at its target. */
module MountRuns {
  import opened Wrappers
  import opened MountTable

  datatype Step =
    | Stage(target: Path, nfs: bool, stage: StageSights)
    | Publish(source: Path, target: Path, publish: PublishSights)
    | Overtaken(target: Path, ensure: Sights)
    | Clean(target: Path, clean: CleanSights)
    | Dies(process: Process)
    | Arrives(target: Path, bound: Option<Path>)
    | Fails(target: Path)

  /** The answers are true, and only pending mount calls end later: that of a volume in a process of its own, that of a
      publish as a bind mount of its source. */
  ghost predicate Enabled(w: World, step: Step) {
    match step
    case Stage(p, nfs, s) => StageTrue(w, p, nfs, s)
    case Publish(_, p, s) => s.ensure.True(w, p)
    case Clean(p, s) => IsTrue(s.path, w, p)
    case Overtaken(p, s) => s.True(w, p)
    case Dies(q) => q < w.started
    case Arrives(p, _) => p in w.pending
    case Fails(p) => p in w.pending
  }

  /** The first half of a publish: its mount call is still to come. */
  function Overtake(w: World, target: Path, s: Sights): World {
    var ready := EnsureWorld(w, target, false, s);
    if EnsureOk(w, target, false, s) && !w.Mounted(target) then ready.Await(target) else ready
  }

  function Next(w: World, step: Step): World {
    match step
    case Stage(p, nfs, s) => StageWorld(w, p, nfs, s)
    case Publish(source, p, s) => PublishWorld(w, source, p, s)
    case Overtaken(p, s) => Overtake(w, p, s)
    case Clean(p, s) => CleanWorld(w, p, s)
    case Dies(q) => w.(dead := w.dead + {q})
    case Arrives(p, source) =>
      var arrived := if source.Some? then w.Bind(source.value, p) else w.Serve(p, true);
      arrived.(pending := w.pending - multiset{p})
    case Fails(p) => w.(pending := w.pending - multiset{p})
  }

  ghost predicate Runs(w: World, steps: seq<Step>, t: World)
    decreases |steps|
  {
    if steps == [] then w == t else Enabled(w, steps[0]) && Runs(Next(w, steps[0]), steps[1..], t)
  }

  /** How often a late mount arrives at a path in a run. */
  function Arrivals(steps: seq<Step>, p: Path): nat {
    if steps == [] then 0
    else (if steps[0].Arrives? && steps[0].target == p then 1 else 0) + Arrivals(steps[1..], p)
  }

  /** How often a mount call at a path is left behind in a run. */
  function GivenUp(w: World, steps: seq<Step>, p: Path): nat
    decreases |steps|
  {
    if steps == [] then 0
    else
      var t := Next(w, steps[0]);
      (if t.pending[p] > w.pending[p] then t.pending[p] - w.pending[p] else 0) + GivenUp(t, steps[1..], p)
  }

  function Max(a: nat, b: nat): nat {
    if a < b then b else a
  }

  /** A single step raises the stack of a path only from nothing to one mount, unless a late mount arrives. */
  lemma StepHeight(w: World, step: Step, p: Path)
    requires Enabled(w, step)
    ensures |Next(w, step).At(p)| <= Max(|w.At(p)|, 1) + Arrivals([step], p)
  {
    match step {
      case Stage(target, nfs, s) => StageTouches(w, target, nfs, s);
      case Publish(source, target, s) => PublishMeans(w, source, target, s);
      case Clean(target, s) => CleanMeans(w, target, s);
      case Overtaken(target, s) => EnsureMeans(w, target, false, s);
      case _ =>
    }
  }

  lemma {:induction false} RunHeight(w: World, steps: seq<Step>, t: World, p: Path)
    requires Runs(w, steps, t)
    ensures |t.At(p)| <= Max(|w.At(p)|, 1) + Arrivals(steps, p)
    decreases |steps|
  {
    if steps != [] {
      StepHeight(w, steps[0], p);
      RunHeight(Next(w, steps[0]), steps[1..], t, p);
      assert Arrivals([steps[0]], p) + Arrivals(steps[1..], p) == Arrivals(steps, p);
    }
  }

  /** Over every run from an empty table, a path carries at most one mount, plus the late ones. */
  lemma AtMostOneMount(steps: seq<Step>, t: World, p: Path)
    requires Runs(EMPTY, steps, t)
    ensures |t.At(p)| <= 1 + Arrivals(steps, p)
  {
    RunHeight(EMPTY, steps, t, p);
  }

  /** Late mounts arrive at most as often as mount calls were left behind. */
  lemma StepLate(w: World, step: Step, p: Path)
    requires Enabled(w, step)
    ensures Next(w, step).pending[p] + Arrivals([step], p) <= w.pending[p] + GivenUp(w, [step], p)
  {
  }

  lemma {:induction false} ArrivalsWereGivenUp(w: World, steps: seq<Step>, t: World, p: Path)
    requires Runs(w, steps, t)
    ensures t.pending[p] + Arrivals(steps, p) <= w.pending[p] + GivenUp(w, steps, p)
    decreases |steps|
  {
    if steps != [] {
      StepLate(w, steps[0], p);
      ArrivalsWereGivenUp(Next(w, steps[0]), steps[1..], t, p);
      assert Arrivals([steps[0]], p) + Arrivals(steps[1..], p) == Arrivals(steps, p);
      assert GivenUp(Next(w, steps[0]), [], p) == 0;
      assert [steps[0]][1..] == [];
      assert GivenUp(w, [steps[0]], p) + GivenUp(Next(w, steps[0]), steps[1..], p) == GivenUp(w, steps, p);
    }
  }

  /** Without a mount call that was left behind there is never more than one mount on a path. */
  lemma OneMountUnlessGivenUp(steps: seq<Step>, t: World, p: Path)
    requires Runs(EMPTY, steps, t) && GivenUp(EMPTY, steps, p) == 0
    ensures |t.At(p)| <= 1
  {
    AtMostOneMount(steps, t, p);
    ArrivalsWereGivenUp(EMPTY, steps, t, p);
  }

  /** With one, a retry of the same stage call stacks a second mount. */
  lemma RetryStacksSecondMount(p: Path) returns (steps: seq<Step>, t: World)
    ensures Runs(EMPTY, steps, t) && |steps| == 3 && |t.At(p)| == 2
    ensures steps[0].Stage? && steps[1].Stage? && steps[0].target == p && steps[1].target == p
  {
    var w := EMPTY;
    var sights := Sights(Missing, Some([]), true, false, false, true);
    var first := StageSights(false, sights, true, Hangs, false, false, LooksUnmounted, false, LooksUnmounted, false);
    var second := first.(end := Mounts, settled := true);
    var w1 := Next(w, Stage(p, true, first));
    var w2 := Next(w1, Stage(p, true, second.(ensure := sights.(look := LooksUnmounted))));
    t := Next(w2, Arrives(p, None));
    steps := [Stage(p, true, first), Stage(p, true, second.(ensure := sights.(look := LooksUnmounted))), Arrives(p, None)];
    assert w1.At(p) == [] && p in w1.pending;
    assert |w2.At(p)| == 1 && p in w2.pending;
    assert Runs(w2, [Arrives(p, None)], t) by { assert [Arrives(p, None)][1..] == []; assert Runs(t, [], t); }
    assert steps[1..][1..] == [Arrives(p, None)];
    assert Runs(w1, steps[1..], t);
  }

  /** Two publishes of one target, which the driver does not keep apart, can both find it unmounted and both mount. */
  lemma OverlappingPublishesStack(p: Path) returns (steps: seq<Step>, t: World)
    ensures Runs(EMPTY, steps, t) && |steps| == 3 && |t.At(p)| == 2
    ensures steps[0].Overtaken? && steps[1].Publish? && steps[0].target == p && steps[1].target == p
  {
    var w := EMPTY;
    var sights := Sights(Missing, Some([]), true, false, false, true);
    var second := PublishSights(sights.(look := LooksUnmounted), true, false);
    var w1 := Next(w, Overtaken(p, sights));
    var w2 := Next(w1, Publish("", p, second));
    t := Next(w2, Arrives(p, None));
    steps := [Overtaken(p, sights), Publish("", p, second), Arrives(p, None)];
    assert w1.At(p) == [] && p in w1.pending && |w2.At(p)| == 1 && p in w2.pending;
    assert Runs(w2, [Arrives(p, None)], t) by { assert [Arrives(p, None)][1..] == []; assert Runs(t, [], t); }
    assert steps[1..][1..] == [Arrives(p, None)];
    assert Runs(w1, steps[1..], t);
  }

  /** Some run that leaves no further mount call at the path behind ends with two mounts there. */
  ghost predicate CanStack(w: World, p: Path) {
    exists steps, t :: Runs(w, steps, t) && GivenUp(w, steps, p) == 0 && |t.At(p)| >= 2
  }

  /** From a path with at most one mount, a second one can come up exactly when a mount call is pending there. */
  lemma SecondMountExactly(w: World, p: Path)
    requires |w.At(p)| <= 1
    ensures CanStack(w, p) <==> p in w.pending
  {
    if p in w.pending {
      if w.Mounted(p) {
        StackedByArrival(w, p);
      } else {
        StackedByPublish(w, p);
      }
    } else {
      forall steps, t | Runs(w, steps, t) && GivenUp(w, steps, p) == 0 ensures |t.At(p)| <= 1 {
        ArrivalsWereGivenUp(w, steps, t, p);
        RunHeight(w, steps, t, p);
      }
    }
  }

  lemma StackedByArrival(w: World, p: Path)
    requires w.Mounted(p) && p in w.pending
    ensures CanStack(w, p)
  {
    var t := Next(w, Arrives(p, None));
    var steps := [Arrives(p, None)];
    assert steps[1..] == [];
    assert Runs(t, [], t) && Runs(w, steps, t);
    assert GivenUp(t, [], p) == 0 && GivenUp(w, steps, p) == 0;
  }

  lemma StackedByPublish(w: World, p: Path)
    requires !w.Mounted(p) && p in w.pending
    ensures CanStack(w, p)
  {
    var mounted := MountList(w, w.mounts.Keys);
    var s := PublishSights(Sights(LooksUnmounted, Some(mounted), true, false, false, true), true, false);
    var u := Next(w, Publish("", p, s));
    var t := Next(u, Arrives(p, None));
    var last := [Arrives(p, None)];
    var steps := [Publish("", p, s)] + last;
    assert |u.At(p)| == 1 && u.pending == w.pending;
    assert last[1..] == [] && steps[1..] == last;
    assert Runs(t, [], t) && Runs(u, last, t) && Runs(w, steps, t);
    assert GivenUp(t, [], p) == 0 && GivenUp(u, last, p) == 0 && GivenUp(w, steps, p) == 0;
  }

  lemma MountList(w: World, paths: set<Path>) returns (listing: seq<Path>)
    ensures forall p :: p in listing <==> p in paths && w.Mounted(p)
  {
    if paths == {} {
      listing := [];
    } else {
      var q :| q in paths;
      listing := MountList(w, paths - {q});
      if w.Mounted(q) {
        listing := listing + [q];
      }
    }
  }

  // ---------------------------------------------------------------- what a run leaves of a mount

  /** The step may take a mount of the path away: a cleanup, or staging that found it broken. */
  predicate MayUnmount(step: Step, p: Path) {
    match step
    case Clean(target, _) => target == p
    case Stage(target, _, s) => target == p && !s.deferred && !s.ensure.probe
    case _ => false
  }

  /** As long as nobody cleans up or restages a path, its mounts stay in place: publishing never unmounts, whatever happens
      to the processes behind them. */
  lemma {:induction false} MountsStay(w: World, steps: seq<Step>, t: World, p: Path)
    requires Runs(w, steps, t) && forall i :: 0 <= i < |steps| ==> !MayUnmount(steps[i], p)
    ensures |w.At(p)| <= |t.At(p)|
    decreases |steps|
  {
    if steps != [] {
      StepStays(w, steps[0], p);
      assert forall i :: 0 <= i < |steps[1..]| ==> steps[1..][i] == steps[i + 1];
      MountsStay(Next(w, steps[0]), steps[1..], t, p);
    }
  }

  lemma StepStays(w: World, step: Step, p: Path)
    requires Enabled(w, step) && !MayUnmount(step, p)
    ensures |w.At(p)| <= |Next(w, step).At(p)|
  {
    match step {
      case Stage(target, nfs, s) =>
        StageTouches(w, target, nfs, s);
        if target == p {
          StageUnmountsExactly(w, target, nfs, s);
        }
      case Publish(source, target, s) => PublishMeans(w, source, target, s);
      case Clean(target, s) => CleanMeans(w, target, s);
      case _ =>
    }
  }

  // ---------------------------------------------------------------- health

  lemma StepStaysWell(w: World, step: Step)
    requires Enabled(w, step) && w.IsWell()
    ensures Next(w, step).IsWell()
  {
    match step {
      case Stage(target, nfs, s) => StageTouches(w, target, nfs, s);
      case Publish(source, target, s) => PublishStaysWell(w, source, target, s);
      case Overtaken(target, s) =>
        EnsureStaysWell(w, target, false, s);
        assert forall p :: Next(w, step).At(p) == EnsureWorld(w, target, false, s).At(p);
      case Clean(target, s) => CleanMeans(w, target, s);
      case Arrives(target, source) =>
        if source.Some? {
          BindStaysWell(w, source.value, target);
        } else {
          ServeStaysWell(w, target, true);
        }
        var arrived := if source.Some? then w.Bind(source.value, target) else w.Serve(target, true);
        assert forall p :: Next(w, step).At(p) == arrived.At(p);
      case _ =>
        assert forall p :: Next(w, step).At(p) == w.At(p);
    }
  }

  /** The step neither takes away what is mounted on the path nor mounts on top of it. */
  predicate IsQuiet(step: Step, p: Path) {
    !MayUnmount(step, p) && !(step.Arrives? && step.target == p)
  }

  /** Such a step leaves the mounts of the path alone, and kills only the process that it is about. */
  lemma StepIsQuiet(w: World, step: Step, p: Path)
    requires Enabled(w, step) && IsQuiet(step, p) && w.Mounted(p)
    ensures Next(w, step).At(p) == w.At(p) && w.started <= Next(w, step).started
    ensures forall q: Process :: q < w.started ==> (q in Next(w, step).dead <==> q in w.dead || step == Dies(q))
  {
    match step {
      case Stage(target, nfs, s) =>
        StageTouches(w, target, nfs, s);
      case Publish(source, target, s) => PublishMeans(w, source, target, s);
      case Overtaken(target, s) => EnsureMeans(w, target, false, s);
      case Clean(target, s) => CleanMeans(w, target, s);
      case _ =>
    }
  }

  /** The process behind the mount dies in the run. */
  predicate Killed(m: Mount, steps: seq<Step>) {
    m.process.Some? && Dies(m.process.value) in steps
  }

  /** As long as nobody cleans up, restages after a failed probe, or mounts on top, the mounts of a path stay, and the upper
      one is healthy exactly until its own process dies, whatever else is done to the volume it shows; and a dead one stays
      dead. */
  lemma {:induction false} HealthyUntilDies(w: World, steps: seq<Step>, t: World, p: Path)
    requires w.IsWell() && w.Mounted(p) && Runs(w, steps, t) && forall step :: step in steps ==> IsQuiet(step, p)
    ensures t.At(p) == w.At(p)
    ensures t.Healthy(p) <==> w.Healthy(p) && !Killed(w.Top(p), steps)
    decreases |steps|
  {
    if steps != [] {
      var u, rest := Next(w, steps[0]), steps[1..];
      assert steps == [steps[0]] + rest;
      assert w.Top(p) in w.At(p);
      StepStaysWell(w, steps[0]);
      StepIsQuiet(w, steps[0], p);
      HealthyUntilDies(u, rest, t, p);
    }
  }

  /** Repeating a stage call that is not deferred, with a probe that tells the truth, succeeds without changing anything
      exactly when the mount is there and healthy. */
  lemma RepeatedStageExactly(w: World, target: Path, nfs: bool, s: StageSights)
    requires w.IsWell() && StageTrue(w, target, nfs, s) && !s.deferred
    requires s.ensure.Readable() && (s.ensure.probe <==> w.Healthy(target))
    ensures StageOk(w, target, nfs, s) && StageWorld(w, target, nfs, s) == w <==> w.Healthy(target)
  {
    if StageOk(w, target, nfs, s) {
      StageMeans(w, target, nfs, s);
    }
  }

  /** Repeating a publish does so exactly when the target is mounted, healthy or not. */
  lemma RepeatedPublishExactly(w: World, source: Path, target: Path, s: PublishSights)
    requires s.ensure.True(w, target) && s.ensure.Readable()
    ensures PublishOk(w, target, s) && PublishWorld(w, source, target, s) == w <==> w.Mounted(target)
  {
    if PublishOk(w, target, s) {
      PublishMeans(w, source, target, s);
    }
  }

  /** A staged volume, through any such run: at its end it is healthy, and the call can be repeated without effect, exactly
      when the process behind the mount did not die. */
  lemma StagedUntilDies(
      w: World, target: Path, nfs: bool, s: StageSights, steps: seq<Step>, t: World, again: StageSights)
    requires w.IsWell() && StageTrue(w, target, nfs, s) && StageOk(w, target, nfs, s) && !s.deferred
    requires Runs(StageWorld(w, target, nfs, s), steps, t) && forall step :: step in steps ==> IsQuiet(step, target)
    requires StageTrue(t, target, nfs, again) && !again.deferred
    requires again.ensure.Readable() && (again.ensure.probe <==> t.Healthy(target))
    ensures StageWorld(w, target, nfs, s).Mounted(target)
    ensures var killed := Killed(StageWorld(w, target, nfs, s).Top(target), steps);
            && (t.Healthy(target) <==> !killed)
            && (StageOk(t, target, nfs, again) && StageWorld(t, target, nfs, again) == t <==> !killed)
  {
    StageMeans(w, target, nfs, s);
    StageTouches(w, target, nfs, s);
    HealthyUntilDies(StageWorld(w, target, nfs, s), steps, t, target);
    RunStaysWell(StageWorld(w, target, nfs, s), steps, t);
    RepeatedStageExactly(t, target, nfs, again);
  }

  lemma {:induction false} RunStaysWell(w: World, steps: seq<Step>, t: World)
    requires w.IsWell() && Runs(w, steps, t)
    ensures t.IsWell()
    decreases |steps|
  {
    if steps != [] {
      StepStaysWell(w, steps[0]);
      RunStaysWell(Next(w, steps[0]), steps[1..], t);
    }
  }

  /** A published volume, through any run that is quiet for the target: the call can be repeated without effect, and the
      target is healthy exactly when it was after the publish and the process behind it, the volume's own if it is new, did
      not die. */
  lemma PublishedUntilDies(
      w: World, source: Path, target: Path, s: PublishSights, steps: seq<Step>, t: World, again: PublishSights)
    requires w.IsWell() && s.ensure.True(w, target) && PublishOk(w, target, s)
    requires Runs(PublishWorld(w, source, target, s), steps, t) && forall step :: step in steps ==> IsQuiet(step, target)
    requires again.ensure.True(t, target) && again.ensure.Readable()
    ensures PublishOk(t, target, again) && PublishWorld(t, source, target, again) == t
    ensures var u := PublishWorld(w, source, target, s);
            && u.Mounted(target)
            && (t.Healthy(target) <==> u.Healthy(target) && !Killed(u.Top(target), steps))
            && (!w.Mounted(target) && w.Mounted(source) ==> u.Top(target) == w.Top(source))
  {
    PublishMeans(w, source, target, s);
    PublishStaysWell(w, source, target, s);
    if !w.Mounted(target) {
      PublishBinds(w, source, target, s);
    }
    HealthyUntilDies(PublishWorld(w, source, target, s), steps, t, target);
    RepeatedPublishExactly(t, source, target, again);
  }

  /** A staged volume and a target that was newly published from it die together, over every run that is quiet for both. */
  lemma VolumeAndTargetDieTogether(
      w: World, source: Path, target: Path, s: PublishSights, steps: seq<Step>, t: World)
    requires w.IsWell() && s.ensure.True(w, target) && PublishOk(w, target, s)
    requires source != target && w.Mounted(source) && !w.Mounted(target)
    requires Runs(PublishWorld(w, source, target, s), steps, t)
    requires forall step :: step in steps ==> IsQuiet(step, source) && IsQuiet(step, target)
    ensures t.Healthy(source) <==> t.Healthy(target)
    ensures t.Healthy(target) <==> w.Healthy(source) && !Killed(w.Top(source), steps)
  {
    var u := PublishWorld(w, source, target, s);
    PublishMeans(w, source, target, s);
    PublishStaysWell(w, source, target, s);
    PublishBinds(w, source, target, s);
    HealthyUntilDies(u, steps, t, source);
    HealthyUntilDies(u, steps, t, target);
  }

  /** Once its process died, a target is not healthy again in any run that is quiet for it: restaging the volume, or anything
      else that is done at other paths, does not revive it. */
  lemma RestagingDoesNotRevive(w: World, target: Path, steps: seq<Step>, t: World)
    requires w.IsWell() && w.Mounted(target) && !w.Healthy(target)
    requires Runs(w, steps, t) && forall step :: step in steps ==> IsQuiet(step, target)
    ensures t.Mounted(target) && !t.Healthy(target)
  {
    HealthyUntilDies(w, steps, t, target);
  }

  lemma Prepend(w: World, step: Step, rest: seq<Step>, t: World) returns (steps: seq<Step>)
    requires Enabled(w, step) && Runs(Next(w, step), rest, t)
    ensures Runs(w, steps, t) && steps == [step] + rest
  {
    steps := [step] + rest;
    assert steps[1..] == rest;
  }

  /** Staging over a dead mount unmounts it. */
  lemma StaleStage(w: World, target: Path) returns (step: Step)
    requires |w.At(target)| == 1 && !w.Healthy(target)
    ensures Enabled(w, step) && step.Stage? && step.target == target && !Next(w, step).Mounted(target)
  {
    var mounted := MountList(w, w.mounts.Keys);
    var sights := Sights(LooksMounted, Some(mounted), true, false, true, true);
    var s := StageSights(false, sights, true, Mounts, true, true, LooksUnmounted, false, LooksUnmounted, false);
    step := Stage(target, true, s);
  }

  /** Staging where nothing is mounted mounts. */
  lemma CleanStage(w: World, target: Path) returns (step: Step)
    requires w.IsWell() && !w.Mounted(target)
    ensures Enabled(w, step) && step.Stage? && step.target == target && Next(w, step).Healthy(target)
  {
    var mounted := MountList(w, w.mounts.Keys);
    var sights := Sights(LooksUnmounted, Some(mounted), true, false, true, true);
    var s := StageSights(false, sights, true, Mounts, true, true, LooksUnmounted, false, LooksUnmounted, false);
    step := Stage(target, true, s);
    StageMeans(w, target, true, s);
  }

  /** From every state with a volume and its target in one process there is such a run: the process dies, and the volume is
      staged again, twice, as the first call only unmounts; then it is healthy, and its target is dead. */
  lemma RestagedVolumeLeavesDeadTarget(w: World, source: Path, target: Path) returns (steps: seq<Step>, t: World)
    requires w.IsWell() && source != target && |w.At(source)| == 1 && w.Mounted(target)
    requires w.Top(source) == w.Top(target) && w.Top(source).process.Some?
    ensures Runs(w, steps, t) && t.Healthy(source) && t.Mounted(target) && !t.Healthy(target)
    ensures forall step :: step in steps ==> IsQuiet(step, target)
  {
    var dies := Dies(w.Top(source).process.value);
    assert w.Top(source) in w.At(source);
    var u := Next(w, dies);
    StepStaysWell(w, dies);
    var stale := StaleStage(u, source);
    var v := Next(u, stale);
    StepStaysWell(u, stale);
    var clean := CleanStage(v, source);
    t := Next(v, clean);
    assert Runs(t, [], t);
    steps := Prepend(v, clean, [], t);
    steps := Prepend(u, stale, steps, t);
    steps := Prepend(w, dies, steps, t);
    HealthyUntilDies(w, steps, t, target);
  }
}
