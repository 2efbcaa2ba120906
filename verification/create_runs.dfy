/** Several CreateVolume calls, one after the other: which containers exist in the end, and which volume IDs come out. */
module CreateRuns {
  import opened AzcopyFilter
  import opened AzcopyJobs
  import opened ContainerName
  import opened Provisioning
  import opened VolumeId
  import opened Wrappers
  import Credentials
  import Text

  /** A finished call, with everything it met. */
  datatype Step = Step(env: Environment, req: Request, call: Call)
  {
    ghost predicate IsOk() {
      env.IsSound() && CallOk(env, req, call)
    }

    function Container(): Ref {
      Target(env, req)
    }

    predicate HasContainer() {
      GetsContainer(env, req)
    }

    /** What the call does to a container. It loses its own when it failed to clone into it and deleted it. */
    function FateOf(c: Ref): Fate {
      if !HasContainer() || Container() != c then Untouched
      else if !Cloned(req, call.tries) && Deletes(env, call.at, req) then Lost
      else Ensured
    }
  }

  datatype Fate = Ensured | Lost | Untouched

  /** The containers after the calls. */
  function Final(existing: set<Ref>, steps: seq<Step>): set<Ref> {
    if steps == [] then existing else Existing(Final(existing, steps[..|steps| - 1]), steps[|steps| - 1].call.trace)
  }

  /** A call touches no other container, and takes its own away exactly when it loses it. */
  lemma StepEffect(existing: set<Ref>, step: Step, c: Ref)
    requires step.IsOk()
    ensures c in Existing(existing, step.call.trace) <==> step.FateOf(c).Ensured? || (c in existing && !step.FateOf(c).Lost?)
  {
  }

  // ---------------------------------------------------------------- one call

  /** A failed call leaves its container behind exactly when the clone succeeded and the key could not be stored, or the
      clone failed and the container was the user's, was not surely without a job, or could not be deleted. */
  lemma LeftBehindExactly(step: Step)
    requires step.IsOk()
    ensures step.call.out.Failed? && step.Container() in Existing({}, step.call.trace) <==>
            step.HasContainer()
            && if Cloned(step.req, step.call.tries) then !KeyStored(step.env, step.call.at, step.req)
               else !Deletes(step.env, step.call.at, step.req)
  {
    StepEffect({}, step, step.Container());
  }

  /** One environment in which the driver leaves a container of its own naming behind. */
  method KeyFailureLeavesContainer(account: string, container: string) returns (step: Step)
    requires container != ""
    ensures step.IsOk() && step.req.OwnsContainer() && step.call.out.Failed? && step.call.out.stage.StoredKey?
    ensures Final({}, [step]) == {Ref(account, container)}
  {
    var env := Quiet(None).(storeKey := (n: nat) => Some("no permission to store secrets"));
    var req := Request("v", "", container, account, "key", false, false, true, "g", "", "", None);
    step := MakeCall(env, req);
    assert !KeyStored(step.env, step.call.at, req);
    OneEnsured(step);
  }

  lemma OneEnsured(step: Step)
    requires step.IsOk() && step.FateOf(step.Container()).Ensured?
    ensures Final({}, [step]) == {step.Container()}
  {
    FinalSnoc({}, [], step);
    assert [] + [step] == [step];
    assert Existing({}, step.call.trace) == {} + {step.Container()};
  }

  /** An environment in which everything works, but for copies as given, and the account's key, which cannot be had. */
  function Quiet(copied: Option<string>): Environment {
    Environment(
      (n: nat) => JobReport(NotFound, "", false), (n: nat) => Ended(copied), (n: nat) => Ok(Credentials.Auth("?sv", [])),
      (n: nat) => Err("no key"), (n: nat) => None, (n: nat) => None, (n: nat) => None, 1)
  }

  method MakeCall(env: Environment, req: Request) returns (step: Step)
    requires env.IsSound()
    ensures step.IsOk() && step.req == req && step.env == env
  {
    var call := Provision(env, req);
    step := Step(env, req, call);
  }

  // ---------------------------------------------------------------- many calls

  lemma FinalSnoc(existing: set<Ref>, steps: seq<Step>, step: Step)
    ensures Final(existing, steps + [step]) == Existing(Final(existing, steps), step.call.trace)
  {
    assert (steps + [step])[..|steps|] == steps;
  }

  function Fates(steps: seq<Step>, c: Ref): (fates: seq<Fate>)
    ensures |fates| == |steps|
    ensures forall i :: 0 <= i < |steps| ==> fates[i] == steps[i].FateOf(c)
  {
    seq(|steps|, i requires 0 <= i < |steps| => steps[i].FateOf(c))
  }

  /** Whether a container is there after what the calls did to it. */
  predicate Survives(present: bool, fates: seq<Fate>) {
    if fates == [] then present
    else fates[|fates| - 1].Ensured? || (!fates[|fates| - 1].Lost? && Survives(present, fates[..|fates| - 1]))
  }

  lemma {:induction false} FinalSurvives(existing: set<Ref>, steps: seq<Step>, c: Ref)
    requires forall i :: 0 <= i < |steps| ==> steps[i].IsOk()
    ensures c in Final(existing, steps) <==> Survives(c in existing, Fates(steps, c))
    decreases |steps|
  {
    if steps != [] {
      var before := steps[..|steps| - 1];
      FinalSurvives(existing, before, c);
      StepEffect(Final(existing, before), steps[|steps| - 1], c);
      assert Fates(steps, c)[..|steps| - 1] == Fates(before, c);
    }
  }

  /** After the call at j some call loses the container, and no later one ensures it again. */
  ghost predicate IsLostAfter(fates: seq<Fate>, j: nat) {
    exists i :: j < i < |fates| && fates[i].Lost? && forall k :: i < k < |fates| ==> !fates[k].Ensured?
  }

  lemma {:induction false} SurvivesExactly(present: bool, fates: seq<Fate>, j: nat)
    requires j < |fates| && fates[j].Ensured?
    ensures !Survives(present, fates) <==> IsLostAfter(fates, j)
    decreases |fates|
  {
    var last := |fates| - 1;
    if j < last && fates[last].Untouched? {
      var before := fates[..last];
      SurvivesExactly(present, before, j);
      if IsLostAfter(before, j) {
        var i :| j < i < |before| && before[i].Lost? && forall k :: i < k < |before| ==> !before[k].Ensured?;
        assert fates[i].Lost? && forall k :: i < k < last ==> before[k] == fates[k];
      }
      if IsLostAfter(fates, j) {
        var i :| j < i < |fates| && fates[i].Lost? && forall k :: i < k < |fates| ==> !fates[k].Ensured?;
        assert before[i].Lost? && forall k :: i < k < last ==> before[k] == fates[k];
      }
    }
  }

  /** A container that some call reported as a volume is gone after the run exactly when a later call for the same
      container failed to clone into it, saw no job, and deleted it, and no call after that ensured it again. */
  lemma ReportedIsLostExactly(existing: set<Ref>, steps: seq<Step>, j: nat)
    requires forall i :: 0 <= i < |steps| ==> steps[i].IsOk()
    requires j < |steps| && steps[j].call.out.Created?
    ensures var c := steps[j].Container(); c !in Final(existing, steps) <==> IsLostAfter(Fates(steps, c), j)
  {
    var c := steps[j].Container();
    CreatedEnsures(steps[j]);
    FinalSurvives(existing, steps, c);
    SurvivesExactly(c in existing, Fates(steps, c), j);
  }

  lemma CreatedEnsures(step: Step)
    requires step.IsOk() && step.call.out.Created?
    ensures step.FateOf(step.Container()).Ensured?
  {
  }

  /** A clone request within one account, with the account's key in its secrets. */
  function CloneRequest(account: string, container: string, source: string): Request {
    Request("v", "", container, account, "key", true, false, false, "g", "", "", Some(source))
  }

  /** Its only try: question 2 asks for the job. */
  function OnlyJob(account: string, container: string, source: string): CopyJob {
    CopyJob(source, account, container, "?sv")
  }

  /** The volume ID of a container in the account. */
  predicate IsSource(source: string, account: string) {
    Decode(source).Ok? && Decode(source).value.account == account && account != "" && Decode(source).value.container != ""
  }

  function SourceOf(account: string, cloned: string): string {
    Encode(Fields6("g", account, cloned, "", "", ""))
  }

  lemma SourceIsSource(account: string, cloned: string)
    requires account != "" && cloned != "" && '#' !in account && '#' !in cloned
    ensures IsSource(SourceOf(account, cloned), account)
  {
    DecodesAccountAndContainer(Fields6("g", account, cloned, "", "", ""));
  }

  /** The same, while the job's state is reported one way up to a question, and another way from then on. */
  function Seen(copied: Option<string>, until: nat, before: JobReport, after: JobReport): Environment {
    Quiet(copied).(jobs := (n: nat) => if n <= until then before else after)
  }

  method CloneOnce(
      account: string, container: string, source: string, copied: Option<string>, until: nat, before: JobReport, after: JobReport)
    returns (step: Step)
    requires container != "" && IsSource(source, account) && before.Consistent() && after.Consistent()
    ensures step.IsOk() && step.HasContainer() && step.Container() == Ref(account, container)
    ensures step.env == Seen(copied, until, before, after) && step.req == CloneRequest(account, container, source)
    ensures var tries := step.call.tries;
            && |tries| == 1 && tries[0].at == 2 && step.call.at == tries[0].next
            && tries[0].job == OnlyJob(account, container, source)
            && (step.call.out.Created? <==> CopySucceeds(step.env, 2, tries[0].job))
    ensures step.call.out.Failed? ==> step.call.out.stage.IsClone() && !Cloned(step.req, step.call.tries)
  {
    step := MakeCall(Seen(copied, until, before, after), CloneRequest(account, container, source));
    OnlyTry(step);
  }

  /** With a token at hand there is one try, which succeeds exactly when its copy does. */
  lemma OnlyTry(step: Step)
    requires step.IsOk() && step.HasContainer() && step.req.source.Some? && !step.req.AsksKeyFirst()
    requires step.env.auth(1) == Ok(Credentials.Auth("?sv", []))
    ensures var tries, job := step.call.tries, OnlyJob(step.req.account, step.req.container, step.req.source.value);
            && |tries| == 1 && tries[0].at == 2 && tries[0].job == job && step.call.at == tries[0].next
            && (Cloned(step.req, tries) <==> CopySucceeds(step.env, 2, job))
  {
    var tries := step.call.tries;
    assert tries != [] && !IsRefused(tries[0]);
    assert |tries| == 1;
  }

  const NONE := JobReport(NotFound, "", false)

  /** The same request, made again after it succeeded, can delete the volume that it reported: the job of the first copy
      is no longer listed, and the second copy fails. */
  method RepeatedCallLosesVolume(account: string, container: string, cloned: string) returns (first: Step, second: Step)
    requires container != "" && account != "" && cloned != "" && '#' !in account && '#' !in cloned
    ensures first.IsOk() && second.IsOk() && first.req == second.req && first.Container() == second.Container()
    ensures first.call.out.Created? && second.call.out.Failed?
    ensures first.Container() in Final({}, [first]) && first.Container() !in Final({}, [first, second])
  {
    SourceIsSource(account, cloned);
    var source := SourceOf(account, cloned);
    first := CloneOnce(account, container, source, None, 0, NONE, NONE);
    second := CloneOnce(account, container, source, Some("copy failed"), 0, NONE, NONE);
    EnsuredThenLost(first, second);
  }

  lemma EnsuredThenLost(first: Step, second: Step)
    requires first.IsOk() && second.IsOk() && first.FateOf(first.Container()).Ensured? && second.FateOf(first.Container()).Lost?
    ensures first.Container() in Final({}, [first]) && first.Container() !in Final({}, [first, second])
  {
    var c := first.Container();
    FinalSurvives({}, [first], c);
    FinalSurvives({}, [first, second], c);
    assert Fates([first, second], c)[1].Lost?;
  }

  // ---------------------------------------------------------------- volumes that nothing was copied to

  /** The call asked nothing after its first look at the job: it neither started a copy nor waited for one. */
  predicate CopiesNothing(step: Step)
    requires step.call.tries != []
  {
    var last := step.call.tries[|step.call.tries| - 1];
    last.next == last.job.FirstLook(last.at) + 1
  }

  /** A clone is reported with nothing copied in this call exactly when its first look shows a finished job. */
  lemma CopiesNothingExactly(step: Step)
    requires step.IsOk() && step.req.source.Some? && step.call.out.Created?
    ensures step.call.tries != []
    ensures var last := step.call.tries[|step.call.tries| - 1];
            CopiesNothing(step) <==> step.env.jobs(last.job.FirstLook(last.at)).state.IsCompleted()
  {
    var last := step.call.tries[|step.call.tries| - 1];
    OneQuestionExactly(step.env, last.at, last.job, last.next);
  }

  lemma OneQuestionExactly(env: Environment, at: nat, c: CopyJob, next: nat)
    requires env.IsSound() && CopySucceeds(env, at, c) && EndsAt(env, at, c, next)
    ensures next == c.FirstLook(at) + 1 <==> env.jobs(c.FirstLook(at)).state.IsCompleted()
  {
  }

  /** Where a finished job is reported at once, the call reports the volume with nothing copied. */
  method FinishedJobMakesVolume(
      account: string, container: string, cloned: string, copied: Option<string>, report: JobReport)
    returns (step: Step)
    requires container != "" && account != "" && cloned != "" && '#' !in account && '#' !in cloned
    requires report.state.IsCompleted() && report.Consistent()
    ensures step.IsOk() && step.Container() == Ref(account, container) && step.env == Seen(copied, 0, report, report)
    ensures step.req == CloneRequest(account, container, SourceOf(account, cloned))
    ensures step.call.out.Created? && step.call.tries != [] && CopiesNothing(step)
  {
    SourceIsSource(account, cloned);
    step := CloneOnce(account, container, SourceOf(account, cloned), copied, 0, report, report);
    CopiesNothingExactly(step);
  }

  /** That is what is reported where the only job that mentions the container is a finished one for another, whose name
      contains this one's, and the container has no job of its own: an empty volume. */
  lemma ForeignJobIsReported(j: Job, container: string, other: string, show: CommandResult)
    requires Printable(j) && j.id != "" && IsFinished(j) && Text.Contains(j.command, other) && Text.Contains(other, container)
    ensures var r := GetAzcopyJob(CommandResult(Listing(Matched([j], container)), None), show);
            r.state.IsCompleted() && r.Consistent()
    ensures State(Select([j], (k: Job) => false)).NotFound?
  {
    ForeignJobDecides(j, container, other);
    CompletedReport(CommandResult(Listing(Matched([j], container)), None), show);
  }

  /** Where a copy fails and leaves a finished job behind, with errors, the roll-back keeps the container. */
  method FailedCopyIsKept(account: string, container: string, cloned: string, left: JobReport) returns (step: Step)
    requires container != "" && account != "" && cloned != "" && '#' !in account && '#' !in cloned
    requires left.state.IsCompleted() && left.Consistent()
    ensures step.IsOk() && step.Container() == Ref(account, container) && step.env == Seen(Some("copy failed"), 2, NONE, left)
    ensures step.req == CloneRequest(account, container, SourceOf(account, cloned))
    ensures step.call.out.Failed? && step.call.out.stage.IsClone() && Final({}, [step]) == {step.Container()}
  {
    SourceIsSource(account, cloned);
    step := CloneOnce(account, container, SourceOf(account, cloned), Some("copy failed"), 2, NONE, left);
    OneEnsured(step);
  }

  /** The same request, made again, then reports the volume with nothing more copied. */
  method RetryReportsFailedCopy(account: string, container: string, cloned: string, left: JobReport)
    returns (first: Step, second: Step)
    requires container != "" && account != "" && cloned != "" && '#' !in account && '#' !in cloned
    requires left.state.IsCompleted() && left.Consistent()
    ensures first.IsOk() && second.IsOk() && first.req == second.req && first.Container() == second.Container()
    ensures first.call.out.Failed? && first.call.out.stage.IsClone() && Final({}, [first]) == {first.Container()}
    ensures second.call.out.Created? && second.call.tries != [] && CopiesNothing(second)
  {
    first := FailedCopyIsKept(account, container, cloned, left);
    second := FinishedJobMakesVolume(account, container, cloned, Some("copy failed"), left);
  }

  /** A failed clone of the driver's own container is kept for a retry that reports it with nothing copied, exactly where
      the roll-back cannot delete and the retry finds a finished job. */
  lemma RetryTakesOverExactly(first: Step, second: Step)
    requires first.IsOk() && second.IsOk() && first.Container() == second.Container()
    requires first.call.out.Failed? && first.call.out.stage.IsClone()
    requires second.req.source.Some? && second.call.out.Created?
    ensures second.call.tries != []
    ensures var last := second.call.tries[|second.call.tries| - 1];
            first.Container() in Final({}, [first]) && CopiesNothing(second) <==>
            && !Deletes(first.env, first.call.at, first.req)
            && second.env.jobs(last.job.FirstLook(last.at)).state.IsCompleted()
  {
    FinalSnoc({}, [], first);
    assert [] + [first] == [first];
    StepEffect({}, first, first.Container());
    CopiesNothingExactly(second);
  }

  // ---------------------------------------------------------------- a cancelled copy

  /** While a call waits for a running job, the job vanishes from the listing; the call reports the volume, and no completion
      was seen. */
  method VanishedJobIsReported(account: string, container: string, cloned: string, running: JobReport) returns (step: Step)
    requires container != "" && account != "" && cloned != "" && '#' !in account && '#' !in cloned
    requires running.state.Running? && running.Consistent()
    ensures step.IsOk() && step.env == Seen(None, 2, running, NONE)
    ensures step.call.out.Created? && step.call.tries != []
    ensures !CompletionSeen(step.env, step.call.tries[0].at, step.call.tries[0].job)
  {
    SourceIsSource(account, cloned);
    var source := SourceOf(account, cloned);
    step := CloneOnce(account, container, source, None, 2, running, NONE);
    VanishedCounts(step.env, 2, step.call.tries[0].job);
  }

  lemma VanishedCounts(env: Environment, at: nat, c: CopyJob)
    requires env.IsSound() && c.NamesPresent() && !c.NeedsSourceToken() && env.polls > 0
    requires env.jobs(at).state.Running? && env.jobs(at + 1).state.NotFound?
    ensures CopySucceeds(env, at, c) && !CompletionSeen(env, at, c)
  {
    assert EndsWait(env, at, at + 1);
    SuccessWithoutCompletionExactly(env, at, c);
  }

  /** azcopy's progress of a job. */
  function Progress(name: string, value: string): CommandResult {
    CommandResult(name + FIELD_MARK + value, None)
  }

  /** That is how a job is reported before and after it is cancelled: one job, listed first as in progress, then as cancelled. */
  lemma CancellationIsReported(running: Job, cancelled: Job, name: string, value: string)
    requires Printable(running) && running.id != "" && IsInProgress(running)
    requires Printable(cancelled) && StatusRecord(cancelled.status, cancelled.id).Other?
    requires ':' !in name && '\n' !in name && ':' !in value && '\n' !in value
    ensures GetAzcopyJob(CommandResult(Listing([running]), None), Progress(name, value)).state.Running?
    ensures GetAzcopyJob(CommandResult(Listing([cancelled]), None), Progress(name, value)) == NONE
  {
    assert running in [running];
    StateExactly([running]);
    NoColonNoMark(value);
    FieldLine(name, value);
    RunningReport(CommandResult(Listing([running]), None), Progress(name, value));
    CancelledReadsAsNotFound([cancelled]);
    NotFoundReport(CommandResult(Listing([cancelled]), None), Progress(name, value));
  }

  lemma WordsOfRunning()
    ensures IsPlainWord("1") && IsPlainWord("") && IsPlainWord("InProgress") && StatusRecord("InProgress", "1").InProgress?
  {
  }

  lemma WordsOfCancelled()
    ensures IsPlainWord("1") && IsPlainWord("") && IsPlainWord("Cancelled") && StatusRecord("Cancelled", "1").Other?
  {
    CancelledIsOther("1");
  }

  /** There are such jobs for every command without the letter J, as all lower-case ones are. */
  lemma RunningJob(command: string) returns (j: Job)
    requires 'J' !in command
    ensures Printable(j) && j.id != "" && j.command == command && IsInProgress(j)
  {
    WordsOfRunning();
    j := Job("1", "", "InProgress", command);
    PlainIsPrintable(j);
  }

  lemma CancelledJob(command: string) returns (j: Job)
    requires 'J' !in command
    ensures Printable(j) && j.id != "" && j.command == command && j.status == "Cancelled" && StatusRecord(j.status, j.id).Other?
  {
    WordsOfCancelled();
    j := Job("1", "", "Cancelled", command);
    PlainIsPrintable(j);
  }

  // ---------------------------------------------------------------- the volume IDs of two calls

  /** The request names its container as the source does: the user's, or one made of the volume's name, with a prefix if
      there is one, and a UUID. */
  predicate NamesContainer(req: Request, prefix: string, protocol: string, uuid: string) {
    if req.OwnsContainer() then
      req.volName != "" && IsSupportedProtocol(protocol) && IsUuid(uuid)
      && req.container == GetValidContainerName(Prefixed(prefix, req.volName), protocol, uuid)
    else req.container == req.containerName
  }

  function Prefixed(prefix: string, volName: string): (name: string)
    ensures volName != "" ==> name != ""
  {
    if prefix == "" then volName else prefix + "-" + volName
  }

  /** The same parameters; the account, its key and the container's name were chosen anew. */
  predicate SameRequest(a: Request, b: Request) {
    b == a.(account := b.account, accountKey := b.accountKey, container := b.container)
  }

  /** Two successful calls for one request return the same ID exactly when they came to the same account, and the name of
      the container did not have to be replaced, or was by the same UUID. */
  lemma SameIdExactly(first: Step, second: Step, prefix: string, protocol: string, uuid: string, other: string)
    requires first.IsOk() && second.IsOk() && first.call.out.Created? && second.call.out.Created?
    requires SameRequest(first.req, second.req)
    requires first.req.volName != ""
    requires NamesContainer(first.req, prefix, protocol, uuid) && NamesContainer(second.req, prefix, protocol, other)
    requires VolumeFields(first.req, first.call.out.account).HashFree()
    requires VolumeFields(second.req, second.call.out.account).HashFree()
    ensures first.call.out.volumeID == second.call.out.volumeID <==>
            && first.call.out.account == second.call.out.account
            && (first.req.OwnsContainer() && IsRegenerated(Prefixed(prefix, first.req.volName)) ==> uuid == other)
  {
    if first.req.OwnsContainer() {
      ContainerNameValidExactly(Prefixed(prefix, first.req.volName), protocol, uuid, other);
    }
    if first.call.out.volumeID == second.call.out.volumeID {
      EncodeInjective(VolumeFields(first.req, first.call.out.account), VolumeFields(second.req, second.call.out.account));
    }
  }

  // ---------------------------------------------------------------- the parts of a volume ID

  predicate IsMarkFree(s: string) {
    '#' !in s
  }

  /** No part of the ID holds a mark. */
  predicate IsUnmarked(req: Request, account: string) {
    && IsMarkFree(req.resourceGroup) && IsMarkFree(account) && IsMarkFree(req.container) && IsMarkFree(req.volName)
    && IsMarkFree(req.namespace) && IsMarkFree(req.subscription)
  }

  /** What the ID of a volume consists of. The name of the volume is part of it where the user named the container. */
  lemma CreatedIdParts(step: Step)
    requires step.IsOk() && step.call.out.Created? && IsUnmarked(step.req, step.call.out.account)
    ensures Text.Split(step.call.out.volumeID, "#") ==
            [step.req.resourceGroup, step.call.out.account, step.req.container,
             if step.req.containerName == "" then "" else step.req.volName, step.req.namespace, step.req.subscription]
  {
    SplitSix(VolumeFields(step.req, step.call.out.account));
  }

  /** Volumes with different names never get the same ID for sharing a container that the user named. */
  lemma SharedContainerDiffers(first: Step, second: Step)
    requires first.IsOk() && second.IsOk() && first.call.out.Created? && second.call.out.Created?
    requires IsUnmarked(first.req, first.call.out.account) && IsUnmarked(second.req, second.call.out.account)
    requires first.req.containerName != "" && second.req.containerName != "" && first.req.volName != second.req.volName
    ensures first.call.out.volumeID != second.call.out.volumeID
  {
    CreatedIdParts(first);
    CreatedIdParts(second);
    assert Text.Split(first.call.out.volumeID, "#")[3] != Text.Split(second.call.out.volumeID, "#")[3];
  }

  // ---------------------------------------------------------------- the whole call, in plain words

  /** A volume that is reported had its container ensured, its source copied if there is one, and its key stored if that was
      asked for. */
  lemma CreatedMeans(step: Step)
    requires step.IsOk() && step.call.out.Created?
    ensures step.req.container != "" && (step.env.createContainer(0).None? || step.env.createContainer(1).None?)
    ensures step.req.source.Some? ==>
              exists try :: try in step.call.tries && try.err.None? && try.job.sourceID == step.req.source.value
                            && try.job.dstContainer == step.req.container && CopySucceeds(step.env, try.at, try.job)
    ensures step.req.storeAccountKey && !step.req.hasSecrets ==>
              step.env.storeKey(step.call.at).None? || step.env.storeKey(step.call.at + 1).None?
    ensures step.req.containerName == "" || !IsRolledBack(step.call.trace)
  {
    if step.req.source.Some? {
      var try := step.call.tries[|step.call.tries| - 1];
      assert try in step.call.tries && try.err.None?;
    }
  }

  /** The other way: where every answer is good, every copy ends well, and no job is known yet, the volume is reported. */
  lemma WorksIfAllWorks(step: Step)
    requires step.IsOk() && step.req.container != ""
    requires forall n: nat :: step.env.createContainer(n).None? && step.env.storeKey(n).None?
    requires forall n: nat :: step.env.auth(n).Ok? && step.env.accountKey(n).Ok?
    requires forall n: nat :: step.env.jobs(n).state.NotFound? && step.env.copy(n) == Ended(None)
    requires step.req.source.Some? ==>
               Decode(step.req.source.value).Ok? && Decode(step.req.source.value).value.account != ""
               && Decode(step.req.source.value).value.container != ""
    ensures step.call.out.Created?
  {
    if step.req.source.Some? {
      var try := step.call.tries[|step.call.tries| - 1];
      assert CopySucceeds(step.env, try.at, try.job);
    }
  }

  /** Only a container that the user did not name is ever deleted, and only after a look that found no job. */
  lemma DeletionMeans(step: Step, i: nat)
    requires step.IsOk() && i < |step.call.trace| && step.call.trace[i].DeletionIssued?
    ensures step.req.containerName == "" && step.call.trace[i].container.name == step.req.container
    ensures i > 0 && step.call.trace[i - 1].JobSeen? && step.call.trace[i - 1].report.state == NotFound
    ensures step.call.out.Failed?
  {
    assert IsRolledBack(step.call.trace);
  }

  /** A second try is made exactly when the first ran without a token and failed with this word in its message. */
  lemma RefusalMeans(t: Try)
    ensures IsRefused(t) <==>
            t.job.dstToken == "" && t.err.Some? && Text.Contains(t.err.value, "AuthorizationPermissionMismatch")
  {
  }
}
