/** CreateVolume after the account is chosen: create the container, clone the source, roll back on failure. */
module Provisioning {
  import opened AzcopyJobs
  import opened VolumeId
  import opened Wrappers
  import Credentials
  import Text

  /** What the goroutine that runs `azcopy copy` and the timer make of one copy. */
  datatype CopyRun = Ended(err: Option<string>) | TimedOut

  /** Everything outside the driver, other requests included: the answer to each question depends in any way on the
      number of questions asked before it. A wait for a running job polls `polls` times before it times out. */
  datatype Environment = Environment(
    jobs: nat -> JobReport,
    copy: nat -> CopyRun,
    auth: nat -> Wrappers.Result<Credentials.Auth>,
    accountKey: nat -> Wrappers.Result<(string, string)>,
    createContainer: nat -> Option<string>,
    deleteContainer: nat -> Option<string>,
    storeKey: nat -> Option<string>,
    polls: nat)
  {
    /** A job's state is Error exactly when an error comes with it. */
    ghost predicate IsSound() {
      forall n: nat :: jobs(n).Consistent()
    }
  }

  /** The output of azcopy's two commands. */
  datatype Azcopy = Azcopy(list: nat -> CommandResult, show: nat -> CommandResult)

  /** The environment in which the state of a job is what GetAzcopyJob makes of azcopy's output. */
  function WithAzcopy(env: Environment, azcopy: Azcopy): Environment {
    env.(jobs := (n: nat) => GetAzcopyJob(azcopy.list(n), azcopy.show(n)))
  }

  lemma AzcopyIsSound(env: Environment, azcopy: Azcopy)
    ensures WithAzcopy(env, azcopy).IsSound()
  {
    forall n: nat ensures WithAzcopy(env, azcopy).jobs(n).Consistent() {
      assert WithAzcopy(env, azcopy).jobs(n) == GetAzcopyJob(azcopy.list(n), azcopy.show(n));
    }
  }

  /** A container and the account it lies in. */
  datatype Ref = Ref(account: string, name: string)

  /** What the driver did or saw, in order. A container is ensured when the call that creates it reports no error, as it
      also does when the container was there before. A deletion may fail. */
  datatype Event =
    | ContainerEnsured(container: Ref)
    | JobSeen(name: string, report: JobReport)
    | JobsCleaned
    | DeletionIssued(container: Ref, done: bool)

  const TIMEOUT := "timed out"
  const PERMISSION_MISMATCH := "AuthorizationPermissionMismatch"

  // ---------------------------------------------------------------- the clone

  datatype CopyJob = CopyJob(sourceID: string, dstAccount: string, dstContainer: string, dstToken: string)
  {
    function Source(): Info
      requires Decode(sourceID).Ok?
    {
      Decode(sourceID).value
    }

    predicate NamesPresent() {
      Decode(sourceID).Ok? && Source().account != "" && Source().container != "" && dstContainer != ""
    }

    /** A second token is needed when the source lies in another account and tokens are used. */
    predicate NeedsSourceToken() {
      NamesPresent() && dstAccount != "" && Source().account != dstAccount && dstToken != ""
    }

    /** Number of the question that asks for the job's state first. */
    function FirstLook(at: nat): nat {
      if NeedsSourceToken() then at + 1 else at
    }
  }

  /** Polling number k is the first to see something else than a running job. */
  ghost predicate EndsWait(env: Environment, look: nat, k: nat) {
    && look < k <= look + env.polls
    && !env.jobs(k).state.Running?
    && forall j :: look < j < k ==> env.jobs(j).state.Running?
  }

  /** The only grounds on which a clone is reported as successful. */
  ghost predicate CopySucceeds(env: Environment, at: nat, c: CopyJob) {
    && c.NamesPresent()
    && (c.NeedsSourceToken() ==> env.auth(at).Ok?)
    && var look := c.FirstLook(at);
       var entry := env.jobs(look).state;
       || entry.IsCompleted()
       || (entry.NotFound? && env.copy(look + 1) == Ended(None))
       || (entry.Running? && exists k :: EndsWait(env, look, k) && !env.jobs(k).failed)
  }

  /** The number of the first question that is not asked during a copy. */
  ghost predicate EndsAt(env: Environment, at: nat, c: CopyJob, next: nat) {
    if !c.NamesPresent() then next == at
    else if c.NeedsSourceToken() && env.auth(at).Err? then next == at + 1
    else
      var look := c.FirstLook(at);
      match env.jobs(look).state
      case NotFound => next == look + if env.copy(look + 1).Ended? then 2 else 3
      case Running => WaitEndsAt(env, look, next)
      case _ => next == look + 1
  }

  /** A wait ends with the first look that sees something else than a running job, or with its last look. */
  ghost predicate WaitEndsAt(env: Environment, look: nat, next: nat) {
    && look < next <= look + env.polls + 1
    && (forall j :: look < j < next - 1 ==> env.jobs(j).state.Running?)
    && (next <= look + env.polls ==> next - 1 > look && !env.jobs(next - 1).state.Running?)
  }

  ghost predicate TouchesNoContainer(trace: seq<Event>) {
    forall i :: 0 <= i < |trace| ==> !trace[i].ContainerEnsured? && !trace[i].DeletionIssued?
  }

  /** copyBlobContainer. */
  method CopyBlobContainer(env: Environment, at: nat, c: CopyJob)
    returns (err: Option<string>, next: nat, trace: seq<Event>)
    requires env.IsSound()
    ensures err.None? <==> CopySucceeds(env, at, c)
    ensures EndsAt(env, at, c, next) && next >= at && TouchesNoContainer(trace)
    ensures JobsCleaned in trace <==> err.None? && !env.jobs(c.FirstLook(at)).state.IsCompleted()
  {
    next, trace := at, [];
    var source := Decode(c.sourceID);
    if source.Err? {
      return Some(source.message), next, trace;
    }
    var dstAccount := if c.dstAccount == "" then source.value.account else c.dstAccount;
    if source.value.account == "" || source.value.container == "" || c.dstContainer == "" {
      return Some("an account or container name is empty"), next, trace;
    }
    if source.value.account != dstAccount && c.dstToken != "" {
      var srcAuth := env.auth(next);
      next := next + 1;
      if srcAuth.Err? {
        return Some(srcAuth.message), next, trace;
      }
    }
    var look := next;
    assert look == c.FirstLook(at);
    var entry := env.jobs(look);
    next, trace := next + 1, [JobSeen(c.dstContainer, entry)];
    if entry.state.Error? {
      return Some("no azcopy job state"), next, trace;
    }
    if entry.state.IsCompleted() {
      return None, next, trace;
    }
    if entry.state.Running? {
      var polling: seq<Event>;
      err, next, polling := PollJob(env, look, c.dstContainer);
      trace := trace + polling;
    } else {
      err, next := RunCopy(env, look + 1);
    }
    if err.None? {
      trace := trace + [JobsCleaned];
    }
  }

  /** The poll of a running job: stop at an error or at any state but Running. */
  method PollJob(env: Environment, look: nat, container: string) returns (err: Option<string>, next: nat, trace: seq<Event>)
    requires env.IsSound()
    ensures err.None? <==> exists k :: EndsWait(env, look, k) && !env.jobs(k).failed
    ensures WaitEndsAt(env, look, next) && TouchesNoContainer(trace) && JobsCleaned !in trace
  {
    next, trace := look + 1, [];
    while next <= look + env.polls
      invariant look < next <= look + env.polls + 1
      invariant forall j :: look < j < next ==> env.jobs(j).state.Running?
      invariant TouchesNoContainer(trace) && JobsCleaned !in trace
    {
      var report := env.jobs(next);
      trace := trace + [JobSeen(container, report)];
      if report.failed {
        assert EndsWait(env, look, next);
        assert forall k :: EndsWait(env, look, k) ==> k == next;
        return Some("no azcopy job state"), next + 1, trace;
      }
      if !report.state.Running? {
        assert EndsWait(env, look, next);
        return None, next + 1, trace;
      }
      next := next + 1;
    }
    return Some(TIMEOUT), next, trace;
  }

  /** WaitUntilTimeout around `azcopy copy`; on a timeout the state is asked once more, for the message only. */
  method RunCopy(env: Environment, at: nat) returns (err: Option<string>, next: nat)
    ensures err.None? <==> env.copy(at) == Ended(None)
    ensures next == at + if env.copy(at).Ended? then 1 else 2
  {
    match env.copy(at) {
      case Ended(result) =>
        return result, at + 1;
      case TimedOut =>
        return Some(TIMEOUT), at + 2;
    }
  }

  /** Some completion was observed: a completed job, or a copy that finished. */
  ghost predicate CompletionSeen(env: Environment, at: nat, c: CopyJob) {
    var look := c.FirstLook(at);
    || env.jobs(look).state.IsCompleted()
    || (env.jobs(look).state.NotFound? && env.copy(look + 1) == Ended(None))
    || (env.jobs(look).state.Running? && exists k :: EndsWait(env, look, k) && env.jobs(k).state.IsCompleted())
  }

  /** A reported success rests on an observed completion exactly unless a running job vanished from the listing. */
  lemma SuccessWithoutCompletionExactly(env: Environment, at: nat, c: CopyJob)
    requires env.IsSound()
    requires CopySucceeds(env, at, c)
    ensures var look := c.FirstLook(at);
            !CompletionSeen(env, at, c) <==>
            env.jobs(look).state.Running? && exists k :: EndsWait(env, look, k) && env.jobs(k).state.NotFound?
  {
    var look := c.FirstLook(at);
    if env.jobs(look).state.Running? {
      var k :| EndsWait(env, look, k) && !env.jobs(k).failed;
      assert forall j :: EndsWait(env, look, j) ==> j == k;
    }
  }

  /** A job that is cancelled while CreateVolume waits for it is taken for a finished one. */
  lemma CancelledCopyCountsAsSuccess(env: Environment, at: nat, c: CopyJob, listed: seq<Job>, show: CommandResult)
    requires env.IsSound()
    requires c.NamesPresent() && !c.NeedsSourceToken() && env.polls > 0
    requires env.jobs(at).state.Running?
    requires forall j :: j in listed ==> Printable(j) && j.status == "Cancelled"
    requires env.jobs(at + 1) == GetAzcopyJob(CommandResult(Listing(listed), None), show)
    ensures CopySucceeds(env, at, c) && !CompletionSeen(env, at, c)
  {
    CancelledReport(listed, show);
    assert EndsWait(env, at, at + 1);
    SuccessWithoutCompletionExactly(env, at, c);
  }

  // ---------------------------------------------------------------- roll-back

  /** isAzcopyJobActiveOrCompleted. */
  predicate IsActiveOrCompleted(state: JobState) {
    state.Running? || state.IsCompleted()
  }

  /** cleanupContainerOnFailure: delete only a container of the driver's own naming, and only when the listing surely
      holds no job. */
  method CleanupContainerOnFailure(env: Environment, at: nat, shouldCleanup: bool, container: Ref)
    returns (trace: seq<Event>)
    requires env.IsSound()
    ensures !shouldCleanup ==> trace == []
    ensures shouldCleanup && env.jobs(at).state.NotFound? ==>
              trace == [JobSeen(container.name, env.jobs(at)), DeletionIssued(container, env.deleteContainer(at + 1).None?)]
    ensures shouldCleanup && !env.jobs(at).state.NotFound? ==> trace == [JobSeen(container.name, env.jobs(at))]
  {
    if !shouldCleanup {
      return [];
    }
    var report := env.jobs(at);
    trace := [JobSeen(container.name, report)];
    if report.failed || IsActiveOrCompleted(report.state) {
      return trace;
    }
    return trace + [DeletionIssued(container, env.deleteContainer(at + 1).None?)];
  }

  // ---------------------------------------------------------------- the transaction

  /** `containerName` is the user's (empty if none), `container` the one in use; `account` and `accountKey` are what the
      account choice yielded. */
  datatype Request = Request(
    volName: string, containerName: string, container: string, account: string, accountKey: string,
    hasSecrets: bool, useDataPlaneAPI: bool, storeAccountKey: bool,
    resourceGroup: string, namespace: string, subscription: string, source: Option<string>)
  {
    /** The driver made the container's name, and takes the container for its own. */
    predicate OwnsContainer() {
      containerName == ""
    }

    /** The data-plane API needs the account key before the container is created. */
    predicate AsksKeyFirst() {
      !hasSecrets && useDataPlaneAPI && accountKey == ""
    }

    /** Number of the question that creates the container. */
    function CreateAt(): nat {
      if AsksKeyFirst() then 1 else 0
    }
  }

  datatype Stage = DataPlaneKey | Container | FirstAuth | FallbackAuth | Copy | StoredKey
  {
    predicate IsClone() {
      FirstAuth? || FallbackAuth? || Copy?
    }
  }

  datatype Outcome = Created(volumeID: string, account: string) | Failed(stage: Stage, message: string)

  /** One call of copyVolume: the numbers of its first question and of the next after it, the token used, and what it
      returned. */
  datatype Try = Try(at: nat, job: CopyJob, err: Option<string>, next: nat)

  /** The first attempt ran with the identity and was refused for lack of permission. */
  predicate IsRefused(t: Try) {
    t.job.dstToken == "" && t.err.Some? && Text.Contains(t.err.value, PERMISSION_MISMATCH)
  }

  /** Every deletion directly follows a look that found no job and no error, and hits a container of the driver's own
      naming that this call ensured. */
  ghost predicate RollbackSafe(req: Request, c: Ref, trace: seq<Event>) {
    forall i :: 0 <= i < |trace| && trace[i].DeletionIssued? ==>
      && req.OwnsContainer() && trace[i].container == c
      && ContainerEnsured(c) in trace[..i]
      && i > 0 && trace[i - 1].JobSeen? && trace[i - 1].name == c.name
      && trace[i - 1].report.state.NotFound? && !trace[i - 1].report.failed
  }

  ghost predicate IsRolledBack(trace: seq<Event>) {
    exists i :: 0 <= i < |trace| && trace[i].DeletionIssued?
  }

  /** The trace of a call that ensured its container and did nothing else to containers. */
  lemma KeptTrace(req: Request, c: Ref, events: seq<Event>)
    requires TouchesNoContainer(events)
    ensures RollbackSafe(req, c, [ContainerEnsured(c)] + events)
    ensures !IsRolledBack([ContainerEnsured(c)] + events)
    ensures forall before :: Existing(before, [ContainerEnsured(c)] + events) == before + {c}
  {
    assert forall i :: 0 <= i < 1 + |events| ==> !([ContainerEnsured(c)] + events)[i].DeletionIssued?;
    forall before ensures Existing(before, [ContainerEnsured(c)] + events) == before + {c} {
      ExistingSame(before + {c}, events);
      assert ([ContainerEnsured(c)] + events)[1..] == events;
    }
  }

  /** The trace of a call whose clone failed: the only deletion is the roll-back's, at the end. */
  lemma RolledBackTrace(req: Request, c: Ref, events: seq<Event>, report: JobReport, done: bool)
    requires TouchesNoContainer(events) && req.OwnsContainer() && report.state.NotFound? && !report.failed
    ensures var trace := [ContainerEnsured(c)] + events + [JobSeen(c.name, report), DeletionIssued(c, done)];
            && RollbackSafe(req, c, trace) && IsRolledBack(trace)
            && forall before :: Existing(before, trace) == if done then before - {c} else before + {c}
  {
    var trace := [ContainerEnsured(c)] + events + [JobSeen(c.name, report), DeletionIssued(c, done)];
    var last := |trace| - 1;
    assert trace[last].DeletionIssued? && trace[last - 1] == JobSeen(c.name, report);
    assert trace[..last][0] == ContainerEnsured(c);
    assert trace[1..|events| + 1] == events;
    assert forall i :: 1 <= i <= |events| ==> trace[i] == trace[1..|events| + 1][i - 1];
    forall before ensures Existing(before, trace) == if done then before - {c} else before + {c} {
      RolledBackExisting(before, c, events, report, done);
    }
  }

  // ---------------------------------------------------------------- the containers that exist

  function Apply(existing: set<Ref>, e: Event): set<Ref> {
    match e
    case ContainerEnsured(c) => existing + {c}
    case DeletionIssued(c, done) => if done then existing - {c} else existing
    case _ => existing
  }

  /** The containers after a trace. */
  function Existing(existing: set<Ref>, trace: seq<Event>): set<Ref>
    decreases |trace|
  {
    if trace == [] then existing else Existing(Apply(existing, trace[0]), trace[1..])
  }

  lemma {:induction false} ExistingSame(existing: set<Ref>, trace: seq<Event>)
    requires TouchesNoContainer(trace)
    ensures Existing(existing, trace) == existing
  {
    if trace != [] {
      assert forall i :: 0 <= i < |trace[1..]| ==> trace[1..][i] == trace[i + 1];
      ExistingSame(existing, trace[1..]);
    }
  }

  lemma {:induction false} ExistingAppend(existing: set<Ref>, a: seq<Event>, b: seq<Event>)
    ensures Existing(existing, a + b) == Existing(Existing(existing, a), b)
    decreases |a|
  {
    if a == [] {
      assert a + b == b;
    } else {
      assert (a + b)[1..] == a[1..] + b;
      ExistingAppend(Apply(existing, a[0]), a[1..], b);
    }
  }

  lemma RolledBackExisting(before: set<Ref>, c: Ref, events: seq<Event>, report: JobReport, done: bool)
    requires TouchesNoContainer(events)
    ensures Existing(before, [ContainerEnsured(c)] + events + [JobSeen(c.name, report), DeletionIssued(c, done)])
            == if done then before - {c} else before + {c}
  {
    var first, last := [ContainerEnsured(c)] + events, [JobSeen(c.name, report), DeletionIssued(c, done)];
    assert first[1..] == events;
    ExistingSame(before + {c}, events);
    ExistingAppend(before, first, last);
    assert last[1..] == [DeletionIssued(c, done)];
    assert [DeletionIssued(c, done)][1..] == [];
    assert before + {c} - {c} == before - {c};
    assert Existing(before + {c}, [DeletionIssued(c, done)]) == if done then before - {c} else before + {c};
    assert Existing(before, first) == before + {c};
  }

  // ---------------------------------------------------------------- the clone of a call

  /** At most two tries; a second one, with fresh credentials, exactly when the first was refused and credentials could
      be had; each try's result is justified; and the last one decides. */
  ghost predicate CloneRules(
    env: Environment, start: nat, req: Request, account: string, tries: seq<Try>, failure: Option<(Stage, string)>)
    requires req.source.Some?
  {
    && |tries| <= 2
    && (forall i :: 0 <= i < |tries| ==>
          && tries[i].job == CopyJob(req.source.value, account, req.container, tries[i].job.dstToken)
          && (tries[i].err.None? <==> CopySucceeds(env, tries[i].at, tries[i].job))
          && EndsAt(env, tries[i].at, tries[i].job, tries[i].next))
    && (tries == [] <==> env.auth(start).Err?)
    && (tries == [] ==> failure == Some((FirstAuth, env.auth(start).message)))
    && (tries != [] ==> tries[0].at == start + 1 && tries[0].job.dstToken == env.auth(start).value.token)
    && (|tries| == 2 ==>
          && IsRefused(tries[0]) && tries[1].at == tries[0].next + 1
          && env.auth(tries[1].at - 1).Ok? && env.auth(tries[1].at - 1).value.token == tries[1].job.dstToken)
    && (|tries| == 1 && IsRefused(tries[0]) ==> failure.Some? && failure.value.0.FallbackAuth?)
    && ((|tries| == 1 && !IsRefused(tries[0])) || |tries| == 2 ==>
          failure == match tries[|tries| - 1].err case None => None case Some(m) => Some((Copy, m)))
  }

  /** The first question after the clone: credentials are asked for before each try, and once more after a refusal. */
  function NextQuestion(start: nat, tries: seq<Try>): nat {
    if tries == [] then start + 1
    else if |tries| == 1 && IsRefused(tries[0]) then tries[0].next + 1
    else tries[|tries| - 1].next
  }

  /** The clone part: authorize, copy, and fall back to a token once if the identity lacks permission. */
  method CloneVolume(env: Environment, start: nat, req: Request, account: string)
    returns (failure: Option<(Stage, string)>, next: nat, tries: seq<Try>, trace: seq<Event>)
    requires env.IsSound()
    requires req.source.Some?
    ensures TouchesNoContainer(trace)
    ensures next == NextQuestion(start, tries)
    ensures failure.Some? ==> failure.value.0.IsClone()
    ensures CloneRules(env, start, req, account, tries, failure)
  {
    trace, tries, next := [], [], start + 1;
    var auth := env.auth(start);
    if auth.Err? {
      return Some((FirstAuth, auth.message)), next, tries, trace;
    }
    var job := CopyJob(req.source.value, account, req.container, auth.value.token);
    var err, after, events := CopyBlobContainer(env, next, job);
    tries, trace := [Try(next, job, err, after)], events;
    next := after;
    if job.dstToken == "" && err.Some? && Text.Contains(err.value, PERMISSION_MISMATCH) {
      auth := env.auth(next);
      next := next + 1;
      if auth.Err? {
        return Some((FallbackAuth, auth.message)), next, tries, trace;
      }
      job := CopyJob(req.source.value, account, req.container, auth.value.token);
      err, after, events := CopyBlobContainer(env, next, job);
      tries, trace := tries + [Try(next, job, err, after)], trace + events;
      next := after;
    }
    if err.Some? {
      return Some((Copy, err.value)), next, tries, trace;
    }
    return None, next, tries, trace;
  }

  /** The new container's clone, undone if it fails. `at` is the question that the next part asks first: how the job
      stands, if the clone failed. */
  method CloneOrRollBack(env: Environment, start: nat, req: Request, account: string)
    returns (failure: Option<(Stage, string)>, at: nat, tries: seq<Try>, trace: seq<Event>)
    requires env.IsSound()
    requires req.source.Some?
    ensures CloneRules(env, start, req, account, tries, failure)
    ensures failure.Some? ==> failure.value.0.IsClone()
    ensures at == NextQuestion(start, tries)
    ensures TraceOk(env, at, req, Ref(account, req.container), failure.None?, trace)
  {
    var c := Ref(account, req.container);
    var events: seq<Event>;
    failure, at, tries, events := CloneVolume(env, start, req, account);
    trace := [ContainerEnsured(c)] + events;
    KeptTrace(req, c, events);
    if failure.Some? {
      var cleanup := CleanupContainerOnFailure(env, at, req.OwnsContainer(), c);
      trace := trace + cleanup;
      if req.OwnsContainer() && env.jobs(at).state.NotFound? {
        RolledBackTrace(req, c, events, env.jobs(at), env.deleteContainer(at + 1).None?);
      } else {
        KeptTrace(req, c, events + cleanup);
        Text.Assoc([ContainerEnsured(c)], events, cleanup);
      }
    }
  }

  /** The roll-back deletes the container. */
  predicate Deletes(env: Environment, at: nat, req: Request) {
    req.OwnsContainer() && env.jobs(at).state.NotFound? && env.deleteContainer(at + 1).None?
  }

  /** What a call that ensured its container did to containers. */
  ghost predicate TraceOk(env: Environment, at: nat, req: Request, c: Ref, cloned: bool, trace: seq<Event>) {
    && RollbackSafe(req, c, trace)
    && trace != [] && trace[0] == ContainerEnsured(c)
    && (IsRolledBack(trace) <==> !cloned && req.OwnsContainer() && env.jobs(at).state.NotFound?)
    && forall before :: Existing(before, trace) == if !cloned && Deletes(env, at, req) then before - {c} else before + {c}
  }

  // ---------------------------------------------------------------- the whole call

  /** The account that the container is ensured in. */
  function CloneAccount(env: Environment, req: Request): string {
    if req.AsksKeyFirst() && env.accountKey(0).Ok? then env.accountKey(0).value.0 else req.account
  }

  /** The account key at hand once the container is ensured. */
  function KeyInHand(env: Environment, req: Request): string {
    if req.AsksKeyFirst() && env.accountKey(0).Ok? then env.accountKey(0).value.1 else req.accountKey
  }

  function Target(env: Environment, req: Request): Ref {
    Ref(CloneAccount(env, req), req.container)
  }

  /** With the data-plane API the container is created with the account key. */
  method FetchDataPlaneKey(env: Environment, req: Request)
    returns (failure: Option<string>, account: string, accountKey: string, next: nat)
    ensures failure.Some? <==> req.AsksKeyFirst() && env.accountKey(0).Err?
    ensures account == CloneAccount(env, req) && next == req.CreateAt()
    ensures accountKey == KeyInHand(env, req)
  {
    if !req.hasSecrets && req.useDataPlaneAPI && req.accountKey == "" {
      var answer := env.accountKey(0);
      if answer.Err? {
        return Some(answer.message), req.account, req.accountKey, 1;
      }
      return None, answer.value.0, answer.value.1, 1;
    }
    return None, req.account, req.accountKey, 0;
  }

  /** Unless told otherwise, the account key ends up in a Kubernetes secret. */
  predicate WantsKeyStored(req: Request) {
    req.storeAccountKey && !req.hasSecrets
  }

  /** Storing the key succeeds, if it is wanted: a missing key is fetched first. */
  predicate KeyStored(env: Environment, at: nat, req: Request) {
    WantsKeyStored(req) ==>
      if KeyInHand(env, req) == "" then env.accountKey(at).Ok? && env.storeKey(at + 1).None? else env.storeKey(at).None?
  }

  /** The account in the volume ID: the one the key was fetched for, if it had to be. */
  function NamedAccount(env: Environment, at: nat, req: Request): string {
    if WantsKeyStored(req) && KeyInHand(env, req) == "" && env.accountKey(at).Ok? then env.accountKey(at).value.0
    else CloneAccount(env, req)
  }

  method StoreKey(env: Environment, at: nat, req: Request, account: string, accountKey: string)
    returns (failure: Option<string>, usedAccount: string)
    requires account == CloneAccount(env, req) && accountKey == KeyInHand(env, req)
    ensures failure.None? <==> KeyStored(env, at, req)
    ensures usedAccount == NamedAccount(env, at, req)
  {
    usedAccount := account;
    if !req.storeAccountKey || req.hasSecrets {
      return None, usedAccount;
    }
    var next := at;
    if accountKey == "" {
      var answer := env.accountKey(next);
      next := next + 1;
      if answer.Err? {
        return Some(answer.message), usedAccount;
      }
      usedAccount := answer.value.0;
    }
    return env.storeKey(next), usedAccount;
  }

  /** The call gets as far as a container. */
  predicate GetsContainer(env: Environment, req: Request) {
    && !(req.AsksKeyFirst() && env.accountKey(0).Err?)
    && req.container != "" && env.createContainer(req.CreateAt()).None?
  }

  /** There was nothing to clone, or the last try succeeded. */
  predicate Cloned(req: Request, tries: seq<Try>) {
    req.source.None? || (tries != [] && tries[|tries| - 1].err.None?)
  }

  /** A finished call. `at` is the question that its last part asks first: how the job stands, if the clone failed, and
      otherwise for the account key, or to store it. */
  datatype Call = Call(out: Outcome, tries: seq<Try>, trace: seq<Event>, at: nat)

  /** Everything that is promised of a call: where it ends, exactly; what it did to containers; and the ID. */
  ghost predicate CallOk(env: Environment, req: Request, call: Call) {
    var (out, tries, at) := (call.out, call.tries, call.at);
    var ensured, cloned := GetsContainer(env, req), Cloned(req, tries);
    && (out.Created? <==> ensured && cloned && KeyStored(env, at, req))
    && (out.Failed? && out.stage.DataPlaneKey? <==> req.AsksKeyFirst() && env.accountKey(0).Err?)
    && (out.Failed? && (out.stage.DataPlaneKey? || out.stage.Container?) <==> !ensured)
    && (out.Failed? && out.stage.IsClone() <==> ensured && !cloned)
    && (out.Failed? && out.stage.StoredKey? <==> ensured && cloned && !KeyStored(env, at, req))
    && (!ensured ==> call.trace == [])
    && (ensured ==> TraceOk(env, at, req, Target(env, req), cloned, call.trace))
    && (ensured && req.source.Some? ==>
          CloneRules(env, req.CreateAt() + 1, req, CloneAccount(env, req), tries,
                     if out.Failed? && out.stage.IsClone() then Some((out.stage, out.message)) else None))
    && (req.source.None? ==> tries == [])
    && (ensured ==> at == if req.source.None? then req.CreateAt() + 1 else NextQuestion(req.CreateAt() + 1, tries))
    && (out.Created? ==>
          && out.account == NamedAccount(env, at, req)
          && out.volumeID == Encode(VolumeFields(req, out.account)))
  }

  /** A call that ensured its container and dealt with the clone. */
  ghost predicate CloneDone(
    env: Environment, req: Request, at: nat, tries: seq<Try>, trace: seq<Event>, failure: Option<(Stage, string)>)
  {
    && GetsContainer(env, req)
    && (failure.None? <==> Cloned(req, tries))
    && (failure.Some? ==> failure.value.0.IsClone())
    && TraceOk(env, at, req, Target(env, req), failure.None?, trace)
    && (req.source.Some? ==> CloneRules(env, req.CreateAt() + 1, req, CloneAccount(env, req), tries, failure))
    && (req.source.None? ==> tries == [])
    && at == (if req.source.None? then req.CreateAt() + 1 else NextQuestion(req.CreateAt() + 1, tries))
  }

  /** CreateVolume from the container on, with azcopy's own output. */
  method CreateVolume(env: Environment, azcopy: Azcopy, req: Request) returns (call: Call)
    ensures CallOk(WithAzcopy(env, azcopy), req, call)
  {
    AzcopyIsSound(env, azcopy);
    call := Provision(WithAzcopy(env, azcopy), req);
  }

  method Provision(env: Environment, req: Request) returns (call: Call)
    requires env.IsSound()
    ensures CallOk(env, req, call)
  {
    var problem, account, accountKey, at := FetchDataPlaneKey(env, req);
    if problem.Some? {
      return Call(Failed(DataPlaneKey, problem.value), [], [], req.CreateAt() + 1);
    }
    var refusal := if req.container == "" then Some("containerName is empty") else env.createContainer(at);
    at := at + 1;
    if refusal.Some? {
      return Call(Failed(Container, refusal.value), [], [], at);
    }
    var failure, tries, trace;
    failure, at, tries, trace := ClonePart(env, req, account);
    if failure.Some? {
      return Call(Failed(failure.value.0, failure.value.1), tries, trace, at);
    }
    call := StorePart(env, req, account, accountKey, at, tries, trace);
  }

  method ClonePart(env: Environment, req: Request, account: string)
    returns (failure: Option<(Stage, string)>, at: nat, tries: seq<Try>, trace: seq<Event>)
    requires env.IsSound() && GetsContainer(env, req) && account == CloneAccount(env, req)
    ensures CloneDone(env, req, at, tries, trace, failure)
  {
    failure, at, tries, trace := None, req.CreateAt() + 1, [], [ContainerEnsured(Ref(account, req.container))];
    if req.source.Some? {
      failure, at, tries, trace := CloneOrRollBack(env, at, req, account);
    } else {
      KeptTrace(req, Target(env, req), []);
      assert trace + [] == trace;
    }
  }

  method StorePart(
      env: Environment, req: Request, account: string, accountKey: string, at: nat, tries: seq<Try>, trace: seq<Event>)
    returns (call: Call)
    requires account == CloneAccount(env, req) && accountKey == KeyInHand(env, req)
    requires CloneDone(env, req, at, tries, trace, None)
    ensures CallOk(env, req, call)
  {
    var problem, usedAccount := StoreKey(env, at, req, account, accountKey);
    if problem.Some? {
      return Call(Failed(StoredKey, problem.value), tries, trace, at);
    }
    return Call(Created(Encode(VolumeFields(req, usedAccount)), usedAccount), tries, trace, at);
  }

  /** The user's container may serve several volumes, so the volume name is added to tell their IDs apart. */
  function VolumeFields(req: Request, account: string): Fields6 {
    Fields6(req.resourceGroup, account, req.container, if req.OwnsContainer() then "" else req.volName,
            req.namespace, req.subscription)
  }
}
