/** The listing is filtered with grep before it is read: only jobs whose command mentions the container are left. These
    need not be the container's own jobs. */
module AzcopyFilter {
  import opened AzcopyJobs
  import opened Text
  import opened Wrappers

  /** Printed jobs with an id. */
  predicate AreShown(jobs: seq<Job>) {
    forall j :: j in jobs ==> Printable(j) && j.id != ""
  }

  function Select(jobs: seq<Job>, p: Job -> bool): (r: seq<Job>)
    ensures forall j :: j in r <==> j in jobs && p(j)
  {
    if jobs == [] then [] else (if p(jobs[0]) then [jobs[0]] else []) + Select(jobs[1..], p)
  }

  /** grep with three lines of context, of a text that no other line of a job contains. */
  function Matched(jobs: seq<Job>, container: string): seq<Job> {
    Select(jobs, (j: Job) => Contains(j.command, container))
  }

  function State(jobs: seq<Job>): JobState {
    Meaning(Records(Listing(jobs))).state
  }

  predicate IsFinished(j: Job) {
    StatusRecord(j.status, j.id).Finished?
  }

  predicate IsInProgress(j: Job) {
    StatusRecord(j.status, j.id).InProgress?
  }

  lemma {:induction false} LastInProgressExactly(rs: seq<Record>)
    requires forall i :: 0 <= i < |rs| && rs[i].InProgress? ==> rs[i].id != ""
    ensures LastInProgress(rs) != "" <==> exists i :: 0 <= i < |rs| && rs[i].InProgress?
  {
    if rs != [] {
      LastInProgressExactly(rs[..|rs| - 1]);
    }
  }

  lemma StatusIsRead(status: string, id: string)
    ensures var r := StatusRecord(status, id); !r.Malformed? && (r.InProgress? ==> r.id == id)
  {
  }

  /** The state of a listing: that of the first finished job, or else Running if any job is in progress, or else NotFound. */
  lemma StateExactly(jobs: seq<Job>)
    requires AreShown(jobs)
    ensures State(jobs).NotFound? <==> forall j :: j in jobs ==> !IsFinished(j) && !IsInProgress(j)
    ensures State(jobs).Running? <==> (forall j :: j in jobs ==> !IsFinished(j)) && exists j :: j in jobs && IsInProgress(j)
    ensures State(jobs).IsCompleted() <==> exists j :: j in jobs && IsFinished(j)
  {
    var rs := Records(Listing(jobs));
    ReadListing(jobs);
    forall i | 0 <= i < |jobs|
      ensures rs[i].Finished? <==> IsFinished(jobs[i])
      ensures rs[i].InProgress? <==> IsInProgress(jobs[i])
      ensures !rs[i].Malformed? && (rs[i].InProgress? ==> rs[i].id != "")
    {
      assert jobs[i] in jobs;
      StatusIsRead(jobs[i].status, jobs[i].id);
    }
    MeaningExactly(rs);
    FinishedAmong(jobs, rs);
  }

  /** The index of the first finished job. */
  function FirstFinished(jobs: seq<Job>): (n: nat)
    ensures n <= |jobs|
    ensures n < |jobs| ==> IsFinished(jobs[n])
    ensures forall i :: 0 <= i < n ==> !IsFinished(jobs[i])
  {
    if jobs == [] || IsFinished(jobs[0]) then 0 else 1 + FirstFinished(jobs[1..])
  }

  /** The state of a finished job. */
  function FinalState(j: Job): JobState
    requires IsFinished(j)
  {
    StatusRecord(j.status, j.id).state
  }

  /** The first finished job decides. */
  lemma FirstFinishedDecides(jobs: seq<Job>)
    requires AreShown(jobs) && FirstFinished(jobs) < |jobs|
    ensures State(jobs) == FinalState(jobs[FirstFinished(jobs)])
  {
    var n, rs := FirstFinished(jobs), Records(Listing(jobs));
    ReadListing(jobs);
    forall i | 0 <= i < n ensures !Settles(rs[i]) {
      StatusIsRead(jobs[i].status, jobs[i].id);
    }
    FirstSettlingDecides(rs, n);
  }

  lemma FirstSettlingDecides(rs: seq<Record>, n: nat)
    requires n < |rs| && rs[n].Finished? && forall i :: 0 <= i < n ==> !Settles(rs[i])
    ensures Meaning(rs).state == rs[n].state
  {
    assert FirstSettling(rs) == n;
  }

  /** The same of records. */
  lemma MeaningExactly(rs: seq<Record>)
    requires forall i :: 0 <= i < |rs| ==> !rs[i].Malformed? && (rs[i].InProgress? ==> rs[i].id != "")
    requires forall i :: 0 <= i < |rs| && rs[i].Finished? ==> rs[i].state.IsCompleted()
    ensures var state := Meaning(rs).state;
            && (state.IsCompleted() <==> exists i :: 0 <= i < |rs| && rs[i].Finished?)
            && (state.Running? <==> (forall i :: 0 <= i < |rs| ==> !rs[i].Finished?) && exists i :: 0 <= i < |rs| && rs[i].InProgress?)
            && (state.NotFound? <==> forall i :: 0 <= i < |rs| ==> !rs[i].Finished? && !rs[i].InProgress?)
  {
    var d := FirstSettling(rs);
    if d == |rs| {
      assert rs[..d] == rs;
      LastInProgressExactly(rs);
    }
  }

  /** Jobs and their records, by membership. */
  lemma FinishedAmong(jobs: seq<Job>, rs: seq<Record>)
    requires |rs| == |jobs|
    requires forall i :: 0 <= i < |jobs| ==> (rs[i].Finished? <==> IsFinished(jobs[i])) && (rs[i].InProgress? <==> IsInProgress(jobs[i]))
    ensures (exists i :: 0 <= i < |rs| && rs[i].Finished?) <==> exists j :: j in jobs && IsFinished(j)
    ensures (exists i :: 0 <= i < |rs| && rs[i].InProgress?) <==> exists j :: j in jobs && IsInProgress(j)
  {
    forall i | 0 <= i < |rs| ensures jobs[i] in jobs {
    }
  }

  /** The container gets the state of its own jobs exactly if: with one of its own finished, the first finished job that
      mentions it at all has the state of the first of its own; with none of its own finished, no other job that mentions it
      is finished, and one is in progress only if one of its own is. */
  lemma ReportedIsOwnExactly(jobs: seq<Job>, container: string, own: Job -> bool)
    requires AreShown(jobs) && forall j :: j in jobs && own(j) ==> Contains(j.command, container)
    ensures var matched, mine := Matched(jobs, container), Select(jobs, own);
            var n, m := FirstFinished(matched), FirstFinished(mine);
            State(matched) == State(mine) <==>
            if m < |mine| then n < |matched| && FinalState(matched[n]) == FinalState(mine[m])
            else n == |matched| && ((exists j :: j in matched && IsInProgress(j)) ==> exists j :: j in mine && IsInProgress(j))
  {
    var matched, mine := Matched(jobs, container), Select(jobs, own);
    StateExactly(matched);
    StateExactly(mine);
    NoneFinished(matched);
    NoneFinished(mine);
    if FirstFinished(matched) < |matched| {
      FirstFinishedDecides(matched);
    }
    if FirstFinished(mine) < |mine| {
      FirstFinishedDecides(mine);
    }
    assert forall j :: j in mine ==> j in matched;
  }

  lemma NoneFinished(jobs: seq<Job>)
    ensures FirstFinished(jobs) == |jobs| <==> forall j :: j in jobs ==> !IsFinished(j)
  {
    if FirstFinished(jobs) < |jobs| {
      assert jobs[FirstFinished(jobs)] in jobs;
    }
  }

  /** A report of NotFound is true of the container's own jobs, so that the filter never makes a roll-back unsafe. */
  lemma NotFoundIsOwn(jobs: seq<Job>, container: string, own: Job -> bool)
    requires AreShown(jobs) && forall j :: j in jobs && own(j) ==> Contains(j.command, container)
    requires State(Matched(jobs, container)).NotFound?
    ensures State(Select(jobs, own)).NotFound?
  {
    StateExactly(Matched(jobs, container));
    StateExactly(Select(jobs, own));
  }

  lemma ContainsIsTransitive(a: string, b: string, c: string)
    requires Contains(a, b) && Contains(b, c)
    ensures Contains(a, c)
  {
    var i := Index(a, b);
    ContainsWithin(a[..i], b, a[i + |b|..], c);
    assert a == a[..i] + b + a[i + |b|..];
  }

  /** A finished copy into another container, whose name contains this one's, counts as this container's finished copy. */
  lemma ForeignJobDecides(j: Job, container: string, other: string)
    requires Printable(j) && j.id != "" && IsFinished(j) && Contains(j.command, other) && Contains(other, container)
    ensures State(Matched([j], container)).IsCompleted() && State(Select([j], (k: Job) => false)).NotFound?
  {
    ContainsIsTransitive(j.command, other, container);
    assert j in [j];
    StateExactly(Matched([j], container));
    StateExactly(Select([j], (k: Job) => false));
  }

  // ---------------------------------------------------------------- the statuses by their names

  predicate IsDone(status: string) {
    status == "Completed" || status == "CompletedWithErrors" || status == "CompletedWithSkipped" || status == "CompletedWithErrorsAndSkipped"
  }

  lemma StatusByName(status: string, id: string)
    ensures status == "InProgress" <==> StatusRecord(status, id).InProgress?
    ensures StatusRecord(status, id) == Finished(Completed) <==> status == "Completed"
    ensures StatusRecord(status, id) == Finished(CompletedWithErrors) <==> status == "CompletedWithErrors"
    ensures StatusRecord(status, id) == Finished(CompletedWithSkipped) <==> status == "CompletedWithSkipped"
    ensures StatusRecord(status, id) == Finished(CompletedWithErrorsAndSkipped) <==> status == "CompletedWithErrorsAndSkipped"
    ensures IsFinished(Job(id, "", status, "")) <==> IsDone(status)
  {
  }

  lemma StatusesByName(jobs: seq<Job>)
    ensures forall j :: j in jobs ==> (IsFinished(j) <==> IsDone(j.status)) && (IsInProgress(j) <==> j.status == "InProgress")
  {
    forall j | j in jobs ensures (IsFinished(j) <==> IsDone(j.status)) && (IsInProgress(j) <==> j.status == "InProgress") {
      StatusByName(j.status, j.id);
    }
  }

  /** The state of printed jobs by the names of their statuses: one of four makes the copy done, wherever it stands, and only
      without one of these does "InProgress" make it running. Anything else is no job. */
  lemma StateByName(jobs: seq<Job>)
    requires AreShown(jobs)
    ensures State(jobs) in {Completed, CompletedWithErrors, CompletedWithSkipped, CompletedWithErrorsAndSkipped} <==>
            exists j :: j in jobs && (j.status == "Completed" || j.status == "CompletedWithErrors"
                                      || j.status == "CompletedWithSkipped" || j.status == "CompletedWithErrorsAndSkipped")
    ensures State(jobs) == Running <==> (forall j :: j in jobs ==> !IsDone(j.status)) && exists j :: j in jobs && j.status == "InProgress"
    ensures State(jobs) == NotFound <==> forall j :: j in jobs ==> !IsDone(j.status) && j.status != "InProgress"
  {
    StatusesByName(jobs);
    StateExactly(jobs);
  }

  /** Of the jobs that are done, the first gives the state of its own name. */
  lemma FirstDoneDecides(jobs: seq<Job>, n: nat)
    requires AreShown(jobs) && n < |jobs| && IsDone(jobs[n].status) && forall i :: 0 <= i < n ==> !IsDone(jobs[i].status)
    ensures State(jobs) == Completed <==> jobs[n].status == "Completed"
    ensures State(jobs) == CompletedWithErrors <==> jobs[n].status == "CompletedWithErrors"
    ensures State(jobs) == CompletedWithSkipped <==> jobs[n].status == "CompletedWithSkipped"
    ensures State(jobs) == CompletedWithErrorsAndSkipped <==> jobs[n].status == "CompletedWithErrorsAndSkipped"
  {
    StatusesByName(jobs);
    assert jobs[n] in jobs;
    assert forall i :: 0 <= i < n ==> jobs[i] in jobs;
    assert FirstFinished(jobs) == n;
    FirstFinishedDecides(jobs);
    StatusByName(jobs[n].status, jobs[n].id);
  }

  /** What the driver acts on, for a listing of one job: done or not by the name of its status alone. */
  lemma SingleReport(j: Job, show: CommandResult)
    requires Printable(j) && j.id != ""
    ensures var r := GetAzcopyJob(CommandResult(Listing([j]), None), show);
            && (j.status == "Completed" ==> r == JobReport(Completed, "100.0", false))
            && (j.status == "CompletedWithErrors" ==> r == JobReport(CompletedWithErrors, "100.0", false))
            && (j.status == "CompletedWithSkipped" ==> r == JobReport(CompletedWithSkipped, "100.0", false))
            && (j.status == "CompletedWithErrorsAndSkipped" ==> r == JobReport(CompletedWithErrorsAndSkipped, "100.0", false))
  {
    if IsDone(j.status) {
      FirstDoneDecides([j], 0);
      CompletedReport(CommandResult(Listing([j]), None), show);
    }
  }

  /** While a copy runs, the driver reports what azcopy shows after its first mark, without line breaks. */
  lemma RunningShows(j: Job, show: CommandResult, title: string, percent: string)
    requires Printable(j) && j.id != "" && j.status == "InProgress"
    requires ':' !in title && !Contains(percent, FIELD_MARK) && '\n' !in percent
    requires show.err.None? && show.out == title + (": " + (percent + "\n"))
    ensures GetAzcopyJob(CommandResult(Listing([j]), None), show) == JobReport(Running, percent, false)
  {
    StateByName([j]);
    ShowIsRead(title, percent);
    ShowReport(CommandResult(Listing([j]), None), show);
  }

  lemma ShowIsRead(title: string, percent: string)
    requires ':' !in title && !Contains(percent, FIELD_MARK) && '\n' !in percent
    ensures ParseJobShow(title + (": " + (percent + "\n"))) == JobReport(Running, percent, false)
  {
    NoColonNoMark(title);
    SplitAtMark(title, FIELD_MARK, percent + "\n");
    LineKeepsMark(percent);
    SplitNoMark(percent + "\n", FIELD_MARK);
    RemoveLine(percent);
    Assoc(title, FIELD_MARK, percent + "\n");
  }

  lemma ShowReport(list: CommandResult, show: CommandResult)
    requires list.err.None? && show.err.None? && Meaning(Records(list.out)).state.Running?
    ensures GetAzcopyJob(list, show) == ParseJobShow(show.out)
  {
    MeaningFits(list.out);
  }

  lemma LineKeepsMark(s: string)
    requires !Contains(s, FIELD_MARK)
    ensures !Contains(s + "\n", FIELD_MARK)
  {
    forall i ensures !OccursAt(s + "\n", FIELD_MARK, i) {
      if 0 <= i && i + 2 <= |s| {
        assert !OccursAt(s, FIELD_MARK, i);
        assert (s + "\n")[i..i + 2] == s[i..i + 2];
      } else if 0 <= i && i + 2 == |s| + 1 {
        assert (s + "\n")[i..i + 2][1] == '\n';
      }
    }
  }

  lemma {:induction false} RemoveLine(s: string)
    requires '\n' !in s
    ensures RemoveChar(s + "\n", '\n') == s
  {
    if s == "" {
      assert s + "\n" == "\n";
    } else {
      assert (s + "\n")[1..] == s[1..] + "\n";
      RemoveLine(s[1..]);
    }
  }
}
