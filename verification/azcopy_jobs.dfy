/** The azcopy job report: the text of `azcopy jobs list`, its parser, and the state the driver derives from it. */
module AzcopyJobs {
  import opened Text
  import opened Wrappers

  datatype JobState =
    | Error | NotFound | Running
    | Completed | CompletedWithErrors | CompletedWithSkipped | CompletedWithErrorsAndSkipped
  {
    predicate IsCompleted() {
      Completed? || CompletedWithErrors? || CompletedWithSkipped? || CompletedWithErrorsAndSkipped?
    }
  }

  const JOB_MARK: string := "JobId: "
  const FIELD_MARK: string := ": "

  /** What one section of the listing says. */
  datatype Record = Malformed | InProgress(id: string) | Finished(state: JobState) | Other

  datatype ParsedList = ParsedList(jobid: string, state: JobState, failed: bool)

  // ---------------------------------------------------------------- meaning of a listing

  function StatusRecord(status: string, id: string): (r: Record)
    ensures r.Finished? ==> r.state.IsCompleted()
  {
    if status == "InProgress" then InProgress(id)
    else if status == "Completed" then Finished(Completed)
    else if status == "CompletedWithErrors" then Finished(CompletedWithErrors)
    else if status == "CompletedWithSkipped" then Finished(CompletedWithSkipped)
    else if status == "CompletedWithErrorsAndSkipped" then Finished(CompletedWithErrorsAndSkipped)
    else Other
  }

  function ReadRecord(job: string): (r: Record)
    ensures r.Finished? ==> r.state.IsCompleted()
  {
    var lines := Split(job, "\n");
    if |lines| < 4 || |Split(lines[2], FIELD_MARK)| < 2 then Malformed
    else StatusRecord(Split(lines[2], FIELD_MARK)[1], lines[0])
  }

  function ReadAll(jobs: seq<string>): (rs: seq<Record>)
    ensures |rs| == |jobs|
    ensures forall i :: 0 <= i < |jobs| ==> rs[i] == ReadRecord(jobs[i])
  {
    seq(|jobs|, i requires 0 <= i < |jobs| => ReadRecord(jobs[i]))
  }

  /** The text before the first job mark belongs to no job. */
  function Records(joblist: string): seq<Record> {
    ReadAll(Split(joblist, JOB_MARK)[1..])
  }

  /** A malformed record or a finished job settles the answer. */
  predicate Settles(r: Record) {
    r.Malformed? || r.Finished?
  }

  function FirstSettling(rs: seq<Record>): (d: nat)
    ensures d <= |rs|
    ensures d < |rs| ==> Settles(rs[d])
    ensures forall i :: 0 <= i < d ==> !Settles(rs[i])
  {
    if rs == [] || Settles(rs[0]) then 0 else 1 + FirstSettling(rs[1..])
  }

  /** The id of the last job in progress; "" if there is none or it is listed without an id. */
  function LastInProgress(rs: seq<Record>): (id: string)
    ensures (forall i :: 0 <= i < |rs| ==> !rs[i].InProgress?) ==> id == ""
  {
    if rs == [] then ""
    else if rs[|rs| - 1].InProgress? then rs[|rs| - 1].id
    else LastInProgress(rs[..|rs| - 1])
  }

  function Meaning(rs: seq<Record>): ParsedList {
    var d := FirstSettling(rs);
    var id := LastInProgress(rs[..d]);
    if d == |rs| then ParsedList(id, if id == "" then NotFound else Running, false)
    else if rs[d].Malformed? then ParsedList(id, Error, true)
    else ParsedList(id, rs[d].state, false)
  }

  // ---------------------------------------------------------------- the parser

  /** parseAzcopyJobList: one pass over the sections, stopping at the first that settles the answer. */
  method ParseJobList(joblist: string) returns (jobid: string, state: JobState, failed: bool)
    ensures ParsedList(jobid, state, failed) == Meaning(Records(joblist))
  {
    var segments := Split(joblist, JOB_MARK);
    if |segments| < 2 {
      assert Records(joblist) == [];
      return "", NotFound, false;
    }
    jobid, state, failed := ParseSections(ReadAll(segments[1..]));
  }

  /** The loop over the sections. */
  method ParseSections(rs: seq<Record>) returns (jobid: string, state: JobState, failed: bool)
    ensures ParsedList(jobid, state, failed) == Meaning(rs)
  {
    jobid := "";
    var i := 0;
    while i < |rs|
      invariant 0 <= i <= |rs|
      invariant i <= FirstSettling(rs)
      invariant jobid == LastInProgress(rs[..i])
    {
      match rs[i] {
        case Malformed =>
          return jobid, Error, true;
        case InProgress(id) =>
          jobid := id;
        case Finished(finished) =>
          return jobid, finished, false;
        case Other =>
      }
      assert rs[..i + 1][..i] == rs[..i];
      i := i + 1;
    }
    assert rs[..i] == rs;
    if jobid == "" {
      return jobid, NotFound, false;
    }
    return jobid, Running, false;
  }

  /** Running is reported exactly when no record settles the answer and the last job in progress has an id;
      an error is reported exactly when a malformed record comes before every finished job. */
  lemma RunningExactly(joblist: string)
    ensures var rs, m := Records(joblist), Meaning(Records(joblist));
            && (m.state.Running? <==> FirstSettling(rs) == |rs| && LastInProgress(rs) != "")
            && (m.failed <==> FirstSettling(rs) < |rs| && rs[FirstSettling(rs)].Malformed?)
            && (m.state.Error? <==> m.failed)
            && (m.state.IsCompleted() <==> FirstSettling(rs) < |rs| && rs[FirstSettling(rs)].Finished?)
            && (m.state.Running? || m.state.NotFound? ==> (m.state.Running? <==> m.jobid != ""))
  {
    var rs := Records(joblist);
    var d := FirstSettling(rs);
    assert rs[..|rs|] == rs;
    if d < |rs| {
      assert rs[d] == ReadRecord(Split(joblist, JOB_MARK)[1..][d]);
    }
  }

  // ---------------------------------------------------------------- listings as azcopy prints them

  datatype Job = Job(id: string, start: string, status: string, command: string)

  function JobText(j: Job): string {
    j.id + "\n" + (j.start + "\n" + ("Status" + FIELD_MARK + j.status + "\n" + (j.command + "\n--\n")))
  }

  function Listing(jobs: seq<Job>): string {
    if jobs == [] then "" else JOB_MARK + JobText(jobs[0]) + Listing(jobs[1..])
  }

  /** The first four lines are single lines, the status holds no field mark, and nothing looks like a job mark. */
  predicate Printable(j: Job) {
    && '\n' !in j.id && '\n' !in j.start && '\n' !in j.status
    && !Contains(j.status, FIELD_MARK)
    && !Contains(JobText(j), JOB_MARK)
  }

  /** A word without anything that could be taken for a mark. */
  predicate IsPlainWord(s: string) {
    'J' !in s && ':' !in s && '\n' !in s
  }

  /** Without the letter J there is no job mark. */
  lemma PlainIsPrintable(j: Job)
    requires IsPlainWord(j.id) && IsPlainWord(j.start) && IsPlainWord(j.status) && 'J' !in j.command
    ensures Printable(j)
  {
    NoColonNoMark(j.status);
    var text := JobText(j);
    assert 'J' !in "Status" && 'J' !in FIELD_MARK && 'J' !in "\n" && 'J' !in "\n--\n";
    forall i ensures !OccursAt(text, JOB_MARK, i) {
      if 0 <= i && i + |JOB_MARK| <= |text| {
        assert text[i..i + |JOB_MARK|][0] == text[i];
      }
    }
  }

  /** If the first character of the separator occurs only once in it, two occurrences cannot overlap,
      so text without the separator ends exactly where the separator begins. */
  lemma SplitAtMark(a: string, sep: string, b: string)
    requires sep != "" && sep[0] !in sep[1..]
    requires !Contains(a, sep)
    ensures Split(a + sep + b, sep) == [a] + Split(b, sep)
  {
    var s := a + sep + b;
    assert s[|a|..|a| + |sep|] == sep;
    assert OccursAt(s, sep, |a|);
    forall j | 0 <= j < |a|
      ensures !OccursAt(s, sep, j)
    {
      assert !OccursAt(a, sep, j);
      if j + |sep| <= |a| {
        assert s[j..j + |sep|] == a[j..j + |sep|];
      } else {
        assert s[|a|] == sep[0];
        var k := |a| - j;
        assert sep[k] == sep[1..][k - 1];
        assert s[j..j + |sep|][k] != sep[k];
      }
    }
    assert Index(s, sep) == |a|;
    assert s[..|a|] == a && s[|a| + |sep|..] == b;
  }

  lemma SplitNoMark(a: string, sep: string)
    requires sep != "" && !Contains(a, sep)
    ensures Split(a, sep) == [a]
  {
  }

  lemma FieldLine(name: string, value: string)
    requires ':' !in name && '\n' !in name
    requires !Contains(value, FIELD_MARK) && '\n' !in value
    ensures Split(name + FIELD_MARK + value, FIELD_MARK) == [name, value]
    ensures '\n' !in name + FIELD_MARK + value
  {
    NoColonNoMark(name);
    SplitAtMark(name, FIELD_MARK, value);
    SplitNoMark(value, FIELD_MARK);
  }

  lemma NoColonNoMark(s: string)
    requires ':' !in s
    ensures !Contains(s, FIELD_MARK)
  {
    forall i ensures !OccursAt(s, FIELD_MARK, i) {
      if 0 <= i && i + 2 <= |s| {
        assert s[i..i + 2][0] == s[i];
      }
    }
  }

  lemma ReadPrinted(j: Job)
    requires Printable(j)
    ensures ReadRecord(JobText(j)) == StatusRecord(j.status, j.id)
  {
    FieldLine("Status", j.status);
    SplitThree(j.id, j.start, "Status" + FIELD_MARK + j.status, '\n', j.command + "\n--\n");
  }

  function Texts(jobs: seq<Job>): (ts: seq<string>)
    ensures |ts| == |jobs|
    ensures forall i :: 0 <= i < |jobs| ==> ts[i] == JobText(jobs[i])
  {
    if jobs == [] then [] else [JobText(jobs[0])] + Texts(jobs[1..])
  }

  lemma {:induction false} ListingSections(head: string, jobs: seq<Job>)
    requires forall j :: j in jobs ==> Printable(j)
    requires !Contains(head, JOB_MARK)
    ensures Split(head + Listing(jobs), JOB_MARK) == [head] + Texts(jobs)
    decreases jobs
  {
    if jobs == [] {
      assert head + Listing(jobs) == head;
    } else {
      var first, rest := JobText(jobs[0]), jobs[1..];
      assert jobs[0] in jobs && forall j :: j in rest ==> j in jobs;
      ListingSections(first, rest);
      NextMark(head, first, Listing(rest));
      Assoc([head], [first], Texts(rest));
    }
  }

  lemma NextMark(a: string, f: string, g: string)
    requires !Contains(a, JOB_MARK)
    ensures Split(a + (JOB_MARK + f + g), JOB_MARK) == [a] + Split(f + g, JOB_MARK)
  {
    SplitAtMark(a, JOB_MARK, f + g);
    Assoc(JOB_MARK, f, g);
    Assoc(a, JOB_MARK, f + g);
  }

  /** Reading back a printed listing yields each job's record, in order. */
  lemma ReadListing(jobs: seq<Job>)
    requires forall j :: j in jobs ==> Printable(j)
    ensures |Records(Listing(jobs))| == |jobs|
    ensures forall i :: 0 <= i < |jobs| ==> Records(Listing(jobs))[i] == StatusRecord(jobs[i].status, jobs[i].id)
  {
    ListingSections("", jobs);
    assert "" + Listing(jobs) == Listing(jobs);
    forall i | 0 <= i < |jobs|
      ensures ReadRecord(Texts(jobs)[i]) == StatusRecord(jobs[i].status, jobs[i].id)
    {
      ReadPrinted(jobs[i]);
    }
  }

  /** A cancelled (or otherwise unlisted) job leaves no trace: the listing reads as if there were no job. */
  lemma CancelledReadsAsNotFound(jobs: seq<Job>)
    requires forall j :: j in jobs ==> Printable(j) && StatusRecord(j.status, j.id).Other?
    ensures Meaning(Records(Listing(jobs))) == ParsedList("", NotFound, false)
  {
    ReadListing(jobs);
    NothingToReport(Records(Listing(jobs)));
  }

  lemma NothingToReport(rs: seq<Record>)
    requires forall i :: 0 <= i < |rs| ==> rs[i].Other?
    ensures Meaning(rs) == ParsedList("", NotFound, false)
  {
  }

  // ---------------------------------------------------------------- the state the driver acts on

  datatype CommandResult = CommandResult(out: string, err: Option<string>)

  datatype JobReport = JobReport(state: JobState, percent: string, failed: bool)
  {
    /** The state is Error exactly when an error is returned with it. */
    predicate Consistent() {
      state.Error? <==> failed
    }
  }

  const ERROR_REPORT := JobReport(Error, "", true)

  /** parseAzcopyJobShow. */
  function ParseJobShow(jobshow: string): JobReport {
    var segments := Split(jobshow, FIELD_MARK);
    if |segments| < 2 then ERROR_REPORT
    else JobReport(Running, RemoveChar(segments[1], '\n'), false)
  }

  function RemoveChar(s: string, c: char): (r: string)
    ensures c !in r
  {
    if s == "" then "" else if s[0] == c then RemoveChar(s[1..], c) else [s[0]] + RemoveChar(s[1..], c)
  }

  /** What the parser promises of its three results. */
  predicate Fits(parsed: ParsedList) {
    && (parsed.state.Error? <==> parsed.failed)
    && (parsed.state.Running? || parsed.state.NotFound? ==> (parsed.state.Running? <==> parsed.jobid != ""))
  }

  lemma MeaningFits(joblist: string)
    ensures Fits(Meaning(Records(joblist)))
  {
    RunningExactly(joblist);
  }

  /** What becomes of a listing once it is parsed. */
  function ReportOf(parsed: ParsedList, show: CommandResult): (r: JobReport)
    requires Fits(parsed)
    ensures r.Consistent()
    ensures r.state.NotFound? ==> parsed.state.NotFound?
    ensures parsed.state.IsCompleted() ==> r == JobReport(parsed.state, "100.0", false)
    ensures r.state.IsCompleted() ==> r.state == parsed.state
    ensures r.state.Running? ==> parsed.state.Running? && show.err.None?
  {
    if parsed.failed || parsed.state.Error? then ERROR_REPORT
    else if parsed.state.IsCompleted() then JobReport(parsed.state, "100.0", false)
    else if parsed.jobid == "" then JobReport(parsed.state, "", false)
    else if show.err.Some? then ERROR_REPORT
    else ParseJobShow(show.out)
  }

  /** GetAzcopyJob, given what the list command and (if it is reached) the show command return.
      grep's "exit status 1" only means that no line matched. */
  function GetAzcopyJob(list: CommandResult, show: CommandResult): (r: JobReport)
    ensures r.Consistent()
    ensures list.err.Some? && list.err.value != "exit status 1" ==> r.failed
    ensures r.state.NotFound? ==> Meaning(Records(list.out)).state.NotFound?
    ensures r.state.IsCompleted() ==> r.state == Meaning(Records(list.out)).state && r.percent == "100.0"
    ensures r.state.Running? ==> Meaning(Records(list.out)).state.Running? && show.err.None?
  {
    if list.err.Some? && list.err.value != "exit status 1" then ERROR_REPORT
    else
      MeaningFits(list.out);
      ReportOf(Meaning(Records(list.out)), show)
  }

  /** A finished job is reported. */
  lemma CompletedReport(list: CommandResult, show: CommandResult)
    requires list.err.None? && Meaning(Records(list.out)).state.IsCompleted()
    ensures GetAzcopyJob(list, show) == JobReport(Meaning(Records(list.out)).state, "100.0", false)
  {
    MeaningFits(list.out);
  }

  /** A running job is reported, if azcopy shows its progress. */
  lemma RunningReport(list: CommandResult, show: CommandResult)
    requires list.err.None? && Meaning(Records(list.out)).state.Running?
    requires show.err.None? && |Split(show.out, FIELD_MARK)| >= 2
    ensures GetAzcopyJob(list, show).state.Running?
  {
    MeaningFits(list.out);
  }

  /** No settling record and no job in progress: NotFound is reported, without an error. */
  lemma NotFoundReport(list: CommandResult, show: CommandResult)
    requires list.err.None? && Meaning(Records(list.out)) == ParsedList("", NotFound, false)
    ensures GetAzcopyJob(list, show) == JobReport(NotFound, "", false)
  {
    MeaningFits(list.out);
  }

  lemma CancelledIsOther(id: string)
    ensures StatusRecord("Cancelled", id).Other?
  {
    assert "Cancelled"[1] == 'a';
  }

  lemma CancelledReport(jobs: seq<Job>, show: CommandResult)
    requires forall j :: j in jobs ==> Printable(j) && j.status == "Cancelled"
    ensures GetAzcopyJob(CommandResult(Listing(jobs), None), show).state.NotFound?
  {
    forall j | j in jobs ensures Printable(j) && StatusRecord(j.status, j.id).Other? {
      CancelledIsOther(j.id);
    }
    CancelledReadsAsNotFound(jobs);
    NotFoundReport(CommandResult(Listing(jobs), None), show);
  }
}
