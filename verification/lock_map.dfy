/** LockMap: a map from entries to mutexes, itself guarded by an outer mutex, used by any number of goroutines.
    Each step is one atomic action of one goroutine. */
module LockMap {
  import opened Wrappers

  type Pid = nat
  type Entry = string
  type MutexId = nat

  datatype Op = Lock(entry: Entry) | Unlock(entry: Entry)

  /** Where a goroutine is inside LockEntry or UnlockEntry. */
  datatype PC =
    | Idle
    | WantOuter(op: Op)                       // blocked on the outer mutex
    | Inside(op: Op)                          // outer mutex held, map not yet looked at
    | Leaving(op: Op)                         // outer mutex held, about to be released
    | Fetch(entry: Entry)                     // outer mutex released, about to read the map
    | WaitEntry(entry: Entry, mutex: MutexId) // blocked on the entry's mutex

  /** `locked` says which mutexes are locked; `holders` records whose LockEntry returned and was not yet undone. */
  datatype State = State(
    outer: Option<Pid>,
    table: map<Entry, MutexId>,
    locked: set<MutexId>,
    next: MutexId,
    pcs: map<Pid, PC>,
    holders: set<(Pid, Entry)>)
  {
    function At(p: Pid): PC {
      if p in pcs then pcs[p] else Idle
    }

    predicate Holds(p: Pid, e: Entry) {
      (p, e) in holders
    }

    function Goto(p: Pid, pc: PC): State {
      this.(pcs := pcs[p := pc])
    }
  }

  ghost predicate Init(s: State) {
    s == State(None, map[], {}, 0, map[], {})
  }

  datatype Step =
    | CallLock(p: Pid, entry: Entry)
    | CallUnlock(p: Pid, entry: Entry)
    | TakeOuter(p: Pid)
    | Act(p: Pid)
    | ReleaseOuter(p: Pid)
    | ReadMap(p: Pid)
    | TakeEntry(p: Pid)

  /** Only a holder calls UnlockEntry. Acting on an unlocked mutex, or reading a missing entry, would crash. */
  predicate Enabled(s: State, step: Step) {
    match step
    case CallLock(p, e) => s.At(p).Idle?
    case CallUnlock(p, e) => s.At(p).Idle? && s.Holds(p, e)
    case TakeOuter(p) => s.At(p).WantOuter? && s.outer.None?
    case Act(p) =>
      && s.At(p).Inside?
      && (s.At(p).op.Unlock? && s.At(p).op.entry in s.table ==> s.table[s.At(p).op.entry] in s.locked)
    case ReleaseOuter(p) => s.At(p).Leaving?
    case ReadMap(p) => s.At(p).Fetch? && s.At(p).entry in s.table
    case TakeEntry(p) => s.At(p).WaitEntry? && s.At(p).mutex !in s.locked
  }

  function Apply(s: State, step: Step): State
    requires Enabled(s, step)
  {
    match step
    case CallLock(p, e) => s.Goto(p, WantOuter(Lock(e)))
    case CallUnlock(p, e) => s.Goto(p, WantOuter(Unlock(e)))
    case TakeOuter(p) => s.(outer := Some(p)).Goto(p, Inside(s.At(p).op))
    case Act(p) =>
      var op := s.At(p).op;
      var moved := s.Goto(p, Leaving(op));
      if op.Lock? then
        if op.entry in s.table then moved
        else moved.(table := s.table[op.entry := s.next], next := s.next + 1)
      else if op.entry in s.table then
        moved.(locked := s.locked - {s.table[op.entry]}, holders := s.holders - {(p, op.entry)})
      else moved
    case ReleaseOuter(p) =>
      var op := s.At(p).op;
      s.(outer := None).Goto(p, if op.Lock? then Fetch(op.entry) else Idle)
    case ReadMap(p) => s.Goto(p, WaitEntry(s.At(p).entry, s.table[s.At(p).entry]))
    case TakeEntry(p) =>
      s.(locked := s.locked + {s.At(p).mutex}, holders := s.holders + {(p, s.At(p).entry)}).Goto(p, Idle)
  }

  /** Performing the steps in order leads from s to t. */
  ghost predicate Runs(s: State, steps: seq<Step>, t: State)
    decreases |steps|
  {
    if steps == [] then t == s
    else Enabled(s, steps[0]) && Runs(Apply(s, steps[0]), steps[1..], t)
  }

  // ---------------------------------------------------------------- invariant

  ghost predicate OuterOk(s: State) {
    forall p: Pid :: s.outer == Some(p) <==> s.At(p).Inside? || s.At(p).Leaving?
  }

  ghost predicate TableOk(s: State) {
    && (forall e :: e in s.table ==> s.table[e] < s.next)
    && (forall e, f :: e in s.table && f in s.table && s.table[e] == s.table[f] ==> e == f)
  }

  /** A mutex is locked exactly when its entry has a holder, and then it has one. */
  ghost predicate HoldersOk(s: State) {
    && (forall p, e :: s.Holds(p, e) ==> e in s.table && s.table[e] in s.locked)
    && (forall p, q, e :: s.Holds(p, e) && s.Holds(q, e) ==> p == q)
    && (forall m :: m in s.locked ==> exists p, e :: s.Holds(p, e) && e in s.table && s.table[e] == m)
  }

  ghost predicate PcOk(s: State, p: Pid) {
    match s.At(p)
    case WantOuter(Unlock(e)) => s.Holds(p, e)
    case Inside(Unlock(e)) => s.Holds(p, e)
    case Leaving(Lock(e)) => e in s.table
    case Fetch(e) => e in s.table
    case WaitEntry(e, m) => e in s.table && s.table[e] == m
    case _ => true
  }

  ghost predicate Inv(s: State) {
    OuterOk(s) && TableOk(s) && HoldersOk(s) && forall p :: PcOk(s, p)
  }

  lemma StepKeepsOuter(s: State, step: Step)
    requires Inv(s) && Enabled(s, step)
    ensures OuterOk(Apply(s, step))
  {
  }

  lemma StepKeepsTable(s: State, step: Step)
    requires Inv(s) && Enabled(s, step)
    ensures TableOk(Apply(s, step))
    ensures forall e :: e in s.table ==> e in Apply(s, step).table && Apply(s, step).table[e] == s.table[e]
  {
  }

  lemma StepKeepsHolders(s: State, step: Step)
    requires Inv(s) && Enabled(s, step)
    ensures HoldersOk(Apply(s, step))
  {
    assert PcOk(s, step.p);
    match step {
      case TakeEntry(p) => TakeKeepsHolders(s, p);
      case Act(p) => ActKeepsHolders(s, p);
      case _ =>
        var t := Apply(s, step);
        assert t.holders == s.holders && t.table == s.table && t.locked == s.locked;
        assert forall p, e :: t.Holds(p, e) <==> s.Holds(p, e);
    }
  }

  lemma TakeKeepsHolders(s: State, p: Pid)
    requires Inv(s) && Enabled(s, TakeEntry(p))
    ensures HoldersOk(Apply(s, TakeEntry(p)))
  {
    var t := Apply(s, TakeEntry(p));
    assert PcOk(s, p) && t.Holds(p, s.At(p).entry);
    assert forall q, e :: t.Holds(q, e) <==> s.Holds(q, e) || (q == p && e == s.At(p).entry);
    forall m | m in t.locked
      ensures exists q, e :: t.Holds(q, e) && e in t.table && t.table[e] == m
    {
      if m in s.locked {
        var q, e :| s.Holds(q, e) && e in s.table && s.table[e] == m;
        assert t.Holds(q, e);
      }
    }
  }

  lemma ActKeepsHolders(s: State, p: Pid)
    requires Inv(s) && Enabled(s, Act(p))
    ensures HoldersOk(Apply(s, Act(p)))
  {
    var t := Apply(s, Act(p));
    assert PcOk(s, p);
    assert forall q, e :: t.Holds(q, e) <==> s.Holds(q, e) && (s.At(p).op.Lock? || q != p || e != s.At(p).op.entry);
    forall m | m in t.locked
      ensures exists q, e :: t.Holds(q, e) && e in t.table && t.table[e] == m
    {
      var q, e :| s.Holds(q, e) && e in s.table && s.table[e] == m;
      assert t.Holds(q, e);
    }
  }

  lemma StepKeepsPcs(s: State, step: Step)
    requires Inv(s) && Enabled(s, step)
    ensures forall p :: PcOk(Apply(s, step), p)
  {
    forall p ensures PcOk(Apply(s, step), p) {
      assert PcOk(s, p) && PcOk(s, step.p);
    }
  }

  lemma {:induction false} RunsKeepInv(s: State, steps: seq<Step>, t: State)
    requires Inv(s) && Runs(s, steps, t)
    ensures Inv(t)
    decreases |steps|
  {
    if steps != [] {
      StepKeepsOuter(s, steps[0]);
      StepKeepsTable(s, steps[0]);
      StepKeepsHolders(s, steps[0]);
      StepKeepsPcs(s, steps[0]);
      RunsKeepInv(Apply(s, steps[0]), steps[1..], t);
    }
  }

  lemma InitInv(s: State)
    requires Init(s)
    ensures Inv(s)
  {
  }

  // ---------------------------------------------------------------- what holds over every run

  /** Each entry has at most one holder, and no goroutine waiting for an entry holds the outer mutex. */
  lemma MutualExclusion(s: State, steps: seq<Step>, t: State, p: Pid, q: Pid, e: Entry)
    requires Init(s) && Runs(s, steps, t)
    ensures t.Holds(p, e) && t.Holds(q, e) ==> p == q
    ensures t.At(p).WaitEntry? || t.At(p).Fetch? ==> t.outer != Some(p)
    ensures t.Holds(p, e) ==> e in t.table && t.table[e] in t.locked
  {
    InitInv(s);
    RunsKeepInv(s, steps, t);
  }

  /** An entry's mutex never changes once added. */
  lemma MutexIsFixed(s: State, before: seq<Step>, t: State, after: seq<Step>, u: State, e: Entry)
    requires Init(s) && Runs(s, before, t) && Runs(t, after, u)
    requires e in t.table
    ensures e in u.table && u.table[e] == t.table[e]
  {
    InitInv(s);
    RunsKeepInv(s, before, t);
    TableGrows(t, after, u);
  }

  lemma {:induction false} TableGrows(s: State, steps: seq<Step>, t: State)
    requires Inv(s) && Runs(s, steps, t)
    ensures forall e :: e in s.table ==> e in t.table && t.table[e] == s.table[e]
    decreases |steps|
  {
    if steps != [] {
      var u := Apply(s, steps[0]);
      RunsKeepInv(s, [steps[0]], u) by {
        assert Runs(u, [], u) && [steps[0]][1..] == [];
      }
      StepKeepsTable(s, steps[0]);
      TableGrows(u, steps[1..], t);
    }
  }

  /** The next step of a goroutine that is inside LockEntry or UnlockEntry. */
  function NextStep(pc: PC, p: Pid): Step
    requires !pc.Idle?
  {
    match pc
    case WantOuter(_) => TakeOuter(p)
    case Inside(_) => Act(p)
    case Leaving(_) => ReleaseOuter(p)
    case Fetch(_) => ReadMap(p)
    case WaitEntry(_, _) => TakeEntry(p)
  }

  /** A goroutine inside an operation is stuck exactly when it waits for the outer mutex, whose owner can always go on,
      or for an entry that some goroutine holds. So nothing in the map itself can deadlock. */
  lemma StuckExactly(s: State, steps: seq<Step>, t: State, p: Pid)
    requires Init(s) && Runs(s, steps, t) && !t.At(p).Idle?
    ensures !Enabled(t, NextStep(t.At(p), p)) <==>
            || (t.At(p).WantOuter? && exists q: Pid :: t.outer == Some(q))
            || (t.At(p).WaitEntry? && exists q :: t.Holds(q, t.At(p).entry))
    ensures forall q: Pid :: t.outer == Some(q) ==> !t.At(q).Idle? && Enabled(t, NextStep(t.At(q), q))
  {
    InitInv(s);
    RunsKeepInv(s, steps, t);
    assert PcOk(t, p);
    if t.At(p).WantOuter? && t.outer.Some? {
      assert t.outer == Some(t.outer.value);
    }
    if t.At(p).WaitEntry? && t.At(p).mutex in t.locked {
      var q, e :| t.Holds(q, e) && e in t.table && t.table[e] == t.At(p).mutex;
      assert e == t.At(p).entry;
    }
    forall q: Pid | t.outer == Some(q)
      ensures !t.At(q).Idle? && Enabled(t, NextStep(t.At(q), q))
    {
      assert PcOk(t, q);
    }
  }

  // ---------------------------------------------------------------- what a finished call has achieved

  /** The last call of a goroutine in a run. */
  function LastCall(steps: seq<Step>, p: Pid): Option<Op> {
    if steps == [] then None
    else
      match steps[|steps| - 1]
      case CallLock(q, e) => if q == p then Some(Lock(e)) else LastCall(steps[..|steps| - 1], p)
      case CallUnlock(q, e) => if q == p then Some(Unlock(e)) else LastCall(steps[..|steps| - 1], p)
      case _ => LastCall(steps[..|steps| - 1], p)
  }

  /** The goroutine is on its way through the call, or is through and has what it asked for. */
  ghost predicate IsDoing(s: State, p: Pid, call: Option<Op>) {
    match call
    case None => s.At(p).Idle?
    case Some(Lock(e)) =>
      || s.At(p) in {WantOuter(Lock(e)), Inside(Lock(e)), Leaving(Lock(e)), Fetch(e)}
      || (s.At(p).WaitEntry? && s.At(p).entry == e)
      || (s.At(p).Idle? && s.Holds(p, e))
    case Some(Unlock(e)) =>
      || s.At(p) in {WantOuter(Unlock(e)), Inside(Unlock(e))}
      || ((s.At(p).Idle? || s.At(p) == Leaving(Unlock(e))) && !s.Holds(p, e))
  }

  function CallOf(step: Step, p: Pid, before: Option<Op>): Option<Op> {
    match step
    case CallLock(q, e) => if q == p then Some(Lock(e)) else before
    case CallUnlock(q, e) => if q == p then Some(Unlock(e)) else before
    case _ => before
  }

  lemma StepKeepsDoing(s: State, step: Step, p: Pid, call: Option<Op>)
    requires Inv(s) && Enabled(s, step) && IsDoing(s, p, call)
    ensures IsDoing(Apply(s, step), p, CallOf(step, p, call))
  {
    assert PcOk(s, p);
    if step.p == p {
      assert PcOk(s, step.p);
    } else {
      OthersKeepDoing(s, step, p);
    }
  }

  lemma OthersKeepDoing(s: State, step: Step, p: Pid)
    requires Enabled(s, step) && step.p != p
    ensures Apply(s, step).At(p) == s.At(p)
    ensures forall e :: Apply(s, step).Holds(p, e) <==> s.Holds(p, e)
  {
  }

  lemma {:induction false} RunsKeepDoing(s: State, before: seq<Step>, steps: seq<Step>, t: State, p: Pid)
    requires Inv(s) && IsDoing(s, p, LastCall(before, p)) && Runs(s, steps, t)
    ensures IsDoing(t, p, LastCall(before + steps, p))
    decreases |steps|
  {
    if steps == [] {
      assert before + steps == before;
    } else {
      var u := Apply(s, steps[0]);
      StepKeepsDoing(s, steps[0], p, LastCall(before, p));
      assert (before + [steps[0]])[..|before|] == before;
      assert Runs(u, [], u) && [steps[0]][1..] == [];
      RunsKeepInv(s, [steps[0]], u);
      RunsKeepDoing(u, before + [steps[0]], steps[1..], t, p);
      assert before + [steps[0]] + steps[1..] == before + steps;
    }
  }

  /** Over every run: a goroutine whose LockEntry has returned, and was its last call, holds the entry; one whose UnlockEntry
      has, does not. */
  lemma FinishedCallsAchieve(s: State, steps: seq<Step>, t: State, p: Pid, e: Entry)
    requires Init(s) && Runs(s, steps, t) && t.At(p).Idle?
    ensures LastCall(steps, p) == Some(Lock(e)) ==> t.Holds(p, e)
    ensures LastCall(steps, p) == Some(Unlock(e)) ==> !t.Holds(p, e)
  {
    InitInv(s);
    RunsKeepDoing(s, [], steps, t, p);
    assert [] + steps == steps;
  }

  /** From every reachable state, a goroutine that is idle can get an entry that nobody holds, in at most eight steps. */
  lemma LockCanProceed(init: State, before: seq<Step>, s: State, p: Pid, e: Entry) returns (steps: seq<Step>, t: State)
    requires Init(init) && Runs(init, before, s)
    requires s.At(p).Idle? && forall q: Pid :: !s.Holds(q, e)
    ensures Runs(s, steps, t) && |steps| <= 8
    ensures t.At(p).Idle? && t.Holds(p, e)
  {
    InitInv(init);
    RunsKeepInv(init, before, s);
    var first, u := FreeOuter(s);
    assert u.At(p).Idle? && forall q: Pid :: !u.Holds(q, e);
    var last;
    last, t := LockFromFree(u, p, e);
    steps := first + last;
    RunsCompose(s, first, u, last, t);
  }

  lemma LockFromFree(u: State, p: Pid, e: Entry) returns (steps: seq<Step>, t: State)
    requires Inv(u) && u.outer.None? && u.At(p).Idle? && forall q: Pid :: !u.Holds(q, e)
    ensures Runs(u, steps, t) && |steps| == 6 && t.At(p).Idle? && t.Holds(p, e)
  {
    var u1 := Apply(u, CallLock(p, e));
    var u2 := Apply(u1, TakeOuter(p));
    var u3 := Apply(u2, Act(p));
    var u4 := Apply(u3, ReleaseOuter(p));
    var u5 := Apply(u4, ReadMap(p));
    EntryIsFree(u, e);
    t := Apply(u5, TakeEntry(p));
    assert Runs(t, [], t);
    steps := Prepend(u5, TakeEntry(p), [], t);
    steps := Prepend(u4, ReadMap(p), steps, t);
    steps := Prepend(u3, ReleaseOuter(p), steps, t);
    steps := Prepend(u2, Act(p), steps, t);
    steps := Prepend(u1, TakeOuter(p), steps, t);
    steps := Prepend(u, CallLock(p, e), steps, t);
  }

  /** A mutex that nobody holds is not locked, nor is one that is still to be made. */
  lemma EntryIsFree(s: State, e: Entry)
    requires Inv(s) && forall q: Pid :: !s.Holds(q, e)
    ensures e in s.table ==> s.table[e] !in s.locked
    ensures s.next !in s.locked
  {
    forall m | m in s.locked ensures m != s.next && (e in s.table ==> s.table[e] != m) {
      var q, f :| s.Holds(q, f) && f in s.table && s.table[f] == m;
    }
  }

  lemma Prepend(s: State, step: Step, rest: seq<Step>, t: State) returns (steps: seq<Step>)
    requires Enabled(s, step) && Runs(Apply(s, step), rest, t)
    ensures Runs(s, steps, t) && steps == [step] + rest
  {
    steps := [step] + rest;
    assert steps[1..] == rest;
  }

  /** While another goroutine holds the entry, none gets through: a LockEntry of p that has not returned by now does not
      return before the holder has called UnlockEntry. */
  lemma {:induction false} LockWaits(s: State, steps: seq<Step>, t: State, p: Pid, q: Pid, e: Entry)
    requires Inv(s) && Runs(s, steps, t) && p != q && s.Holds(q, e) && !s.Holds(p, e) && IsDoing(s, p, Some(Lock(e)))
    requires s.At(q).Idle? && forall step :: step in steps ==> step.p != q
    ensures !t.At(p).Idle? && t.Holds(q, e) && !t.Holds(p, e) && IsDoing(t, p, Some(Lock(e)))
    decreases |steps|
  {
    if steps != [] {
      var u := Apply(s, steps[0]);
      assert steps[0] in steps;
      StepKeepsDoing(s, steps[0], p, Some(Lock(e)));
      OthersKeepDoing(s, steps[0], q);
      assert Runs(u, [], u) && [steps[0]][1..] == [];
      RunsKeepInv(s, [steps[0]], u);
      assert CallOf(steps[0], p, Some(Lock(e))) == Some(Lock(e));
      assert forall step :: step in steps[1..] ==> step in steps;
      LockWaits(u, steps[1..], t, p, q, e);
    }
  }

  /** Whatever the others are doing, an idle holder's UnlockEntry can be carried through in at most six steps,
      and frees the entry's mutex for the next waiter. */
  lemma UnlockCanProceed(init: State, before: seq<Step>, s: State, p: Pid, e: Entry)
    returns (steps: seq<Step>, t: State)
    requires Init(init) && Runs(init, before, s)
    requires s.At(p).Idle? && s.Holds(p, e)
    ensures Runs(s, steps, t) && |steps| <= 6
    ensures t.At(p).Idle? && !t.Holds(p, e)
    ensures e in s.table && e in t.table && t.table[e] == s.table[e] && t.table[e] !in t.locked
    ensures forall q, m :: s.At(q) == WaitEntry(e, m) ==> Enabled(t, TakeEntry(q))
  {
    InitInv(init);
    RunsKeepInv(init, before, s);
    var first, u := FreeOuter(s);
    var u1 := Apply(u, CallUnlock(p, e));
    var u2 := Apply(u1, TakeOuter(p));
    assert u2.At(p) == Inside(Unlock(e)) && u2.table[e] in u2.locked;
    var u3 := Apply(u2, Act(p));
    t := Apply(u3, ReleaseOuter(p));
    var last := [CallUnlock(p, e), TakeOuter(p), Act(p), ReleaseOuter(p)];
    assert Runs(u3, [ReleaseOuter(p)], t) by { assert Runs(t, [], t); }
    assert Runs(u2, [Act(p), ReleaseOuter(p)], t) by { assert last[2..][1..] == [ReleaseOuter(p)]; }
    assert Runs(u1, last[1..], t) by { assert last[1..][1..] == [Act(p), ReleaseOuter(p)]; }
    assert Runs(u, last, t);
    steps := first + last;
    RunsCompose(s, first, u, last, t);
    forall q, m | s.At(q) == WaitEntry(e, m)
      ensures Enabled(t, TakeEntry(q))
    {
      assert PcOk(s, q);
      assert u.At(q) == s.At(q) && t.At(q) == s.At(q);
    }
  }

  /** The owner of the outer mutex releases it within two of its own steps. */
  lemma FreeOuter(s: State) returns (steps: seq<Step>, t: State)
    requires Inv(s)
    ensures Runs(s, steps, t) && |steps| <= 2 && Inv(t) && t.outer.None?
    ensures forall e :: e in s.table ==> e in t.table && t.table[e] == s.table[e]
    ensures forall q: Pid :: s.outer != Some(q) ==> t.At(q) == s.At(q)
    ensures forall q: Pid, e :: s.outer != Some(q) ==> (t.Holds(q, e) <==> s.Holds(q, e))
    ensures forall q: Pid, e :: t.Holds(q, e) ==> s.Holds(q, e)
  {
    if s.outer.None? {
      steps, t := [], s;
    } else {
      var q := s.outer.value;
      assert s.outer == Some(q) && PcOk(s, q);
      var u := s;
      steps := [];
      if s.At(q).Inside? {
        u := Apply(s, Act(q));
        steps := [Act(q)];
      }
      t := Apply(u, ReleaseOuter(q));
      steps := steps + [ReleaseOuter(q)];
      assert Runs(u, [ReleaseOuter(q)], t) by { assert Runs(t, [], t); }
      assert steps == [ReleaseOuter(q)] || (steps == [Act(q), ReleaseOuter(q)] && steps[1..] == [ReleaseOuter(q)]);
      RunsKeepInv(s, steps, t);
    }
  }

  lemma {:induction false} RunsCompose(s: State, first: seq<Step>, u: State, last: seq<Step>, t: State)
    requires Runs(s, first, u) && Runs(u, last, t)
    ensures Runs(s, first + last, t)
    decreases |first|
  {
    if first == [] {
      assert first + last == last;
    } else {
      assert (first + last)[1..] == first[1..] + last;
      RunsCompose(Apply(s, first[0]), first[1..], u, last, t);
    }
  }
}
