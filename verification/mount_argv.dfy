/** From the option list to the argument vector of blobfuse: the list is joined with spaces into one string,
    runs of white space are collapsed, and the string is split at single spaces. */
module MountArgv {
  import opened Text
  import opened MountOptions

  /** The two shapes an option may have: one word, or "-o" with its value after some white space. */
  predicate IsFuse(o: string) {
    HasPrefix(o, "-o ") && IsWord(TrimLeft(o[3..]))
  }

  predicate IsShaped(o: string) {
    IsWord(o) || IsFuse(o)
  }

  /** The arguments that an option stands for. */
  function ArgvOf(o: string): seq<string> {
    if IsFuse(o) then ["-o", TrimLeft(o[3..])] else [o]
  }

  function ArgvOfAll(os: seq<string>): seq<string> {
    if os == [] then [] else ArgvOf(os[0]) + ArgvOfAll(os[1..])
  }

  /** The loop in NodeStageVolume. */
  method BuildArgs(target: string, os: seq<string>) returns (args: string)
    ensures args == Join([target] + os, " ")
  {
    args := target;
    var i := 0;
    while i < |os|
      invariant 0 <= i <= |os|
      invariant args == Join([target] + os[..i], " ")
    {
      JoinSnoc([target] + os[..i], os[i]);
      assert [target] + os[..i] + [os[i]] == [target] + os[..i + 1];
      args := args + " " + os[i];
      i := i + 1;
    }
    assert os[..i] == os;
  }

  lemma {:induction false} JoinSnoc(ws: seq<string>, w: string)
    requires ws != []
    ensures Join(ws + [w], " ") == Join(ws, " ") + " " + w
    decreases |ws|
  {
    if |ws| == 1 {
      assert (ws + [w])[1..] == [w];
    } else {
      assert (ws + [w])[1..] == ws[1..] + [w];
      JoinSnoc(ws[1..], w);
      assert ws[0] + " " + (Join(ws[1..], " ") + " " + w) == ws[0] + " " + Join(ws[1..], " ") + " " + w;
    }
  }

  /** What the proxy and the driver split the string into. */
  function Argv(args: string): seq<string> {
    Split(CollapseSpaces(args), " ")
  }

  /** Every space in the text is one that the regular expression \s knows. */
  predicate PlainSpaces(s: string) {
    forall i :: 0 <= i < |s| && IsSpace(s[i]) ==> IsRegexSpace(s[i])
  }

  predicate AllPlain(os: seq<string>) {
    forall o :: o in os ==> PlainSpaces(o)
  }

  // ---------------------------------------------------------------- accepted tokens have the right shape

  lemma AcceptedIsShaped(allowed: FlagSet, t: string)
    requires t != "" && IsTrimmed(t) && Accepts(allowed, t)
    ensures IsShaped(t)
  {
    if HasPrefix(t, "-o ") {
      AcceptedFuse(t);
    } else {
      AcceptedFlag(allowed, t);
    }
  }

  lemma AcceptedFuse(t: string)
    requires HasPrefix(t, "-o ") && IsTrimmed(t) && AcceptsFuse(t)
    ensures IsFuse(t)
  {
    var rest := t[3..];
    assert t == "-o " + rest;
    assert rest != "" && rest[|rest| - 1] == t[|t| - 1];
    TrimLeftLast(rest);
  }

  lemma {:induction false} TrimLeftLast(s: string)
    requires s != "" && !IsSpace(s[|s| - 1])
    ensures TrimLeft(s) != "" && TrimSpace(s) == TrimLeft(s)
  {
    if IsSpace(s[0]) {
      TrimLeftLast(s[1..]);
    }
  }

  lemma AcceptedFlag(allowed: FlagSet, t: string)
    requires t != "" && AcceptsFlag(allowed, t)
    ensures IsWord(t)
  {
    var i := Index(t, "=");
    assert IsWord(FlagName(t));
    if i != -1 {
      CutOut(t, i, "=");
      assert t == FlagName(t) + "=" + FlagValue(t) && SpaceFree("=");
      SpaceFreeAppend(FlagName(t), "=");
      SpaceFreeAppend(FlagName(t) + "=", FlagValue(t));
    }
  }

  /** Whatever the checked list was joined with, its elements are accepted tokens; so are all their shapes. */
  lemma SanitizedIsShaped(allowed: FlagSet, tokens: seq<string>)
    requires AllAccepted(allowed, Pieces(tokens))
    ensures forall t :: t in Pieces(tokens) ==> IsShaped(t)
  {
    forall t | t in Pieces(tokens) ensures IsShaped(t) {
      PiecesTrimmed(tokens);
      AcceptedIsShaped(allowed, t);
    }
  }

  lemma {:induction false} PiecesTrimmed(parts: seq<string>)
    ensures forall p :: p in Pieces(parts) ==> p != "" && IsTrimmed(p)
  {
    if parts != [] {
      PiecesTrimmed(parts[..|parts| - 1]);
    }
  }

  /** ValidateMountArgValues, the last check before mounting. */
  predicate PassesLastCheck(o: string) {
    HasValue(TrimSpace(o)) ==> SpaceFree(FlagValue(TrimSpace(o)))
  }

  // ---------------------------------------------------------------- fields and arguments of one option

  lemma {:induction false} FieldsSkip(s: string)
    ensures Fields(s) == Fields(TrimLeft(s))
  {
    if s != "" && IsSpace(s[0]) {
      FieldsSkip(s[1..]);
    }
  }

  lemma FieldsOfShaped(o: string)
    requires IsShaped(o)
    ensures Fields(o) == ArgvOf(o)
  {
    if IsFuse(o) {
      var rest := o[3..];
      assert o == "-o" + [' '] + rest;
      FieldsHead("-o", ' ', rest);
      FieldsSkip(rest);
      FieldsWord(TrimLeft(rest));
    } else {
      FieldsWord(o);
    }
  }

  /** A shaped option with plain spaces is split into exactly its arguments. */
  lemma ArgvOfPlain(o: string)
    requires IsShaped(o) && PlainSpaces(o)
    ensures Argv(o) == ArgvOf(o)
  {
    if IsFuse(o) {
      var v := TrimLeft(o[3..]);
      CollapseFuse(o);
      SplitHead("-o", ' ', v);
      SplitNone(v, ' ');
    } else {
      CollapseWord(o);
      SplitNone(o, ' ');
    }
  }

  lemma CollapseFuse(o: string)
    requires IsFuse(o) && PlainSpaces(o)
    ensures CollapseSpaces(o) == "-o" + [' '] + TrimLeft(o[3..])
  {
    var v := TrimLeft(o[3..]);
    var g := TrimLeftParts(o[3..]);
    var gap := " " + g;
    assert o == "-o" + gap + v;
    forall i | 0 <= i < |gap| ensures IsRegexSpace(gap[i]) {
      assert gap[i] == o[2 + i];
      assert i > 0 ==> gap[i] == g[i - 1];
    }
    CollapseGap("-o", gap, v);
    CollapseWord("-o");
    CollapseWord(v);
  }

  /** Characters that are no regex spaces survive collapsing. */
  lemma {:induction false} CollapseKeeps(s: string, c: char)
    requires c in s && !IsRegexSpace(c)
    ensures c in CollapseSpaces(s)
  {
    if s[0] != c {
      assert s == [s[0]] + s[1..];
      CollapseKeeps(s[1..], c);
    }
  }

  lemma {:induction false} JoinHasOnly(ws: seq<string>, c: char)
    requires c != ' ' && forall w :: w in ws ==> c !in w
    ensures c !in Join(ws, " ")
  {
    if |ws| > 1 {
      JoinHasOnly(ws[1..], c);
    }
  }

  /** Words stand for themselves. */
  lemma {:induction false} ArgvOfWords(os: seq<string>, ws: seq<string>)
    requires forall w :: w in ws ==> IsWord(w)
    ensures ArgvOfAll(os + ws) == ArgvOfAll(os) + ws
    decreases |os| + |ws|
  {
    if os != [] {
      assert (os + ws)[1..] == os[1..] + ws;
      ArgvOfWords(os[1..], ws);
      Assoc(ArgvOf(os[0]), ArgvOfAll(os[1..]), ws);
    } else if ws != [] {
      assert os + ws == ws;
      assert [] + ws[1..] == ws[1..];
      ArgvOfWords([], ws[1..]);
      WordIsNotFuse(ws[0]);
    } else {
      assert os + ws == [];
    }
  }

  // ---------------------------------------------------------------- the whole argument vector

  lemma {:induction false} ArgvJoin(os: seq<string>)
    requires os != [] && forall o :: o in os ==> IsShaped(o) && PlainSpaces(o)
    ensures Argv(Join(os, " ")) == ArgvOfAll(os)
  {
    if |os| == 1 {
      ArgvOfPlain(os[0]);
      assert ArgvOfAll(os[1..]) == [];
    } else {
      var rest := Join(os[1..], " ");
      ArgvJoin(os[1..]);
      ArgvOfPlain(os[0]);
      ShapedEnds(os[0]);
      ShapedEnds(os[1]);
      JoinStarts(os[1..]);
      CollapseGap(os[0], " ", rest);
      SplitAppend(CollapseSpaces(os[0]), ' ', CollapseSpaces(rest));
    }
  }

  lemma ShapedEnds(o: string)
    requires IsShaped(o)
    ensures o != "" && !IsRegexSpace(o[0]) && !IsRegexSpace(o[|o| - 1])
  {
    if IsFuse(o) {
      var g := TrimLeftParts(o[3..]);
      assert o == "-o " + g + TrimLeft(o[3..]);
    }
  }

  lemma JoinStarts(ws: seq<string>)
    requires ws != [] && ws[0] != ""
    ensures Join(ws, " ") != "" && Join(ws, " ")[0] == ws[0][0]
  {
  }

  lemma {:induction false} FieldsOfJoin(os: seq<string>)
    requires forall o :: o in os ==> IsShaped(o)
    ensures Fields(Join(os, " ")) == ArgvOfAll(os)
    ensures forall w :: w in ArgvOfAll(os) ==> IsWord(w)
  {
    if os != [] {
      FieldsOfShaped(os[0]);
      FieldsOfJoin(os[1..]);
      if |os| > 1 {
        FieldsAppend(os[0], ' ', Join(os[1..], " "));
      } else {
        assert ArgvOfAll(os[1..]) == [];
      }
    }
  }

  /** The argument vector is the target, one argument a flag, and exactly two an -o option, in order, nothing merged,
      split or invented, exactly when no option holds a space that is unknown to the regular expression. */
  lemma ArgvExactly(target: string, os: seq<string>)
    requires IsWord(target) && forall o :: o in os ==> IsShaped(o)
    ensures Argv(Join([target] + os, " ")) == [target] + ArgvOfAll(os) <==> AllPlain(os)
  {
    var all := [target] + os;
    assert all[0] == target && all[1..] == os;
    assert ArgvOfAll(all) == [target] + ArgvOfAll(os) by { assert target[0..] == target; WordIsNotFuse(target); }
    if AllPlain(os) {
      ArgvJoin(all);
    } else {
      var o :| o in os && !PlainSpaces(o);
      var i :| 0 <= i < |o| && IsSpace(o[i]) && !IsRegexSpace(o[i]);
      InJoin(all, o, o[i]);
      CollapseKeeps(Join(all, " "), o[i]);
      JoinSplit(CollapseSpaces(Join(all, " ")), " ");
      FieldsOfJoin(all);
      JoinHasOnly(ArgvOfAll(all), o[i]);
    }
  }

  lemma WordIsNotFuse(w: string)
    requires IsWord(w)
    ensures !IsFuse(w)
  {
    if |w| >= 3 {
      assert !IsSpace(w[2]);
    }
  }

  lemma {:induction false} InJoin(ws: seq<string>, w: string, c: char)
    requires w in ws && c in w
    ensures c in Join(ws, " ")
  {
    if |ws| > 1 && ws[0] != w {
      assert w in ws[1..];
      InJoin(ws[1..], w, c);
    }
  }

  /** The driver's own mount command: "mount" comes first for blobfuse2. */
  lemma MountCommand(target: string, os: seq<string>)
    requires IsWord(target) && AllPlain(os) && forall o :: o in os ==> IsShaped(o)
    ensures Split("mount " + CollapseSpaces(Join([target] + os, " ")), " ") == ["mount"] + ([target] + ArgvOfAll(os))
  {
    ArgvExactly(target, os);
    SplitAfterMount(CollapseSpaces(Join([target] + os, " ")));
  }

  lemma SplitAfterMount(args: string)
    ensures Split("mount " + args, " ") == ["mount"] + Split(args, " ")
  {
    assert "mount " == "mount" + [' '];
    SplitHead("mount", ' ', args);
  }
}
