/** Laws of the tokenizer: printing and reading back, what is lost, and what reaches the argument vector. */
module TokenLaws {
  import opened Text
  import opened MountOptions
  import opened MountArgv

  // ---------------------------------------------------------------- printing and reading back

  /** An option as the documentation writes it: a flag, or "-o " and a value; no commas. */
  predicate IsPlainOption(o: string) {
    && ',' !in o
    && ((IsWord(o) && o != "-o") || (HasPrefix(o, "-o ") && IsWord(o[3..])))
  }

  lemma PlainOptionShape(o: string)
    requires IsPlainOption(o)
    ensures IsShaped(o) && IsTrimmed(o) && o != "" && !IsBad(o)
    ensures ArgvOf(o) == if HasPrefix(o, "-o ") then ["-o", o[3..]] else [o]
    ensures IsWord(o) <==> !HasPrefix(o, "-o ")
  {
    if HasPrefix(o, "-o ") {
      assert o == "-o " + o[3..];
      assert IsSpace(o[2]);
      assert o[|o| - 1] == o[3..][|o| - 4];
    } else {
      WordIsNotFuse(o);
    }
  }

  lemma {:induction false} PairUpFields(os: seq<string>)
    requires forall o :: o in os ==> IsPlainOption(o)
    ensures PairUp(ArgvOfAll(os)) == os
  {
    if os != [] {
      var rest := ArgvOfAll(os[1..]);
      PlainOptionShape(os[0]);
      PairUpFields(os[1..]);
      assert os == [os[0]] + os[1..];
      if HasPrefix(os[0], "-o ") {
        assert os[0] == "-o " + os[0][3..];
        assert (["-o", os[0][3..]] + rest)[2..] == rest;
      } else {
        assert ([os[0]] + rest)[1..] == rest;
      }
    }
  }

  lemma {:induction false} PiecesFixed(os: seq<string>)
    requires forall o :: o in os ==> o != "" && IsTrimmed(o)
    ensures Pieces(os) == os
  {
    if os != [] {
      var before, last := os[..|os| - 1], os[|os| - 1];
      assert os == before + [last];
      forall o | o in before ensures o != "" && IsTrimmed(o) {
        assert o in os;
      }
      PiecesFixed(before);
      TrimSpaceFixed(last);
    }
  }

  lemma {:induction false} JoinEnds(os: seq<string>, sep: string)
    requires forall o :: o in os ==> o != "" && IsTrimmed(o)
    ensures IsTrimmed(Join(os, sep))
    ensures os != [] ==> Join(os, sep) != ""
  {
    if |os| == 1 {
      assert os[0] in os;
    } else if |os| > 1 {
      assert os[0] in os && forall o :: o in os[1..] ==> o in os;
      JoinEnds(os[1..], sep);
    }
  }

  lemma CharFound(s: string, c: char)
    ensures Contains(s, [c]) <==> c in s
  {
    if Index(s, [c]) == -1 {
      NotInWhenNoIndex(s, c);
    } else {
      assert s[Index(s, [c])..Index(s, [c]) + 1] == [c];
      assert s[Index(s, [c])] == c;
    }
  }

  lemma {:induction false} CharInJoin(os: seq<string>, sep: char, c: char)
    requires c != sep && forall o :: o in os ==> c !in o
    ensures c !in Join(os, [sep])
  {
    if |os| > 1 {
      CharInJoin(os[1..], sep, c);
    }
  }

  /** Space-separated options read back as they were. */
  lemma PrintedWithSpaces(os: seq<string>)
    requires forall o :: o in os ==> IsPlainOption(o)
    ensures Tokens(Join(os, " ")) == os
  {
    var s := Join(os, " ");
    forall o | o in os ensures o != "" && IsTrimmed(o) && IsShaped(o) && ',' !in o {
      PlainOptionShape(o);
    }
    JoinEnds(os, " ");
    TrimSpaceFixed(s);
    CharInJoin(os, ' ', ',');
    CharFound(s, ',');
    FieldsOfJoin(os);
    PairUpFields(os);
  }

  /** Comma-separated options read back as they were. */
  lemma PrintedWithCommas(os: seq<string>)
    requires forall o :: o in os ==> IsPlainOption(o)
    ensures Tokens(Join(os, ",")) == os
  {
    var s := Join(os, ",");
    if |os| <= 1 {
      PrintedWithSpaces(os);
    } else {
      forall o | o in os ensures o != "" && IsTrimmed(o) && !IsBad(o) && ',' !in o {
        PlainOptionShape(o);
      }
      JoinEnds(os, ",");
      TrimSpaceFixed(s);
      assert ',' in s by { assert s[|os[0]|] == ','; }
      CharFound(s, ',');
      SplitJoin(os, ',');
      PiecesFixed(os);
    }
  }

  // ---------------------------------------------------------------- what sanitizing keeps

  /** The pieces between the user's commas. */
  function UserPieces(s: string): seq<string> {
    Pieces(Split(TrimSpace(s), ","))
  }

  lemma TokensAreTrimmed(s: string)
    ensures Pieces(Tokens(s)) == Tokens(s)
  {
    var t := TrimSpace(s);
    if Contains(t, ",") {
      PiecesTrimmed(Split(t, ","));
    } else {
      PairUpTrimmed(Fields(t));
    }
    PiecesFixed(Tokens(s));
  }

  lemma {:induction false} PairUpTrimmed(ws: seq<string>)
    requires forall w :: w in ws ==> IsWord(w)
    ensures forall t :: t in PairUp(ws) ==> t != "" && IsTrimmed(t) && PlainSpaces(t)
    decreases |ws|
  {
    if ws != [] {
      assert ws[0] in ws;
      if ws[0] == "-o" && |ws| > 1 {
        assert ws[1] in ws;
        PairUpTrimmed(ws[2..]);
      } else {
        PairUpTrimmed(ws[1..]);
      }
    }
  }

  /** If a comma-separated string passes the checks, nothing of it is lost exactly when no piece was bad, or the only
      piece was. A bad piece that passes is an -o option with more white space before its value. */
  lemma LosslessExactly(allowed: FlagSet, s: string)
    requires Contains(TrimSpace(s), ",") && AllAccepted(allowed, Pieces(Tokens(s)))
    ensures var ps := UserPieces(s);
            && (Pieces(Tokens(s)) == ps <==> FirstBad(ps) == |ps| || |ps| == 1)
            && (FirstBad(ps) < |ps| ==> Pieces(Tokens(s)) == [ps[FirstBad(ps)]] && IsFuse(ps[FirstBad(ps)]))
  {
    var ps, ts := UserPieces(s), Tokens(s);
    CommaTokens(s);
    if FirstBad(ps) < |ps| {
      var bad := ps[FirstBad(ps)];
      assert ts == [bad] && bad in ts && bad in ps;
      BadIsFuse(allowed, bad);
      if |ps| == 1 {
        assert ps == [bad];
      }
    }
  }

  lemma CommaTokens(s: string)
    requires Contains(TrimSpace(s), ",")
    ensures var ps, ts := UserPieces(s), Tokens(s);
            && ts == (if FirstBad(ps) < |ps| then [ps[FirstBad(ps)]] else ps) && Pieces(ts) == ts
            && forall p :: p in ps ==> p != "" && IsTrimmed(p)
  {
    TokensAreTrimmed(s);
    PiecesTrimmed(Split(TrimSpace(s), ","));
  }

  lemma BadIsFuse(allowed: FlagSet, t: string)
    requires t != "" && IsTrimmed(t) && IsBad(t) && Accepts(allowed, t)
    ensures IsFuse(t)
  {
    AcceptedIsShaped(allowed, t);
    BadIsNoWord(t);
  }

  lemma BadIsNoWord(t: string)
    requires IsBad(t)
    ensures !IsWord(t)
  {
    if HasPrefix(t, "-o ") {
      var i :| 0 <= i < |t[3..]| && IsSpace(t[3..][i]);
      assert t[3 + i] == t[3..][i];
    }
  }

  /** An accepted string can lose an option: whatever follows "-o", more than one space, and a value. */
  lemma WiderGapLosesTheRest(allowed: FlagSet, gap: string, value: string, rest: string)
    requires gap != "" && ',' !in gap && forall i :: 0 <= i < |gap| ==> IsSpace(gap[i])
    requires IsWord(value) && ',' !in value && value[0] != '-'
    requires IsWord(rest) && ',' !in rest
    ensures var fuse := "-o " + gap + value;
            && Tokens(fuse + "," + rest) == [fuse] && UserPieces(fuse + "," + rest) == [fuse, rest]
            && AllAccepted(allowed, Pieces(Tokens(fuse + "," + rest)))
  {
    var fuse := "-o " + gap + value;
    WideFuse(gap, value);
    TwoPieces(fuse, rest);
    assert FirstBad([fuse, rest]) == 0;
    TokensAreTrimmed(fuse + "," + rest);
  }

  /** Two trimmed pieces with a comma between them. */
  lemma TwoPieces(a: string, b: string)
    requires a != "" && b != "" && IsTrimmed(a) && IsTrimmed(b) && ',' !in a && ',' !in b
    ensures Contains(TrimSpace(a + "," + b), ",") && UserPieces(a + "," + b) == [a, b]
  {
    var s := a + "," + b;
    assert s[0] == a[0] && s[|s| - 1] == b[|b| - 1];
    TrimSpaceFixed(s);
    assert s[|a|] == ',';
    CharFound(s, ',');
    SplitHead(a, ',', b);
    SplitNone(b, ',');
    PiecesFixed([a, b]);
  }

  lemma WideFuse(gap: string, value: string)
    requires gap != "" && forall i :: 0 <= i < |gap| ==> IsSpace(gap[i])
    requires IsWord(value) && value[0] != '-'
    ensures var t := "-o " + gap + value; IsBad(t) && HasPrefix(t, "-o ") && AcceptsFuse(t) && t != "-o" && IsTrimmed(t)
  {
    var t := "-o " + gap + value;
    assert t[3..] == gap + value && IsSpace(t[3..][0]);
    TrimLeftGap(gap, value);
    TrimSpaceFixed(value);
  }

  // ---------------------------------------------------------------- from the user's string to the argument vector

  /** Every accepted string: its tokens reach the argument vector as themselves exactly when their spaces are plain,
      which they are whenever no piece was bad. */
  lemma InlineOptionsReachArgv(allowed: FlagSet, s: string, target: string)
    requires IsWord(target) && AllAccepted(allowed, Pieces(Tokens(s)))
    ensures Argv(Join([target] + Tokens(s), " ")) == [target] + ArgvOfAll(Tokens(s)) <==> AllPlain(Tokens(s))
    ensures (Contains(TrimSpace(s), ",") ==> FirstBad(UserPieces(s)) == |UserPieces(s)|) ==> AllPlain(Tokens(s))
  {
    TokensAreTrimmed(s);
    SanitizedIsShaped(allowed, Tokens(s));
    ArgvExactly(target, Tokens(s));
    if Contains(TrimSpace(s), ",") {
      if FirstBad(UserPieces(s)) == |UserPieces(s)| {
        forall t | t in Tokens(s) ensures PlainSpaces(t) {
          var i :| 0 <= i < |UserPieces(s)| && UserPieces(s)[i] == t;
          GoodIsPlain(t);
        }
      }
    } else {
      PairUpTrimmed(Fields(TrimSpace(s)));
    }
  }

  lemma GoodIsPlain(t: string)
    requires !IsBad(t)
    ensures PlainSpaces(t)
  {
    if HasPrefix(t, "-o ") {
      assert t == "-o " + t[3..];
      forall i | 3 <= i < |t| ensures !IsSpace(t[i]) {
        assert t[i] == t[3..][i - 3];
      }
    }
  }

  /** The check after sanitizing never refuses what sanitizing let through. */
  lemma LastCheckNeverFires(allowed: FlagSet, t: string)
    requires t != "" && IsTrimmed(t) && Accepts(allowed, t)
    ensures PassesLastCheck(t)
  {
    TrimSpaceFixed(t);
    AcceptedIsShaped(allowed, t);
    ValueOfShaped(t);
  }

  lemma ValueOfShaped(t: string)
    requires IsShaped(t)
    ensures SpaceFree(FlagValue(t))
  {
    if IsFuse(t) {
      var g := TrimLeftParts(t[3..]);
      assert t == ("-o " + g) + TrimLeft(t[3..]);
      ValueOfSuffix("-o " + g, TrimLeft(t[3..]));
    } else {
      ValueOfSuffix("", t);
      assert "" + t == t;
    }
  }

  lemma ValueOfSuffix(a: string, v: string)
    requires '=' !in a && SpaceFree(v)
    ensures SpaceFree(FlagValue(a + v))
  {
    var i := Index(a + v, "=");
    if i != -1 {
      assert (a + v)[i..i + 1] == "=";
      assert (a + v)[i] == '=';
      assert (a + v)[i + 1..] == v[i + 1 - |a|..];
    }
  }
}
