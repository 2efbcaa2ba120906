/** Which mount options of an inline volume pass the checks, spelled out for each kind of option. */
module OptionChecks {
  import opened Text
  import opened MountOptions

  /** Cutting what was put together with "=", which the flag does not contain. */
  lemma CutPair(f: string, v: string)
    requires '=' !in f
    ensures FlagName(f + "=" + v) == f && FlagValue(f + "=" + v) == v && HasValue(f + "=" + v)
  {
    var t := f + "=" + v;
    assert t[|f|..|f| + 1] == "=";
    assert OccursAt(t, "=", |f|);
    forall j | 0 <= j < |f| ensures !OccursAt(t, "=", j) {
      assert t[j..j + 1] == [f[j]];
    }
    assert t[..|f|] == f && t[|f| + 1..] == v;
  }

  lemma CutBare(f: string)
    requires '=' !in f
    ensures FlagName(f) == f && FlagValue(f) == "" && !HasValue(f)
  {
    forall j ensures !OccursAt(f, "=", j) {
      if 0 <= j < |f| {
        assert f[j..j + 1] == [f[j]];
      }
    }
  }

  // ---------------------------------------------------------------- FUSE options

  /** "-o" takes one FUSE option: one word, and not a flag. */
  lemma FuseOptionExactly(allowed: FlagSet, o: string)
    requires o != "" && IsTrimmed(o)
    ensures Accepts(allowed, "-o " + o) <==> (forall c :: c in o ==> !IsSpace(c)) && o[0] != '-'
    ensures !Accepts(allowed, "-o")
  {
    assert ("-o " + o)[3..] == o;
    assert |"-o " + o| > |"-o"|;
    TrimSpaceFixed(o);
    assert HasPrefix(o, "-") <==> o[0] == '-';
    assert SpaceFree(o) <==> forall c :: c in o ==> !IsSpace(c);
  }

  /** Smuggling a flag in after "-o" is refused, whatever the flag, and so is a second word. */
  lemma FlagAfterFuseIsRefused(allowed: FlagSet, flag: string, a: string, b: string)
    requires IsTrimmed("--" + flag) && a != "" && b != "" && IsTrimmed(a) && IsTrimmed(b)
    ensures !Accepts(allowed, "-o " + ("--" + flag)) && !Accepts(allowed, "-o " + (a + " " + b))
  {
    FuseOptionExactly(allowed, "--" + flag);
    var o := a + " " + b;
    assert o[0] == a[0] && o[|o| - 1] == b[|b| - 1];
    assert o[|a|] == ' ' && IsSpace(' ');
    FuseOptionExactly(allowed, o);
  }

  // ---------------------------------------------------------------- flags

  /** A flag without a value passes if it is in the list, is not --preload and does not have to have a value. */
  lemma BareFlagExactly(allowed: FlagSet, f: string)
    requires '=' !in f && !HasPrefix(f, "-o ")
    ensures Accepts(allowed, f) <==>
            f in allowed && f != "-o" && f != "--preload" && f != "--block-cache-parallelism" && f != "--distributed-cache-parallelism"
  {
    CutBare(f);
  }

  /** A flag with a value passes if it is in the list, is not --preload, and the value is one word that the flag can take. */
  lemma FlagWithValueExactly(allowed: FlagSet, f: string, v: string)
    requires '=' !in f && !HasPrefix(f + "=" + v, "-o ")
    ensures Accepts(allowed, f + "=" + v) <==>
            && f in allowed && f != "--preload"
            && (forall c :: c in v ==> !IsSpace(c))
            && (f == "--block-cache-parallelism" || f == "--distributed-cache-parallelism" ==> IsDigits(v) && 1 <= Number(v) <= 128)
            && (f == "--log-level" ==>
                  v == "LOG_OFF" || v == "LOG_CRIT" || v == "LOG_ERR" || v == "LOG_WARNING"
                  || v == "LOG_INFO" || v == "LOG_TRACE" || v == "LOG_DEBUG")
            && (f == "--log-type" ==> v == "silent" || v == "syslog" || v == "base")
            && (f == "--subdirectory" ==> v != "" && forall c :: c in v ==>
                  'a' <= c <= 'z' || 'A' <= c <= 'Z' || '0' <= c <= '9' || c in {'.', '_', '/', '-'})
            && (f == "--filter" ==> v != "" && forall c :: c in v ==>
                  'a' <= c <= 'z' || 'A' <= c <= 'Z' || '0' <= c <= '9' || c in {'.', '_', '/', '*', '?', '-'})
  {
    CutPair(f, v);
    FitsExactly(f, v);
    assert SpaceFree(v) <==> forall c :: c in v ==> !IsSpace(c);
    assert f + "=" + v != "-o" by { assert (f + "=" + v)[|f|] == '='; }
  }

  lemma FitsExactly(f: string, v: string)
    ensures ValueFits(f, v) <==>
            && (f == "--block-cache-parallelism" || f == "--distributed-cache-parallelism" ==> IsDigits(v) && 1 <= Number(v) <= 128)
            && (f == "--log-level" ==>
                  v == "LOG_OFF" || v == "LOG_CRIT" || v == "LOG_ERR" || v == "LOG_WARNING"
                  || v == "LOG_INFO" || v == "LOG_TRACE" || v == "LOG_DEBUG")
            && (f == "--log-type" ==> v == "silent" || v == "syslog" || v == "base")
            && (f == "--subdirectory" ==> v != "" && forall c :: c in v ==>
                  'a' <= c <= 'z' || 'A' <= c <= 'Z' || '0' <= c <= '9' || c in {'.', '_', '/', '-'})
            && (f == "--filter" ==> v != "" && forall c :: c in v ==>
                  'a' <= c <= 'z' || 'A' <= c <= 'Z' || '0' <= c <= '9' || c in {'.', '_', '/', '*', '?', '-'})
  {
    FlagsDiffer();
    ClassIs(v, "._/-", {'.', '_', '/', '-'});
    ClassIs(v, "._/*?-", {'.', '_', '/', '*', '?', '-'});
  }

  lemma FlagsDiffer()
    ensures |"--log-level"| == 11 && |"--log-type"| == 10 && |"--subdirectory"| == 14 && |"--filter"| == 8
    ensures |"--block-cache-parallelism"| == 25 && |"--distributed-cache-parallelism"| == 31
  {
  }

  lemma ClassIs(v: string, extra: string, chars: set<char>)
    requires forall c :: c in extra <==> c in chars
    ensures MatchesClass(v, extra) <==> v != "" && forall c :: c in v ==>
              'a' <= c <= 'z' || 'A' <= c <= 'Z' || '0' <= c <= '9' || c in chars
  {
    assert forall i :: 0 <= i < |v| ==> v[i] in v;
  }

  // ---------------------------------------------------------------- numbers

  /** The decimal form of a number. */
  function Decimal(n: nat): (s: string)
    ensures IsDigits(s)
  {
    (if n < 10 then "" else Decimal(n / 10)) + ["0123456789"[n % 10]]
  }

  /** Printing a number and reading it. */
  lemma {:induction false} NumberOfDecimal(n: nat)
    ensures Number(Decimal(n)) == n
  {
    var d := Decimal(n);
    if n < 10 {
      assert d == ["0123456789"[n]];
      assert d[..|d| - 1] == "" && Number("") == 0;
    } else {
      NumberOfDecimal(n / 10);
      assert d[..|d| - 1] == Decimal(n / 10);
    }
  }

  lemma ParallelismIsFlag(f: string, v: string)
    requires f == "--block-cache-parallelism" || f == "--distributed-cache-parallelism"
    ensures '=' !in f && f != "--preload" && !HasPrefix(f + "=" + v, "-o ")
  {
    assert f[1] == '-' && (f + "=" + v)[1] == '-' && "-o "[1] == 'o';
    assert |f| > |"--preload"|;
  }

  lemma DigitsAreNoSpace(s: string)
    requires IsDigits(s)
    ensures forall c :: c in s ==> !IsSpace(c)
  {
  }

  /** A degree of parallelism passes if it is between 1 and 128. */
  lemma ParallelismExactly(allowed: FlagSet, f: string, n: nat)
    requires f in allowed && (f == "--block-cache-parallelism" || f == "--distributed-cache-parallelism")
    ensures Accepts(allowed, f + "=" + Decimal(n)) <==> 1 <= n <= 128
  {
    ParallelismIsFlag(f, Decimal(n));
    NumberOfDecimal(n);
    DigitsAreNoSpace(Decimal(n));
    FlagWithValueExactly(allowed, f, Decimal(n));
  }
}
