/** Rewriting the option list before the mount: the fallback from distributed to local block cache, and the defaults. */
module CacheFallback {
  import opened Text
  import opened MountOptions

  /** The flags involved. `local` translates a distributed-cache flag to its local counterpart. */
  datatype CacheFlags = CacheFlags(distributedPrefix: string, blockCache: string, local: map<string, string>)
  {
    /** A flag name: no white space, no "=". */
    static predicate IsName(f: string) {
      IsWord(f) && '=' !in f
    }

    /** Local flags are flag names without the distributed prefix, and no two flags translate to the same. */
    ghost predicate Valid() {
      && IsName(blockCache) && !HasPrefix(blockCache, distributedPrefix)
      && (forall f :: f in local ==>
            HasPrefix(f, distributedPrefix) && IsName(local[f]) && !HasPrefix(local[f], distributedPrefix)
            && local[f] != blockCache)
      && (forall f, g :: f in local && g in local && local[f] == local[g] ==> f == g)
    }

    predicate IsDistributed(flag: string) {
      HasPrefix(flag, distributedPrefix)
    }

    /** The option that switches local block cache on. */
    function Enabled(): Opt {
      Pair(blockCache, "true")
    }
  }

  /** An option and what strings.Cut makes of it, ignoring white space around it. */
  datatype Opt = Opt(text: string, flag: string, value: string)

  function Flag(o: string): string {
    FlagName(TrimSpace(o))
  }

  function Value(o: string): string {
    FlagValue(TrimSpace(o))
  }

  /** An option made of a flag and a value. */
  function Pair(flag: string, value: string): Opt {
    Opt(flag + "=" + value, flag, value)
  }

  function Texts(ps: seq<Opt>): (os: seq<string>)
    ensures |os| == |ps|
    ensures forall i :: 0 <= i < |ps| ==> os[i] == ps[i].text
  {
    seq(|ps|, i requires 0 <= i < |ps| => ps[i].text)
  }

  function Read(o: string): Opt {
    Opt(o, Flag(o), Value(o))
  }

  function ReadAll(os: seq<string>): (ps: seq<Opt>)
    ensures |ps| == |os|
    ensures forall i :: 0 <= i < |os| ==> ps[i] == Read(os[i])
  {
    seq(|os|, i requires 0 <= i < |os| => Read(os[i]))
  }

  /** Putting a flag and a value together and taking them apart again. */
  lemma FlagOfPair(f: string, v: string)
    requires CacheFlags.IsName(f)
    ensures Flag(f + "=" + v) == f
    ensures v != "" && !IsSpace(v[|v| - 1]) ==> Value(f + "=" + v) == v
  {
    var o := f + "=" + v;
    TrimRightKeeps(f + "=", v);
    assert TrimLeft(o) == o by { assert o[0] == f[0]; }
    var t := TrimSpace(o);
    assert f + "=" <= t;
    assert t[|f|..|f| + 1] == "=";
    forall j | 0 <= j < |f| ensures !OccursAt(t, "=", j) {
      assert t[j] == f[j];
      assert t[j..j + 1] == [f[j]];
    }
    assert OccursAt(t, "=", |f|);
    assert t[..|f|] == f;
  }

  lemma {:induction false} TrimRightKeeps(a: string, b: string)
    requires a != "" && !IsSpace(a[|a| - 1])
    ensures a <= TrimRight(a + b)
    ensures b != "" && !IsSpace(b[|b| - 1]) ==> TrimRight(a + b) == a + b
  {
    if b == "" {
      assert a + b == a;
    } else if IsSpace(b[|b| - 1]) {
      assert (a + b)[..|a + b| - 1] == a + b[..|b| - 1];
      TrimRightKeeps(a, b[..|b| - 1]);
    }
  }

  // ---------------------------------------------------------------- meaning, option by option

  predicate HasFlag(ps: seq<Opt>, f: string) {
    exists i :: 0 <= i < |ps| && ps[i].flag == f
  }

  /** The option is a distributed one with a value that its local counterpart could take. */
  predicate Translatable(c: CacheFlags, p: Opt) {
    c.IsDistributed(p.flag) && p.flag in c.local && p.value != ""
  }

  predicate TranslatedBefore(c: CacheFlags, ps: seq<Opt>, n: int, f: string)
    requires 0 <= n <= |ps|
  {
    exists j :: 0 <= j < n && ps[j].flag == f && Translatable(c, ps[j])
  }

  /** Explicit local options, wherever they stand, and earlier translations win. */
  predicate Translates(c: CacheFlags, ps: seq<Opt>, i: int)
    requires 0 <= i < |ps|
  {
    && Translatable(c, ps[i])
    && !HasFlag(ps, c.local[ps[i].flag])
    && !TranslatedBefore(c, ps, i, ps[i].flag)
  }

  predicate FlagBefore(ps: seq<Opt>, n: int, f: string)
    requires 0 <= n <= |ps|
  {
    exists j :: 0 <= j < n && ps[j].flag == f
  }

  /** What becomes of the option at i. */
  function Rewrite(c: CacheFlags, ps: seq<Opt>, i: int): seq<Opt>
    requires 0 <= i < |ps|
  {
    if ps[i].flag == c.blockCache then (if FlagBefore(ps, i, c.blockCache) then [] else [c.Enabled()])
    else if !c.IsDistributed(ps[i].flag) then [ps[i]]
    else if Translates(c, ps, i) then [Pair(c.local[ps[i].flag], ps[i].value)]
    else []
  }

  function RewriteUpTo(c: CacheFlags, ps: seq<Opt>, n: int): (r: seq<Opt>)
    requires 0 <= n <= |ps|
    ensures |r| <= n
  {
    if n == 0 then [] else RewriteUpTo(c, ps, n - 1) + Rewrite(c, ps, n - 1)
  }

  /** The list with every distributed option translated or dropped, and local block cache switched on. */
  function Fallback(c: CacheFlags, ps: seq<Opt>): (r: seq<Opt>)
    ensures |r| <= |ps| + 1
  {
    RewriteUpTo(c, ps, |ps|) + if HasFlag(ps, c.blockCache) then [] else [c.Enabled()]
  }

  // ---------------------------------------------------------------- the loops

  /** fallbackToLocalBlockCache. */
  method FallbackToLocalBlockCache(c: CacheFlags, os: seq<string>) returns (r: seq<string>)
    requires c.Valid()
    ensures r == Texts(Fallback(c, ReadAll(os)))
    ensures ReadAll(r) == Fallback(c, ReadAll(os))
  {
    var ps := ReadAll(os);
    var included := LocalFlags(c, ps);
    var rs, enabled := RewriteOptions(c, ps, included);
    if !enabled {
      rs := rs + [c.Enabled()];
    }
    ReadAllReadable(os);
    FallbackReadable(c, ps);
    return Texts(rs);
  }

  /** The first pass: the flags that are no distributed ones. */
  method LocalFlags(c: CacheFlags, ps: seq<Opt>) returns (included: set<string>)
    ensures forall f :: f in included <==> !c.IsDistributed(f) && HasFlag(ps, f)
  {
    included := {};
    var i := 0;
    while i < |ps|
      invariant 0 <= i <= |ps|
      invariant forall f :: f in included <==> !c.IsDistributed(f) && FlagBefore(ps, i, f)
    {
      if !c.IsDistributed(ps[i].flag) {
        included := included + {ps[i].flag};
      }
      i := i + 1;
    }
  }

  /** The second pass. */
  method RewriteOptions(c: CacheFlags, ps: seq<Opt>, local: set<string>) returns (r: seq<Opt>, enabled: bool)
    requires c.Valid() && Known(c, ps, 0, local)
    ensures r == RewriteUpTo(c, ps, |ps|)
    ensures enabled <==> HasFlag(ps, c.blockCache)
  {
    r, enabled := [], false;
    var included := local;
    var i := 0;
    while i < |ps|
      invariant 0 <= i <= |ps|
      invariant r == RewriteUpTo(c, ps, i)
      invariant enabled <==> FlagBefore(ps, i, c.blockCache)
      invariant Known(c, ps, i, included)
    {
      var p := ps[i];
      KnownStep(c, ps, i, included);
      if p.flag == c.blockCache {
        if !enabled {
          r := r + [c.Enabled()];
          enabled := true;
        }
      } else if !c.IsDistributed(p.flag) {
        r := r + [p];
      } else if p.flag in c.local && p.value != "" && c.local[p.flag] !in included {
        r := r + [Pair(c.local[p.flag], p.value)];
        included := included + {c.local[p.flag]};
      }
      i := i + 1;
    }
  }

  /** A local flag is in the set when the user set it, or a translation did. */
  ghost predicate Known(c: CacheFlags, ps: seq<Opt>, n: int, included: set<string>)
    requires 0 <= n <= |ps|
  {
    forall f :: f in c.local ==> (c.local[f] in included <==> HasFlag(ps, c.local[f]) || TranslatedBefore(c, ps, n, f))
  }

  lemma KnownStep(c: CacheFlags, ps: seq<Opt>, i: int, included: set<string>)
    requires c.Valid() && 0 <= i < |ps| && Known(c, ps, i, included)
    ensures Translates(c, ps, i) <==> Translatable(c, ps[i]) && c.local[ps[i].flag] !in included
    ensures Known(c, ps, i + 1, if Translates(c, ps, i) then included + {c.local[ps[i].flag]} else included)
  {
    forall f | f in c.local
      ensures TranslatedBefore(c, ps, i + 1, f) <==>
              TranslatedBefore(c, ps, i, f) || (f == ps[i].flag && Translatable(c, ps[i]))
    {
    }
  }

  // ---------------------------------------------------------------- options and their texts

  /** The option is what reading its text yields. */
  predicate IsReadable(p: Opt) {
    p == Read(p.text)
  }

  ghost predicate AllReadable(ps: seq<Opt>) {
    forall i :: 0 <= i < |ps| ==> IsReadable(ps[i])
  }

  lemma ReadAllReadable(os: seq<string>)
    ensures AllReadable(ReadAll(os))
  {
  }

  lemma PairReadable(flag: string, value: string)
    requires CacheFlags.IsName(flag) && value != "" && !IsSpace(value[|value| - 1])
    ensures IsReadable(Pair(flag, value))
  {
    FlagOfPair(flag, value);
  }

  lemma ValueEnds(p: Opt)
    requires IsReadable(p) && p.value != ""
    ensures !IsSpace(p.value[|p.value| - 1])
  {
    var t := TrimSpace(p.text);
    assert p.value[|p.value| - 1] == t[|t| - 1];
  }

  /** A property of all options that the two ways of making a new one establish, holds of the result too. */
  ghost predicate Preserved(c: CacheFlags, good: Opt -> bool) {
    && good(c.Enabled())
    && forall p :: good(p) && Translatable(c, p) ==> good(Pair(c.local[p.flag], p.value))
  }

  lemma {:induction false} RewriteUpToKeeps(c: CacheFlags, ps: seq<Opt>, n: int, good: Opt -> bool)
    requires Preserved(c, good) && 0 <= n <= |ps| && forall i :: 0 <= i < |ps| ==> good(ps[i])
    ensures forall i :: 0 <= i < |RewriteUpTo(c, ps, n)| ==> good(RewriteUpTo(c, ps, n)[i])
  {
    if n > 0 {
      RewriteUpToKeeps(c, ps, n - 1, good);
      assert good(ps[n - 1]);
    }
  }

  lemma FallbackKeeps(c: CacheFlags, ps: seq<Opt>, good: Opt -> bool)
    requires Preserved(c, good) && forall i :: 0 <= i < |ps| ==> good(ps[i])
    ensures forall i :: 0 <= i < |Fallback(c, ps)| ==> good(Fallback(c, ps)[i])
  {
    RewriteUpToKeeps(c, ps, |ps|, good);
  }

  lemma TranslationReadable(c: CacheFlags, p: Opt)
    requires c.Valid() && IsReadable(p) && Translatable(c, p)
    ensures IsReadable(Pair(c.local[p.flag], p.value))
  {
    ValueEnds(p);
    PairReadable(c.local[p.flag], p.value);
  }

  lemma ReadableIsPreserved(c: CacheFlags)
    requires c.Valid()
    ensures Preserved(c, p => IsReadable(p))
  {
    PairReadable(c.blockCache, "true");
    forall p | IsReadable(p) && Translatable(c, p)
      ensures IsReadable(Pair(c.local[p.flag], p.value))
    {
      TranslationReadable(c, p);
    }
  }

  lemma FallbackReadable(c: CacheFlags, ps: seq<Opt>)
    requires c.Valid() && AllReadable(ps)
    ensures ReadAll(Texts(Fallback(c, ps))) == Fallback(c, ps)
  {
    ReadableIsPreserved(c);
    FallbackKeeps(c, ps, p => IsReadable(p));
    var r := Fallback(c, ps);
    forall i | 0 <= i < |r| ensures Read(Texts(r)[i]) == r[i] {
      assert IsReadable(r[i]);
    }
  }

  // ---------------------------------------------------------------- what it means for each flag

  /** One flag, or all flags that have nothing to do with caching. */
  datatype Selection = One(flag: string) | Others

  predicate Selects(c: CacheFlags, sel: Selection, flag: string) {
    match sel
    case One(f) => flag == f
    case Others => !c.IsDistributed(flag) && flag != c.blockCache && flag !in c.local.Values
  }

  /** The selected options of a list, in order. */
  function Select(c: CacheFlags, ps: seq<Opt>, sel: Selection): seq<Opt> {
    if ps == [] then []
    else Select(c, ps[..|ps| - 1], sel) + if Selects(c, sel, ps[|ps| - 1].flag) then [ps[|ps| - 1]] else []
  }

  lemma SelectSnoc(c: CacheFlags, ps: seq<Opt>, p: Opt, sel: Selection)
    ensures Select(c, ps + [p], sel) == Select(c, ps, sel) + if Selects(c, sel, p.flag) then [p] else []
  {
    assert (ps + [p])[..|ps|] == ps;
  }

  /** The first translation for a local flag, if any. */
  function FirstTranslation(c: CacheFlags, ps: seq<Opt>, n: int, f: string): (r: seq<Opt>)
    requires 0 <= n <= |ps|
    ensures r != [] <==> exists j :: 0 <= j < n && Translatable(c, ps[j]) && c.local[ps[j].flag] == f
    ensures |r| <= 1
  {
    if n == 0 then []
    else if FirstTranslation(c, ps, n - 1, f) != [] then FirstTranslation(c, ps, n - 1, f)
    else if Translatable(c, ps[n - 1]) && c.local[ps[n - 1].flag] == f then [Pair(f, ps[n - 1].value)]
    else []
  }

  /** What the first n options must leave: nothing distributed; block cache on, once; a local cache option as the user
      wrote it, or else its first translation; and every other option untouched and in order. */
  function ExpectedUpTo(c: CacheFlags, ps: seq<Opt>, n: int, sel: Selection): seq<Opt>
    requires 0 <= n <= |ps|
  {
    if sel.One? && c.IsDistributed(sel.flag) then []
    else if sel == One(c.blockCache) then (if FlagBefore(ps, n, c.blockCache) then [c.Enabled()] else [])
    else if sel.One? && sel.flag in c.local.Values && !HasFlag(ps, sel.flag) then FirstTranslation(c, ps, n, sel.flag)
    else Select(c, ps[..n], sel)
  }

  function Expected(c: CacheFlags, ps: seq<Opt>, sel: Selection): seq<Opt> {
    if sel == One(c.blockCache) then [c.Enabled()] else ExpectedUpTo(c, ps, |ps|, sel)
  }

  /** Only one distributed flag translates to a given local one. */
  lemma SameTranslation(c: CacheFlags, ps: seq<Opt>, i: int)
    requires c.Valid() && 0 <= i < |ps| && Translatable(c, ps[i])
    ensures FirstTranslation(c, ps, i, c.local[ps[i].flag]) != [] <==> TranslatedBefore(c, ps, i, ps[i].flag)
  {
  }

  /** What the selection keeps of the one option, if any, that is left of an option. */
  function Selected(c: CacheFlags, r: seq<Opt>, sel: Selection): seq<Opt> {
    if r != [] && Selects(c, sel, r[0].flag) then r else []
  }

  /** One more option, seen through a selection. */
  lemma ExpectedStep(c: CacheFlags, ps: seq<Opt>, i: int, sel: Selection)
    requires c.Valid() && 0 <= i < |ps|
    ensures var r := Rewrite(c, ps, i);
            ExpectedUpTo(c, ps, i + 1, sel) ==
            ExpectedUpTo(c, ps, i, sel) + Selected(c, r, sel)
  {
    var p := ps[i];
    assert ps[..i + 1] == ps[..i] + [p];
    SelectSnoc(c, ps[..i], p, sel);
    if Translatable(c, p) {
      assert c.local[p.flag] in c.local.Values;
      SameTranslation(c, ps, i);
    }
  }

  lemma RewriteUpToSelected(c: CacheFlags, ps: seq<Opt>, n: int, sel: Selection)
    requires c.Valid() && 0 <= n <= |ps|
    ensures Select(c, RewriteUpTo(c, ps, n), sel) == ExpectedUpTo(c, ps, n, sel)
  {
    forall i | 0 <= i < n
      ensures ExpectedUpTo(c, ps, i + 1, sel) == ExpectedUpTo(c, ps, i, sel) + Selected(c, Rewrite(c, ps, i), sel)
    {
      ExpectedStep(c, ps, i, sel);
    }
    StepsAddUp(c, ps, n, sel);
  }

  lemma {:induction false} StepsAddUp(c: CacheFlags, ps: seq<Opt>, n: int, sel: Selection)
    requires 0 <= n <= |ps|
    requires forall i :: 0 <= i < n ==>
      ExpectedUpTo(c, ps, i + 1, sel) == ExpectedUpTo(c, ps, i, sel) + Selected(c, Rewrite(c, ps, i), sel)
    ensures Select(c, RewriteUpTo(c, ps, n), sel) == ExpectedUpTo(c, ps, n, sel)
  {
    if n == 0 {
      assert ps[..0] == [];
    } else {
      StepsAddUp(c, ps, n - 1, sel);
      SelectAppendOne(c, RewriteUpTo(c, ps, n - 1), Rewrite(c, ps, n - 1), sel);
    }
  }

  lemma SelectAppendOne(c: CacheFlags, ps: seq<Opt>, r: seq<Opt>, sel: Selection)
    requires |r| <= 1
    ensures Select(c, ps + r, sel) == Select(c, ps, sel) + Selected(c, r, sel)
  {
    if r == [] {
      assert ps + r == ps;
    } else {
      assert r == [r[0]];
      SelectSnoc(c, ps, r[0], sel);
    }
  }

  /** The fallback does what it must, for each flag and for all other options together. */
  lemma FallbackKeepsMeaning(c: CacheFlags, ps: seq<Opt>, sel: Selection)
    requires c.Valid()
    ensures Select(c, Fallback(c, ps), sel) == Expected(c, ps, sel)
  {
    RewriteUpToSelected(c, ps, |ps|, sel);
    var r := RewriteUpTo(c, ps, |ps|);
    if HasFlag(ps, c.blockCache) {
      assert Fallback(c, ps) == r;
    } else {
      SelectSnoc(c, r, c.Enabled(), sel);
    }
  }

  // ---------------------------------------------------------------- idempotence

  lemma {:induction false} SelectHas(c: CacheFlags, ps: seq<Opt>, i: int)
    requires 0 <= i < |ps|
    ensures ps[i] in Select(c, ps, One(ps[i].flag))
    decreases |ps|
  {
    if i < |ps| - 1 {
      SelectHas(c, ps[..|ps| - 1], i);
    }
  }

  lemma {:induction false} SelectTwice(c: CacheFlags, ps: seq<Opt>, i: int, j: int)
    requires 0 <= i < j < |ps| && ps[i].flag == ps[j].flag
    ensures |Select(c, ps, One(ps[i].flag))| >= 2
    decreases |ps|
  {
    var shorter := ps[..|ps| - 1];
    if j < |ps| - 1 {
      SelectTwice(c, shorter, i, j);
    } else {
      SelectHas(c, shorter, i);
    }
  }

  /** What is selected comes from the list. */
  lemma {:induction false} SelectSource(c: CacheFlags, ps: seq<Opt>, sel: Selection)
    requires Select(c, ps, sel) != []
    ensures exists i :: 0 <= i < |ps| && Selects(c, sel, ps[i].flag)
  {
    var last := |ps| - 1;
    if !Selects(c, sel, ps[last].flag) {
      SelectSource(c, ps[..last], sel);
    }
  }

  /** No distributed option is left, and exactly one block-cache option is there, which switches it on. */
  lemma FallbackLeavesLocal(c: CacheFlags, ps: seq<Opt>)
    requires c.Valid()
    ensures var r := Fallback(c, ps);
            && (forall i :: 0 <= i < |r| ==> !c.IsDistributed(r[i].flag))
            && (forall i :: 0 <= i < |r| && r[i].flag == c.blockCache ==> r[i] == c.Enabled() && !FlagBefore(r, i, c.blockCache))
            && HasFlag(r, c.blockCache)
  {
    var r := Fallback(c, ps);
    FallbackKeepsMeaning(c, ps, One(c.blockCache));
    SelectSource(c, r, One(c.blockCache));
    forall i | 0 <= i < |r|
      ensures !c.IsDistributed(r[i].flag)
    {
      SelectHas(c, r, i);
      FallbackKeepsMeaning(c, ps, One(r[i].flag));
    }
    forall i | 0 <= i < |r| && r[i].flag == c.blockCache
      ensures r[i] == c.Enabled() && !FlagBefore(r, i, c.blockCache)
    {
      SelectHas(c, r, i);
      forall j | 0 <= j < i ensures r[j].flag != r[i].flag {
        AtMostOne(c, r, j, i);
      }
    }
  }

  lemma AtMostOne(c: CacheFlags, ps: seq<Opt>, i: int, j: int)
    requires 0 <= i < j < |ps| && |Select(c, ps, One(ps[j].flag))| <= 1
    ensures ps[i].flag != ps[j].flag
  {
    if ps[i].flag == ps[j].flag {
      SelectTwice(c, ps, i, j);
    }
  }

  lemma {:induction false} RewriteFixed(c: CacheFlags, ps: seq<Opt>, n: int)
    requires c.Valid() && 0 <= n <= |ps|
    requires forall i :: 0 <= i < |ps| ==> !c.IsDistributed(ps[i].flag)
    requires forall i :: 0 <= i < |ps| && ps[i].flag == c.blockCache ==> ps[i] == c.Enabled() && !FlagBefore(ps, i, c.blockCache)
    ensures RewriteUpTo(c, ps, n) == ps[..n]
  {
    if n > 0 {
      RewriteFixed(c, ps, n - 1);
      assert ps[..n] == ps[..n - 1] + [ps[n - 1]];
    }
  }

  /** Falling back a second time changes nothing. */
  lemma FallbackIdempotent(c: CacheFlags, ps: seq<Opt>)
    requires c.Valid()
    ensures Fallback(c, Fallback(c, ps)) == Fallback(c, ps)
  {
    FallbackLeavesLocal(c, ps);
    RewriteFixed(c, Fallback(c, ps), |Fallback(c, ps)|);
  }

  // ---------------------------------------------------------------- the texts themselves

  lemma {:induction false} FirstTranslationExactly(c: CacheFlags, ps: seq<Opt>, n: int, j: int)
    requires c.Valid() && 0 <= j < n <= |ps| && Translatable(c, ps[j]) && !TranslatedBefore(c, ps, j, ps[j].flag)
    ensures FirstTranslation(c, ps, n, c.local[ps[j].flag]) == [Pair(c.local[ps[j].flag], ps[j].value)]
    decreases n
  {
    if j == n - 1 {
      SameTranslation(c, ps, j);
    } else {
      FirstTranslationExactly(c, ps, n - 1, j);
    }
  }

  /** Reading a text of the result yields the flag it was made with. */
  lemma FlagsOfTexts(c: CacheFlags, ps: seq<Opt>)
    requires c.Valid() && AllReadable(ps)
    ensures var t := Fallback(c, ps); forall i :: 0 <= i < |t| ==> Flag(Texts(t)[i]) == t[i].flag
  {
    FallbackReadable(c, ps);
    var t := Fallback(c, ps);
    forall i | 0 <= i < |t| ensures Flag(Texts(t)[i]) == t[i].flag {
      assert ReadAll(Texts(t))[i] == Read(Texts(t)[i]);
    }
  }

  lemma EnabledText(c: CacheFlags)
    ensures c.Enabled().text == c.blockCache + "=true"
  {
    Assoc(c.blockCache, "=", "true");
    assert "=" + "true" == "=true";
  }

  lemma NoneTwice(t: seq<Opt>, os: seq<string>, f: string)
    requires |os| == |t| && forall i :: 0 <= i < |t| ==> Flag(os[i]) == t[i].flag
    requires forall i :: 0 <= i < |t| && t[i].flag == f ==> !FlagBefore(t, i, f)
    ensures forall i, j :: 0 <= i < j < |os| && Flag(os[i]) == f ==> Flag(os[j]) != f
  {
    assert forall i, j :: 0 <= i < j < |t| && t[i].flag == f ==> t[j].flag != f;
  }

  /** Exactly one option of the result is for block cache, and it reads `<flag>=true`. */
  lemma BlockCacheIsOn(c: CacheFlags, os: seq<string>)
    requires c.Valid()
    ensures var r := Texts(Fallback(c, ReadAll(os)));
            && c.blockCache + "=true" in r
            && (forall o :: o in r && Flag(o) == c.blockCache ==> o == c.blockCache + "=true")
            && (forall i, j :: 0 <= i < j < |r| && Flag(r[i]) == c.blockCache ==> Flag(r[j]) != c.blockCache)
  {
    var ps := ReadAll(os);
    var t := Fallback(c, ps);
    ReadAllReadable(os);
    FallbackLeavesLocal(c, ps);
    FlagsOfTexts(c, ps);
    NoneTwice(t, Texts(t), c.blockCache);
    OnlySelected(c, ps, c.blockCache, c.Enabled());
    EnabledText(c);
  }

  /** The first option of a distributed flag with a value turns into `<local flag>=<value>`, unless the local flag is given. */
  lemma TranslatedText(c: CacheFlags, os: seq<string>, i: int)
    requires c.Valid() && 0 <= i < |os| && Flag(os[i]) in c.local && Value(os[i]) != ""
    requires forall j :: 0 <= j < i && Flag(os[j]) == Flag(os[i]) ==> Value(os[j]) == ""
    requires forall j :: 0 <= j < |os| ==> Flag(os[j]) != c.local[Flag(os[i])]
    ensures var r, f := Texts(Fallback(c, ReadAll(os))), c.local[Flag(os[i])];
            && f + "=" + Value(os[i]) in r
            && forall o :: o in r && Flag(o) == f ==> o == f + "=" + Value(os[i])
  {
    var ps := ReadAll(os);
    var f := c.local[Flag(os[i])];
    assert forall j :: 0 <= j < |os| ==> ps[j].flag == Flag(os[j]) && ps[j].value == Value(os[j]);
    ReadAllReadable(os);
    ExpectedTranslation(c, ps, i);
    OnlySelected(c, ps, f, Pair(f, Value(os[i])));
  }

  lemma ExpectedTranslation(c: CacheFlags, ps: seq<Opt>, i: int)
    requires c.Valid() && 0 <= i < |ps| && Translates(c, ps, i)
    ensures var f := c.local[ps[i].flag]; Expected(c, ps, One(f)) == [Pair(f, ps[i].value)]
  {
    FirstTranslationExactly(c, ps, |ps|, i);
    assert c.local[ps[i].flag] in c.local.Values;
  }

  /** If a flag must be left with one option, the texts hold this option for it and no other. */
  lemma OnlySelected(c: CacheFlags, ps: seq<Opt>, f: string, p: Opt)
    requires c.Valid() && AllReadable(ps) && Expected(c, ps, One(f)) == [p]
    ensures var r := Texts(Fallback(c, ps)); p.text in r && forall o :: o in r && Flag(o) == f ==> o == p.text
  {
    var t := Fallback(c, ps);
    FallbackKeepsMeaning(c, ps, One(f));
    FlagsOfTexts(c, ps);
    SelectSource(c, t, One(f));
    forall i | 0 <= i < |t| && t[i].flag == f ensures t[i] == p {
      SelectHas(c, t, i);
    }
    var i :| 0 <= i < |t| && t[i].flag == f;
    assert Texts(t)[i] == p.text;
  }

  /** An option for a flag that is neither distributed nor block cache stays as the user wrote it. */
  lemma OtherTextStays(c: CacheFlags, os: seq<string>, i: int)
    requires c.Valid() && 0 <= i < |os| && Flag(os[i]) != c.blockCache && !HasPrefix(Flag(os[i]), c.distributedPrefix)
    ensures os[i] in Texts(Fallback(c, ReadAll(os)))
  {
    var ps := ReadAll(os);
    RewriteStays(c, ps, i, |ps|);
    var t := RewriteUpTo(c, ps, |ps|);
    var k :| 0 <= k < |t| && t[k] == ps[i];
    assert Fallback(c, ps)[k] == ps[i];
    assert Texts(Fallback(c, ps))[k] == os[i];
  }

  lemma {:induction false} RewriteStays(c: CacheFlags, ps: seq<Opt>, i: int, n: int)
    requires 0 <= i < n <= |ps| && ps[i].flag != c.blockCache && !c.IsDistributed(ps[i].flag)
    ensures ps[i] in RewriteUpTo(c, ps, n)
    decreases n
  {
    if i == n - 1 {
      assert ps[i] in Rewrite(c, ps, i);
    } else {
      RewriteStays(c, ps, i, n - 1);
    }
  }

  // ---------------------------------------------------------------- the source's flags

  const DISTRIBUTED := "--distributed-cache-"
  const LOCAL := "--block-cache-"
  const BLOCK_CACHE := "--block-cache"

  /** A new pair of names keeps the flags valid. */
  lemma AddTranslation(c: CacheFlags, from: string, to: string)
    requires c.Valid() && from !in c.local && to !in c.local.Values
    requires HasPrefix(from, c.distributedPrefix)
    requires CacheFlags.IsName(to) && !HasPrefix(to, c.distributedPrefix) && to != c.blockCache
    ensures c.(local := c.local[from := to]).Valid()
  {
    assert forall f :: f in c.local ==> c.local[f] in c.local.Values;
  }

  lemma LocalName(suffix: string)
    requires IsWord(suffix) && '=' !in suffix
    ensures CacheFlags.IsName(LOCAL + suffix) && !HasPrefix(LOCAL + suffix, DISTRIBUTED) && LOCAL + suffix != BLOCK_CACHE
    ensures (LOCAL + suffix)[|LOCAL|..] == suffix && (DISTRIBUTED + suffix)[|DISTRIBUTED|..] == suffix
  {
    assert (LOCAL + suffix)[2] == 'b' && DISTRIBUTED[2] == 'd';
    assert |LOCAL + suffix| > |BLOCK_CACHE|;
  }

  /** Names with one prefix differ when their suffixes do. */
  lemma Differ(prefix: string, a: string, b: string)
    requires a != b
    ensures prefix + a != prefix + b
  {
    assert (prefix + a)[|prefix|..] == a && (prefix + b)[|prefix|..] == b;
  }

  /** The flags as built up from pairs of suffixes, each pair new. */
  lemma {:induction false} PairsValid(c: CacheFlags, pairs: seq<(string, string)>) returns (d: CacheFlags)
    requires c.distributedPrefix == DISTRIBUTED && c.blockCache == BLOCK_CACHE && c.Valid()
    requires forall p :: p in pairs ==> IsWord(p.1) && '=' !in p.1
    requires forall p :: p in pairs ==> DISTRIBUTED + p.0 !in c.local && LOCAL + p.1 !in c.local.Values
    requires forall i, j :: 0 <= i < j < |pairs| ==> pairs[i].0 != pairs[j].0 && pairs[i].1 != pairs[j].1
    ensures d.Valid() && d == c.(local := WithPairs(c.local, pairs))
    decreases |pairs|
  {
    if pairs == [] {
      d := c;
    } else {
      var (from, to) := pairs[0];
      assert pairs[0] in pairs;
      LocalName(to);
      AddTranslation(c, DISTRIBUTED + from, LOCAL + to);
      var e := c.(local := c.local[DISTRIBUTED + from := LOCAL + to]);
      forall p | p in pairs[1..]
        ensures DISTRIBUTED + p.0 !in e.local && LOCAL + p.1 !in e.local.Values
      {
        var j :| 1 <= j < |pairs| && pairs[j] == p;
        Differ(DISTRIBUTED, from, p.0);
        Differ(LOCAL, to, p.1);
      }
      d := PairsValid(e, pairs[1..]);
    }
  }

  function WithPairs(m: map<string, string>, pairs: seq<(string, string)>): map<string, string>
    decreases |pairs|
  {
    if pairs == [] then m
    else WithPairs(m[DISTRIBUTED + pairs[0].0 := LOCAL + pairs[0].1], pairs[1..])
  }

  /** distributedToBlockCacheOptions, without the prefixes. */
  const SUFFIXES := [("block-size", "block-size"), ("node-memory", "pool-size"), ("prefetch", "prefetch"), ("parallelism", "parallelism")]

  function SourceFlags(): CacheFlags {
    CacheFlags(DISTRIBUTED, BLOCK_CACHE, WithPairs(map[], SUFFIXES))
  }

  lemma NoneValid()
    ensures CacheFlags(DISTRIBUTED, BLOCK_CACHE, map[]).Valid()
  {
    assert BLOCK_CACHE[2] == 'b' && DISTRIBUTED[2] == 'd';
  }

  /** The second letters tell the suffixes apart. */
  lemma SuffixesDiffer()
    ensures forall i, j :: 0 <= i < j < |SUFFIXES| ==> SUFFIXES[i].0 != SUFFIXES[j].0 && SUFFIXES[i].1 != SUFFIXES[j].1
  {
    assert forall i :: 0 <= i < 4 ==> SUFFIXES[i].0[1] == SUFFIXES[i].1[1] == "lora"[i];
  }

  lemma SuffixesAreWords(p: (string, string))
    requires p in SUFFIXES
    ensures IsWord(p.1) && '=' !in p.1
  {
  }

  /** The source's flags are of the kind the theorems are about. */
  lemma SourceFlagsValid()
    ensures SourceFlags().Valid()
  {
    NoneValid();
    SuffixesDiffer();
    forall p | p in SUFFIXES ensures IsWord(p.1) && '=' !in p.1 {
      SuffixesAreWords(p);
    }
    var d := PairsValid(CacheFlags(DISTRIBUTED, BLOCK_CACHE, map[]), SUFFIXES);
  }

  /** The source's flags and translations, spelled out. */
  lemma SourceFlagsAre()
    ensures SourceFlags().distributedPrefix == "--distributed-cache-" && SourceFlags().blockCache == "--block-cache"
    ensures SourceFlags().local ==
            map["--distributed-cache-block-size" := "--block-cache-block-size"]
               ["--distributed-cache-node-memory" := "--block-cache-pool-size"]
               ["--distributed-cache-prefetch" := "--block-cache-prefetch"]
               ["--distributed-cache-parallelism" := "--block-cache-parallelism"]
  {
    assert DISTRIBUTED + "block-size" == "--distributed-cache-block-size" && LOCAL + "block-size" == "--block-cache-block-size";
    assert DISTRIBUTED + "node-memory" == "--distributed-cache-node-memory" && LOCAL + "pool-size" == "--block-cache-pool-size";
    assert DISTRIBUTED + "prefetch" == "--distributed-cache-prefetch" && LOCAL + "prefetch" == "--block-cache-prefetch";
    assert DISTRIBUTED + "parallelism" == "--distributed-cache-parallelism" && LOCAL + "parallelism" == "--block-cache-parallelism";
    FourPairs(map[], SUFFIXES);
  }

  lemma FourPairs(m: map<string, string>, ps: seq<(string, string)>)
    requires |ps| == 4
    ensures WithPairs(m, ps) == m[DISTRIBUTED + ps[0].0 := LOCAL + ps[0].1][DISTRIBUTED + ps[1].0 := LOCAL + ps[1].1]
                                 [DISTRIBUTED + ps[2].0 := LOCAL + ps[2].1][DISTRIBUTED + ps[3].0 := LOCAL + ps[3].1]
  {
    var m1 := m[DISTRIBUTED + ps[0].0 := LOCAL + ps[0].1];
    var m2 := m1[DISTRIBUTED + ps[1].0 := LOCAL + ps[1].1];
    var m3 := m2[DISTRIBUTED + ps[2].0 := LOCAL + ps[2].1];
    assert WithPairs(m, ps) == WithPairs(m1, ps[1..]);
    assert WithPairs(m1, ps[1..]) == WithPairs(m2, ps[1..][1..]);
    assert WithPairs(m2, ps[2..]) == WithPairs(m3, ps[2..][1..]);
    assert ps[1..][1..] == ps[2..] && ps[2..][1..] == ps[3..] && ps[3..][1..] == [];
    assert WithPairs(m3, ps[3..]) == WithPairs(m3[DISTRIBUTED + ps[3].0 := LOCAL + ps[3].1], []);
  }
}
