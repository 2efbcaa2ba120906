/** Everything NodeStageVolume does to the option list on its way into the argument vector of blobfuse2. */
module MountPipeline {
  import opened Text
  import opened MountOptions
  import opened MountArgv
  import opened CacheFallback
  import opened MountDefaults

  predicate HasDistributed(c: CacheFlags, ps: seq<Opt>) {
    exists i :: 0 <= i < |ps| && c.IsDistributed(ps[i].flag)
  }

  /** hasDistributedCacheMountOptions. */
  method HasDistributedCacheMountOptions(c: CacheFlags, os: seq<string>) returns (r: bool)
    ensures r <==> HasDistributed(c, ReadAll(os))
  {
    var ps := ReadAll(os);
    var i := 0;
    while i < |os|
      invariant 0 <= i <= |os|
      invariant forall j :: 0 <= j < i ==> !c.IsDistributed(ps[j].flag)
    {
      if c.IsDistributed(ps[i].flag) {
        return true;
      }
      i := i + 1;
    }
    return false;
  }

  /** The list without distributed cache, if it asks for it and the installed blobfuse2 does not support it. */
  function Rewritten(c: CacheFlags, supported: bool, ps: seq<Opt>): seq<Opt> {
    if HasDistributed(c, ps) && !supported then Fallback(c, ps) else ps
  }

  /** The list that is mounted with. */
  function Mounted(c: CacheFlags, d: Defaults, supported: bool, ps: seq<Opt>, order: seq<string>): seq<Opt> {
    var rewritten := Rewritten(c, supported, ps);
    rewritten + Added(d, rewritten, order)
  }

  /** The part of NodeStageVolume between the list of options and the arguments of the mount. */
  method StageArgs(
      c: CacheFlags, d: Defaults, supported: bool, target: string, options: seq<string>, order: seq<string>)
    returns (args: string)
    requires c.Valid() && d.Valid() && IsOrder(d, Rewritten(c, supported, ReadAll(options)), order)
    ensures args == Join([target] + Texts(Mounted(c, d, supported, ReadAll(options), order)), " ")
  {
    var os := options;
    var distributed := HasDistributedCacheMountOptions(c, os);
    if distributed {
      if !supported {
        os := FallbackToLocalBlockCache(c, os);
      }
    }
    assert ReadAll(os) == Rewritten(c, supported, ReadAll(options));
    ReadBack(options);
    assert os == Texts(ReadAll(os));
    TextsAppend(ReadAll(os), Added(d, ReadAll(os), order));
    os := AppendDefaults(d, os, order);
    args := BuildArgs(target, os);
  }

  lemma ReadBack(os: seq<string>)
    ensures Texts(ReadAll(os)) == os
  {
  }

  lemma TextsAppend(ps: seq<Opt>, qs: seq<Opt>)
    ensures Texts(ps + qs) == Texts(ps) + Texts(qs)
  {
  }

  // ---------------------------------------------------------------- nothing is merged, split or invented

  /** An option as the checks leave it. */
  predicate IsGood(p: Opt) {
    IsReadable(p) && IsShaped(p.text)
  }

  ghost predicate AllGood(ps: seq<Opt>) {
    forall i :: 0 <= i < |ps| ==> IsGood(ps[i])
  }

  lemma PairGood(flag: string, value: string)
    requires CacheFlags.IsName(flag) && value != "" && SpaceFree(value)
    ensures IsGood(Pair(flag, value)) && IsWord(Pair(flag, value).text)
  {
    PairReadable(flag, value);
  }

  /** A distributed option is never of the -o kind, so that its value holds no white space. */
  lemma DistributedIsWord(c: CacheFlags, p: Opt)
    requires HasPrefix(c.distributedPrefix, "--") && c.IsDistributed(p.flag) && IsGood(p)
    ensures IsWord(p.text) && SpaceFree(p.value)
  {
    assert p.flag[1] == '-';
    if IsWord(p.text) {
      TrimSpaceFixed(p.text);
    }
  }

  lemma GoodIsPreserved(c: CacheFlags)
    requires c.Valid() && HasPrefix(c.distributedPrefix, "--")
    ensures Preserved(c, p => IsGood(p))
  {
    PairGood(c.blockCache, "true");
    forall p | IsGood(p) && Translatable(c, p)
      ensures IsGood(Pair(c.local[p.flag], p.value))
    {
      DistributedIsWord(c, p);
      PairGood(c.local[p.flag], p.value);
    }
  }

  lemma RewrittenGood(c: CacheFlags, supported: bool, ps: seq<Opt>)
    requires c.Valid() && HasPrefix(c.distributedPrefix, "--") && AllGood(ps)
    ensures AllGood(Rewritten(c, supported, ps))
  {
    GoodIsPreserved(c);
    FallbackKeeps(c, ps, p => IsGood(p));
  }

  /** The values of the defaults contain no white space. */
  ghost predicate PlainDefaults(d: Defaults) {
    SpaceFree(d.dnsServer) && forall k :: k in d.values ==> SpaceFree(d.values[k])
  }

  lemma AddedGood(d: Defaults, ps: seq<Opt>, order: seq<string>)
    requires d.Valid() && PlainDefaults(d)
    ensures AllGood(Added(d, ps, order))
    ensures forall i :: 0 <= i < |Added(d, ps, order)| ==> IsWord(Texts(Added(d, ps, order))[i])
  {
    var added := Added(d, ps, order);
    forall i | 0 <= i < |added| ensures IsGood(added[i]) && IsWord(added[i].text) {
      AddedSource(d, ps, order, i);
      PairGood(added[i].flag, added[i].value);
    }
  }

  // ---------------------------------------------------------------- plain spaces through the rewriting

  lemma WordIsPlain(w: string)
    requires IsWord(w)
    ensures PlainSpaces(w)
  {
  }

  /** Options of the -o kind are neither distributed nor about the block cache, so they are kept as they are. */
  lemma FuseIsKept(c: CacheFlags, ps: seq<Opt>, i: int)
    requires c.Valid() && HasPrefix(c.distributedPrefix, "--") && 0 <= i < |ps| && IsGood(ps[i]) && !IsWord(ps[i].text)
    ensures Rewrite(c, ps, i) == [ps[i]]
  {
    var p := ps[i];
    if c.IsDistributed(p.flag) {
      DistributedIsWord(c, p);
    }
    FuseFlagIsNoName(p);
  }

  /** The flag that such an option would have holds the space after -o. */
  lemma FuseFlagIsNoName(p: Opt)
    requires IsReadable(p) && IsFuse(p.text)
    ensures !CacheFlags.IsName(p.flag)
  {
    FuseShape(p.text);
    TrimSpaceFixed(p.text);
    FlagNameHas(p.text, 2);
  }

  lemma FuseShape(o: string)
    requires IsFuse(o)
    ensures |o| > 2 && o[0] == '-' && o[1] == 'o' && o[2] == ' ' && IsTrimmed(o)
  {
    var g := TrimLeftParts(o[3..]);
    assert o == "-o " + g + TrimLeft(o[3..]);
  }

  /** What stands before any "=" is part of the flag. */
  lemma FlagNameHas(token: string, n: nat)
    requires n < |token| && forall i :: 0 <= i <= n ==> token[i] != '='
    ensures |FlagName(token)| > n && FlagName(token)[n] == token[n]
  {
    var i := Index(token, "=");
    if i != -1 {
      assert token[i..i + 1][0] == '=';
    }
  }

  lemma {:induction false} RewriteUpToHas(c: CacheFlags, ps: seq<Opt>, n: int, i: int)
    requires 0 <= i < n <= |ps| && Rewrite(c, ps, i) == [ps[i]]
    ensures ps[i] in RewriteUpTo(c, ps, n)
  {
    if i < n - 1 {
      RewriteUpToHas(c, ps, n - 1, i);
    }
  }

  /** What is rewritten has plain spaces: it comes from a plain option, or is a word. */
  lemma PlainIsPreserved(c: CacheFlags)
    requires c.Valid() && HasPrefix(c.distributedPrefix, "--")
    ensures Preserved(c, p => IsGood(p) && PlainSpaces(p.text))
  {
    PairGood(c.blockCache, "true");
    WordIsPlain(c.Enabled().text);
    forall p | IsGood(p) && PlainSpaces(p.text) && Translatable(c, p)
      ensures IsGood(Pair(c.local[p.flag], p.value)) && PlainSpaces(Pair(c.local[p.flag], p.value).text)
    {
      DistributedIsWord(c, p);
      PairGood(c.local[p.flag], p.value);
      WordIsPlain(Pair(c.local[p.flag], p.value).text);
    }
  }

  ghost predicate AllPlainOpts(ps: seq<Opt>) {
    forall i :: 0 <= i < |ps| ==> PlainSpaces(ps[i].text)
  }

  /** The rewriting makes no space plain, and none other. */
  lemma RewrittenPlainExactly(c: CacheFlags, supported: bool, ps: seq<Opt>)
    requires c.Valid() && HasPrefix(c.distributedPrefix, "--") && AllGood(ps)
    ensures AllPlainOpts(Rewritten(c, supported, ps)) <==> AllPlainOpts(ps)
  {
    if AllPlainOpts(ps) {
      PlainIsPreserved(c);
      FallbackKeeps(c, ps, p => IsGood(p) && PlainSpaces(p.text));
    } else {
      var i :| 0 <= i < |ps| && !PlainSpaces(ps[i].text);
      UnplainIsKept(c, ps, i);
    }
  }

  lemma UnplainIsKept(c: CacheFlags, ps: seq<Opt>, i: int)
    requires c.Valid() && HasPrefix(c.distributedPrefix, "--") && 0 <= i < |ps| && IsGood(ps[i]) && !PlainSpaces(ps[i].text)
    ensures ps[i] in Fallback(c, ps)
  {
    if IsWord(ps[i].text) {
      WordIsPlain(ps[i].text);
    }
    FuseIsKept(c, ps, i);
    RewriteUpToHas(c, ps, |ps|, i);
  }

  lemma PlainTexts(ps: seq<Opt>)
    ensures AllPlain(Texts(ps)) <==> AllPlainOpts(ps)
  {
    forall i | 0 <= i < |ps| ensures Texts(ps)[i] in Texts(ps) && Texts(ps)[i] == ps[i].text {
    }
  }

  /** Whatever the driver adds or rewrites, blobfuse2 is called with the target, the arguments of the user's options, one
      for a flag and two for an -o option, and one for each default, in this order, exactly when the spaces in the user's
      options are plain. */
  lemma StagedArgv(
      c: CacheFlags, d: Defaults, supported: bool, target: string, options: seq<string>, order: seq<string>)
    requires c.Valid() && d.Valid() && HasPrefix(c.distributedPrefix, "--") && PlainDefaults(d)
    requires IsWord(target) && forall o :: o in options ==> IsShaped(o)
    ensures var rewritten := Rewritten(c, supported, ReadAll(options));
            Argv(Join([target] + Texts(Mounted(c, d, supported, ReadAll(options), order)), " "))
            == [target] + (ArgvOfAll(Texts(rewritten)) + Texts(Added(d, rewritten, order)))
            <==> AllPlain(options)
  {
    var ps := ReadAll(options);
    var rewritten := Rewritten(c, supported, ps);
    var added := Added(d, rewritten, order);
    var os := Texts(rewritten + added);
    RewrittenGood(c, supported, ps);
    AddedGood(d, rewritten, order);
    forall o | o in os ensures IsShaped(o) {
      var i :| 0 <= i < |os| && os[i] == o;
      assert IsGood((rewritten + added)[i]);
    }
    ArgvExactly(target, os);
    TextsAppend(rewritten, added);
    ArgvOfWords(Texts(rewritten), Texts(added));
    MountedPlainExactly(c, supported, options, added);
  }

  lemma MountedPlainExactly(c: CacheFlags, supported: bool, options: seq<string>, added: seq<Opt>)
    requires c.Valid() && HasPrefix(c.distributedPrefix, "--") && AllGood(ReadAll(options))
    requires forall i :: 0 <= i < |added| ==> IsWord(added[i].text)
    ensures AllPlain(Texts(Rewritten(c, supported, ReadAll(options)) + added)) <==> AllPlain(options)
  {
    var ps := ReadAll(options);
    var rewritten := Rewritten(c, supported, ps);
    RewrittenPlainExactly(c, supported, ps);
    PlainTexts(ps);
    ReadBack(options);
    PlainTexts(rewritten + added);
    PlainAppend(rewritten, added);
  }

  lemma PlainAppend(ps: seq<Opt>, words: seq<Opt>)
    requires forall i :: 0 <= i < |words| ==> IsWord(words[i].text)
    ensures AllPlainOpts(ps + words) <==> AllPlainOpts(ps)
  {
    forall i | 0 <= i < |words| ensures PlainSpaces(words[i].text) {
      WordIsPlain(words[i].text);
    }
    assert forall i :: 0 <= i < |ps| ==> (ps + words)[i] == ps[i];
  }

  // ---------------------------------------------------------------- no unsupported cache

  /** An installed blobfuse2 without distributed cache is never asked for it, not even by a default. */
  lemma NeverAsksForUnsupported(c: CacheFlags, d: Defaults, ps: seq<Opt>, order: seq<string>)
    requires c.Valid() && d.Valid() && c.IsDistributed(d.discovery)
    requires forall k :: k in d.values ==> !c.IsDistributed(k)
    ensures !HasDistributed(c, Mounted(c, d, false, ps, order))
  {
    var rewritten := Rewritten(c, false, ps);
    var mounted := Mounted(c, d, false, ps, order);
    FallbackLeavesLocal(c, ps);
    assert !HasDistributed(c, rewritten);
    forall i | 0 <= i < |mounted| ensures !c.IsDistributed(mounted[i].flag) {
      if i < |rewritten| {
        assert mounted[i] == rewritten[i];
      } else {
        AddedSource(d, rewritten, order, i - |rewritten|);
      }
    }
  }

  /** The source's own flags and defaults are as the theorems assume, if the cache path and the container name contain no
      white space. */
  lemma SourceIsPlain(tmpPath: string, containerName: string)
    ensures HasPrefix(SourceFlags().distributedPrefix, "--")
    ensures forall k :: k in SourceDefaults(tmpPath, containerName).values ==> !SourceFlags().IsDistributed(k)
    ensures PlainDefaults(SourceDefaults(tmpPath, containerName)) <==> SpaceFree(tmpPath) && SpaceFree(containerName)
  {
    var d := SourceDefaults(tmpPath, containerName);
    DistributedBegins();
    SourceValues(tmpPath, containerName);
    NamesA();
    NamesB();
    NamesC();
    NamesD();
    assert forall k :: k in d.values ==> IsPlainName(k);
  }

  lemma SourceValues(tmpPath: string, containerName: string)
    ensures PlainDefaults(SourceDefaults(tmpPath, containerName)) <==> SpaceFree(tmpPath) && SpaceFree(containerName)
  {
    var d := SourceDefaults(tmpPath, containerName);
    assert d.values[TMP_PATH] == tmpPath && d.values[CONTAINER_NAME] == containerName;
  }

  lemma DistributedBegins()
    ensures HasPrefix(DISTRIBUTED, "--") && |DISTRIBUTED| > 2 && DISTRIBUTED[2] == 'd'
  {
  }
}
