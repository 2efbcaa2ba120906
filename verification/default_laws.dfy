/** When the driver leaves the user's options alone, and which default it adds, option text by option text. */
module DefaultLaws {
  import opened Text
  import opened Visits
  import opened MountOptions
  import opened CacheFallback
  import opened MountDefaults
  import opened MountPipeline

  /** The user's own option for a flag. */
  predicate Gives(os: seq<string>, f: string) {
    exists o :: o in os && Flag(o) == f
  }

  predicate BeginsWith(os: seq<string>, k: string) {
    exists o :: o in os && k <= o
  }

  lemma GivesExactly(os: seq<string>, f: string)
    ensures Gives(os, f) <==> HasFlag(ReadAll(os), f)
  {
    forall i | 0 <= i < |os| ensures ReadAll(os)[i].flag == Flag(os[i]) && os[i] in os {
    }
  }

  lemma BeginsExactly(os: seq<string>, k: string)
    ensures BeginsWith(os, k) <==> TextBegins(ReadAll(os), |ReadAll(os)|, k)
  {
    forall i | 0 <= i < |os| ensures ReadAll(os)[i].text == os[i] && os[i] in os {
    }
  }

  // ---------------------------------------------------------------- which default is added

  /** The flag of a text tells which default it is. */
  lemma AddedTextExactly(d: Defaults, ps: seq<Opt>, order: seq<string>, k: string, v: string)
    requires d.Valid() && IsOrder(d, ps, order) && CacheFlags.IsName(k)
    requires k in AllDefaults(d, ps) ==> AllDefaults(d, ps)[k] == v
    ensures k + "=" + v in Texts(Added(d, ps, order)) <==> IsAdded(d, ps, k)
  {
    var added := Added(d, ps, order);
    if IsAdded(d, ps, k) {
      assert k in multiset(order);
      AddedHas(d, ps, order, k);
      var i :| 0 <= i < |added| && added[i] == Pair(k, v);
      assert Texts(added)[i] == k + "=" + v;
    }
    if k + "=" + v in Texts(added) {
      var i :| 0 <= i < |added| && Texts(added)[i] == k + "=" + v;
      AddedSource(d, ps, order, i);
      FlagOfPair(k, v);
      FlagOfPair(added[i].flag, added[i].value);
    }
  }

  /** A default that has nothing to do with the cache directory is added exactly when it has a value and no option begins with
      its name. */
  lemma DefaultExactly(d: Defaults, os: seq<string>, order: seq<string>, k: string)
    requires d.Valid() && IsOrder(d, ReadAll(os), order) && k in d.values && k != d.tmpPath && k != d.emptyDirCheck
    ensures k + "=" + d.values[k] in Texts(Added(d, ReadAll(os), order)) <==> d.values[k] != "" && !BeginsWith(os, k)
  {
    AddedTextExactly(d, ReadAll(os), order, k, d.values[k]);
    BeginsExactly(os, k);
  }

  /** The cache directory and the check of it come with the further condition that distributed cache is off. */
  lemma CacheDefaultExactly(d: Defaults, os: seq<string>, order: seq<string>, k: string)
    requires d.Valid() && IsOrder(d, ReadAll(os), order) && k in d.values && (k == d.tmpPath || k == d.emptyDirCheck)
    ensures k + "=" + d.values[k] in Texts(Added(d, ReadAll(os), order)) <==>
            d.values[k] != "" && !BeginsWith(os, k) && !Gives(os, d.discovery)
  {
    AddedTextExactly(d, ReadAll(os), order, k, d.values[k]);
    BeginsExactly(os, k);
    GivesExactly(os, d.discovery);
  }

  /** The DNS server is added exactly when distributed cache is on and the user gives none. */
  lemma DnsExactly(d: Defaults, os: seq<string>, order: seq<string>)
    requires d.Valid() && IsOrder(d, ReadAll(os), order) && d.dnsServer != ""
    ensures d.dnsFlag + "=" + d.dnsServer in Texts(Added(d, ReadAll(os), order)) <==>
            Gives(os, d.discovery) && !Gives(os, d.dnsFlag)
  {
    AddedTextExactly(d, ReadAll(os), order, d.dnsFlag, d.dnsServer);
    GivesExactly(os, d.discovery);
    GivesExactly(os, d.dnsFlag);
  }

  /** Nothing but defaults is added. */
  lemma OnlyDefaults(d: Defaults, os: seq<string>, order: seq<string>, o: string)
    requires o in Texts(Added(d, ReadAll(os), order))
    ensures (exists k :: k in d.values && o == k + "=" + d.values[k]) || o == d.dnsFlag + "=" + d.dnsServer
  {
    var added := Added(d, ReadAll(os), order);
    var i :| 0 <= i < |added| && Texts(added)[i] == o;
    AddedSource(d, ReadAll(os), order, i);
    var k := added[i].flag;
    assert o == k + "=" + AllDefaults(d, ReadAll(os))[k];
    if k in d.values {
      assert k != d.dnsFlag ==> o == k + "=" + d.values[k];
    }
  }

  // ---------------------------------------------------------------- the source's defaults, spelled out

  lemma SourceDefaultsAre(tmpPath: string, containerName: string)
    ensures var d := SourceDefaults(tmpPath, containerName);
            && d.values ==
               map["--pre-mount-validate" := "true", "--use-https" := "true", "--tmp-path" := tmpPath,
                   "--container-name" := containerName, "--cancel-list-on-mount-seconds" := "10", "--empty-dir-check" := "false"]
            && d.discovery == "--distributed-cache-discovery-endpoint"
            && d.dnsFlag == "--distributed-cache-dns-server" && d.dnsServer == "10.0.0.10"
            && d.tmpPath == "--tmp-path" && d.emptyDirCheck == "--empty-dir-check"
  {
  }

  lemma ServerText()
    ensures DNS_FLAG + "=" + "10.0.0.10" == "--distributed-cache-dns-server=10.0.0.10"
  {
    assert |DNS_FLAG| == 30;
  }

  /** What the driver adds for a container with the cache directory it made up: the directory exactly when distributed cache
      is off, the DNS server exactly when it is on, unless the user has said so already. */
  lemma SourceCacheDefaults(os: seq<string>, tmpPath: string, containerName: string, order: seq<string>)
    requires tmpPath != "" && IsOrder(SourceDefaults(tmpPath, containerName), ReadAll(os), order)
    ensures var r := Texts(Added(SourceDefaults(tmpPath, containerName), ReadAll(os), order));
            var distributed := Gives(os, "--distributed-cache-discovery-endpoint");
            && ("--tmp-path" + "=" + tmpPath in r <==> !distributed && !BeginsWith(os, "--tmp-path"))
            && ("--empty-dir-check" + "=" + "false" in r <==> !distributed && !BeginsWith(os, "--empty-dir-check"))
            && ("--distributed-cache-dns-server=10.0.0.10" in r <==> distributed && !Gives(os, "--distributed-cache-dns-server"))
  {
    var d := SourceDefaults(tmpPath, containerName);
    SourceDefaultsValid(tmpPath, containerName);
    CacheKeys(tmpPath, containerName);
    CacheDefaultExactly(d, os, order, d.tmpPath);
    CacheDefaultExactly(d, os, order, d.emptyDirCheck);
    DnsExactly(d, os, order);
    ServerText();
  }

  lemma CacheKeys(tmpPath: string, containerName: string)
    ensures var d := SourceDefaults(tmpPath, containerName);
            && d.tmpPath == "--tmp-path" && d.emptyDirCheck == "--empty-dir-check" && d.dnsServer == "10.0.0.10"
            && d.tmpPath in d.values && d.emptyDirCheck in d.values
            && d.values[d.tmpPath] == tmpPath && d.values[d.emptyDirCheck] == "false"
            && d.discovery == "--distributed-cache-discovery-endpoint" && d.dnsFlag == "--distributed-cache-dns-server"
  {
    KeysDiffer();
  }

  lemma KeysDiffer()
    ensures |PRE_MOUNT_VALIDATE| == 20 && |USE_HTTPS| == 11 && |TMP_PATH| == 10 && |CONTAINER_NAME| == 16
    ensures |CANCEL_LIST| == 30 && |EMPTY_DIR_CHECK| == 17
  {
  }

  /** The container that is mounted, and https, unless the user's options begin with these flags. */
  lemma SourceOtherDefaults(os: seq<string>, tmpPath: string, containerName: string, order: seq<string>)
    requires containerName != "" && IsOrder(SourceDefaults(tmpPath, containerName), ReadAll(os), order)
    ensures var r := Texts(Added(SourceDefaults(tmpPath, containerName), ReadAll(os), order));
            && ("--container-name" + "=" + containerName in r <==> !BeginsWith(os, "--container-name"))
            && ("--use-https" + "=" + "true" in r <==> !BeginsWith(os, "--use-https"))
            && ("--pre-mount-validate" + "=" + "true" in r <==> !BeginsWith(os, "--pre-mount-validate"))
            && ("--cancel-list-on-mount-seconds" + "=" + "10" in r <==> !BeginsWith(os, "--cancel-list-on-mount-seconds"))
  {
    var d := SourceDefaults(tmpPath, containerName);
    SourceDefaultsValid(tmpPath, containerName);
    OtherKeys(tmpPath, containerName);
    DefaultExactly(d, os, order, CONTAINER_NAME);
    DefaultExactly(d, os, order, USE_HTTPS);
    DefaultExactly(d, os, order, PRE_MOUNT_VALIDATE);
    DefaultExactly(d, os, order, CANCEL_LIST);
  }

  lemma OtherKeys(tmpPath: string, containerName: string)
    ensures var d := SourceDefaults(tmpPath, containerName);
            && {CONTAINER_NAME, USE_HTTPS, PRE_MOUNT_VALIDATE, CANCEL_LIST} <= d.values.Keys - {d.tmpPath, d.emptyDirCheck}
            && d.values[CONTAINER_NAME] == containerName && d.values[USE_HTTPS] == "true"
            && d.values[PRE_MOUNT_VALIDATE] == "true" && d.values[CANCEL_LIST] == "10"
  {
    KeysDiffer();
  }

  // ---------------------------------------------------------------- when the options are rewritten

  /** The user's options are mounted with as they are, followed by defaults, exactly when distributed cache is supported or
      not asked for. */
  lemma KeptExactly(c: CacheFlags, supported: bool, ps: seq<Opt>)
    requires c.Valid()
    ensures Rewritten(c, supported, ps) == ps <==> supported || forall i :: 0 <= i < |ps| ==> !HasPrefix(ps[i].flag, c.distributedPrefix)
  {
    if !supported {
      FallbackLeavesLocal(c, ps);
    }
  }

  /** Distributed cache, where it is supported: the arguments hold the user's options unchanged, the DNS server, and no cache
      directory of the driver's. */
  lemma SupportedIsServed(os: seq<string>, tmpPath: string, containerName: string, order: seq<string>)
    requires tmpPath != "" && Gives(os, "--distributed-cache-discovery-endpoint")
    requires IsOrder(SourceDefaults(tmpPath, containerName), ReadAll(os), order)
    ensures var r := Texts(Mounted(SourceFlags(), SourceDefaults(tmpPath, containerName), true, ReadAll(os), order));
            && os <= r
            && (Gives(os, "--distributed-cache-dns-server") || "--distributed-cache-dns-server=10.0.0.10" in r)
            && "--tmp-path" + "=" + tmpPath !in r[|os|..]
  {
    var d := SourceDefaults(tmpPath, containerName);
    var added := Added(d, ReadAll(os), order);
    SourceCacheDefaults(os, tmpPath, containerName, order);
    ReadBack(os);
    TextsAppend(ReadAll(os), added);
    var r := Texts(ReadAll(os)) + Texts(added);
    assert r[|os|..] == Texts(added);
  }

  /** Where it is not supported, a text that the fallback makes is mounted with. */
  lemma FallbackIsMounted(c: CacheFlags, d: Defaults, os: seq<string>, order: seq<string>, i: nat, o: string)
    requires i < |os| && HasPrefix(Flag(os[i]), c.distributedPrefix) && o in Texts(Fallback(c, ReadAll(os)))
    ensures o in Texts(Mounted(c, d, false, ReadAll(os), order))
  {
    var ps := ReadAll(os);
    assert c.IsDistributed(ps[i].flag);
    TextsAppend(Fallback(c, ps), Added(d, Fallback(c, ps), order));
  }

  /** One distributed option is enough for local block cache to be switched on instead. */
  lemma BlockCacheInstead(c: CacheFlags, d: Defaults, os: seq<string>, order: seq<string>, i: nat)
    requires c.Valid() && i < |os| && HasPrefix(Flag(os[i]), c.distributedPrefix)
    ensures c.blockCache + "=true" in Texts(Mounted(c, d, false, ReadAll(os), order))
  {
    BlockCacheIsOn(c, os);
    FallbackIsMounted(c, d, os, order, i, c.blockCache + "=true");
  }

  /** The first value of a distributed option goes to its local counterpart, unless the user gave that one too. */
  lemma TranslationIsMounted(c: CacheFlags, d: Defaults, os: seq<string>, order: seq<string>, i: nat)
    requires c.Valid() && i < |os| && Flag(os[i]) in c.local && Value(os[i]) != "" && !Gives(os, c.local[Flag(os[i])])
    requires forall j :: 0 <= j < i ==> Flag(os[j]) != Flag(os[i])
    ensures c.local[Flag(os[i])] + "=" + Value(os[i]) in Texts(Mounted(c, d, false, ReadAll(os), order))
  {
    TranslatedText(c, os, i);
    FallbackIsMounted(c, d, os, order, i, c.local[Flag(os[i])] + "=" + Value(os[i]));
  }
}
