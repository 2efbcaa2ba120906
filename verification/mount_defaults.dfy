/** The options the driver adds when the user did not set them. Go visits the map of defaults in an arbitrary order. */
module MountDefaults {
  import opened Text
  import opened MountOptions
  import opened CacheFallback
  import opened Visits

  /** The defaults, the flag that announces distributed cache, and what then changes. */
  datatype Defaults = Defaults(
    values: map<string, string>, discovery: string, dnsFlag: string, dnsServer: string,
    tmpPath: string, emptyDirCheck: string)
  {
    ghost predicate Valid() {
      && (forall k :: k in values ==> CacheFlags.IsName(k))
      && CacheFlags.IsName(dnsFlag) && dnsFlag !in values
      && discovery !in values && discovery != dnsFlag && dnsFlag != tmpPath && dnsFlag != emptyDirCheck
    }
  }

  predicate DistributedCache(d: Defaults, ps: seq<Opt>) {
    HasFlag(ps, d.discovery)
  }

  /** The map at the time it is iterated over. */
  function AllDefaults(d: Defaults, ps: seq<Opt>): map<string, string> {
    if DistributedCache(d, ps) then d.values[d.dnsFlag := d.dnsServer] else d.values
  }

  predicate TextBegins(ps: seq<Opt>, n: int, k: string)
    requires 0 <= n <= |ps|
  {
    exists i :: 0 <= i < n && HasPrefix(ps[i].text, k)
  }

  /** The default is not wanted: some option begins with its name, or distributed cache rules it out. */
  predicate IsIncluded(d: Defaults, ps: seq<Opt>, k: string) {
    if k == d.dnsFlag then HasFlag(ps, d.dnsFlag)
    else TextBegins(ps, |ps|, k) || (DistributedCache(d, ps) && k in {d.tmpPath, d.emptyDirCheck})
  }

  predicate IsAdded(d: Defaults, ps: seq<Opt>, k: string) {
    k in AllDefaults(d, ps) && !IsIncluded(d, ps, k) && AllDefaults(d, ps)[k] != ""
  }

  function AddedFor(d: Defaults, ps: seq<Opt>, k: string): seq<Opt> {
    if IsAdded(d, ps, k) then [Pair(k, AllDefaults(d, ps)[k])] else []
  }

  /** The defaults that are added, in the order of the visit. */
  function Added(d: Defaults, ps: seq<Opt>, order: seq<string>): seq<Opt> {
    Gather(order, k => AddedFor(d, ps, k))
  }

  lemma AddedSource(d: Defaults, ps: seq<Opt>, order: seq<string>, i: int)
    requires 0 <= i < |Added(d, ps, order)|
    ensures var p := Added(d, ps, order)[i]; IsAdded(d, ps, p.flag) && p == Pair(p.flag, AllDefaults(d, ps)[p.flag])
  {
    var k := GatherSource(order, k => AddedFor(d, ps, k), i);
  }

  /** An order in which the loop may visit the map. */
  ghost predicate IsOrder(d: Defaults, ps: seq<Opt>, order: seq<string>) {
    IsVisit(AllDefaults(d, ps).Keys, order)
  }

  /** appendDefaultMountOptions. */
  method AppendDefaults(d: Defaults, os: seq<string>, order: seq<string>) returns (r: seq<string>)
    requires d.Valid() && IsOrder(d, ReadAll(os), order)
    ensures r == os + Texts(Added(d, ReadAll(os), order))
  {
    var defaults, included := Collect(d, ReadAll(os));
    var added := AddMissing(order, defaults, included);
    SameMissing(d, ReadAll(os), order, defaults, included);
    return os + Texts(added);
  }

  /** The map of defaults, and those that are not wanted. */
  method Collect(d: Defaults, ps: seq<Opt>) returns (defaults: map<string, string>, included: set<string>)
    requires d.Valid()
    ensures defaults == AllDefaults(d, ps)
    ensures forall k :: k in defaults ==> (k in included <==> IsIncluded(d, ps, k))
  {
    var enabled, dnsProvided;
    included, enabled, dnsProvided := Scan(d, ps);
    defaults := d.values;
    if enabled {
      included := included + {d.tmpPath, d.emptyDirCheck};
      defaults := defaults[d.dnsFlag := d.dnsServer];
      if dnsProvided {
        included := included + {d.dnsFlag};
      }
    }
  }

  /** One round of the second loop. */
  function Missing(defaults: map<string, string>, included: set<string>, k: string): seq<Opt> {
    if k in defaults && k !in included && defaults[k] != "" then [Pair(k, defaults[k])] else []
  }

  /** The second loop. */
  method AddMissing(order: seq<string>, defaults: map<string, string>, included: set<string>) returns (added: seq<Opt>)
    requires IsVisit(defaults.Keys, order)
    ensures added == Gather(order, k => Missing(defaults, included, k))
  {
    VisitCovers(defaults.Keys, order);
    added := [];
    for i := 0 to |order|
      invariant added == Gather(order[..i], k => Missing(defaults, included, k))
    {
      var k := order[i];
      GatherSnoc(order[..i], k => Missing(defaults, included, k), k);
      assert order[..i + 1] == order[..i] + [k];
      if k !in included && defaults[k] != "" {
        added := added + [Pair(k, defaults[k])];
      }
    }
    assert order[..|order|] == order;
  }

  lemma SameMissing(d: Defaults, ps: seq<Opt>, order: seq<string>, defaults: map<string, string>, included: set<string>)
    requires defaults == AllDefaults(d, ps)
    requires forall k :: k in defaults ==> (k in included <==> IsIncluded(d, ps, k))
    ensures Gather(order, k => Missing(defaults, included, k)) == Added(d, ps, order)
  {
    forall k ensures Missing(defaults, included, k) == AddedFor(d, ps, k) {
    }
    GatherSame(order, k => Missing(defaults, included, k), k => AddedFor(d, ps, k));
  }

  /** The first loop. */
  method Scan(d: Defaults, ps: seq<Opt>) returns (included: set<string>, enabled: bool, dnsProvided: bool)
    ensures forall k :: k in included <==> k in d.values && TextBegins(ps, |ps|, k)
    ensures enabled <==> DistributedCache(d, ps)
    ensures dnsProvided <==> HasFlag(ps, d.dnsFlag)
  {
    included, enabled, dnsProvided := {}, false, false;
    var i := 0;
    while i < |ps|
      invariant 0 <= i <= |ps|
      invariant forall k :: k in included <==> k in d.values && TextBegins(ps, i, k)
      invariant enabled <==> FlagBefore(ps, i, d.discovery)
      invariant dnsProvided <==> FlagBefore(ps, i, d.dnsFlag)
    {
      if ps[i].flag == d.discovery {
        enabled := true;
      }
      if ps[i].flag == d.dnsFlag {
        dnsProvided := true;
      }
      included := included + set k | k in d.values && HasPrefix(ps[i].text, k);
      i := i + 1;
    }
  }

  // ---------------------------------------------------------------- the order does not matter

  lemma AddedHas(d: Defaults, ps: seq<Opt>, order: seq<string>, k: string)
    requires k in order && IsAdded(d, ps, k)
    ensures Pair(k, AllDefaults(d, ps)[k]) in Added(d, ps, order)
  {
    GatherHas(order, k => AddedFor(d, ps, k), k, Pair(k, AllDefaults(d, ps)[k]));
  }

  /** Whatever the order, the same options are added, as often. */
  lemma AddedPermutes(d: Defaults, ps: seq<Opt>, order: seq<string>, other: seq<string>)
    requires IsOrder(d, ps, order) && IsOrder(d, ps, other)
    ensures multiset(Added(d, ps, order)) == multiset(Added(d, ps, other))
  {
    GatherPermutes(order, other, k => AddedFor(d, ps, k));
  }

  /** No default is added twice. */
  lemma AddedOnce(d: Defaults, ps: seq<Opt>, order: seq<string>, i: nat, j: nat)
    requires IsOrder(d, ps, order) && i < j < |Added(d, ps, order)|
    ensures Added(d, ps, order)[i].flag != Added(d, ps, order)[j].flag
  {
    forall a: nat, b: nat | a < b < |order| ensures order[a] != order[b] {
      VisitDistinct(AllDefaults(d, ps).Keys, order, a, b);
    }
    AddedDistinct(d, ps, order, i, j);
  }

  lemma {:induction false} AddedDistinct(d: Defaults, ps: seq<Opt>, order: seq<string>, i: nat, j: nat)
    requires forall a: nat, b: nat :: a < b < |order| ==> order[a] != order[b]
    requires i < j < |Added(d, ps, order)|
    ensures Added(d, ps, order)[i].flag != Added(d, ps, order)[j].flag
  {
    var last, before := order[|order| - 1], order[..|order| - 1];
    if j < |Added(d, ps, before)| {
      AddedDistinct(d, ps, before, i, j);
    } else {
      var k := GatherSource(before, k => AddedFor(d, ps, k), i);
      assert Added(d, ps, before)[i].flag == k;
    }
  }

  // ---------------------------------------------------------------- a second application adds nothing

  /** The list after the defaults were appended, read again. Only flags and texts matter to the defaults. */
  ghost predicate Extends(ps: seq<Opt>, added: seq<Opt>, qs: seq<Opt>) {
    && |qs| == |ps| + |added|
    && (forall i :: 0 <= i < |ps| ==> qs[i] == ps[i])
    && (forall i :: 0 <= i < |added| ==> qs[|ps| + i].text == added[i].text && qs[|ps| + i].flag == added[i].flag)
  }

  lemma ReadAllAppend(os: seq<string>, ts: seq<string>)
    ensures ReadAll(os + ts) == ReadAll(os) + ReadAll(ts)
  {
    forall i | 0 <= i < |os + ts|
      ensures ReadAll(os + ts)[i] == (ReadAll(os) + ReadAll(ts))[i]
    {
      assert (os + ts)[i] == if i < |os| then os[i] else ts[i - |os|];
    }
  }

  lemma ReadAppended(d: Defaults, os: seq<string>, order: seq<string>)
    requires d.Valid()
    ensures var ps := ReadAll(os);
            Extends(ps, Added(d, ps, order), ReadAll(os + Texts(Added(d, ps, order))))
  {
    var ps := ReadAll(os);
    var added := Added(d, ps, order);
    ReadBackAdded(d, ps, order);
    ReadAllAppend(os, Texts(added));
    ExtendsAppend(ps, added, ReadAll(Texts(added)));
  }

  lemma ExtendsAppend(ps: seq<Opt>, added: seq<Opt>, read: seq<Opt>)
    requires |read| == |added|
    requires forall i :: 0 <= i < |added| ==> read[i].text == added[i].text && read[i].flag == added[i].flag
    ensures Extends(ps, added, ps + read)
  {
    forall i | 0 <= i < |added| ensures (ps + read)[|ps| + i] == read[i] {
    }
  }

  lemma ReadBackAdded(d: Defaults, ps: seq<Opt>, order: seq<string>)
    requires d.Valid()
    ensures var added := Added(d, ps, order);
            forall i :: 0 <= i < |added| ==>
              ReadAll(Texts(added))[i].text == added[i].text && ReadAll(Texts(added))[i].flag == added[i].flag
  {
    var added := Added(d, ps, order);
    forall i | 0 <= i < |added|
      ensures ReadAll(Texts(added))[i].text == added[i].text && ReadAll(Texts(added))[i].flag == added[i].flag
    {
      AddedSource(d, ps, order, i);
      FlagOfPair(added[i].flag, added[i].value);
    }
  }

  lemma NothingMissing(d: Defaults, ps: seq<Opt>, order: seq<string>, qs: seq<Opt>, k: string)
    requires d.Valid() && IsOrder(d, ps, order) && Extends(ps, Added(d, ps, order), qs)
    ensures !IsAdded(d, qs, k)
  {
    var added := Added(d, ps, order);
    SameCache(d, ps, order, qs);
    if IsAdded(d, ps, k) {
      assert k in multiset(order);
      AddedHas(d, ps, order, k);
      var i :| 0 <= i < |added| && added[i] == Pair(k, AllDefaults(d, ps)[k]);
      assert qs[|ps| + i].flag == k && HasPrefix(qs[|ps| + i].text, k);
    } else if k in AllDefaults(d, ps) && AllDefaults(d, ps)[k] != "" {
      IncludedStays(d, ps, qs, k);
    }
  }

  lemma IncludedStays(d: Defaults, ps: seq<Opt>, qs: seq<Opt>, k: string)
    requires ps <= qs && IsIncluded(d, ps, k)
    ensures IsIncluded(d, qs, k)
  {
    if k == d.dnsFlag {
      var i :| 0 <= i < |ps| && ps[i].flag == k;
      assert qs[i].flag == k;
    } else if TextBegins(ps, |ps|, k) {
      var i :| 0 <= i < |ps| && HasPrefix(ps[i].text, k);
      assert HasPrefix(qs[i].text, k);
    } else {
      var i :| 0 <= i < |ps| && ps[i].flag == d.discovery;
      assert qs[i].flag == d.discovery;
    }
  }

  /** The defaults themselves never switch distributed cache on. */
  lemma SameCache(d: Defaults, ps: seq<Opt>, order: seq<string>, qs: seq<Opt>)
    requires d.Valid() && Extends(ps, Added(d, ps, order), qs)
    ensures DistributedCache(d, qs) <==> DistributedCache(d, ps)
    ensures ps <= qs
  {
    var added := Added(d, ps, order);
    if DistributedCache(d, ps) {
      var i :| 0 <= i < |ps| && ps[i].flag == d.discovery;
      assert qs[i].flag == d.discovery;
    }
    forall i | |ps| <= i < |qs| ensures qs[i].flag != d.discovery {
      AddedSource(d, ps, order, i - |ps|);
      assert qs[|ps| + (i - |ps|)].flag == added[i - |ps|].flag;
    }
  }

  /** Whatever the two orders, a second application adds nothing. */
  lemma SecondApplicationAddsNothing(d: Defaults, os: seq<string>, order: seq<string>, other: seq<string>)
    requires d.Valid() && IsOrder(d, ReadAll(os), order)
    ensures Added(d, ReadAll(os + Texts(Added(d, ReadAll(os), order))), other) == []
  {
    var ps := ReadAll(os);
    var qs := ReadAll(os + Texts(Added(d, ps, order)));
    ReadAppended(d, os, order);
    forall k ensures !IsAdded(d, qs, k) {
      NothingMissing(d, ps, order, qs, k);
    }
    NothingAdded(d, qs, other);
  }

  lemma NothingAdded(d: Defaults, ps: seq<Opt>, order: seq<string>)
    requires forall k :: !IsAdded(d, ps, k)
    ensures Added(d, ps, order) == []
  {
    if Added(d, ps, order) != [] {
      AddedSource(d, ps, order, 0);
      assert false;
    }
  }

  // ---------------------------------------------------------------- after the fallback

  /** With the fallback in front, the local cache directory is set up again and no DNS server is added. */
  lemma DefaultsAfterFallback(c: CacheFlags, d: Defaults, ps: seq<Opt>, order: seq<string>)
    requires c.Valid() && d.Valid() && c.IsDistributed(d.discovery)
    requires IsOrder(d, Fallback(c, ps), order)
    requires d.tmpPath in d.values && d.values[d.tmpPath] != "" && d.emptyDirCheck in d.values && d.values[d.emptyDirCheck] != ""
    ensures var r := Fallback(c, ps);
            var added := Added(d, r, order);
            && !DistributedCache(d, r)
            && (forall k :: k in {d.tmpPath, d.emptyDirCheck} ==>
                  TextBegins(r, |r|, k) || Pair(k, d.values[k]) in added)
            && (forall i :: 0 <= i < |added| ==> added[i].flag != d.dnsFlag)
  {
    var r := Fallback(c, ps);
    FallbackLeavesLocal(c, ps);
    forall k | k in {d.tmpPath, d.emptyDirCheck} && !TextBegins(r, |r|, k)
      ensures Pair(k, d.values[k]) in Added(d, r, order)
    {
      assert k in multiset(order);
      AddedHas(d, r, order, k);
    }
    forall i | 0 <= i < |Added(d, r, order)|
      ensures Added(d, r, order)[i].flag != d.dnsFlag
    {
      AddedSource(d, r, order, i);
    }
  }

  // ---------------------------------------------------------------- the source's defaults

  const PRE_MOUNT_VALIDATE := "--pre-mount-validate"
  const USE_HTTPS := "--use-https"
  const TMP_PATH := "--tmp-path"
  const CONTAINER_NAME := "--container-name"
  const CANCEL_LIST := "--cancel-list-on-mount-seconds"
  const EMPTY_DIR_CHECK := "--empty-dir-check"
  const DISCOVERY := "--distributed-cache-discovery-endpoint"
  const DNS_FLAG := "--distributed-cache-dns-server"

  function SourceDefaults(tmpPath: string, containerName: string): Defaults {
    Defaults(
      map[PRE_MOUNT_VALIDATE := "true", USE_HTTPS := "true", TMP_PATH := tmpPath, CONTAINER_NAME := containerName,
          CANCEL_LIST := "10", EMPTY_DIR_CHECK := "false"],
      DISCOVERY, DNS_FLAG, "10.0.0.10", TMP_PATH, EMPTY_DIR_CHECK)
  }

  /** A flag name that begins with something else than "--d". */
  predicate IsPlainName(f: string) {
    CacheFlags.IsName(f) && |f| > 2 && f[2] != 'd'
  }

  lemma NamesA() ensures IsPlainName(PRE_MOUNT_VALIDATE) && IsPlainName(USE_HTTPS) {}

  lemma NamesB() ensures IsPlainName(TMP_PATH) && IsPlainName(CONTAINER_NAME) {}

  lemma NamesC() ensures IsPlainName(CANCEL_LIST) {}

  lemma NamesD() ensures IsPlainName(EMPTY_DIR_CHECK) {}

  lemma DnsIsName()
    ensures CacheFlags.IsName(DNS_FLAG) && DNS_FLAG[2] == 'd'
  {
  }

  lemma DiscoveryDiffers()
    ensures |DISCOVERY| > 2 && DISCOVERY[2] == 'd' && DISCOVERY != DNS_FLAG && HasPrefix(DISCOVERY, DISTRIBUTED)
  {
    assert |DISCOVERY| != |DNS_FLAG|;
    assert DISCOVERY[..|DISTRIBUTED|] == DISTRIBUTED;
  }

  /** The source's defaults are of the kind the theorems are about. */
  lemma SourceDefaultsValid(tmpPath: string, containerName: string)
    ensures SourceDefaults(tmpPath, containerName).Valid()
    ensures SourceFlags().IsDistributed(DISCOVERY)
  {
    var d := SourceDefaults(tmpPath, containerName);
    NamesA();
    NamesB();
    NamesC();
    NamesD();
    DnsIsName();
    DiscoveryDiffers();
    assert forall k :: k in d.values ==> IsPlainName(k);
  }
}
