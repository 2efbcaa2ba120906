/** updateSubnetServiceEndpoints: gives the subnets of a virtual network a service endpoint for storage. */
module Subnets {
  import opened Text
  import opened Wrappers

  const STORAGE := "Microsoft.Storage"

  datatype Endpoint = Endpoint(service: Option<string>, locations: seq<string>)
  {
    predicate IsStorage() {
      service.Some? && HasPrefix(service.value, STORAGE)
    }
  }

  /** A resource ID, short of the subscription that all of them share. */
  datatype SubnetId = SubnetId(resourceGroup: string, vnet: string, name: string)

  datatype Subnet = Subnet(name: Option<string>, endpoints: seq<Endpoint>)
  {
    predicate HasStorage() {
      exists i :: 0 <= i < |endpoints| && endpoints[i].IsStorage()
    }

    /** The subnet with a storage endpoint at the end, if it has none. */
    function WithStorage(location: string): Subnet {
      if HasStorage() then this else this.(endpoints := endpoints + [Endpoint(Some(STORAGE), [location])])
    }
  }

  type Cloud = map<SubnetId, Subnet>

  /** Subnets that have a name at all have the one they are stored under. */
  ghost predicate Named(cloud: Cloud) {
    forall id :: id in cloud && cloud[id].name.Some? ==> cloud[id].name.value == id.name
  }

  /** The endpoints that were there are still there, in front, and at most one is new. */
  lemma WithStorageKeeps(s: Subnet, location: string)
    ensures var t := s.WithStorage(location);
            && t.HasStorage() && t.name == s.name && s.endpoints <= t.endpoints && |t.endpoints| <= |s.endpoints| + 1
            && (s.HasStorage() ==> t == s) && t.WithStorage(location) == t
            && (!s.HasStorage() ==> t.endpoints == s.endpoints + [Endpoint(Some("Microsoft.Storage"), [location])])
  {
    var t := s.WithStorage(location);
    if !s.HasStorage() {
      assert HasPrefix(STORAGE, STORAGE);
      assert t.endpoints[|s.endpoints|].IsStorage();
    }
  }

  datatype Args = Args(resourceGroup: string, vnet: string, subnets: string)
  {
    /** The key of both the cache and the lock. */
    function Key(): string {
      resourceGroup + vnet + subnets
    }
  }

  datatype Config = Config(hasClient: bool, resourceGroup: string, vnetResourceGroup: string, vnet: string, location: string)
  {
    /** The arguments with the configured values where they are empty. */
    function Resolve(a: Args): Args {
      Args(
        if a.resourceGroup != "" then a.resourceGroup else if vnetResourceGroup != "" then vnetResourceGroup else resourceGroup,
        if a.vnet != "" then a.vnet else vnet,
        a.subnets)
    }
  }

  /** Which calls to Azure succeed, and what a list of the whole network shows. */
  datatype Calls = Calls(get: nat -> bool, list: Option<seq<SubnetId>>, update: nat -> bool)

  ghost predicate ListsNetwork(calls: Calls, cloud: Cloud, a: Args) {
    calls.list.Some? ==> forall id :: id in calls.list.value <==> id in cloud && id.resourceGroup == a.resourceGroup && id.vnet == a.vnet
  }

  datatype Failure = NoClient | NoNetwork | CannotGet | CannotList | NoName | CannotUpdate

  datatype Outcome = Done(ids: seq<SubnetId>) | Failed(why: Failure)

  function NamedSubnets(a: Args): (ids: seq<SubnetId>) {
    var parts := Split(a.subnets, ",");
    seq(|parts|, i requires 0 <= i < |parts| => SubnetId(a.resourceGroup, a.vnet, TrimSpace(parts[i])))
  }

  /** The subnets that a call is about: those it names, or the whole network. */
  function Requested(a: Args, calls: Calls): seq<SubnetId> {
    if a.subnets != "" then NamedSubnets(a) else if calls.list.Some? then calls.list.value else []
  }

  predicate Fetchable(cloud: Cloud, a: Args, calls: Calls) {
    if a.subnets == "" then calls.list.Some?
    else forall i :: 0 <= i < |NamedSubnets(a)| ==> calls.get(i) && NamedSubnets(a)[i] in cloud
  }

  predicate AllIn(cloud: Cloud, ids: seq<SubnetId>) {
    forall i :: 0 <= i < |ids| ==> ids[i] in cloud
  }

  /** The call gives up at this subnet. */
  predicate Stops(cloud: Cloud, ids: seq<SubnetId>, calls: Calls, i: nat)
    requires i < |ids| && AllIn(cloud, ids)
  {
    cloud[ids[i]].name.None? || (!cloud[ids[i]].HasStorage() && !calls.update(i))
  }

  /** The number of subnets that are dealt with. */
  function Reach(cloud: Cloud, ids: seq<SubnetId>, calls: Calls, from: nat): (n: nat)
    requires from <= |ids| && AllIn(cloud, ids)
    ensures from <= n <= |ids|
    ensures n < |ids| ==> Stops(cloud, ids, calls, n)
    ensures forall i :: from <= i < n ==> !Stops(cloud, ids, calls, i)
    decreases |ids| - from
  {
    if from == |ids| || Stops(cloud, ids, calls, from) then from else Reach(cloud, ids, calls, from + 1)
  }

  /** The network after the first n subnets are dealt with. */
  ghost function After(cloud: Cloud, ids: seq<SubnetId>, n: nat, location: string): Cloud
    requires n <= |ids|
  {
    map id | id in cloud :: if id in ids[..n] then cloud[id].WithStorage(location) else cloud[id]
  }

  /** The part of the driver that the call works on, with Azure's network behind it. */
  class SubnetUpdater {
    const config: Config
    var cloud: Cloud
    var cache: map<string, seq<SubnetId>>

    constructor (config: Config, cloud: Cloud)
      ensures this.config == config && this.cloud == cloud && cache == map[]
    {
      this.config, this.cloud, this.cache := config, cloud, map[];
    }

    predicate IsHit(a: Args)
      reads this
    {
      config.hasClient && a.vnet != "" && config.location != "" && a.Key() in cache
    }

    predicate Proceeds(a: Args)
      reads this
    {
      config.hasClient && a.vnet != "" && config.location != "" && a.Key() !in cache
    }

    /** updateSubnetServiceEndpoints, as one call that no other call overlaps. */
    method UpdateEndpoints(args: Args, calls: Calls) returns (r: Outcome)
      requires Named(cloud) && ListsNetwork(calls, cloud, config.Resolve(args))
      modifies this
      ensures var a := config.Resolve(args);
              var ids := Requested(a, calls);
              && (old(IsHit(a)) ==> r == Done(old(cache)[a.Key()]) && cloud == old(cloud) && cache == old(cache))
              && (old(Proceeds(a)) && Fetchable(old(cloud), a, calls) ==>
                    && AllIn(old(cloud), ids)
                    && var n := Reach(old(cloud), ids, calls, 0);
                       && cloud == After(old(cloud), ids, n, config.location)
                       && (n == |ids| ==> r == Done(ids) && cache == old(cache)[a.Key() := ids])
                       && (n < |ids| ==> r.Failed? && cache == old(cache)))
              && (!old(IsHit(a)) && !(old(Proceeds(a)) && Fetchable(old(cloud), a, calls)) ==>
                    r.Failed? && cloud == old(cloud) && cache == old(cache))
    {
      var a := config.Resolve(args);
      if !config.hasClient {
        return Failed(NoClient);
      }
      if a.vnet == "" || config.location == "" {
        return Failed(NoNetwork);
      }
      if a.Key() in cache {
        return Done(cache[a.Key()]);
      }
      var failure, subnets := Fetch(a, calls);
      if failure.Some? {
        return Failed(failure.value);
      }
      r := AddEndpoints(a, calls, Requested(a, calls), subnets);
      if r.Done? {
        cache := cache[a.Key() := r.ids];
      }
    }

    /** All subnets are read before any is written. */
    method Fetch(a: Args, calls: Calls) returns (failure: Option<Failure>, subnets: seq<Subnet>)
      requires ListsNetwork(calls, cloud, a)
      ensures failure.None? <==> Fetchable(cloud, a, calls)
      ensures failure.None? ==> AreCopies(cloud, Requested(a, calls), subnets)
    {
      subnets := [];
      if a.subnets == "" {
        if calls.list.None? {
          return Some(CannotList), [];
        }
        return None, Copies(cloud, calls.list.value);
      }
      failure, subnets := FetchNamed(NamedSubnets(a), calls);
    }

    method FetchNamed(ids: seq<SubnetId>, calls: Calls) returns (failure: Option<Failure>, subnets: seq<Subnet>)
      ensures failure.None? <==> forall i :: 0 <= i < |ids| ==> calls.get(i) && ids[i] in cloud
      ensures failure.None? ==> AreCopies(cloud, ids, subnets)
    {
      subnets := [];
      for i := 0 to |ids|
        invariant |subnets| == i
        invariant forall j :: 0 <= j < i ==> calls.get(j) && ids[j] in cloud && subnets[j] == cloud[ids[j]]
      {
        if !calls.get(i) || ids[i] !in cloud {
          return Some(CannotGet), [];
        }
        subnets := subnets + [cloud[ids[i]]];
      }
      return None, subnets;
    }

    /** The loop over the subnets that were read. */
    method AddEndpoints(a: Args, calls: Calls, ghost targets: seq<SubnetId>, subnets: seq<Subnet>) returns (r: Outcome)
      requires Named(cloud) && AreCopies(cloud, targets, subnets)
      requires forall i :: 0 <= i < |targets| ==> targets[i].resourceGroup == a.resourceGroup && targets[i].vnet == a.vnet
      modifies this`cloud
      ensures cloud == After(old(cloud), targets, Reach(old(cloud), targets, calls, 0), config.location)
      ensures r.Done? <==> Reach(old(cloud), targets, calls, 0) == |targets|
      ensures r.Done? ==> r.ids == targets
    {
      var ids: seq<SubnetId> := [];
      var i := 0;
      ghost var was := cloud;
      assert was == After(was, targets, 0, config.location);
      while i < |subnets|
        invariant 0 <= i <= |subnets|
        invariant ids == targets[..i]
        invariant cloud == After(was, targets, i, config.location)
        invariant Reach(was, targets, calls, 0) == Reach(was, targets, calls, i)
      {
        var subnet := subnets[i];
        if subnet.name.None? {
          return Failed(NoName);
        }
        var id := SubnetId(a.resourceGroup, a.vnet, subnet.name.value);
        assert id == targets[i] && subnet == was[id];
        ids := ids + [id];
        IdsStep(targets, ids, i);
        AfterStep(was, targets, i, config.location);
        var hasStorage := HasStorageEndpoint(subnet.endpoints);
        if hasStorage {
          PresentStays(was, targets, i, config.location);
        } else {
          subnet := subnet.(endpoints := subnet.endpoints + [Endpoint(Some(STORAGE), [config.location])]);
          if !calls.update(i) {
            return Failed(CannotUpdate);
          }
          cloud := cloud[id := subnet];
        }
        i := i + 1;
      }
      return Done(ids);
    }

    method HasStorageEndpoint(endpoints: seq<Endpoint>) returns (found: bool)
      ensures found <==> exists i :: 0 <= i < |endpoints| && endpoints[i].IsStorage()
    {
      var i := 0;
      while i < |endpoints|
        invariant 0 <= i <= |endpoints|
        invariant forall j :: 0 <= j < i ==> !endpoints[j].IsStorage()
      {
        if endpoints[i].IsStorage() {
          return true;
        }
        i := i + 1;
      }
      return false;
    }
  }

  function Copies(cloud: Cloud, ids: seq<SubnetId>): (subnets: seq<Subnet>)
    requires forall id :: id in ids ==> id in cloud
    ensures AreCopies(cloud, ids, subnets)
  {
    seq(|ids|, i requires 0 <= i < |ids| => cloud[ids[i]])
  }

  ghost predicate AreCopies(cloud: Cloud, ids: seq<SubnetId>, subnets: seq<Subnet>) {
    |ids| == |subnets| && forall i :: 0 <= i < |ids| ==> ids[i] in cloud && subnets[i] == cloud[ids[i]]
  }

  lemma AfterStep(cloud: Cloud, ids: seq<SubnetId>, i: nat, location: string)
    requires i < |ids| && ids[i] in cloud
    ensures After(cloud, ids, i + 1, location) == After(cloud, ids, i, location)[ids[i] := cloud[ids[i]].WithStorage(location)]
  {
    assert ids[..i + 1] == ids[..i] + [ids[i]];
  }

  lemma IdsStep(targets: seq<SubnetId>, ids: seq<SubnetId>, i: nat)
    requires i < |targets| && ids == targets[..i] + [targets[i]]
    ensures ids == targets[..i + 1]
  {
  }

  /** A subnet that has the endpoint is left as it is. */
  lemma PresentStays(cloud: Cloud, ids: seq<SubnetId>, i: nat, location: string)
    requires i < |ids| && ids[i] in cloud && cloud[ids[i]].HasStorage()
    ensures After(cloud, ids, i + 1, location) == After(cloud, ids, i, location)
  {
    assert ids[..i + 1] == ids[..i] + [ids[i]];
  }

  // ---------------------------------------------------------------- what a call achieves

  /** Nothing is lost: every subnet keeps its endpoints in front and gains at most the storage endpoint. */
  ghost predicate Conserved(before: Cloud, after: Cloud, location: string) {
    && before.Keys == after.Keys
    && forall id :: id in before ==> after[id] == before[id] || after[id] == before[id].WithStorage(location)
  }

  /** A call, successful or not, conserves the network; the subnets it got to have a storage endpoint, all others are as
      before. */
  lemma AfterConserves(cloud: Cloud, ids: seq<SubnetId>, n: nat, location: string)
    requires n <= |ids| && AllIn(cloud, ids)
    ensures Conserved(cloud, After(cloud, ids, n, location), location)
    ensures forall i :: 0 <= i < n ==> ids[i] in After(cloud, ids, n, location) && After(cloud, ids, n, location)[ids[i]].HasStorage()
    ensures forall id :: id in cloud && id !in ids[..n] ==> After(cloud, ids, n, location)[id] == cloud[id]
  {
    forall i | 0 <= i < n ensures After(cloud, ids, n, location)[ids[i]].HasStorage() {
      assert ids[..n][i] == ids[i];
      WithStorageKeeps(cloud[ids[i]], location);
    }
  }

  /** Once all subnets have the endpoint, a call finds nothing to update and cannot fail for an update. */
  lemma NothingLeftToUpdate(cloud: Cloud, ids: seq<SubnetId>, n: nat, calls: Calls, location: string)
    requires n <= |ids| && AllIn(cloud, ids)
    requires forall i :: 0 <= i < |ids| ==> cloud[ids[i]].HasStorage()
    ensures After(cloud, ids, n, location) == cloud
    ensures forall i: nat :: i < |ids| && Stops(cloud, ids, calls, i) ==> cloud[ids[i]].name.None?
  {
    forall id | id in ids[..n] ensures id in cloud && cloud[id].HasStorage() {
      var i :| 0 <= i < n && ids[..n][i] == id;
      assert ids[i] == id;
    }
  }

  /** What makes a subnet need no update, spelled out: the name of a service, not only its presence. */
  lemma StorageIsByName(s: Subnet)
    ensures s.HasStorage() <==> exists e :: e in s.endpoints && e.service.Some? && "Microsoft.Storage" <= e.service.value
  {
    if e :| e in s.endpoints && e.service.Some? && "Microsoft.Storage" <= e.service.value {
      var i :| 0 <= i < |s.endpoints| && s.endpoints[i] == e;
      assert s.endpoints[i].IsStorage();
    }
  }

  /** If no subnet lacks its name, the call deals with all of them exactly when every update it needs succeeds. */
  lemma ReachesAllExactly(cloud: Cloud, ids: seq<SubnetId>, calls: Calls)
    requires AllIn(cloud, ids) && forall i :: 0 <= i < |ids| ==> cloud[ids[i]].name.Some?
    ensures Reach(cloud, ids, calls, 0) == |ids| <==> forall i: nat :: i < |ids| && !calls.update(i) ==> cloud[ids[i]].HasStorage()
  {
    var n := Reach(cloud, ids, calls, 0);
    if n < |ids| {
      assert Stops(cloud, ids, calls, n);
    } else {
      forall i: nat | i < |ids| && !calls.update(i) ensures cloud[ids[i]].HasStorage() {
        assert !Stops(cloud, ids, calls, i);
      }
    }
  }

  // ---------------------------------------------------------------- the arguments

  /** The resource group of the networks comes before that of the cluster, and neither replaces one that is given. */
  lemma ConfiguredWhereEmpty(c: Config, group: string, vnet: string, subnets: string)
    requires group != "" && vnet != ""
    ensures c.Resolve(Args(group, vnet, subnets)) == Args(group, vnet, subnets)
    ensures c.Resolve(Args(group, "", subnets)) == Args(group, c.vnet, subnets)
    ensures c.vnetResourceGroup != "" ==> c.Resolve(Args("", vnet, subnets)) == Args(c.vnetResourceGroup, vnet, subnets)
    ensures c.vnetResourceGroup == "" ==> c.Resolve(Args("", vnet, subnets)) == Args(c.resourceGroup, vnet, subnets)
  {
  }

  /** A name as it may stand between two commas: with white space around it. */
  datatype Padded = Padded(before: string, name: string, after: string)
  {
    predicate Valid() {
      && name != "" && IsTrimmed(name) && ',' !in name
      && forall c :: c in before + after ==> IsSpace(c)
    }
  }

  /** A list of names, each with white space around it, names just these subnets. */
  lemma NamesAreRead(a: Args, names: seq<Padded>)
    requires names != [] && forall p :: p in names ==> p.Valid()
    requires a.subnets == Join(seq(|names|, i requires 0 <= i < |names| => names[i].before + names[i].name + names[i].after), ",")
    ensures |NamedSubnets(a)| == |names|
    ensures forall i :: 0 <= i < |names| ==> NamedSubnets(a)[i] == SubnetId(a.resourceGroup, a.vnet, names[i].name)
  {
    var parts := seq(|names|, i requires 0 <= i < |names| => names[i].before + names[i].name + names[i].after);
    forall p | p in parts ensures ',' !in p {
      var i :| 0 <= i < |names| && parts[i] == p;
      PaddedHasNoComma(names[i]);
    }
    SplitJoin(parts, ',');
    forall i | 0 <= i < |names| ensures TrimSpace(parts[i]) == names[i].name {
      assert names[i] in names;
      TrimSpaceGaps(names[i].before, names[i].name, names[i].after);
    }
  }

  lemma PaddedHasNoComma(p: Padded)
    requires p.Valid()
    ensures ',' !in p.before + p.name + p.after
  {
    assert !IsSpace(',');
  }

  // ---------------------------------------------------------------- the key of the cache

  /** Two calls with the same key are about the same subnets exactly when the parts of the key are of the same lengths. */
  lemma SameKeyExactly(a: Args, b: Args)
    requires a.Key() == b.Key()
    ensures a == b <==> |a.resourceGroup| == |b.resourceGroup| && |a.vnet| == |b.vnet|
  {
    if |a.resourceGroup| == |b.resourceGroup| && |a.vnet| == |b.vnet| {
      var n, m := |a.resourceGroup|, |a.resourceGroup + a.vnet|;
      assert a.resourceGroup == a.Key()[..n] && b.resourceGroup == b.Key()[..n];
      assert a.vnet == a.Key()[n..m] && b.vnet == b.Key()[n..m];
      assert a.subnets == a.Key()[m..] && b.subnets == b.Key()[m..];
    }
  }

  /** The key does not tell where one name ends: a hit may answer for another network. */
  lemma KeysCollide() returns (a: Args, b: Args)
    ensures a.Key() == b.Key() && a != b && NamedSubnets(a) != NamedSubnets(b)
  {
    a, b := Args("r", "gv", "s"), Args("rg", "v", "s");
    assert a.Key() == "rgvs" == b.Key();
    SplitNone("s", ',');
    assert |a.resourceGroup| != |b.resourceGroup|;
    assert NamedSubnets(a)[0].resourceGroup == "r" && NamedSubnets(b)[0].resourceGroup == "rg";
  }
}
