/** The node's side of a volume: ensureMountPoint and the calls that stage, publish, unpublish and unstage, over the mount
    table of the kernel. What each system call answers is part of the input. */
module MountTable {
  import opened Wrappers

  type Path = string

  /** A fuse process, or the connection behind an NFS mount. */
  type Process = nat

  /** A mount goes unhealthy when the process behind it dies. A bind mount of a mount has the same process, one of a plain
      directory has none. */
  datatype Mount = Mount(process: Option<Process>)

  /** The mounts stacked on each path, the last one on top; the directories; the paths of mount calls that are under way
      behind the back of all others: the driver gave up waiting for them, or has not made them yet; and the processes that
      died, of those started so far. */
  datatype World = World(
    mounts: map<Path, seq<Mount>>, dirs: set<Path>, pending: multiset<Path>, dead: set<Process>, started: Process)
  {
    function At(p: Path): seq<Mount> {
      if p in mounts then mounts[p] else []
    }

    predicate Mounted(p: Path) {
      At(p) != []
    }

    function Top(p: Path): Mount
      requires Mounted(p)
    {
      At(p)[|At(p)| - 1]
    }

    predicate IsAlive(m: Mount) {
      m.process.None? || m.process.value !in dead
    }

    predicate Healthy(p: Path) {
      Mounted(p) && IsAlive(Top(p))
    }

    /** Mounts and deaths are of processes that were started. */
    ghost predicate IsWell() {
      && (forall p, m :: m in At(p) && m.process.Some? ==> m.process.value < started)
      && (forall q :: q in dead ==> q < started)
    }

    function Put(p: Path, stack: seq<Mount>): World {
      this.(mounts := mounts[p := stack])
    }

    function Push(p: Path, m: Mount): World {
      Put(p, At(p) + [m])
    }

    /** A new process mounts, and dies at once unless it works. */
    function Serve(p: Path, works: bool): World {
      Push(p, Mount(Some(started))).(started := started + 1, dead := if works then dead else dead + {started})
    }

    function Bind(source: Path, target: Path): World {
      Push(target, if Mounted(source) then Top(source) else Mount(None))
    }

    function Pop(p: Path): World {
      if Mounted(p) then Put(p, At(p)[..|At(p)| - 1]) else this
    }

    function WithDir(p: Path): World {
      this.(dirs := dirs + {p})
    }

    /** os.Remove, which refuses while something is mounted. */
    function Remove(p: Path, works: bool): World {
      if works && !Mounted(p) then this.(dirs := dirs - {p}) else this
    }

    function Await(p: Path): World {
      this.(pending := pending + multiset{p})
    }

    /** No process that was started lives or dies by it. */
    ghost predicate SameLives(other: World) {
      started <= other.started && forall q: Process :: q < started ==> (q in dead <==> q in other.dead)
    }

    /** The mounts of all other paths are the same. */
    ghost predicate SameBut(other: World, p: Path) {
      forall q :: q != p ==> At(q) == other.At(q) && (q in dirs <==> q in other.dirs)
    }
  }

  const EMPTY := World(map[], {}, multiset{}, {}, 0)

  /** What a look at a path says: IsLikelyNotMountPoint, and whether its error is that of a missing or a broken mount. */
  datatype Look = LooksUnmounted | LooksMounted | Missing | Corrupted | Unreadable

  /** A look may overlook a bind mount, but it does not make up a mount. */
  predicate IsTrue(look: Look, w: World, p: Path) {
    && (look.LooksMounted? || look.Corrupted? ==> w.Mounted(p))
    && (look.Missing? ==> !w.Mounted(p))
  }

  /** The mount list, if it can be read, is complete. */
  ghost predicate IsComplete(listing: Option<seq<Path>>, w: World) {
    listing.Some? ==> forall p :: p in listing.value <==> w.Mounted(p)
  }

  /** What ensureMountPoint meets: true answers where they succeed, and which calls succeed. */
  datatype Sights = Sights(look: Look, listing: Option<seq<Path>>, absolute: bool, probe: bool, unmount: bool, makeDir: bool)
  {
    ghost predicate True(w: World, p: Path) {
      IsTrue(look, w, p) && IsComplete(listing, w) && (probe && w.Mounted(p) ==> w.Healthy(p))
    }

    predicate Readable() {
      !look.Unreadable? && listing.Some? && absolute
    }
  }

  /** The pair of results of ensureMountPoint: the first is `mounted`, the second an error unless `ok`. */
  datatype Ensured = Ensured(mounted: bool, ok: bool)

  /** What ensureMountPoint amounts to, in terms of the true mount table. */
  function EnsureWorld(w: World, target: Path, shouldUnmount: bool, s: Sights): World {
    if !s.Readable() then w
    else if !w.Mounted(target) then (if s.makeDir then w.WithDir(target) else w)
    else if shouldUnmount && !s.probe && s.unmount then w.Pop(target)
    else w
  }

  function EnsureOk(w: World, target: Path, shouldUnmount: bool, s: Sights): bool {
    s.Readable() && if w.Mounted(target) then !shouldUnmount || s.probe else s.makeDir
  }

  /** The first result of ensureMountPoint. With an error it is not always about a mount: if not even the looks succeed, it
      is what they suggest. */
  function EnsureMounted(w: World, target: Path, shouldUnmount: bool, s: Sights): bool {
    if !s.Readable() then s.look.LooksMounted? || s.look.Corrupted?
    else w.Mounted(target) && !(shouldUnmount && !s.probe && s.unmount)
  }

  /** How a mount call ends. One that is refused may have mounted something, which works or not. When the driver hangs up on it, it may still succeed later. */
  datatype MountEnd = Mounts | Refuses(partly: Option<bool>) | Hangs

  /** What NodeStageVolume meets. A call is `deferred`, and succeeds at once, if it is for a workload identity whose token is
      not there yet. `prepared` stands for all checks and lookups between ensureMountPoint and the mount call,
      `settled` for changing mode and owner, `arrives` for the mount showing up within the time it is waited for. */
  datatype StageSights = StageSights(
    deferred: bool, ensure: Sights, prepared: bool, end: MountEnd, settled: bool, arrives: bool,
    look: Look, unmount: bool, secondLook: Look, remove: bool)

  /** What NodePublishVolume meets. */
  datatype PublishSights = PublishSights(ensure: Sights, mount: bool, remove: bool)

  /** What CleanupMountPoint meets. `safe` says that unmounting what is not mounted does no harm on this node, so that the
      driver does not look first. */
  datatype CleanSights = CleanSights(path: Look, safe: bool, check: bool, unmount: bool, secondCheck: bool, remove: bool)

  // ---------------------------------------------------------------- what staging amounts to

  /** After a failed fuse mount: nothing half mounted stays if it can be seen and unmounted. */
  function AfterRefusal(w: World, target: Path, s: StageSights): World {
    match s.look
    case LooksUnmounted => w.Remove(target, s.remove)
    case LooksMounted =>
      if !s.unmount then w
      else if s.secondLook.LooksUnmounted? then w.Pop(target).Remove(target, s.remove)
      else w.Pop(target)
    case _ => w
  }

  /** What the mount call itself leaves behind. */
  function AfterMountCall(w: World, target: Path, nfs: bool, s: StageSights): World {
    match s.end
    case Mounts => if nfs || s.arrives then w.Serve(target, true) else w.Await(target)
    case Refuses(partly) => if !nfs && partly.Some? then w.Serve(target, partly.value) else w
    case Hangs => w.Await(target)
  }

  function StageWorld(w: World, target: Path, nfs: bool, s: StageSights): World {
    var ready := EnsureWorld(w, target, true, s.ensure);
    if s.deferred then w
    else if w.Mounted(target) || !EnsureOk(w, target, true, s.ensure) || !s.prepared then ready
    else if nfs || s.end.Mounts? then AfterMountCall(ready, target, nfs, s)
    else AfterRefusal(AfterMountCall(ready, target, nfs, s), target, s)
  }

  function StageOk(w: World, target: Path, nfs: bool, s: StageSights): bool {
    s.deferred ||
    (EnsureOk(w, target, true, s.ensure)
     && (w.Mounted(target) || (s.prepared && s.end.Mounts? && if nfs then s.settled else s.arrives)))
  }

  ghost predicate StageTrue(w: World, target: Path, nfs: bool, s: StageSights) {
    && s.ensure.True(w, target)
    && var called := AfterMountCall(EnsureWorld(w, target, true, s.ensure), target, nfs, s);
       IsTrue(s.look, called, target) && IsTrue(s.secondLook, called.Pop(target), target)
  }

  // ---------------------------------------------------------------- what the other calls amount to

  function PublishWorld(w: World, source: Path, target: Path, s: PublishSights): World {
    var ready := EnsureWorld(w, target, false, s.ensure);
    if w.Mounted(target) || !EnsureOk(w, target, false, s.ensure) then ready
    else if s.mount then ready.Bind(source, target)
    else ready.Remove(target, s.remove)
  }

  function PublishOk(w: World, target: Path, s: PublishSights): bool {
    EnsureOk(w, target, false, s.ensure) && (w.Mounted(target) || s.mount)
  }

  /** A cleanup pops at most one mount, and removes the directory when none is left. */
  function CleanWorld(w: World, target: Path, s: CleanSights): World {
    if s.path.Missing? || s.path.Unreadable? then w
    else if s.path.Corrupted? || s.safe then (if s.unmount then w.Pop(target).Remove(target, s.remove) else w)
    else if !s.check then w
    else if !w.Mounted(target) then w.Remove(target, s.remove)
    else if !s.unmount then w
    else if !s.secondCheck then w.Pop(target)
    else w.Pop(target).Remove(target, s.remove)
  }

  function CleanOk(w: World, target: Path, s: CleanSights): bool {
    s.path.Missing? ||
    (!s.path.Unreadable? && s.remove && |w.At(target)| <= 1
     && if s.path.Corrupted? || s.safe then s.unmount
        else s.check && (w.Mounted(target) ==> s.unmount && s.secondCheck))
  }

  // ---------------------------------------------------------------- the node server

  class NodeServer {
    var world: World

    constructor ()
      ensures world == EMPTY
    {
      world := EMPTY;
    }

    /** ensureMountPoint. */
    method EnsureMountPoint(target: Path, shouldUnmount: bool, s: Sights) returns (r: Ensured)
      requires s.True(world, target)
      modifies this
      ensures world == EnsureWorld(old(world), target, shouldUnmount, s)
      ensures r == Ensured(EnsureMounted(old(world), target, shouldUnmount, s), EnsureOk(old(world), target, shouldUnmount, s))
    {
      var notMnt := !s.look.LooksMounted?;
      if s.look.Corrupted? {
        notMnt := false;
      } else if s.look.Unreadable? {
        return Ensured(!notMnt, false);
      }
      if s.listing.None? || !s.absolute {
        return Ensured(!notMnt, false);
      }
      var i := 0;
      while i < |s.listing.value|
        invariant 0 <= i <= |s.listing.value|
        invariant forall j :: 0 <= j < i ==> s.listing.value[j] != target
        invariant world == old(world)
      {
        if s.listing.value[i] == target {
          notMnt := false;
          break;
        }
        i := i + 1;
      }
      assert notMnt <==> !world.Mounted(target);
      if !notMnt {
        if !shouldUnmount {
          return Ensured(!notMnt, true);
        }
        if s.probe {
          return Ensured(!notMnt, true);
        }
        if !s.unmount {
          return Ensured(!notMnt, false);
        }
        world := world.Pop(target);
        notMnt := true;
        return Ensured(!notMnt, false); // with the error of the probe
      }
      if !s.makeDir {
        return Ensured(!notMnt, false);
      }
      world := world.WithDir(target);
      return Ensured(!notMnt, true);
    }

    /** The mount table part of NodeStageVolume. */
    method Stage(target: Path, nfs: bool, s: StageSights) returns (ok: bool)
      requires StageTrue(world, target, nfs, s)
      modifies this
      ensures world == StageWorld(old(world), target, nfs, s)
      ensures ok == StageOk(old(world), target, nfs, s)
    {
      if s.deferred {
        return true;
      }
      var e := EnsureMountPoint(target, true, s.ensure);
      if !e.ok {
        return false;
      }
      if e.mounted {
        return true;
      }
      if !s.prepared {
        return false;
      }
      var ended := MountCall(target, nfs, s);
      if nfs {
        return ended && s.settled;
      }
      if !ended {
        CleanUpRefusal(target, s);
        return false;
      }
      return s.arrives; // waitForMount
    }

    /** The mount itself, with or without waiting for its end. */
    method MountCall(target: Path, nfs: bool, s: StageSights) returns (ended: bool)
      modifies this
      ensures world == AfterMountCall(old(world), target, nfs, s)
      ensures ended == s.end.Mounts?
    {
      match s.end {
        case Mounts => world := if nfs || s.arrives then world.Serve(target, true) else world.Await(target);
        case Refuses(partly) =>
          if !nfs && partly.Some? {
            world := world.Serve(target, partly.value);
          }
        case Hangs => world := world.Await(target);
      }
      return s.end.Mounts?;
    }

    /** The branch of NodeStageVolume for a mount command that failed. */
    method CleanUpRefusal(target: Path, s: StageSights)
      modifies this
      ensures world == AfterRefusal(old(world), target, s)
    {
      if !s.look.LooksMounted? && !s.look.LooksUnmounted? {
        return;
      }
      if s.look.LooksMounted? {
        if !s.unmount {
          return;
        }
        world := world.Pop(target);
        if !s.secondLook.LooksUnmounted? {
          return;
        }
      }
      world := world.Remove(target, s.remove);
    }

    /** The part of NodePublishVolume that bind-mounts a staged volume. */
    method Publish(source: Path, target: Path, s: PublishSights) returns (ok: bool)
      requires s.ensure.True(world, target)
      modifies this
      ensures world == PublishWorld(old(world), source, target, s)
      ensures ok == PublishOk(old(world), target, s)
      ensures old(!world.Mounted(target)) ==> (ok <==> s.ensure.Readable() && s.ensure.makeDir && s.mount)
    {
      var e := EnsureMountPoint(target, false, s.ensure);
      if !e.ok {
        return false;
      }
      if e.mounted {
        return true;
      }
      if !s.mount {
        world := world.Remove(target, s.remove);
        return false;
      }
      world := world.Bind(source, target);
      return true;
    }

    /** NodePublishVolume for inline volumes and for mounts with a service account token: it stages at the target itself,
        unless canSkipRepublishNodeStage finds the mount in place and no credential to refresh. */
    method PublishInline(target: Path, refreshes: bool, look: Look, lstat: bool, nfs: bool, s: StageSights) returns (ok: bool)
      requires StageTrue(world, target, nfs, s) && IsTrue(look, world, target)
      modifies this
      ensures Skips(refreshes, look, lstat) ==> ok && world == old(world) && world.Mounted(target)
      ensures !Skips(refreshes, look, lstat) ==>
                world == StageWorld(old(world), target, nfs, s) && ok == StageOk(old(world), target, nfs, s)
    {
      if !refreshes {
        if look.LooksMounted? {
          if lstat {
            return true;
          }
        }
      }
      ok := Stage(target, nfs, s);
    }

    /** CleanupMountPoint, which is all there is to NodeUnstageVolume and NodeUnpublishVolume. */
    method Clean(target: Path, s: CleanSights) returns (ok: bool)
      requires IsTrue(s.path, world, target)
      modifies this
      ensures world == CleanWorld(old(world), target, s)
      ensures ok == CleanOk(old(world), target, s)
    {
      if s.path.Missing? {
        return true;
      }
      if s.path.Unreadable? {
        return false;
      }
      if s.path.Corrupted? || s.safe {
        if !s.unmount {
          return false;
        }
        world := world.Pop(target);
        ok := RemoveDir(target, s.remove);
        return;
      }
      if !s.check {
        return false;
      }
      if !world.Mounted(target) {
        ok := RemoveDir(target, s.remove);
        return;
      }
      if !s.unmount {
        return false;
      }
      world := world.Pop(target);
      if !s.secondCheck || world.Mounted(target) {
        return false;
      }
      ok := RemoveDir(target, s.remove);
    }

    method RemoveDir(target: Path, works: bool) returns (ok: bool)
      modifies this
      ensures world == old(world).Remove(target, works)
      ensures ok == (works && !old(world).Mounted(target))
    {
      ok := works && !world.Mounted(target);
      world := world.Remove(target, works);
    }
  }

  predicate Skips(refreshes: bool, look: Look, lstat: bool) {
    !refreshes && look.LooksMounted? && lstat
  }

  // ---------------------------------------------------------------- when each call succeeds

  /** ensureMountPoint has no error exactly when everything it looks at can be read and, depending on what is there, the
      directory can be made or, if it may unmount, the mount answers the probe. */
  lemma EnsureSucceedsExactly(w: World, target: Path, shouldUnmount: bool, s: Sights)
    requires s.True(w, target)
    ensures EnsureOk(w, target, shouldUnmount, s) <==>
            && !s.look.Unreadable? && s.listing.Some? && s.absolute
            && (target !in s.listing.value ==> s.makeDir)
            && (target in s.listing.value && shouldUnmount ==> s.probe)
    ensures EnsureOk(w, target, shouldUnmount, s) ==> EnsureMounted(w, target, shouldUnmount, s) == (target in s.listing.value)
  {
  }

  /** Staging of a new target succeeds exactly when everything before the mount goes well, the mount call ends well and, for
      NFS, mode and owner can be set or, for fuse, the mount shows up. A target that is mounted needs a good probe and
      nothing else. */
  lemma StageSucceedsExactly(w: World, target: Path, nfs: bool, s: StageSights)
    requires StageTrue(w, target, nfs, s) && !s.deferred
    ensures !w.Mounted(target) ==>
              (StageOk(w, target, nfs, s) <==>
               && !s.ensure.look.Unreadable? && s.ensure.listing.Some? && s.ensure.absolute && s.ensure.makeDir
               && s.prepared && s.end == Mounts && (nfs ==> s.settled) && (!nfs ==> s.arrives))
    ensures w.Mounted(target) ==>
              (StageOk(w, target, nfs, s) <==>
               && !s.ensure.look.Unreadable? && s.ensure.listing.Some? && s.ensure.absolute && s.ensure.probe)
  {
  }

  /** Publishing at a new target, with its directory there before or not, succeeds exactly when everything can be read, the
      directory can be made and the bind mount succeeds. If only the bind mount fails, the directory is removed where that is
      possible, and nothing is mounted. A target that is mounted needs only to be readable. */
  lemma PublishSucceedsExactly(w: World, source: Path, target: Path, s: PublishSights)
    requires s.ensure.True(w, target)
    ensures var readable := !s.ensure.look.Unreadable? && s.ensure.listing.Some? && s.ensure.absolute;
            && (!w.Mounted(target) ==> (PublishOk(w, target, s) <==> readable && s.ensure.makeDir && s.mount))
            && (w.Mounted(target) ==> (PublishOk(w, target, s) <==> readable))
            && var t := PublishWorld(w, source, target, s);
               (!w.Mounted(target) && readable && s.ensure.makeDir && !s.mount ==>
                  t.At(target) == [] && (target in t.dirs <==> !s.remove))
  {
  }

  /** A cleanup of what cannot be seen to be missing succeeds exactly when it is readable, at most one mount is there, the
      directory can be removed, and each step it takes succeeds: unmounting for a broken mount or where that is safe anyway,
      and otherwise the check and, if something is mounted, unmounting and the second check. */
  lemma CleanSucceedsExactly(w: World, target: Path, s: CleanSights)
    requires IsTrue(s.path, w, target)
    ensures s.path == Missing ==> CleanOk(w, target, s)
    ensures s.path != Missing ==>
              (CleanOk(w, target, s) <==>
               && s.path != Unreadable && |w.At(target)| <= 1 && s.remove
               && (s.path == Corrupted || s.safe ==> s.unmount)
               && (s.path != Corrupted && !s.safe ==> s.check)
               && (s.path != Corrupted && !s.safe && w.Mounted(target) ==> s.unmount && s.secondCheck))
  {
  }

  // ---------------------------------------------------------------- what each call means

  /** ensureMountPoint without an error: the target is mounted, and healthy if it was probed; or it is a plain directory.
      It unmounts only what failed the probe, only when asked to, and then never without an error. */
  lemma EnsureMeans(w: World, target: Path, shouldUnmount: bool, s: Sights)
    requires s.True(w, target)
    ensures var t := EnsureWorld(w, target, shouldUnmount, s);
            var ok := EnsureOk(w, target, shouldUnmount, s);
            && (ok && w.Mounted(target) ==> t == w && (shouldUnmount ==> t.Healthy(target)))
            && (ok && !w.Mounted(target) ==> !t.Mounted(target) && target in t.dirs)
            && (t.At(target) != w.At(target) ==> shouldUnmount && !s.probe && !ok && t.At(target) == w.At(target)[..|w.At(target)| - 1])
            && (!shouldUnmount ==> t.At(target) == w.At(target))
            && t.SameBut(w, target) && t.pending == w.pending && t.dead == w.dead && t.started == w.started
  {
  }

  /** The first result is true with an error exactly when a look saw a mount and the rest could not be read, or when a mount
      failed the probe and then could not be unmounted. */
  lemma MountedWithErrorExactly(w: World, target: Path, shouldUnmount: bool, s: Sights)
    requires s.True(w, target)
    ensures EnsureMounted(w, target, shouldUnmount, s) && !EnsureOk(w, target, shouldUnmount, s) <==>
            if s.Readable() then w.Mounted(target) && shouldUnmount && !s.probe && !s.unmount
            else s.look.LooksMounted? || s.look.Corrupted?
  {
  }

  /** Without unmounting, a mount that can be read is reported as mounted and without an error, healthy or not; the probe
      makes no difference to anything. */
  lemma HealthIsNotReported(w: World, target: Path, s: Sights, probe: bool)
    requires s.True(w, target)
    ensures var t := s.(probe := probe);
            && EnsureWorld(w, target, false, s) == EnsureWorld(w, target, false, t)
            && EnsureMounted(w, target, false, s) == EnsureMounted(w, target, false, t)
            && EnsureOk(w, target, false, s) == EnsureOk(w, target, false, t)
    ensures s.Readable() && w.Mounted(target) ==> EnsureMounted(w, target, false, s) && EnsureOk(w, target, false, s)
  {
  }

  /** A stale mount is found and unmounted, and the call still ends with an error: staging succeeds only when retried. */
  lemma StaleMountNeedsRetry(w: World, target: Path, nfs: bool, s: StageSights, again: StageSights)
    requires StageTrue(w, target, nfs, s) && |w.At(target)| == 1 && !s.ensure.probe && !s.deferred
    requires s.ensure.Readable() && s.ensure.unmount
    requires var t := StageWorld(w, target, nfs, s); StageTrue(t, target, nfs, again)
    ensures !StageOk(w, target, nfs, s) && !StageWorld(w, target, nfs, s).Mounted(target)
    ensures var t := StageWorld(w, target, nfs, s);
            StageOk(t, target, nfs, again) <==>
            again.deferred ||
            (again.ensure.Readable() && again.ensure.makeDir && again.prepared && again.end.Mounts?
             && if nfs then again.settled else again.arrives)
  {
  }

  /** Staging that succeeds leaves a healthy mount, unless the call was deferred, which changes nothing and asks nothing; what
      was mounted stays as it was. */
  lemma StageMeans(w: World, target: Path, nfs: bool, s: StageSights)
    requires w.IsWell() && StageTrue(w, target, nfs, s) && StageOk(w, target, nfs, s)
    ensures var t := StageWorld(w, target, nfs, s);
            && (t.Healthy(target) <==> !s.deferred || w.Healthy(target))
            && (s.deferred || w.Mounted(target) ==> t == w)
  {
  }

  /** Staging, successful or not, touches no other path, kills no process, and never stacks a mount on another one. */
  lemma StageTouches(w: World, target: Path, nfs: bool, s: StageSights)
    requires StageTrue(w, target, nfs, s)
    ensures var t := StageWorld(w, target, nfs, s);
            && t.SameBut(w, target) && w.pending <= t.pending && w.SameLives(t) && (w.IsWell() ==> t.IsWell())
            && |t.At(target)| <= (if w.Mounted(target) then |w.At(target)| else 1)
  {
    if !s.deferred {
      EnsureMeans(w, target, true, s.ensure);
      var ready := EnsureWorld(w, target, true, s.ensure);
      if w.IsWell() {
        EnsureStaysWell(w, target, true, s.ensure);
      }
      if !w.Mounted(target) {
        MountCallTouches(ready, target, nfs, s);
        RefusalTouches(AfterMountCall(ready, target, nfs, s), target, s);
      }
    }
  }

  lemma EnsureStaysWell(w: World, target: Path, shouldUnmount: bool, s: Sights)
    requires w.IsWell()
    ensures EnsureWorld(w, target, shouldUnmount, s).IsWell()
  {
    var t := EnsureWorld(w, target, shouldUnmount, s);
    assert forall p :: t.At(p) <= w.At(p);
    forall p, m | m in t.At(p) ensures m in w.At(p) {
    }
  }

  lemma MountCallTouches(w: World, target: Path, nfs: bool, s: StageSights)
    ensures var t := AfterMountCall(w, target, nfs, s);
            && t.SameBut(w, target) && w.pending <= t.pending && w.SameLives(t) && (w.IsWell() ==> t.IsWell())
            && |t.At(target)| <= |w.At(target)| + 1
  {
    if w.IsWell() {
      match s.end {
        case Mounts => ServeStaysWell(w, target, true);
        case Refuses(partly) =>
          if partly.Some? {
            ServeStaysWell(w, target, partly.value);
          }
        case Hangs =>
      }
    }
  }

  lemma RefusalTouches(w: World, target: Path, s: StageSights)
    ensures var t := AfterRefusal(w, target, s);
            && t.SameBut(w, target) && t.pending == w.pending && w.SameLives(t) && (w.IsWell() ==> t.IsWell())
            && |t.At(target)| <= |w.At(target)|
  {
  }

  /** A fuse mount that is refused leaves something mounted exactly when it was half made and then could not be seen, or
      could not be unmounted. */
  lemma RefusalLeavesMountExactly(w: World, target: Path, s: StageSights)
    requires StageTrue(w, target, false, s) && !w.Mounted(target)
    requires !s.deferred && EnsureOk(w, target, true, s.ensure) && s.prepared && s.end.Refuses?
    ensures !StageOk(w, target, false, s)
    ensures StageWorld(w, target, false, s).Mounted(target) <==>
            s.end.partly.Some? && !(s.look.LooksMounted? && s.unmount)
  {
    var ready := EnsureWorld(w, target, true, s.ensure);
    EnsureMeans(w, target, true, s.ensure);
    if s.end.partly.Some? {
      ServeOnce(ready, target, s.end.partly.value);
    }
    AfterRefusalMounted(AfterMountCall(ready, target, false, s), target, s);
  }

  lemma ServeOnce(w: World, target: Path, works: bool)
    requires !w.Mounted(target)
    ensures |w.Serve(target, works).At(target)| == 1
  {
  }

  /** With at most one mount there, the cleanup leaves one exactly unless it sees it and can unmount it. */
  lemma AfterRefusalMounted(w: World, target: Path, s: StageSights)
    requires |w.At(target)| <= 1 && (s.look.LooksMounted? ==> w.Mounted(target))
    ensures AfterRefusal(w, target, s).Mounted(target) <==> w.Mounted(target) && !(s.look.LooksMounted? && s.unmount)
  {
    assert |w.Pop(target).At(target)| == 0;
  }

  /** Staging unmounts exactly a mount that failed the probe, healthy or not. The same holds of publishing an inline volume,
      which stages. */
  lemma StageUnmountsExactly(w: World, target: Path, nfs: bool, s: StageSights)
    requires StageTrue(w, target, nfs, s)
    ensures |StageWorld(w, target, nfs, s).At(target)| < |w.At(target)| <==>
            !s.deferred && w.Mounted(target) && s.ensure.Readable() && !s.ensure.probe && s.ensure.unmount
  {
  }

  /** Publishing a staged volume never unmounts anything, and succeeds only with the target mounted. */
  lemma PublishMeans(w: World, source: Path, target: Path, s: PublishSights)
    requires s.ensure.True(w, target)
    ensures var t := PublishWorld(w, source, target, s);
            && (forall p :: w.At(p) <= t.At(p))
            && (PublishOk(w, target, s) ==> t.Mounted(target) && (w.Mounted(target) ==> t == w))
            && t.SameBut(w, target)
            && |t.At(target)| <= (if w.Mounted(target) then |w.At(target)| else 1)
            && t.pending == w.pending && t.dead == w.dead && t.started == w.started
  {
  }

  lemma PublishStaysWell(w: World, source: Path, target: Path, s: PublishSights)
    requires w.IsWell()
    ensures PublishWorld(w, source, target, s).IsWell()
  {
    var ready := EnsureWorld(w, target, false, s.ensure);
    EnsureStaysWell(w, target, false, s.ensure);
    BindStaysWell(ready, source, target);
    assert forall p :: ready.Remove(target, s.remove).At(p) == ready.At(p);
  }

  lemma ServeStaysWell(w: World, target: Path, works: bool)
    requires w.IsWell()
    ensures w.Serve(target, works).IsWell()
  {
    var t := w.Serve(target, works);
    forall p, m | m in t.At(p) && m.process.Some? ensures m.process.value < t.started {
      assert m in w.At(p) || m == Mount(Some(w.started));
    }
  }

  lemma BindStaysWell(w: World, source: Path, target: Path)
    requires w.IsWell()
    ensures w.Bind(source, target).IsWell()
  {
    var t := w.Bind(source, target);
    assert w.Mounted(source) ==> w.Top(source) in w.At(source);
    forall p, m | m in t.At(p) && m.process.Some? ensures m.process.value < t.started {
      assert m in w.At(p) || m == Mount(None) || (w.Mounted(source) && m == w.Top(source));
    }
  }

  /** What a successful publish puts on an unmounted target: the volume's own process, or the plain directory of a volume
      that was not staged. */
  lemma PublishBinds(w: World, source: Path, target: Path, s: PublishSights)
    requires s.ensure.True(w, target) && PublishOk(w, target, s) && !w.Mounted(target)
    ensures PublishWorld(w, source, target, s).At(target) == [if w.Mounted(source) then w.Top(source) else Mount(None)]
  {
  }

  /** A publish that succeeds leaves a dead target exactly when the target was mounted and dead before, or is new and the
      volume was staged and is dead. */
  lemma PublishLeavesDeadExactly(w: World, source: Path, target: Path, s: PublishSights)
    requires s.ensure.True(w, target) && PublishOk(w, target, s)
    ensures !PublishWorld(w, source, target, s).Healthy(target) <==>
            if w.Mounted(target) then !w.Healthy(target) else w.Mounted(source) && !w.Healthy(source)
  {
  }

  /** A cleanup that succeeds leaves the target unmounted, and removed unless it did not exist; done again, it changes
      nothing more. */
  lemma CleanMeans(w: World, target: Path, s: CleanSights)
    requires IsTrue(s.path, w, target)
    ensures var t := CleanWorld(w, target, s);
            && (CleanOk(w, target, s) ==> !t.Mounted(target) && (!s.path.Missing? ==> target !in t.dirs))
            && |t.At(target)| <= |w.At(target)| <= |t.At(target)| + 1
            && t.SameBut(w, target) && t.pending == w.pending && t.dead == w.dead && t.started == w.started
            && (w.IsWell() ==> t.IsWell())
  {
  }

  /** A cleanup, successful or not, takes a mount away exactly when one is there, the path can be looked at, and unmounting
      succeeds, after a check that succeeds unless the mount is broken or unmounting is safe anyway. */
  lemma CleanUnmountsExactly(w: World, target: Path, s: CleanSights)
    requires IsTrue(s.path, w, target)
    ensures |CleanWorld(w, target, s).At(target)| < |w.At(target)| <==>
            && w.Mounted(target) && s.path != Unreadable && s.unmount && (s.path == Corrupted || s.safe || s.check)
  {
  }

  lemma CleanAgain(w: World, target: Path, s: CleanSights, again: CleanSights)
    requires IsTrue(s.path, w, target) && CleanOk(w, target, s) && (s.path.Missing? ==> target !in w.dirs)
    requires IsTrue(again.path, CleanWorld(w, target, s), target)
    ensures CleanWorld(CleanWorld(w, target, s), target, again) == CleanWorld(w, target, s)
  {
    CleanMeans(w, target, s);
  }
}
