/**
 * Magic mounting (src/mount/magic.rs): a tmpfs skeleton replaces a
 * directory; the original content, bound onto a private mirror first, is
 * brought back entry by entry, except for the names a module replaces,
 * which only get an empty placeholder of the same kind.
 */
module MagicMount {
  import opened Wrappers
  import opened Paths
  import opened Kernel
  import opened Settings
  import opened Overlay

  /** What `DirEntry::file_type` says (it does not follow symlinks). */
  datatype EntryKind = DirKind | SymlinkKind | OtherKind

  /**
   * One readable entry of the mirror: its file name, its type (None when
   * `file_type()` fails) and, for a symlink, its target (None when
   * `read_link` fails).
   */
  datatype MirrorEntry = MirrorEntry(name: string, kind: Option<EntryKind>, linkTarget: Option<Path>)

  /** A directory listing: None when `read_dir` fails; None items are entries `flatten` drops. */
  type Lister = Path -> Option<seq<Option<MirrorEntry>>>

  /** The mirror of `target`: RUN_DIR/mirror joined with the target minus its leading '/' characters. */
  function MirrorDir(target: Path, consts: Consts): Path {
    MirrorOf(Join(consts.runDir, "mirror"), target)
  }

  /** The mirror lies below RUN_DIR/mirror, and distinct targets get distinct mirrors. */
  lemma MirrorDirProperties(target: Path, other: Path, consts: Consts)
    ensures StartsWith(MirrorDir(target, consts), Join(consts.runDir, "mirror"))
    ensures TrimLeading(target, '/') != TrimLeading(other, '/') ==> MirrorDir(target, consts) != MirrorDir(other, consts)
  {
    MirrorOfProperties(Join(consts.runDir, "mirror"), target, other);
  }

  /**
   * What restoring one entry issues, or None when its type cannot be read.
   * An excluded name gets only an empty placeholder of its kind; any other
   * directory is created and bound from the mirror, a symlink is recreated
   * with its link target, anything else becomes an empty file bound from the mirror.
   */
  function EntryEffects(e: MirrorEntry, target: Path, mirror: Path, exclusions: set<string>,
                        disableUmount: bool, host: Host): (r: Option<seq<Effect>>)
    ensures r.None? <==> e.kind.None?
    ensures e.name in exclusions && e.kind.Some? ==>
      r == Some([if e.kind.value == DirKind then CreateDir(Join(target, e.name)) else CreateFile(Join(target, e.name))])
    ensures e.name !in exclusions && e.kind == Some(SymlinkKind) ==>
      r == Some(if e.linkTarget.Some? then [CreateSymlink(e.linkTarget.value, Join(target, e.name))] else [])
    ensures e.name !in exclusions && e.kind == Some(DirKind) ==>
      r == Some([CreateDir(Join(target, e.name))] + BindMountOp(Join(mirror, e.name), Join(target, e.name), disableUmount, host).log)
    ensures e.name !in exclusions && e.kind == Some(OtherKind) ==>
      r == Some([CreateFile(Join(target, e.name))] + BindMountOp(Join(mirror, e.name), Join(target, e.name), disableUmount, host).log)
  {
    var src := Join(mirror, e.name);
    var dst := Join(target, e.name);
    match e.kind
    case None => None
    case Some(kind) =>
      if e.name in exclusions then
        Some([if kind == DirKind then CreateDir(dst) else CreateFile(dst)])
      else if kind == DirKind then
        Some([CreateDir(dst)] + BindMountOp(src, dst, disableUmount, host).log)
      else if kind == SymlinkKind then
        Some(if e.linkTarget.Some? then [CreateSymlink(e.linkTarget.value, dst)] else [])
      else
        Some([CreateFile(dst)] + BindMountOp(src, dst, disableUmount, host).log)
  }

  /** The restore loop over the listed entries: it stops at the first entry whose type cannot be read. */
  function Restore(entries: seq<Option<MirrorEntry>>, target: Path, mirror: Path, exclusions: set<string>,
                   disableUmount: bool, host: Host): Outcome
    decreases |entries|
  {
    if entries == [] then Outcome(Ok(()), [])
    else
      var before := Restore(entries[..|entries| - 1], target, mirror, exclusions, disableUmount, host);
      if before.result.Err? then before
      else match entries[|entries| - 1]
        case None => before
        case Some(e) =>
          match EntryEffects(e, target, mirror, exclusions, disableUmount, host)
          case None => Outcome(Err(FileTypeFailed(Join(mirror, e.name))), before.log)
          case Some(l) => Outcome(Ok(()), before.log + l)
  }

  /** A bind mount of the restore always comes from the mirror copy of a listed, non-excluded entry. */
  lemma {:induction false} RestoreBindsOnlyKept(entries: seq<Option<MirrorEntry>>, target: Path, mirror: Path,
                                                exclusions: set<string>, disableUmount: bool, host: Host)
    ensures forall eff :: eff in Restore(entries, target, mirror, exclusions, disableUmount, host).log && eff.BindMount? ==>
      exists k :: 0 <= k < |entries| && entries[k].Some? && entries[k].value.name !in exclusions &&
        eff == BindMount(Join(mirror, entries[k].value.name), Join(target, entries[k].value.name))
    decreases |entries|
  {
    if entries != [] {
      var init := entries[..|entries| - 1];
      RestoreBindsOnlyKept(init, target, mirror, exclusions, disableUmount, host);
      var before := Restore(init, target, mirror, exclusions, disableUmount, host);
      assert forall k :: 0 <= k < |init| ==> entries[k] == init[k];
      if before.result.Ok? && entries[|entries| - 1].Some? {
        var e := entries[|entries| - 1].value;
        var o := BindMountOp(Join(mirror, e.name), Join(target, e.name), disableUmount, host);
        assert forall eff :: eff in o.log && eff.BindMount? ==> eff == BindMount(Join(mirror, e.name), Join(target, e.name));
      }
    }
  }

  /** The whole restore log is the entries' own effects in listing order, up to the first unreadable type. */
  lemma {:induction false} RestoreIsPerEntry(entries: seq<Option<MirrorEntry>>, target: Path, mirror: Path,
                                             exclusions: set<string>, disableUmount: bool, host: Host)
    ensures var o := Restore(entries, target, mirror, exclusions, disableUmount, host);
      o.result.Ok? <==> forall k :: 0 <= k < |entries| && entries[k].Some? ==> entries[k].value.kind.Some?
    decreases |entries|
  {
    if entries != [] {
      var init := entries[..|entries| - 1];
      RestoreIsPerEntry(init, target, mirror, exclusions, disableUmount, host);
      assert forall k :: 0 <= k < |init| ==> entries[k] == init[k];
    }
  }

  /** The setup before any entry is restored: mirror dir, bind of the target onto it, private, tmpfs. */
  function Setup(target: Path, disableUmount: bool, consts: Consts, host: Host): (o: Outcome)
    ensures var mirror := MirrorDir(target, consts);
      var bind := BindMountOp(target, mirror, disableUmount, host);
      && (!host.createDirOk(mirror) ==> o == Outcome(Err(CreateDirFailed(mirror)), [CreateDirAll(mirror)]))
      && (host.createDirOk(mirror) && bind.result.Err? ==> o == Outcome(bind.result, [CreateDirAll(mirror)] + bind.log))
      && (host.createDirOk(mirror) && bind.result.Ok? ==>
            && o.log == [CreateDirAll(mirror)] + bind.log + [MakePrivate(mirror), MountTmpfs(target, consts.overlaySource)]
            && (o.result.Ok? <==> host.tmpfsOk(target))
            && (o.result.Err? ==> o.result == Err(TmpfsFailed(target))))
  {
    var mirror := MirrorDir(target, consts);
    if !host.createDirOk(mirror) then Outcome(Err(CreateDirFailed(mirror)), [CreateDirAll(mirror)])
    else
      var bind := BindMountOp(target, mirror, disableUmount, host);
      if bind.result.Err? then Outcome(bind.result, [CreateDirAll(mirror)] + bind.log)
      else
        var log := [CreateDirAll(mirror)] + bind.log + [MakePrivate(mirror), MountTmpfs(target, consts.overlaySource)];
        if host.tmpfsOk(target) then Outcome(Ok(()), log) else Outcome(Err(TmpfsFailed(target)), log)
  }

  /** What `populate_skeleton` does: the setup, the listing of the mirror, the restore. */
  function Skeleton(target: Path, exclusions: set<string>, disableUmount: bool, consts: Consts,
                    host: Host, readDir: Lister): Outcome {
    var setup := Setup(target, disableUmount, consts, host);
    var mirror := MirrorDir(target, consts);
    if setup.result.Err? then setup
    else match readDir(mirror)
      case None => Outcome(Err(ReadDirFailed(mirror)), setup.log)
      case Some(entries) =>
        var restore := Restore(entries, target, mirror, exclusions, disableUmount, host);
        Outcome(restore.result, setup.log + restore.log)
  }

  /**
   * `populate_skeleton`: the setup must succeed, then the mirror is listed
   * and every readable entry is restored in listing order; the call fails
   * when the listing fails or an entry's type cannot be read.
   */
  method PopulateSkeleton(target: Path, exclusions: set<string>, disableUmount: bool, consts: Consts,
                          host: Host, readDir: Lister)
    returns (r: Result<()>, log: seq<Effect>)
    ensures Outcome(r, log) == Skeleton(target, exclusions, disableUmount, consts, host, readDir)
  {
    var setup := Setup(target, disableUmount, consts, host);
    log := setup.log;
    if setup.result.Err? {
      r := setup.result;
      return;
    }
    var mirror := MirrorDir(target, consts);
    var listing := readDir(mirror);
    if listing.None? {
      r := Err(ReadDirFailed(mirror));
      return;
    }
    var restored;
    r, restored := RestoreEntries(listing.value, target, mirror, exclusions, disableUmount, host);
    log := log + restored;
  }

  /** The restore loop of `populate_skeleton` over the listed entries. */
  method RestoreEntries(entries: seq<Option<MirrorEntry>>, target: Path, mirror: Path, exclusions: set<string>,
                        disableUmount: bool, host: Host)
    returns (r: Result<()>, restored: seq<Effect>)
    ensures Outcome(r, restored) == Restore(entries, target, mirror, exclusions, disableUmount, host)
  {
    restored := [];
    var i := 0;
    while i < |entries|
      invariant 0 <= i <= |entries|
      invariant Restore(entries[..i], target, mirror, exclusions, disableUmount, host) == Outcome(Ok(()), restored)
    {
      assert entries[..i + 1][..i] == entries[..i];
      if entries[i].Some? {
        var e := entries[i].value;
        var effects := EntryEffects(e, target, mirror, exclusions, disableUmount, host);
        if effects.None? {
          RestoreStopsAt(entries, i, target, mirror, exclusions, disableUmount, host);
          r := Err(FileTypeFailed(Join(mirror, e.name)));
          return;
        }
        restored := restored + effects.value;
      }
      i := i + 1;
    }
    assert entries[..i] == entries;
    r := Ok(());
  }

  /** Once the restore has failed, the later entries add nothing. */
  lemma {:induction false} RestoreStopsAt(entries: seq<Option<MirrorEntry>>, i: nat, target: Path, mirror: Path,
                                          exclusions: set<string>, disableUmount: bool, host: Host)
    requires i < |entries| && entries[i].Some?
    requires EntryEffects(entries[i].value, target, mirror, exclusions, disableUmount, host).None?
    requires Restore(entries[..i], target, mirror, exclusions, disableUmount, host).result.Ok?
    ensures Restore(entries, target, mirror, exclusions, disableUmount, host) ==
      Outcome(Err(FileTypeFailed(Join(mirror, entries[i].value.name))),
              Restore(entries[..i], target, mirror, exclusions, disableUmount, host).log)
    decreases |entries|
  {
    if |entries| == i + 1 {
      assert entries[..|entries| - 1] == entries[..i];
    } else {
      var init := entries[..|entries| - 1];
      assert init[..i] == entries[..i];
      RestoreStopsAt(init, i, target, mirror, exclusions, disableUmount, host);
    }
  }

  /** Restoring entries never mounts a tmpfs nor changes propagation. */
  lemma {:induction false} RestoreNoTmpfs(entries: seq<Option<MirrorEntry>>, target: Path, mirror: Path,
                                          exclusions: set<string>, disableUmount: bool, host: Host)
    ensures forall eff :: eff in Restore(entries, target, mirror, exclusions, disableUmount, host).log ==>
      !eff.MountTmpfs? && !eff.MakePrivate?
    decreases |entries|
  {
    if entries != [] {
      RestoreNoTmpfs(entries[..|entries| - 1], target, mirror, exclusions, disableUmount, host);
      if entries[|entries| - 1].Some? {
        var e := entries[|entries| - 1].value;
        var o := BindMountOp(Join(mirror, e.name), Join(target, e.name), disableUmount, host);
        assert forall eff :: eff in o.log ==> !eff.MountTmpfs? && !eff.MakePrivate?;
      }
    }
  }

  /**
   * The tmpfs goes over the target only once the mirror directory exists and
   * the original content is bound onto it and made private: the one tmpfs
   * mount of a skeleton is preceded, in this order, by the mirror's
   * creation, the bind of the target onto it and the propagation change.
   * When the setup fails, nothing is listed or restored.
   */
  lemma SkeletonTmpfsAfterMirror(target: Path, exclusions: set<string>, disableUmount: bool, consts: Consts,
                                 host: Host, readDir: Lister)
    ensures var s := Skeleton(target, exclusions, disableUmount, consts, host, readDir);
      var mirror := MirrorDir(target, consts);
      forall k :: 0 <= k < |s.log| && s.log[k].MountTmpfs? ==>
        && s.log[k] == MountTmpfs(target, consts.overlaySource)
        && 3 <= k && s.log[0] == CreateDirAll(mirror) && s.log[1] == BindMount(target, mirror)
        && s.log[k - 1] == MakePrivate(mirror) && host.createDirOk(mirror) && host.bindOk(mirror)
        && forall j :: 0 <= j < |s.log| && j != k ==> !s.log[j].MountTmpfs?
    ensures Setup(target, disableUmount, consts, host).result.Err? ==>
      Skeleton(target, exclusions, disableUmount, consts, host, readDir) == Setup(target, disableUmount, consts, host)
  {
    var s := Skeleton(target, exclusions, disableUmount, consts, host, readDir);
    var setup := Setup(target, disableUmount, consts, host);
    var mirror := MirrorDir(target, consts);
    var bind := BindMountOp(target, mirror, disableUmount, host);
    SkeletonAfterSetup(target, exclusions, disableUmount, consts, host, readDir);
    var rest := s.log[|setup.log|..];
    assert s.log == setup.log + rest;
    assert forall eff :: eff in bind.log ==> !eff.MountTmpfs? && !eff.MakePrivate?;
    if host.createDirOk(mirror) && bind.result.Ok? {
      var t := MountTmpfs(target, consts.overlaySource);
      var pre := [CreateDirAll(mirror)] + bind.log + [MakePrivate(mirror)];
      assert setup.log == pre + [t];
      TmpfsOnce(pre, t, rest);
      assert s.log == pre + [t] + rest;
      assert s.log[1] == bind.log[0];
    } else {
      TmpfsOnce(s.log, CreateDirAll(mirror), []);
    }
  }

  /** The skeleton's calls are the setup's, then calls that mount no tmpfs; a failed setup is the whole skeleton. */
  lemma SkeletonAfterSetup(target: Path, exclusions: set<string>, disableUmount: bool, consts: Consts,
                           host: Host, readDir: Lister)
    ensures var s := Skeleton(target, exclusions, disableUmount, consts, host, readDir);
      var setup := Setup(target, disableUmount, consts, host);
      && |setup.log| <= |s.log| && s.log[..|setup.log|] == setup.log
      && (forall eff :: eff in s.log[|setup.log|..] ==> !eff.MountTmpfs?)
      && (setup.result.Err? ==> s == setup)
  {
    var s := Skeleton(target, exclusions, disableUmount, consts, host, readDir);
    var setup := Setup(target, disableUmount, consts, host);
    var mirror := MirrorDir(target, consts);
    if setup.result.Ok? && readDir(mirror).Some? {
      var restore := Restore(readDir(mirror).value, target, mirror, exclusions, disableUmount, host);
      RestoreNoTmpfs(readDir(mirror).value, target, mirror, exclusions, disableUmount, host);
      assert s.log == setup.log + restore.log;
      assert s.log[|setup.log|..] == restore.log;
    } else {
      assert s.log == setup.log;
    }
  }

  /** In `pre + [t] + rest` with no tmpfs mount in `pre` or `rest`, a tmpfs mount can only be `t`. */
  lemma TmpfsOnce(pre: seq<Effect>, t: Effect, rest: seq<Effect>)
    requires forall eff :: eff in pre ==> !eff.MountTmpfs?
    requires forall eff :: eff in rest ==> !eff.MountTmpfs?
    ensures forall k :: 0 <= k < |pre| ==> !pre[k].MountTmpfs?
    ensures forall k :: 0 <= k < |pre + [t] + rest| && (pre + [t] + rest)[k].MountTmpfs? ==> k == |pre|
  {
    var log := pre + [t] + rest;
    forall k | 0 <= k < |log| && k != |pre| ensures !log[k].MountTmpfs? {
      if k < |pre| {
        assert log[k] == pre[k] && pre[k] in pre;
      } else {
        assert log[k] == rest[k - |pre| - 1] && rest[k - |pre| - 1] in rest;
      }
    }
  }
}
