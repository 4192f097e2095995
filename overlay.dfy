/**
 * Overlay mounting (src/mount/overlay.rs): the lowerdir option string, the
 * page-size limit that switches to a staged mount, the greedy batching of
 * long lower-dir lists, the bottom-up stacking of the batches through
 * staging mounts with an undo guard, and the choice between the new mount
 * API and the legacy mount(2) data string.
 */
module Overlay {
  import opened Wrappers
  import opened Paths
  import opened Kernel
  import opened Settings

  /** The largest lowerdir option a single mount is given (exclusive bound). */
  const PageLimit: nat := 4000
  /** The budget of one staged batch, counting each dir's length plus its ':'. */
  const SafeChunkSize: nat := 3500

  /** The lower dirs, then `lowest`, joined with ':'. */
  function LowerdirConfig(lowerDirs: seq<string>, lowest: string): string {
    JoinSep(lowerDirs + [lowest], ':')
  }

  /** The option string is the dirs' lengths plus one ':' between each two. */
  lemma LowerdirConfigLength(lowerDirs: seq<string>, lowest: string)
    ensures |LowerdirConfig(lowerDirs, lowest)| == Cost(lowerDirs) + |lowest|
  {
    JoinSepLength(lowerDirs + [lowest], ':');
    CostAppend(lowerDirs, [lowest]);
    assert Cost([lowest]) == |lowest| + 1 by { assert [lowest][1..] == []; }
  }

  /** The kernel reads the option back into exactly the layers given, top first, `lowest` last. */
  lemma LowerdirConfigLayers(lowerDirs: seq<string>, lowest: string)
    requires forall k :: 0 <= k < |lowerDirs| ==> ':' !in lowerDirs[k]
    requires ':' !in lowest
    ensures Split(LowerdirConfig(lowerDirs, lowest), ':') == lowerDirs + [lowest]
  {
    SplitJoinSep(lowerDirs + [lowest], ':');
  }

  // ---------------------------------------------------------------------
  // do_mount_overlay

  /** `Option::filter(exists)`: a dir is used only when it is given and exists. */
  function Usable(dir: Option<Path>, host: Host): (r: Option<Path>)
    ensures r.Some? <==> dir.Some? && host.pathExists(dir.value)
    ensures r.Some? ==> r == dir
  {
    if dir.Some? && host.pathExists(dir.value) then dir else None
  }

  /** The fsconfig parameters, in the order they are set. */
  function MountParams(lowerdir: string, upper: Option<Path>, work: Option<Path>, consts: Consts): seq<(string, string)> {
    [("lowerdir", lowerdir)]
    + (if upper.Some? && work.Some? then [("upperdir", upper.value), ("workdir", work.value)] else [])
    + [("source", consts.ksuOverlaySource)]
  }

  /** The legacy mount(2) data string. */
  function LegacyData(lowerdir: string, upper: Option<Path>, work: Option<Path>): string {
    "lowerdir=" + lowerdir
    + (if upper.Some? && work.Some? then ",upperdir=" + upper.value + ",workdir=" + work.value else "")
  }

  /** `do_mount_overlay`: the new mount API first, the legacy mount(2) call if that fails. */
  function DoMountOverlay(lowerdir: string, upperdir: Option<Path>, workdir: Option<Path>, dest: Path,
                          disableUmount: bool, consts: Consts, host: Host): Outcome
  {
    var up := Usable(upperdir, host);
    var wd := Usable(workdir, host);
    var first := OverlayFsConfig(MountParams(lowerdir, up, wd, consts), dest);
    if host.fsConfigOk(dest) then
      Outcome(Ok(()), [first] + Unmountable(dest, disableUmount))
    else
      var data := LegacyData(lowerdir, up, wd);
      if '\0' in data then Outcome(Err(InvalidMountData), [first])
      else
        var legacy := OverlayLegacy(consts.ksuOverlaySource, dest, data);
        if host.legacyMountOk(dest) then Outcome(Ok(()), [first, legacy] + Unmountable(dest, disableUmount))
        else Outcome(Err(MountFailed(dest)), [first, legacy])
  }

  /**
   * The fsconfig chain comes first; when it fails, mount data holding a NUL
   * is refused, otherwise the legacy mount(2) follows; the mount succeeds
   * exactly when one of the two does, and a success ends with the
   * unmountable mark.
   */
  lemma DoMountOverlayProperties(lowerdir: string, upperdir: Option<Path>, workdir: Option<Path>, dest: Path,
                                 disableUmount: bool, consts: Consts, host: Host)
    ensures var o := DoMountOverlay(lowerdir, upperdir, workdir, dest, disableUmount, consts, host);
      var up := Usable(upperdir, host);
      var wd := Usable(workdir, host);
      var first := OverlayFsConfig(MountParams(lowerdir, up, wd, consts), dest);
      var data := LegacyData(lowerdir, up, wd);
      && |o.log| >= 1 && o.log[0] == first
      && (host.fsConfigOk(dest) ==> o == Outcome(Ok(()), [first] + Unmountable(dest, disableUmount)))
      && (!host.fsConfigOk(dest) && '\0' in data ==> o == Outcome(Err(InvalidMountData), [first]))
      && (!host.fsConfigOk(dest) && '\0' !in data ==>
            |o.log| >= 2 && o.log[..2] == [first, OverlayLegacy(consts.ksuOverlaySource, dest, data)]
            && (o.result.Ok? <==> host.legacyMountOk(dest))
            && (o.result.Err? ==> o == Outcome(Err(MountFailed(dest)), o.log[..2])))
      && (o.result.Ok? <==> host.fsConfigOk(dest) || ('\0' !in data && host.legacyMountOk(dest)))
      && (o.result.Ok? ==> o.log[|o.log| - |Unmountable(dest, disableUmount)|..] == Unmountable(dest, disableUmount))
  {
    var up := Usable(upperdir, host);
    var wd := Usable(workdir, host);
    var data := LegacyData(lowerdir, up, wd);
    if !host.fsConfigOk(dest) && '\0' !in data {
      var o := DoMountOverlay(lowerdir, upperdir, workdir, dest, disableUmount, consts, host);
      assert o.log[..2] == o.log[..2][..2];
    }
  }

  /** The upper and work dirs reach the mount (either way) exactly when both are given and both exist. */
  lemma RwLayersOnlyWhenBothExist(lowerdir: string, upperdir: Option<Path>, workdir: Option<Path>,
                                  consts: Consts, host: Host)
    ensures var up := Usable(upperdir, host);
      var wd := Usable(workdir, host);
      var both := upperdir.Some? && workdir.Some? && host.pathExists(upperdir.value) && host.pathExists(workdir.value);
      && (both ==>
            && MountParams(lowerdir, up, wd, consts)[1] == ("upperdir", upperdir.value)
            && MountParams(lowerdir, up, wd, consts)[2] == ("workdir", workdir.value)
            && LegacyData(lowerdir, up, wd) ==
                 "lowerdir=" + lowerdir + ",upperdir=" + upperdir.value + ",workdir=" + workdir.value)
      && (!both ==>
            && MountParams(lowerdir, up, wd, consts) == [("lowerdir", lowerdir), ("source", consts.ksuOverlaySource)]
            && LegacyData(lowerdir, up, wd) == "lowerdir=" + lowerdir)
  {
  }

  /** `bind_mount`: open_tree + move_mount onto `to`, then mark it unmountable. */
  function BindMountOp(from: Path, to: Path, disableUmount: bool, host: Host): (o: Outcome)
    ensures |o.log| >= 1 && o.log[0] == BindMount(from, to)
    ensures o.result.Ok? <==> host.bindOk(to)
    ensures o.result.Ok? ==> o.log == [BindMount(from, to)] + Unmountable(to, disableUmount)
    ensures o.result.Err? ==> o == Outcome(Err(BindFailed(to)), [BindMount(from, to)])
  {
    if host.bindOk(to) then Outcome(Ok(()), [BindMount(from, to)] + Unmountable(to, disableUmount))
    else Outcome(Err(BindFailed(to)), [BindMount(from, to)])
  }

  // ---------------------------------------------------------------------
  // Batching

  function Flatten(batches: seq<seq<string>>): seq<string>
    decreases |batches|
  {
    if batches == [] then [] else Flatten(batches[..|batches| - 1]) + batches[|batches| - 1]
  }

  /** A state of the batching loop: the closed batches, the current batch and its length. */
  datatype BatchLoop = BatchLoop(closed: seq<seq<string>>, current: seq<string>, len: nat)

  const EmptyLoop := BatchLoop([], [], 0)

  /** One turn of the batching loop as the source intends it: close only a non-empty batch that would overflow. */
  function BatchStep(s: BatchLoop, dir: string): BatchLoop {
    if s.current != [] && s.len + |dir| + 1 > SafeChunkSize then BatchLoop(s.closed + [s.current], [dir], |dir| + 1)
    else BatchLoop(s.closed, s.current + [dir], s.len + |dir| + 1)
  }

  /** The loop state after the given dirs. */
  function BatchState(dirs: seq<string>): BatchLoop
    decreases |dirs|
  {
    if dirs == [] then EmptyLoop else BatchStep(BatchState(dirs[..|dirs| - 1]), dirs[|dirs| - 1])
  }

  /** The batches of the corrected loop: the closed ones and the last one if not empty. */
  function BatchesOf(dirs: seq<string>): seq<seq<string>> {
    var s := BatchState(dirs);
    if s.current != [] then s.closed + [s.current] else s.closed
  }

  /** What the batching loop keeps true of its state after every dir. */
  predicate BatchInvariant(dirs: seq<string>, s: BatchLoop) {
    var batches, current, len := s.closed, s.current, s.len;
    && Flatten(batches) + current == dirs
    && len == Cost(current)
    && (forall k :: 0 <= k < |batches| ==> batches[k] != [])
    && (forall k :: 0 <= k < |batches| && |batches[k]| >= 2 ==> Cost(batches[k]) <= SafeChunkSize)
    && (|current| >= 2 ==> Cost(current) <= SafeChunkSize)
    && (forall k :: 0 <= k < |batches| - 1 ==> Cost(batches[k]) + |batches[k + 1][0]| + 1 > SafeChunkSize)
    && (batches != [] ==> current != [] && Cost(batches[|batches| - 1]) + |current[0]| + 1 > SafeChunkSize)
  }

  lemma FlattenSnoc(batches: seq<seq<string>>, b: seq<string>)
    ensures Flatten(batches + [b]) == Flatten(batches) + b
  {
    assert (batches + [b])[..|batches|] == batches;
  }

  lemma CloseKeepsInvariant(dirs: seq<string>, s: BatchLoop, dir: string)
    requires BatchInvariant(dirs, s)
    requires s.current != [] && s.len + |dir| + 1 > SafeChunkSize
    ensures BatchInvariant(dirs + [dir], BatchStep(s, dir))
  {
    var batches, current := s.closed, s.current;
    var nb := batches + [current];
    FlattenSnoc(batches, current);
    assert nb[|batches|] == current;
    assert forall k :: 0 <= k < |batches| ==> nb[k] == batches[k];
    assert Cost([dir]) == |dir| + 1 by { assert [dir][1..] == []; }
  }

  lemma ExtendKeepsInvariant(dirs: seq<string>, s: BatchLoop, dir: string)
    requires BatchInvariant(dirs, s)
    requires !(s.current != [] && s.len + |dir| + 1 > SafeChunkSize)
    ensures BatchInvariant(dirs + [dir], BatchStep(s, dir))
  {
    var current := s.current;
    CostAppend(current, [dir]);
    assert Cost([dir]) == |dir| + 1 by { assert [dir][1..] == []; }
    if current != [] {
      assert (current + [dir])[0] == current[0];
    }
  }

  lemma {:induction false} BatchStateInvariant(dirs: seq<string>)
    ensures BatchInvariant(dirs, BatchState(dirs))
    decreases |dirs|
  {
    if dirs == [] {
      assert Flatten([]) + [] == dirs;
    } else {
      var init := dirs[..|dirs| - 1];
      var dir := dirs[|dirs| - 1];
      BatchStateInvariant(init);
      assert dirs == init + [dir];
      var s := BatchState(init);
      if s.current != [] && s.len + |dir| + 1 > SafeChunkSize {
        CloseKeepsInvariant(init, s, dir);
      } else {
        ExtendKeepsInvariant(init, s, dir);
      }
    }
  }

  /**
   * Greedy batching as the source intends it: every dir exactly once and in
   * order, no empty batch, every batch of two or more dirs within the chunk
   * budget, and a batch closed only when the next dir would not fit.
   */
  lemma BatchesOfProperties(dirs: seq<string>)
    ensures var batches := BatchesOf(dirs);
      && Flatten(batches) == dirs
      && (forall i :: 0 <= i < |batches| ==> batches[i] != [])
      && (forall i :: 0 <= i < |batches| && |batches[i]| >= 2 ==> Cost(batches[i]) <= SafeChunkSize)
      && (forall i :: 0 <= i < |batches| - 1 ==> Cost(batches[i]) + |batches[i + 1][0]| + 1 > SafeChunkSize)
  {
    BatchStateInvariant(dirs);
    var s := BatchState(dirs);
    if s.current != [] {
      FinishWithCurrent(dirs, s);
    } else {
      assert Flatten(s.closed) + s.current == Flatten(s.closed);
    }
  }

  /** Closing the last, non-empty batch at the end of the loop keeps what the loop promised. */
  lemma FinishWithCurrent(dirs: seq<string>, s: BatchLoop)
    requires BatchInvariant(dirs, s) && s.current != []
    ensures var batches := s.closed + [s.current];
      && Flatten(batches) == dirs
      && (forall i :: 0 <= i < |batches| ==> batches[i] != [])
      && (forall i :: 0 <= i < |batches| && |batches[i]| >= 2 ==> Cost(batches[i]) <= SafeChunkSize)
      && (forall i :: 0 <= i < |batches| - 1 ==> Cost(batches[i]) + |batches[i + 1][0]| + 1 > SafeChunkSize)
  {
    var batches, current := s.closed, s.current;
    var nb := batches + [current];
    FlattenSnoc(batches, current);
    assert nb[|batches|] == current;
    assert forall k :: 0 <= k < |batches| ==> nb[k] == batches[k];
  }

  /** The batching loop of `mount_overlayfs_staged` (corrected; see `BatchesAsWritten`). */
  method Batch(dirs: seq<string>) returns (batches: seq<seq<string>>)
    ensures batches == BatchesOf(dirs)
    ensures Flatten(batches) == dirs
    ensures forall i :: 0 <= i < |batches| ==> batches[i] != []
    ensures forall i :: 0 <= i < |batches| && |batches[i]| >= 2 ==> Cost(batches[i]) <= SafeChunkSize
  {
    batches := [];
    var current: seq<string> := [];
    var currentLen: nat := 0;
    var i := 0;
    while i < |dirs|
      invariant 0 <= i <= |dirs|
      invariant batches == BatchState(dirs[..i]).closed
      invariant current == BatchState(dirs[..i]).current
      invariant currentLen == BatchState(dirs[..i]).len
    {
      var dir := dirs[i];
      assert dirs[..i + 1][..i] == dirs[..i];
      if current != [] && currentLen + |dir| + 1 > SafeChunkSize {
        batches := batches + [current];
        current := [];
        currentLen := 0;
      }
      current := current + [dir];
      currentLen := currentLen + |dir| + 1;
      i := i + 1;
    }
    assert dirs[..i] == dirs;
    if current != [] {
      batches := batches + [current];
    }
    BatchesOfProperties(dirs);
  }

  /** One turn of the batching loop as written: the close test does not ask whether the batch is empty. */
  function AsWrittenStep(s: BatchLoop, dir: string): BatchLoop {
    if s.len + |dir| + 1 > SafeChunkSize then BatchLoop(s.closed + [s.current], [dir], |dir| + 1)
    else BatchLoop(s.closed, s.current + [dir], s.len + |dir| + 1)
  }

  function AsWrittenState(dirs: seq<string>): BatchLoop
    decreases |dirs|
  {
    if dirs == [] then EmptyLoop else AsWrittenStep(AsWrittenState(dirs[..|dirs| - 1]), dirs[|dirs| - 1])
  }

  /** The batches of `mount_overlayfs_staged` as written. */
  function BatchesAsWritten(dirs: seq<string>): seq<seq<string>> {
    var s := AsWrittenState(dirs);
    if s.current != [] then s.closed + [s.current] else s.closed
  }

  /**
   * As written, a first dir longer than the chunk budget closes the still
   * empty first batch, so an empty batch is pushed and later mounted as a
   * layer of its own; the corrected batching keeps the dir alone in one batch.
   */
  lemma AsWrittenPushesEmptyBatch(d: string)
    requires |d| + 1 > SafeChunkSize
    ensures BatchesAsWritten([d]) == [[], [d]]
    ensures BatchesOf([d]) == [[d]]
  {
    assert [d][..0] == [];
    assert AsWrittenState([d]).closed == [[]] && AsWrittenState([d]).current == [d];
    assert BatchState([d]).closed == [] && BatchState([d]).current == [] + [d] == [d];
  }

  /**
   * A single dir longer than the chunk budget takes the staged route only
   * when, with `lowest`, it also reaches the page limit: a dir just over the
   * budget under a short `lowest` is still mounted at once. Without an upper
   * or work dir the staged route is then taken.
   */
  lemma LongSingleDirRoute(d: string, lowest: string, upperdir: Option<Path>, workdir: Option<Path>)
    requires |d| + 1 > SafeChunkSize
    ensures RouteOf([d], lowest, upperdir, workdir) == Single <==> |d| + 1 + |lowest| < PageLimit
    ensures upperdir.None? && workdir.None? ==>
              (RouteOf([d], lowest, upperdir, workdir) == Staged <==> |d| + 1 + |lowest| >= PageLimit)
  {
    assert Cost([d]) == |d| + 1 by { assert [d][1..] == []; }
  }

  /**
   * Over the batches as written, a successful stack over a single long dir
   * has two layers: the dir over `lowest` onto the first stage, then the
   * empty batch, whose option string is only that stage, onto `dest`. Over
   * the corrected batches it is one layer: the dir over `lowest` onto `dest`.
   */
  lemma LongSingleDirLayers(d: string, lowest: string, dest: Path, disableUmount: bool, consts: Consts, host: Host)
    requires |d| + 1 > SafeChunkSize
    ensures var root := StagingRoot(consts);
      var run := StackFrom(BatchesAsWritten([d]), 0, lowest, dest, root, disableUmount, consts, host, []);
      run.result.Ok? ==>
        run.layers == [(LowerdirConfig([d], lowest), StageDir(root, host, 0)), (StageDir(root, host, 0), dest)]
    ensures var root := StagingRoot(consts);
      var run := StackFrom(BatchesOf([d]), 0, lowest, dest, root, disableUmount, consts, host, []);
      run.result.Ok? ==> run.layers == [(LowerdirConfig([d], lowest), dest)]
  {
    var root := StagingRoot(consts);
    AsWrittenPushesEmptyBatch(d);
    StackFromStart(BatchesAsWritten([d]), lowest, dest, root, disableUmount, consts, host);
    StackFromStart(BatchesOf([d]), lowest, dest, root, disableUmount, consts, host);
    assert LowerdirConfig([], StageDir(root, host, 0)) == StageDir(root, host, 0) by {
      assert [] + [StageDir(root, host, 0)] == [StageDir(root, host, 0)];
    }
  }

  // ---------------------------------------------------------------------
  // Staged layering

  /** The undo of the stage mounts: each is detached and then removed, the most recent first. */
  function UndoLog(mounts: seq<Path>): (r: seq<Effect>)
    ensures |r| == 2 * |mounts|
    decreases |mounts|
  {
    if mounts == [] then []
    else [UnmountDetach(mounts[|mounts| - 1]), RemoveDir(mounts[|mounts| - 1])] + UndoLog(mounts[..|mounts| - 1])
  }

  /** The k-th mount from the end is undone by the k-th pair of calls. */
  lemma {:induction false} UndoLogAt(mounts: seq<Path>, k: nat)
    requires k < |mounts|
    ensures UndoLog(mounts)[2 * k] == UnmountDetach(mounts[|mounts| - 1 - k])
    ensures UndoLog(mounts)[2 * k + 1] == RemoveDir(mounts[|mounts| - 1 - k])
    decreases |mounts|
  {
    if k > 0 {
      var init := mounts[..|mounts| - 1];
      var v := UndoLog(init);
      assert UndoLog(mounts) == [UnmountDetach(mounts[|mounts| - 1]), RemoveDir(mounts[|mounts| - 1])] + v;
      UndoLogAt(init, k - 1);
      assert init[|init| - 1 - (k - 1)] == mounts[|mounts| - 1 - k];
    }
  }

  /** The undo runs over the mounts in reverse, detaching each before removing its directory. */
  lemma UndoLogReverses(mounts: seq<Path>)
    ensures |UndoLog(mounts)| == 2 * |mounts|
    ensures forall k :: 0 <= k < |mounts| ==>
      UndoLog(mounts)[2 * k] == UnmountDetach(mounts[|mounts| - 1 - k]) &&
      UndoLog(mounts)[2 * k + 1] == RemoveDir(mounts[|mounts| - 1 - k])
  {
    forall k | 0 <= k < |mounts|
      ensures UndoLog(mounts)[2 * k] == UnmountDetach(mounts[|mounts| - 1 - k]) &&
        UndoLog(mounts)[2 * k + 1] == RemoveDir(mounts[|mounts| - 1 - k])
    {
      UndoLogAt(mounts, k);
    }
  }

  /** `StagedMountGuard`: the stage mounts made so far, undone on drop unless committed. */
  class StagedMountGuard {
    var mounts: seq<Path>
    var committed: bool

    constructor()
      ensures mounts == [] && !committed
    {
      mounts := [];
      committed := false;
    }

    method Push(p: Path)
      modifies this
      ensures mounts == old(mounts) + [p] && committed == old(committed)
    {
      mounts := mounts + [p];
    }

    method Commit()
      modifies this
      ensures committed && mounts == old(mounts)
    {
      committed := true;
    }

    /** `Drop::drop`: an uncommitted guard detaches and removes its mounts, last first. */
    method Drop() returns (log: seq<Effect>)
      ensures log == (if committed then [] else UndoLog(mounts))
    {
      log := [];
      if !committed {
        var i := |mounts|;
        assert mounts[..i] == mounts;
        while i > 0
          invariant 0 <= i <= |mounts|
          invariant log + UndoLog(mounts[..i]) == UndoLog(mounts)
          decreases i
        {
          assert mounts[..i][..i - 1] == mounts[..i - 1];
          log := log + [UnmountDetach(mounts[i - 1]), RemoveDir(mounts[i - 1])];
          i := i - 1;
        }
      }
    }
  }

  /** The staging root `RUN_DIR/staging`. */
  function StagingRoot(consts: Consts): Path {
    Join(consts.runDir, "staging")
  }

  /** The i-th stage directory below the staging root. */
  function StageDir(stagingRoot: Path, host: Host, i: nat): Path {
    Join(stagingRoot, host.stageName(i))
  }

  /** The first m stage directories. */
  function Stages(stagingRoot: Path, host: Host, m: nat): (r: seq<Path>)
    ensures |r| == m && forall k :: 0 <= k < m ==> r[k] == StageDir(stagingRoot, host, k)
  {
    if m == 0 then [] else Stages(stagingRoot, host, m - 1) + [StageDir(stagingRoot, host, m - 1)]
  }

  /** The mount target of layer i of n: the destination for the final layer, a stage dir below it. */
  function LayerTarget(i: nat, n: nat, dest: Path, stagingRoot: Path, host: Host): Path {
    if i == n - 1 then dest else StageDir(stagingRoot, host, i)
  }

  /** The base of layer i: `lowest` for the first, the previous stage dir after that. */
  function LayerBase(i: nat, lowest: string, stagingRoot: Path, host: Host): Path {
    if i == 0 then lowest else StageDir(stagingRoot, host, i - 1)
  }

  /** Layer i mounts the i-th batch from the end over its base. */
  function LayerLowerdir(batches: seq<seq<string>>, i: nat, lowest: string, stagingRoot: Path, host: Host): string
    requires i < |batches|
  {
    LowerdirConfig(batches[|batches| - 1 - i], LayerBase(i, lowest, stagingRoot, host))
  }

  /**
   * Each layer after the first sits on the target of the one before, and
   * its option string is its batch's cost plus its base, so at most the
   * chunk budget plus the base when the batch has two or more dirs.
   */
  lemma LayerChain(batches: seq<seq<string>>, i: nat, lowest: string, dest: Path, stagingRoot: Path, host: Host)
    requires 0 < i < |batches|
    ensures LayerBase(i, lowest, stagingRoot, host) == LayerTarget(i - 1, |batches|, dest, stagingRoot, host)
    ensures |LayerLowerdir(batches, i, lowest, stagingRoot, host)| ==
              Cost(batches[|batches| - 1 - i]) + |StageDir(stagingRoot, host, i - 1)|
  {
    LowerdirConfigLength(batches[|batches| - 1 - i], LayerBase(i, lowest, stagingRoot, host));
  }

  predicate NoUndo(log: seq<Effect>) {
    forall e :: e in log ==> !e.UnmountDetach? && !e.RemoveDir?
  }

  lemma NoUndoAppend(a: seq<Effect>, b: seq<Effect>)
    requires NoUndo(a) && NoUndo(b)
    ensures NoUndo(a + b)
  {
  }

  /** What the staged mount promises about the layers it mounted and the log it leaves. */
  predicate StagedOutcome(batches: seq<seq<string>>, lowest: string, dest: Path, root: Path, host: Host,
                          r: Result<()>, log: seq<Effect>, layers: seq<(string, Path)>) {
    && |layers| <= |batches|
    && (forall i :: 0 <= i < |layers| ==>
          layers[i] == (LayerLowerdir(batches, i, lowest, root, host), LayerTarget(i, |batches|, dest, root, host)))
    && (r.Ok? ==> |layers| == |batches| && NoUndo(log))
    && (r.Err? ==> |log| >= 2 * |layers| && log[|log| - 2 * |layers|..] == UndoLog(Stages(root, host, |layers|)))
  }

  lemma StagedOutcomePrefix(batches: seq<seq<string>>, lowest: string, dest: Path, root: Path, host: Host,
                            r: Result<()>, pre: seq<Effect>, log: seq<Effect>, layers: seq<(string, Path)>)
    requires StagedOutcome(batches, lowest, dest, root, host, r, log, layers)
    requires NoUndo(pre)
    ensures StagedOutcome(batches, lowest, dest, root, host, r, pre + log, layers)
  {
    if r.Err? {
      assert (pre + log)[|pre + log| - 2 * |layers|..] == log[|log| - 2 * |layers|..];
    }
  }

  /** What one layer, or the whole stacking loop, did: the result, the calls, the layers mounted. */
  datatype StackRun = StackRun(result: Result<()>, log: seq<Effect>, layers: seq<(string, Path)>)

  /** One turn of the layering loop: the target it mounted onto, or the error, and its calls. */
  datatype LayerRun = LayerRun(result: Result<Path>, log: seq<Effect>)

  /**
   * One turn of the layering loop: a stage dir (clock and create_dir_all
   * permitting) or `dest` for the final layer, then the mount of the batch
   * over `base`.
   */
  function MountLayer(batches: seq<seq<string>>, i: nat, base: Path, dest: Path, root: Path,
                      disableUmount: bool, consts: Consts, host: Host): LayerRun
    requires i < |batches|
  {
    var last := i == |batches| - 1;
    var target := if last then dest else StageDir(root, host, i);
    var pre := if last then [] else [CreateDirAll(target)];
    if !last && !host.clockOk then LayerRun(Err(ClockBeforeEpoch), [])
    else if !last && !host.createDirOk(target) then LayerRun(Err(CreateDirFailed(target)), pre)
    else
      var o := DoMountOverlay(LowerdirConfig(batches[|batches| - 1 - i], base), None, None, target,
                              disableUmount, consts, host);
      LayerRun(if o.result.Ok? then Ok(target) else Err(o.result.error), pre + o.log)
  }

  /**
   * A layer gives its target on success, and it issued its batch's option
   * string over its base for that target; a clock before the epoch fails a
   * stage layer before any call; one layer never undoes anything.
   */
  lemma MountLayerProperties(batches: seq<seq<string>>, i: nat, base: Path, dest: Path, root: Path,
                             disableUmount: bool, consts: Consts, host: Host)
    requires i < |batches|
    ensures var s := MountLayer(batches, i, base, dest, root, disableUmount, consts, host);
      && (s.result.Ok? ==> s.result.value == LayerTarget(i, |batches|, dest, root, host))
      && (s.result.Ok? ==>
            OverlayFsConfig(MountParams(LowerdirConfig(batches[|batches| - 1 - i], base), None, None, consts),
                            s.result.value) in s.log)
      && (i < |batches| - 1 && !host.clockOk ==> s == LayerRun(Err(ClockBeforeEpoch), []))
      && NoUndo(s.log)
  {
    var last := i == |batches| - 1;
    var target := if last then dest else StageDir(root, host, i);
    var pre := if last then [] else [CreateDirAll(target)];
    if last || (host.clockOk && host.createDirOk(target)) {
      var o := DoMountOverlay(LowerdirConfig(batches[|batches| - 1 - i], base), None, None, target,
                              disableUmount, consts, host);
      DoMountOverlayProperties(LowerdirConfig(batches[|batches| - 1 - i], base), None, None, target,
                               disableUmount, consts, host);
      assert o.log[0] in pre + o.log;
    }
  }

  /**
   * The layering loop from layer i on, with `base` the current base and
   * `mounted` the stages the guard holds: a failing layer ends the run with
   * the guard's undo, the final layer commits it.
   */
  function StackFrom(batches: seq<seq<string>>, i: nat, base: Path, dest: Path, root: Path, disableUmount: bool,
                     consts: Consts, host: Host, mounted: seq<Path>): StackRun
    decreases |batches| - i
  {
    if i >= |batches| then StackRun(Ok(()), [], [])
    else
      var step := MountLayer(batches, i, base, dest, root, disableUmount, consts, host);
      if step.result.Err? then StackRun(Err(step.result.error), step.log + UndoLog(mounted), [])
      else
      var layer := (LowerdirConfig(batches[|batches| - 1 - i], base), step.result.value);
      if i == |batches| - 1 then StackRun(Ok(()), step.log, [layer])
      else
        var rest := StackFrom(batches, i + 1, step.result.value, dest, root, disableUmount, consts, host,
                              mounted + [step.result.value]);
        StackRun(rest.result, step.log + rest.log, [layer] + rest.layers)
  }

  /** `mount_overlayfs_staged` as a whole: the staging root, then the layers over the corrected batches. */
  function StagedRun(lowerDirs: seq<string>, lowest: string, dest: Path, disableUmount: bool,
                     consts: Consts, host: Host): StackRun
  {
    var root := StagingRoot(consts);
    var stack := StackFrom(BatchesOf(lowerDirs), 0, lowest, dest, root, disableUmount, consts, host, []);
    if host.pathExists(root) then stack
    else if !host.createDirOk(root) then StackRun(Err(CreateDirFailed(root)), [CreateDirAll(root)], [])
    else StackRun(stack.result, [CreateDirAll(root)] + stack.log, stack.layers)
  }

  /**
   * `mount_overlayfs_staged`. The batches are mounted last to first: layer i
   * gets `LayerLowerdir(i)` onto `LayerTarget(i)`. `layers` lists the
   * (lowerdir, target) pairs mounted. On success every layer was mounted and
   * nothing is undone; on a failure the log ends with the guard's undo of the
   * stages mounted so far, most recent first.
   */
  method MountOverlayfsStaged(lowerDirs: seq<string>, lowest: string, dest: Path, disableUmount: bool,
                              consts: Consts, host: Host)
    returns (r: Result<()>, log: seq<Effect>, layers: seq<(string, Path)>)
    ensures StagedOutcome(BatchesOf(lowerDirs), lowest, dest, StagingRoot(consts), host, r, log, layers)
    ensures StackRun(r, log, layers) == StagedRun(lowerDirs, lowest, dest, disableUmount, consts, host)
  {
    var batches := Batch(lowerDirs);
    var root := StagingRoot(consts);
    var pre: seq<Effect> := [];
    if !host.pathExists(root) {
      pre := [CreateDirAll(root)];
      if !host.createDirOk(root) {
        r, log, layers := Err(CreateDirFailed(root)), pre, [];
        return;
      }
    }
    var stackLog;
    r, stackLog, layers := StackLayers(batches, lowest, dest, root, disableUmount, consts, host);
    log := pre + stackLog;
    StagedRunOutcome(lowerDirs, lowest, dest, disableUmount, consts, host);
  }

  /** The staged run keeps the promise of `mount_overlayfs_staged`. */
  lemma StagedRunOutcome(lowerDirs: seq<string>, lowest: string, dest: Path, disableUmount: bool,
                         consts: Consts, host: Host)
    ensures var run := StagedRun(lowerDirs, lowest, dest, disableUmount, consts, host);
      StagedOutcome(BatchesOf(lowerDirs), lowest, dest, StagingRoot(consts), host, run.result, run.log, run.layers)
  {
    var batches := BatchesOf(lowerDirs);
    var root := StagingRoot(consts);
    var stack := StackFrom(batches, 0, lowest, dest, root, disableUmount, consts, host, []);
    StackFromStart(batches, lowest, dest, root, disableUmount, consts, host);
    if !host.pathExists(root) {
      if host.createDirOk(root) {
        StagedOutcomePrefix(batches, lowest, dest, root, host, stack.result, [CreateDirAll(root)], stack.log, stack.layers);
      } else {
        assert Stages(root, host, 0) == [];
      }
    }
  }

  /** From layer 0, over `lowest` and with nothing staged yet, the layering loop keeps its promise. */
  lemma StackFromStart(batches: seq<seq<string>>, lowest: string, dest: Path, root: Path, disableUmount: bool,
                       consts: Consts, host: Host)
    ensures var run := StackFrom(batches, 0, lowest, dest, root, disableUmount, consts, host, []);
      StagedOutcome(batches, lowest, dest, root, host, run.result, run.log, run.layers)
  {
    StackFromLayered(batches, 0, lowest, dest, root, disableUmount, consts, host);
    assert LayerBase(0, lowest, root, host) == lowest && Stages(root, host, 0) == [];
    LayeredStart(batches, lowest, dest, root, host, StackFrom(batches, 0, lowest, dest, root, disableUmount, consts, host, []));
  }

  /** How far the layering loop has got: what is done plus what remains is the whole run. */
  predicate Remaining(full: StackRun, log: seq<Effect>, layers: seq<(string, Path)>, rest: StackRun) {
    full.result == rest.result && full.log == log + rest.log && full.layers == layers + rest.layers
  }

  /** Before the first layer the whole run remains. */
  lemma RemainingStart(full: StackRun)
    ensures Remaining(full, [], [], full)
  {
    assert [] + full.log == full.log && [] + full.layers == full.layers;
  }

  /** Once nothing remains, what was done is the whole run. */
  lemma RemainingDone(full: StackRun, log: seq<Effect>, layers: seq<(string, Path)>, rest: StackRun)
    requires Remaining(full, log, layers, rest) && rest == StackRun(Ok(()), [], [])
    ensures full == StackRun(Ok(()), log, layers)
  {
    assert log + [] == log && layers + [] == layers;
  }

  /** A failing layer ends the whole run with the guard's undo. */
  lemma StackProgressErr(batches: seq<seq<string>>, i: nat, base: Path, dest: Path, root: Path, disableUmount: bool,
                         consts: Consts, host: Host, mounted: seq<Path>,
                         full: StackRun, log: seq<Effect>, layers: seq<(string, Path)>)
    requires i < |batches|
    requires Remaining(full, log, layers, StackFrom(batches, i, base, dest, root, disableUmount, consts, host, mounted))
    requires MountLayer(batches, i, base, dest, root, disableUmount, consts, host).result.Err?
    ensures var step := MountLayer(batches, i, base, dest, root, disableUmount, consts, host);
      full == StackRun(Err(step.result.error), log + step.log + UndoLog(mounted), layers)
  {
    var step := MountLayer(batches, i, base, dest, root, disableUmount, consts, host);
    assert StackFrom(batches, i, base, dest, root, disableUmount, consts, host, mounted) ==
      StackRun(Err(step.result.error), step.log + UndoLog(mounted), []);
    assert log + (step.log + UndoLog(mounted)) == log + step.log + UndoLog(mounted);
    assert layers + [] == layers;
  }

  /** The final layer, once mounted, ends the whole run successfully. */
  lemma StackProgressLast(batches: seq<seq<string>>, base: Path, dest: Path, root: Path, disableUmount: bool,
                          consts: Consts, host: Host, mounted: seq<Path>,
                          full: StackRun, log: seq<Effect>, layers: seq<(string, Path)>)
    requires |batches| > 0
    requires Remaining(full, log, layers,
                       StackFrom(batches, |batches| - 1, base, dest, root, disableUmount, consts, host, mounted))
    requires MountLayer(batches, |batches| - 1, base, dest, root, disableUmount, consts, host).result.Ok?
    ensures var step := MountLayer(batches, |batches| - 1, base, dest, root, disableUmount, consts, host);
      full == StackRun(Ok(()), log + step.log, layers + [(LowerdirConfig(batches[0], base), step.result.value)])
  {
    var step := MountLayer(batches, |batches| - 1, base, dest, root, disableUmount, consts, host);
    var layer := (LowerdirConfig(batches[0], base), step.result.value);
    assert StackFrom(batches, |batches| - 1, base, dest, root, disableUmount, consts, host, mounted) ==
      StackRun(Ok(()), step.log, [layer]);
  }

  /** A mounted stage layer moves the loop on by one. */
  lemma StackProgressNext(batches: seq<seq<string>>, i: nat, base: Path, dest: Path, root: Path, disableUmount: bool,
                          consts: Consts, host: Host, mounted: seq<Path>,
                          full: StackRun, log: seq<Effect>, layers: seq<(string, Path)>)
    requires i < |batches| - 1
    requires Remaining(full, log, layers, StackFrom(batches, i, base, dest, root, disableUmount, consts, host, mounted))
    requires MountLayer(batches, i, base, dest, root, disableUmount, consts, host).result.Ok?
    ensures var step := MountLayer(batches, i, base, dest, root, disableUmount, consts, host);
      Remaining(full, log + step.log, layers + [(LowerdirConfig(batches[|batches| - 1 - i], base), step.result.value)],
                StackFrom(batches, i + 1, step.result.value, dest, root, disableUmount, consts, host,
                          mounted + [step.result.value]))
  {
    var step := MountLayer(batches, i, base, dest, root, disableUmount, consts, host);
    var rest := StackFrom(batches, i + 1, step.result.value, dest, root, disableUmount, consts, host,
                          mounted + [step.result.value]);
    var layer := (LowerdirConfig(batches[|batches| - 1 - i], base), step.result.value);
    assert StackFrom(batches, i, base, dest, root, disableUmount, consts, host, mounted) ==
      StackRun(rest.result, step.log + rest.log, [layer] + rest.layers);
    assert log + (step.log + rest.log) == log + step.log + rest.log;
    assert layers + ([layer] + rest.layers) == layers + [layer] + rest.layers;
  }

  /** What `StagedOutcome` says, for the layering loop from layer i on. */
  predicate LayeredFrom(batches: seq<seq<string>>, i: nat, lowest: string, dest: Path, root: Path, host: Host,
                        run: StackRun) {
    && LayersFrom(batches, i, lowest, dest, root, host, run.layers)
    && DoneFrom(|batches|, i, run)
    && UndoneFrom(root, host, i, run)
  }

  /** A successful run from layer i of n mounted all the remaining layers and undid nothing. */
  predicate DoneFrom(n: nat, i: nat, run: StackRun) {
    run.result.Ok? ==> |run.layers| == n - i && NoUndo(run.log)
  }

  /** A failed run from layer i ends with the undo of the stages below the layer that failed. */
  predicate UndoneFrom(root: Path, host: Host, i: nat, run: StackRun) {
    run.result.Err? ==> UndoSuffix(run.log, Stages(root, host, i + |run.layers|))
  }

  /** These are the (lowerdir, target) pairs of layers i, i + 1, ... */
  predicate LayersFrom(batches: seq<seq<string>>, i: nat, lowest: string, dest: Path, root: Path, host: Host,
                       layers: seq<(string, Path)>) {
    && |layers| <= |batches| - i
    && forall k :: 0 <= k < |layers| ==>
         layers[k] == (LayerLowerdir(batches, i + k, lowest, root, host), LayerTarget(i + k, |batches|, dest, root, host))
  }

  /** The log ends with the undo of these stage mounts. */
  predicate UndoSuffix(log: seq<Effect>, stages: seq<Path>) {
    |log| >= 2 * |stages| && log[|log| - 2 * |stages|..] == UndoLog(stages)
  }

  /** Calls in front of a log keep the undo it ends with. */
  lemma UndoSuffixAppend(pre: seq<Effect>, log: seq<Effect>, root: Path, host: Host, m: nat, n: nat)
    requires UndoSuffix(log, Stages(root, host, m)) && m == n
    ensures UndoSuffix(pre + log, Stages(root, host, n))
  {
    var stages := Stages(root, host, m);
    assert (pre + log)[|pre + log| - 2 * |stages|..] == log[|log| - 2 * |stages|..];
  }

  /** From layer 0 this is exactly `StagedOutcome`. */
  lemma LayeredStart(batches: seq<seq<string>>, lowest: string, dest: Path, root: Path, host: Host, run: StackRun)
    requires LayeredFrom(batches, 0, lowest, dest, root, host, run)
    ensures StagedOutcome(batches, lowest, dest, root, host, run.result, run.log, run.layers)
  {
    forall k | 0 <= k < |run.layers|
      ensures run.layers[k] == (LayerLowerdir(batches, k, lowest, root, host), LayerTarget(k, |batches|, dest, root, host))
    {
      assert 0 + k == k;
    }
  }

  /** Run from layer i with the base and guard the loop has there, the layering loop mounts as promised. */
  lemma {:induction false} StackFromLayered(batches: seq<seq<string>>, i: nat, lowest: string, dest: Path, root: Path,
                                            disableUmount: bool, consts: Consts, host: Host)
    requires i <= |batches|
    ensures LayeredFrom(batches, i, lowest, dest, root, host,
                        StackFrom(batches, i, LayerBase(i, lowest, root, host), dest, root, disableUmount, consts, host,
                                  Stages(root, host, i)))
    decreases |batches| - i
  {
    if i < |batches| - 1 {
      StackFromLayered(batches, i + 1, lowest, dest, root, disableUmount, consts, host);
    }
    LayeredStep(batches, i, lowest, dest, root, disableUmount, consts, host);
  }

  /** Layer i keeps the promise given that the run from the next layer does. */
  lemma LayeredStep(batches: seq<seq<string>>, i: nat, lowest: string, dest: Path, root: Path,
                    disableUmount: bool, consts: Consts, host: Host)
    requires i <= |batches|
    requires i < |batches| - 1 ==>
      LayeredFrom(batches, i + 1, lowest, dest, root, host,
                  StackFrom(batches, i + 1, LayerBase(i + 1, lowest, root, host), dest, root, disableUmount,
                                  consts, host, Stages(root, host, i + 1)))
    ensures LayeredFrom(batches, i, lowest, dest, root, host,
                        StackFrom(batches, i, LayerBase(i, lowest, root, host), dest, root, disableUmount, consts, host,
                                  Stages(root, host, i)))
  {
    if i < |batches| {
      var ok := MountLayer(batches, i, LayerBase(i, lowest, root, host), dest, root, disableUmount, consts, host).result.Ok?;
      if !ok {
        LayeredStepErr(batches, i, lowest, dest, root, disableUmount, consts, host);
      } else if i == |batches| - 1 {
        LayeredStepLast(batches, i, lowest, dest, root, disableUmount, consts, host);
      } else {
        LayeredStepNext(batches, i, lowest, dest, root, disableUmount, consts, host);
      }
    }
  }

  /** A failing layer i: the run ends with the undo of the stages below it. */
  lemma LayeredStepErr(batches: seq<seq<string>>, i: nat, lowest: string, dest: Path, root: Path,
                       disableUmount: bool, consts: Consts, host: Host)
    requires i < |batches|
    requires MountLayer(batches, i, LayerBase(i, lowest, root, host), dest, root, disableUmount, consts, host).result.Err?
    ensures LayeredFrom(batches, i, lowest, dest, root, host,
                        StackFrom(batches, i, LayerBase(i, lowest, root, host), dest, root, disableUmount, consts, host,
                                  Stages(root, host, i)))
  {
    var step := MountLayer(batches, i, LayerBase(i, lowest, root, host), dest, root, disableUmount, consts, host);
    assert StackFrom(batches, i, LayerBase(i, lowest, root, host), dest, root, disableUmount, consts, host,
                                  Stages(root, host, i)) ==
      StackRun(Err(step.result.error), step.log + UndoLog(Stages(root, host, i)), []);
    LayeredErr(batches, i, lowest, dest, root, host, step.log, step.result.error);
  }

  /** The final layer mounted: the run succeeds with that layer and nothing undone. */
  lemma LayeredStepLast(batches: seq<seq<string>>, i: nat, lowest: string, dest: Path, root: Path,
                        disableUmount: bool, consts: Consts, host: Host)
    requires i == |batches| - 1
    requires MountLayer(batches, i, LayerBase(i, lowest, root, host), dest, root, disableUmount, consts, host).result.Ok?
    ensures LayeredFrom(batches, i, lowest, dest, root, host,
                        StackFrom(batches, i, LayerBase(i, lowest, root, host), dest, root, disableUmount, consts, host,
                                  Stages(root, host, i)))
  {
    var step := MountLayer(batches, i, LayerBase(i, lowest, root, host), dest, root, disableUmount, consts, host);
    MountLayerProperties(batches, i, LayerBase(i, lowest, root, host), dest, root, disableUmount, consts, host);
    var layer := (LayerLowerdir(batches, i, lowest, root, host), step.result.value);
    assert StackFrom(batches, i, LayerBase(i, lowest, root, host), dest, root, disableUmount, consts, host,
                                  Stages(root, host, i)) == StackRun(Ok(()), step.log, [layer]);
  }

  /** A stage layer mounted: the run from the next layer, with this stage pushed, follows. */
  lemma LayeredStepNext(batches: seq<seq<string>>, i: nat, lowest: string, dest: Path, root: Path,
                        disableUmount: bool, consts: Consts, host: Host)
    requires i < |batches| - 1
    requires MountLayer(batches, i, LayerBase(i, lowest, root, host), dest, root, disableUmount, consts, host).result.Ok?
    requires LayeredFrom(batches, i + 1, lowest, dest, root, host,
                         StackFrom(batches, i + 1, LayerBase(i + 1, lowest, root, host), dest, root, disableUmount,
                                  consts, host, Stages(root, host, i + 1)))
    ensures LayeredFrom(batches, i, lowest, dest, root, host,
                        StackFrom(batches, i, LayerBase(i, lowest, root, host), dest, root, disableUmount, consts, host,
                                  Stages(root, host, i)))
  {
    var step := MountLayer(batches, i, LayerBase(i, lowest, root, host), dest, root, disableUmount, consts, host);
    MountLayerProperties(batches, i, LayerBase(i, lowest, root, host), dest, root, disableUmount, consts, host);
    assert Stages(root, host, i) + [step.result.value] == Stages(root, host, i + 1);
    assert step.result.value == LayerBase(i + 1, lowest, root, host);
    var layer := (LayerLowerdir(batches, i, lowest, root, host), step.result.value);
    var rest := StackFrom(batches, i + 1, LayerBase(i + 1, lowest, root, host), dest, root, disableUmount,
                                  consts, host, Stages(root, host, i + 1));
    assert StackFrom(batches, i, LayerBase(i, lowest, root, host), dest, root, disableUmount, consts, host,
                                  Stages(root, host, i)) ==
      StackRun(rest.result, step.log + rest.log, [layer] + rest.layers);
    LayeredCons(batches, i, lowest, dest, root, host, step.log, rest);
  }

  /** A layer that fails leaves only the undo of the stages before it. */
  lemma LayeredErr(batches: seq<seq<string>>, i: nat, lowest: string, dest: Path, root: Path, host: Host,
                   stepLog: seq<Effect>, error: Error)
    requires i < |batches|
    ensures LayeredFrom(batches, i, lowest, dest, root, host,
                        StackRun(Err(error), stepLog + UndoLog(Stages(root, host, i)), []))
  {
    var log := stepLog + UndoLog(Stages(root, host, i));
    assert log[|log| - 2 * i..] == UndoLog(Stages(root, host, i));
  }

  /** A mounted stage layer in front of a run from the next layer that keeps its promise keeps it too. */
  lemma LayeredCons(batches: seq<seq<string>>, i: nat, lowest: string, dest: Path, root: Path, host: Host,
                    stepLog: seq<Effect>, rest: StackRun)
    requires i < |batches| - 1
    requires NoUndo(stepLog)
    requires LayeredFrom(batches, i + 1, lowest, dest, root, host, rest)
    ensures LayeredFrom(batches, i, lowest, dest, root, host,
                        StackRun(rest.result, stepLog + rest.log,
                                 [(LayerLowerdir(batches, i, lowest, root, host),
                                   LayerTarget(i, |batches|, dest, root, host))] + rest.layers))
  {
    var layer := (LayerLowerdir(batches, i, lowest, root, host), LayerTarget(i, |batches|, dest, root, host));
    ConsLayers(batches, i, lowest, dest, root, host, rest.layers);
    ConsDone(|batches|, i, stepLog, layer, rest);
    ConsUndone(root, host, i, stepLog, layer, rest);
  }

  /** A stage layer that undid nothing in front of a successful run from the next layer: a successful run. */
  lemma ConsDone(n: nat, i: nat, stepLog: seq<Effect>, layer: (string, Path), rest: StackRun)
    requires i < n && NoUndo(stepLog) && DoneFrom(n, i + 1, rest)
    ensures DoneFrom(n, i, StackRun(rest.result, stepLog + rest.log, [layer] + rest.layers))
  {
    if rest.result.Ok? {
      NoUndoAppend(stepLog, rest.log);
    }
  }

  /** A stage layer in front of a failed run from the next layer: the same undo still ends the log. */
  lemma ConsUndone(root: Path, host: Host, i: nat, stepLog: seq<Effect>, layer: (string, Path), rest: StackRun)
    requires UndoneFrom(root, host, i + 1, rest)
    ensures UndoneFrom(root, host, i, StackRun(rest.result, stepLog + rest.log, [layer] + rest.layers))
  {
    if rest.result.Err? {
      UndoSuffixAppend(stepLog, rest.log, root, host, i + 1 + |rest.layers|, i + |[layer] + rest.layers|);
    }
  }

  /** Layer i's pair in front of the pairs of layers i + 1 on gives the pairs of layers i on. */
  lemma ConsLayers(batches: seq<seq<string>>, i: nat, lowest: string, dest: Path, root: Path, host: Host,
                   rest: seq<(string, Path)>)
    requires i < |batches| - 1
    requires LayersFrom(batches, i + 1, lowest, dest, root, host, rest)
    ensures LayersFrom(batches, i, lowest, dest, root, host,
                       [(LayerLowerdir(batches, i, lowest, root, host), LayerTarget(i, |batches|, dest, root, host))] + rest)
  {
    var layers := [(LayerLowerdir(batches, i, lowest, root, host), LayerTarget(i, |batches|, dest, root, host))] + rest;
    forall k | 0 <= k < |layers|
      ensures layers[k] == (LayerLowerdir(batches, i + k, lowest, root, host), LayerTarget(i + k, |batches|, dest, root, host))
    {
      if k > 0 {
        assert layers[k] == rest[k - 1];
        assert i + 1 + (k - 1) == i + k;
      }
    }
  }

  /**
   * One turn of the layering loop: layer i is mounted; a failure drops the
   * guard, the final layer commits it, a stage layer is pushed onto it and
   * becomes the next base.
   */
  method StackTurn(batches: seq<seq<string>>, i: nat, base: Path, dest: Path, root: Path, disableUmount: bool,
                   consts: Consts, host: Host, guard: StagedMountGuard,
                   ghost full: StackRun, log: seq<Effect>, layers: seq<(string, Path)>)
    returns (done: bool, r: Result<()>, log': seq<Effect>, layers': seq<(string, Path)>, base': Path)
    requires i < |batches| && !guard.committed
    requires Remaining(full, log, layers, StackFrom(batches, i, base, dest, root, disableUmount, consts, host, guard.mounts))
    modifies guard
    ensures done ==> StackRun(r, log', layers') == full
    ensures !done ==> (i + 1 < |batches| && !guard.committed &&
      Remaining(full, log', layers', StackFrom(batches, i + 1, base', dest, root, disableUmount, consts, host, guard.mounts)))
  {
    var n := |batches|;
    var step := MountLayer(batches, i, base, dest, root, disableUmount, consts, host);
    base' := base;
    if step.result.Err? {
      StackProgressErr(batches, i, base, dest, root, disableUmount, consts, host, guard.mounts, full, log, layers);
      var undo := guard.Drop();
      done, r, log', layers' := true, Err(step.result.error), log + step.log + undo, layers;
      return;
    }
    var layer := (LowerdirConfig(batches[n - 1 - i], base), step.result.value);
    if i == n - 1 {
      StackProgressLast(batches, base, dest, root, disableUmount, consts, host, guard.mounts, full, log, layers);
      guard.Commit();
      done, r, log', layers' := true, Ok(()), log + step.log, layers + [layer];
      return;
    }
    StackProgressNext(batches, i, base, dest, root, disableUmount, consts, host, guard.mounts, full, log, layers);
    guard.Push(step.result.value);
    done, r, log', layers', base' := false, Ok(()), log + step.log, layers + [layer], step.result.value;
  }

  /** The layering loop of `mount_overlayfs_staged`, with its guard. */
  method StackLayers(batches: seq<seq<string>>, lowest: string, dest: Path, root: Path, disableUmount: bool,
                     consts: Consts, host: Host)
    returns (r: Result<()>, log: seq<Effect>, layers: seq<(string, Path)>)
    ensures StackRun(r, log, layers) == StackFrom(batches, 0, lowest, dest, root, disableUmount, consts, host, [])
  {
    ghost var full := StackFrom(batches, 0, lowest, dest, root, disableUmount, consts, host, []);
    log := [];
    layers := [];
    var guard := new StagedMountGuard();
    var base := lowest;
    var n := |batches|;
    var i := 0;
    RemainingStart(full);
    while i < n
      invariant 0 <= i <= n && !guard.committed
      invariant Remaining(full, log, layers, StackFrom(batches, i, base, dest, root, disableUmount, consts, host, guard.mounts))
    {
      var done;
      done, r, log, layers, base := StackTurn(batches, i, base, dest, root, disableUmount, consts, host, guard,
                                              full, log, layers);
      if done {
        return;
      }
      i := i + 1;
    }
    RemainingDone(full, log, layers, StackFrom(batches, i, base, dest, root, disableUmount, consts, host, guard.mounts));
    guard.Commit();
    r := Ok(());
  }

  // ---------------------------------------------------------------------
  // mount_overlayfs and mount_overlay

  datatype Route = Single | RwTooLong | Staged

  /** Which way `mount_overlayfs` goes for these arguments. */
  function RouteOf(lowerDirs: seq<string>, lowest: string, upperdir: Option<Path>, workdir: Option<Path>): (r: Route)
    ensures r == Single <==> Cost(lowerDirs) + |lowest| < PageLimit
    ensures r == RwTooLong <==> Cost(lowerDirs) + |lowest| >= PageLimit && (upperdir.Some? || workdir.Some?)
  {
    LowerdirConfigLength(lowerDirs, lowest);
    if |LowerdirConfig(lowerDirs, lowest)| < PageLimit then Single
    else if upperdir.Some? || workdir.Some? then RwTooLong
    else Staged
  }

  /** What `mount_overlayfs` does along each route. */
  function OverlayfsRun(lowerDirs: seq<string>, lowest: string, upperdir: Option<Path>, workdir: Option<Path>,
                        dest: Path, disableUmount: bool, consts: Consts, host: Host): Outcome {
    match RouteOf(lowerDirs, lowest, upperdir, workdir)
    case Single => DoMountOverlay(LowerdirConfig(lowerDirs, lowest), upperdir, workdir, dest, disableUmount, consts, host)
    case RwTooLong => Outcome(Err(StagedRwUnsupported), [])
    case Staged =>
      var run := StagedRun(lowerDirs, lowest, dest, disableUmount, consts, host);
      Outcome(run.result, run.log)
  }

  /** `mount_overlayfs`: one mount for a short option string, else the staged mount (read-only only). */
  method MountOverlayfs(lowerDirs: seq<string>, lowest: string, upperdir: Option<Path>, workdir: Option<Path>,
                        dest: Path, disableUmount: bool, consts: Consts, host: Host)
    returns (r: Result<()>, log: seq<Effect>)
    ensures RouteOf(lowerDirs, lowest, upperdir, workdir) == Single ==>
      Outcome(r, log) == DoMountOverlay(LowerdirConfig(lowerDirs, lowest), upperdir, workdir, dest, disableUmount, consts, host)
    ensures RouteOf(lowerDirs, lowest, upperdir, workdir) == RwTooLong ==> r == Err(StagedRwUnsupported) && log == []
    ensures Outcome(r, log) == OverlayfsRun(lowerDirs, lowest, upperdir, workdir, dest, disableUmount, consts, host)
  {
    var config := LowerdirConfig(lowerDirs, lowest);
    if |config| < PageLimit {
      var o := DoMountOverlay(config, upperdir, workdir, dest, disableUmount, consts, host);
      r, log := o.result, o.log;
    } else if upperdir.Some? || workdir.Some? {
      r, log := Err(StagedRwUnsupported), [];
    } else {
      var layers;
      r, log, layers := MountOverlayfsStaged(lowerDirs, lowest, dest, disableUmount, consts, host);
    }
  }

  /** The decimal digits of a descriptor number. */
  function NatToString(n: nat): (s: string)
    ensures |s| >= 1 && forall k :: 0 <= k < |s| ==> '0' <= s[k] <= '9'
  {
    var digit := ['0' + (n % 10) as char];
    if n < 10 then digit else NatToString(n / 10) + digit
  }

  /** The lowest layer `mount_overlay` stacks the modules on: the open descriptor of the stock tree. */
  function FdPath(fd: nat): Path {
    "/proc/self/fd/" + NatToString(fd)
  }

  /** What `mount_overlay` does: nothing if the target root cannot be opened, else `mount_overlayfs` over it. */
  function MountOverlayRun(targetRoot: Path, moduleRoots: seq<string>, workdir: Option<Path>, upperdir: Option<Path>,
                           disableUmount: bool, consts: Consts, host: Host): Outcome {
    match host.rootFd(targetRoot)
    case None => Outcome(Err(OpenFailed(targetRoot)), [])
    case Some(fd) => OverlayfsRun(moduleRoots, FdPath(fd), upperdir, workdir, targetRoot, disableUmount, consts, host)
  }

  /** `mount_overlay`: the target root's open descriptor stands for the stock tree as the lowest layer. */
  method MountOverlay(targetRoot: Path, moduleRoots: seq<string>, workdir: Option<Path>, upperdir: Option<Path>,
                      disableUmount: bool, consts: Consts, host: Host)
    returns (r: Result<()>, log: seq<Effect>)
    ensures host.rootFd(targetRoot).None? ==> r == Err(OpenFailed(targetRoot)) && log == []
    ensures Outcome(r, log) == MountOverlayRun(targetRoot, moduleRoots, workdir, upperdir, disableUmount, consts, host)
    ensures host.rootFd(targetRoot).Some? ==>
      var lowest := FdPath(host.rootFd(targetRoot).value);
      RouteOf(moduleRoots, lowest, upperdir, workdir) == Single ==>
        Outcome(r, log) == DoMountOverlay(LowerdirConfig(moduleRoots, lowest), upperdir, workdir, targetRoot,
                                          disableUmount, consts, host)
  {
    match host.rootFd(targetRoot)
    case None =>
      r, log := Err(OpenFailed(targetRoot)), [];
    case Some(fd) =>
      var lowest := FdPath(fd);
      r, log := MountOverlayfs(moduleRoots, lowest, upperdir, workdir, targetRoot, disableUmount, consts, host);
  }
}
