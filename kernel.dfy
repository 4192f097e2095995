/**
 * The kernel and filesystem as seen by the daemon. Every call the model
 * tracks is appended to a log of `Effect`s in the order the code issues it;
 * whether a call succeeds is read from a `Host`, an oracle of total
 * functions standing for the real system at the time of the call.
 */
module Kernel {
  import opened Wrappers
  import opened Paths

  datatype Effect =
    | CreateDirAll(path: Path)                    // fs::create_dir_all
    | CreateDir(path: Path)                       // fs::create_dir
    | CreateFile(path: Path)                      // fs::File::create
    | CreateSymlink(linkTarget: Path, path: Path) // os::unix::fs::symlink
    | RemoveDir(path: Path)                       // fs::remove_dir
    | BindMount(from: Path, to: Path)             // open_tree + move_mount
    | MakePrivate(path: Path)                     // mount_change(PRIVATE)
    | MountTmpfs(path: Path, source: string)      // utils::mount_tmpfs
    | OverlayFsConfig(params: seq<(string, string)>, dest: Path) // fsopen .. move_mount
    | OverlayLegacy(source: string, dest: Path, data: string)     // mount(2)
    | MarkUnmountable(path: Path)                 // send_unmountable
    | UnmountDetach(path: Path)                   // unmount(DETACH)
    | CopyToMirror(from: Path, to: Path)          // sync_dir / fs::copy into the mirror
    | HymoClear
    | HymoSetStealth(on: bool)
    | HymoSetDebug(on: bool)
    | HymoAddRule(src: Path, target: Path, kind: int)
    | HymoHide(path: Path)
    | HymoDeleteRule(src: Path)

  datatype Error =
    | CreateDirFailed(path: Path)
    | ClockBeforeEpoch
    | MountFailed(dest: Path)
    | InvalidMountData
    | StagedRwUnsupported
    | BindFailed(path: Path)
    | TmpfsFailed(path: Path)
    | ReadDirFailed(path: Path)
    | FileTypeFailed(path: Path)
    | OpenFailed(path: Path)
    | ListRulesFailed
    | BufferTooSmall
    | CopyFailed(path: Path)

  datatype Result<T> = Ok(value: T) | Err(error: Error)

  /** What a call returned, with the calls it issued on the way, in issue order. */
  datatype Outcome = Outcome(result: Result<()>, log: seq<Effect>)

  /** `send_unmountable(path)` unless unmounting is disabled. */
  function Unmountable(path: Path, disableUmount: bool): seq<Effect> {
    if disableUmount then [] else [MarkUnmountable(path)]
  }

  /** What the system answers; each function is total and fixed for one run. */
  datatype Host = Host(
    pathExists: Path -> bool,
    isDir: Path -> bool,          // follows symlinks, as `Path::is_dir`
    isSymlink: Path -> bool,
    createDirOk: Path -> bool,    // fs::create_dir_all succeeds
    bindOk: Path -> bool,         // a bind mount onto this target succeeds
    tmpfsOk: Path -> bool,        // a tmpfs mount onto this target succeeds
    fsConfigOk: Path -> bool,     // the fsopen/fsconfig/fsmount/move_mount chain succeeds for this dest
    legacyMountOk: Path -> bool,  // mount(2) of an overlay on this dest succeeds
    rootFd: Path -> Option<nat>,  // the descriptor fs::File::open gives, if it opens
    clockOk: bool,                // SystemTime::now() is after the epoch
    stageName: nat -> string      // file name of the i-th stage dir ("stage_<nanos>_<i>")
  )
}
