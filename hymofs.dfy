/**
 * The HymoFS control device (src/mount/hymofs.rs). The device is an oracle:
 * whether it exists and opens, and what its version and list-rules ioctls
 * answer. Rules the daemon sends are recorded as effects; their outcome is
 * ignored by every caller modelled here.
 */
module HymoDevice {
  import opened Wrappers
  import opened Paths
  import opened Kernel

  const DevPath: Path := "/dev/hymo_ctl"

  /** The list-rules buffer: 128 KiB of zeros. */
  const ListBufferSize: nat := 128 * 1024

  newtype byte = x: int | 0 <= x < 256

  newtype i32 = x: int | -0x8000_0000 <= x < 0x8000_0000

  /** `ret as usize` on a 64-bit target: a negative value wraps around. */
  function AsUsize(ret: i32): (n: nat)
    ensures ret >= 0 ==> n == ret as int
    ensures ret < 0 ==> n == ret as int + 0x1_0000_0000_0000_0000 && n >= 0x8000_0000_0000_0000
  {
    if ret < 0 then ret as int + 0x1_0000_0000_0000_0000 else ret as int
  }

  /**
   * What the list-rules ioctl answers: its return value and the bytes it
   * writes from offset 0. A return value of -1 is the ioctl failing, which
   * the errno conversion turns into an error before the length is looked at.
   */
  datatype ListReply = ListReply(ret: i32, written: seq<byte>)

  /** The device as the daemon sees it. */
  datatype Device = Device(
    present: bool,             // DEV_PATH exists
    opens: bool,               // it opens read-write
    versionReply: Option<i32>, // the get-version ioctl: the version, or None on failure
    listReply: Option<ListReply>)

  datatype HymoFsStatus = Available | NotPresent | ProtocolMismatch | KernelTooOld | ModuleTooOld

  /** `get_version`: None when the device does not open or the ioctl fails. */
  function GetVersion(dev: Device): (v: Option<i32>)
    ensures v.Some? <==> dev.opens && dev.versionReply.Some?
    ensures v.Some? ==> v == dev.versionReply
  {
    if !dev.opens then None else dev.versionReply
  }

  /**
   * `check_status`: absent device first, then an unreadable version, then
   * the three-way comparison with the protocol version the daemon speaks.
   */
  function CheckStatus(dev: Device, protocol: int): (s: HymoFsStatus)
    ensures s == NotPresent <==> !dev.present
    ensures s == ProtocolMismatch <==> dev.present && GetVersion(dev).None?
    ensures s == Available <==> dev.present && GetVersion(dev).Some? && GetVersion(dev).value as int == protocol
    ensures s == KernelTooOld <==> dev.present && GetVersion(dev).Some? && (GetVersion(dev).value as int) < protocol
    ensures s == ModuleTooOld <==> dev.present && GetVersion(dev).Some? && (GetVersion(dev).value as int) > protocol
  {
    if !dev.present then NotPresent
    else match GetVersion(dev)
      case None => ProtocolMismatch
      case Some(v) =>
        if v as int == protocol then Available
        else if (v as int) < protocol then KernelTooOld
        else ModuleTooOld
  }

  /** The byte at offset i of the buffer after the ioctl: what the kernel wrote there, else the initial zero. */
  function BufferByte(written: seq<byte>, i: nat): byte {
    if i < |written| then written[i] else 0
  }

  /**
   * `get_active_rules`: the device must open and the ioctl succeed; the
   * returned length is checked against the buffer, and the buffer is cut
   * down to that length in place. The bytes are returned undecoded.
   */
  method GetActiveRules(dev: Device) returns (r: Result<seq<byte>>)
    ensures !dev.opens ==> r == Err(OpenFailed(DevPath))
    ensures dev.opens && (dev.listReply.None? || dev.listReply.value.ret == -1) ==> r == Err(ListRulesFailed)
    ensures (dev.opens && dev.listReply.Some? && dev.listReply.value.ret != -1 &&
             AsUsize(dev.listReply.value.ret) > ListBufferSize) ==> r == Err(BufferTooSmall)
    ensures r.Ok? <==>
      dev.opens && dev.listReply.Some? && dev.listReply.value.ret != -1 && AsUsize(dev.listReply.value.ret) <= ListBufferSize
    ensures r.Ok? ==>
      && |r.value| == AsUsize(dev.listReply.value.ret)
      && forall i :: 0 <= i < |r.value| ==> r.value[i] == BufferByte(dev.listReply.value.written, i)
  {
    if !dev.opens {
      return Err(OpenFailed(DevPath));
    }
    var buf := new byte[ListBufferSize](_ => 0);
    if dev.listReply.None? || dev.listReply.value.ret == -1 {
      return Err(ListRulesFailed);
    }
    var reply := dev.listReply.value;
    // the kernel writes its answer into the buffer, never past its size
    var i := 0;
    while i < buf.Length && i < |reply.written|
      invariant 0 <= i <= buf.Length && i <= |reply.written|
      invariant forall k :: 0 <= k < buf.Length ==> buf[k] == (if k < i then BufferByte(reply.written, k) else 0)
    {
      buf[i] := reply.written[i];
      i := i + 1;
    }
    assert forall k :: 0 <= k < buf.Length ==> buf[k] == BufferByte(reply.written, k);
    var len := AsUsize(reply.ret);
    if len > buf.Length {
      return Err(BufferTooSmall);
    }
    r := Ok(buf[..len]);
  }

  // ---------------------------------------------------------------------
  // Walking a module directory

  /** What `DirEntry::file_type` reports (it does not follow symlinks). */
  datatype WalkKind = WalkFile | WalkSymlink | WalkCharDevice | WalkDir | WalkOther

  /**
   * One entry of the walk below the module dir: its path, its type, and its
   * device number (None when `metadata` fails).
   */
  datatype WalkItem = WalkItem(path: Path, kind: WalkKind, rdev: Option<nat>)

  /** The entries `WalkDir::new(dir).min_depth(1)` yields; None is an entry the walk fails on. */
  type Walk = Path -> seq<Option<WalkItem>>

  /**
   * The components of an entry's path past the module dir, None when
   * `strip_prefix` fails. The rules below are stated for any such map and
   * used with this one.
   */
  function RelativeTo(moduleDir: Path): WalkItem -> Option<seq<string>> {
    (it: WalkItem) => StripPrefix(it.path, moduleDir)
  }

  /** A regular file or a symlink: the entry is redirected to the module's copy. */
  predicate Redirected(relative: WalkItem -> Option<seq<string>>, it: WalkItem) {
    relative(it).Some? && (it.kind == WalkFile || it.kind == WalkSymlink)
  }

  /** A character device with device number 0, the overlay convention for a deleted file. */
  predicate Hidden(relative: WalkItem -> Option<seq<string>>, it: WalkItem) {
    relative(it).Some? && it.kind == WalkCharDevice && it.rdev == Some(0)
  }

  /** The path in the live tree an entry stands for: the target base joined with the relative path. */
  function TargetPath(targetBase: Path, relative: WalkItem -> Option<seq<string>>, it: WalkItem): Path
    requires relative(it).Some?
  {
    JoinAll(targetBase, relative(it).value)
  }

  /**
   * An entry the walk reaches through plain names below a non-empty module
   * dir strips to exactly those names, so its rule is for the same names
   * below the target base.
   */
  lemma WalkedEntryTarget(targetBase: Path, moduleDir: Path, name: string, sub: seq<string>,
                          kind: WalkKind, rdev: Option<nat>)
    requires moduleDir != "" && PlainName(name) && forall k :: 0 <= k < |sub| ==> PlainName(sub[k])
    ensures var it := WalkItem(JoinAll(Join(moduleDir, name), sub), kind, rdev);
      && RelativeTo(moduleDir)(it) == Some([name] + sub)
      && TargetPath(targetBase, RelativeTo(moduleDir), it) == JoinAll(Join(targetBase, name), sub)
  {
    StripPrefixJoined(moduleDir, name, sub);
    PiecesPlain(name);
    PiecesAllPlain(sub);
    assert ([name] + sub)[1..] == sub;
  }

  /** The rule `inject_directory` sends for one entry: a redirect, a hide, or nothing. */
  function InjectEffects(targetBase: Path, relative: WalkItem -> Option<seq<string>>, it: WalkItem): (r: seq<Effect>)
    ensures Redirected(relative, it) ==> r == [HymoAddRule(TargetPath(targetBase, relative, it), it.path, 0)]
    ensures Hidden(relative, it) ==> r == [HymoHide(TargetPath(targetBase, relative, it))]
    ensures !Redirected(relative, it) && !Hidden(relative, it) ==> r == []
  {
    match relative(it)
    case None => []
    case Some(rel) =>
      var target := JoinAll(targetBase, rel);
      if it.kind == WalkFile || it.kind == WalkSymlink then [HymoAddRule(target, it.path, 0)]
      else if it.kind == WalkCharDevice && it.rdev == Some(0) then [HymoHide(target)]
      else []
  }

  /** The rule `delete_directory_rules` sends for one entry. */
  function DeleteEffects(targetBase: Path, relative: WalkItem -> Option<seq<string>>, it: WalkItem): (r: seq<Effect>)
    ensures Redirected(relative, it) || Hidden(relative, it) ==> r == [HymoDeleteRule(TargetPath(targetBase, relative, it))]
    ensures !Redirected(relative, it) && !Hidden(relative, it) ==> r == []
  {
    match relative(it)
    case None => []
    case Some(rel) =>
      if it.kind == WalkFile || it.kind == WalkSymlink || (it.kind == WalkCharDevice && it.rdev == Some(0))
      then [HymoDeleteRule(JoinAll(targetBase, rel))]
      else []
  }

  /** The rules sent over a walk, skipping the entries the walk fails on. */
  function InjectLog(targetBase: Path, relative: WalkItem -> Option<seq<string>>, items: seq<Option<WalkItem>>): seq<Effect>
    decreases |items|
  {
    if items == [] then []
    else
      InjectLog(targetBase, relative, items[..|items| - 1])
        + (if items[|items| - 1].Some? then InjectEffects(targetBase, relative, items[|items| - 1].value) else [])
  }

  function DeleteLog(targetBase: Path, relative: WalkItem -> Option<seq<string>>, items: seq<Option<WalkItem>>): seq<Effect>
    decreases |items|
  {
    if items == [] then []
    else
      DeleteLog(targetBase, relative, items[..|items| - 1])
        + (if items[|items| - 1].Some? then DeleteEffects(targetBase, relative, items[|items| - 1].value) else [])
  }

  /**
   * The injection log holds a redirect for every file and symlink of the
   * walk and a hide for every zero-rdev character device, and nothing else:
   * directories, other types and entries the walk fails on send nothing.
   */
  lemma {:induction false} InjectDispatch(targetBase: Path, relative: WalkItem -> Option<seq<string>>, items: seq<Option<WalkItem>>)
    ensures forall k :: 0 <= k < |items| && items[k].Some? && Redirected(relative, items[k].value) ==>
      HymoAddRule(TargetPath(targetBase, relative, items[k].value), items[k].value.path, 0) in InjectLog(targetBase, relative, items)
    ensures forall k :: 0 <= k < |items| && items[k].Some? && Hidden(relative, items[k].value) ==>
      HymoHide(TargetPath(targetBase, relative, items[k].value)) in InjectLog(targetBase, relative, items)
    ensures forall e :: e in InjectLog(targetBase, relative, items) ==>
      exists k :: 0 <= k < |items| && items[k].Some? && e in InjectEffects(targetBase, relative, items[k].value)
    decreases |items|
  {
    if items != [] {
      var init := items[..|items| - 1];
      InjectDispatch(targetBase, relative, init);
      assert forall k :: 0 <= k < |init| ==> items[k] == init[k];
    }
  }

  /** Same for the deletion log: exactly the redirected and hidden entries lose their rule. */
  lemma {:induction false} DeleteDispatch(targetBase: Path, relative: WalkItem -> Option<seq<string>>, items: seq<Option<WalkItem>>)
    ensures forall k :: 0 <= k < |items| && items[k].Some? && (Redirected(relative, items[k].value) || Hidden(relative, items[k].value)) ==>
      HymoDeleteRule(TargetPath(targetBase, relative, items[k].value)) in DeleteLog(targetBase, relative, items)
    ensures forall e :: e in DeleteLog(targetBase, relative, items) ==>
      exists k :: 0 <= k < |items| && items[k].Some? && e in DeleteEffects(targetBase, relative, items[k].value)
    decreases |items|
  {
    if items != [] {
      var init := items[..|items| - 1];
      DeleteDispatch(targetBase, relative, init);
      assert forall k :: 0 <= k < |init| ==> items[k] == init[k];
    }
  }

  predicate RuleAt(log: seq<Effect>, p: Path) {
    exists e :: e in log && ((e.HymoAddRule? && e.src == p) || e == HymoHide(p))
  }

  lemma RuleAtAppend(a: seq<Effect>, b: seq<Effect>, p: Path)
    ensures RuleAt(a + b, p) <==> RuleAt(a, p) || RuleAt(b, p)
  {
    if RuleAt(a + b, p) {
      var e :| e in a + b && ((e.HymoAddRule? && e.src == p) || e == HymoHide(p));
      assert e in a || e in b;
    }
    if RuleAt(a, p) {
      var e :| e in a && ((e.HymoAddRule? && e.src == p) || e == HymoHide(p));
      assert e in a + b;
    }
    if RuleAt(b, p) {
      var e :| e in b && ((e.HymoAddRule? && e.src == p) || e == HymoHide(p));
      assert e in a + b;
    }
  }

  /**
   * Over the same walk, `delete_directory_rules` deletes exactly the paths
   * `inject_directory` added a redirect or hide rule for.
   */
  lemma {:induction false} DeleteUndoesInject(targetBase: Path, relative: WalkItem -> Option<seq<string>>, items: seq<Option<WalkItem>>, p: Path)
    ensures HymoDeleteRule(p) in DeleteLog(targetBase, relative, items) <==> RuleAt(InjectLog(targetBase, relative, items), p)
    decreases |items|
  {
    if items != [] {
      var init := items[..|items| - 1];
      DeleteUndoesInject(targetBase, relative, init, p);
      var last := items[|items| - 1];
      var inj := if last.Some? then InjectEffects(targetBase, relative, last.value) else [];
      RuleAtAppend(InjectLog(targetBase, relative, init), inj, p);
      if last.Some? {
        EntryDeleteUndoesInject(targetBase, relative, last.value, p);
      }
    }
  }

  /** For one entry, the rule deleted is the one injected. */
  lemma EntryDeleteUndoesInject(targetBase: Path, relative: WalkItem -> Option<seq<string>>, it: WalkItem, p: Path)
    ensures HymoDeleteRule(p) in DeleteEffects(targetBase, relative, it) <==> RuleAt(InjectEffects(targetBase, relative, it), p)
  {
    var inj := InjectEffects(targetBase, relative, it);
    if Redirected(relative, it) || Hidden(relative, it) {
      assert inj[0] in inj;
    }
  }

  /**
   * `inject_directory`: a missing or non-directory module dir is a no-op;
   * otherwise every walk entry is dispatched in walk order. Failures of the
   * walk or of a rule are only logged, so the call always succeeds.
   */
  method InjectDirectory(targetBase: Path, moduleDir: Path, host: Host, walk: Walk) returns (r: Result<()>, log: seq<Effect>)
    ensures r == Ok(())
    ensures !host.pathExists(moduleDir) || !host.isDir(moduleDir) ==> log == []
    ensures host.pathExists(moduleDir) && host.isDir(moduleDir) ==> log == InjectLog(targetBase, RelativeTo(moduleDir), walk(moduleDir))
  {
    r := Ok(());
    log := [];
    if !host.pathExists(moduleDir) || !host.isDir(moduleDir) {
      return;
    }
    var items := walk(moduleDir);
    var i := 0;
    while i < |items|
      invariant 0 <= i <= |items|
      invariant log == InjectLog(targetBase, RelativeTo(moduleDir), items[..i])
    {
      assert items[..i + 1][..i] == items[..i];
      match items[i] {
        case None =>
        case Some(it) =>
          match StripPrefix(it.path, moduleDir) {
            case None =>
            case Some(rel) =>
              var target := JoinAll(targetBase, rel);
              if it.kind == WalkFile || it.kind == WalkSymlink {
                log := log + [HymoAddRule(target, it.path, 0)];
              } else if it.kind == WalkCharDevice {
                if it.rdev.Some? && it.rdev.value == 0 {
                  log := log + [HymoHide(target)];
                }
              }
          }
      }
      i := i + 1;
    }
    assert items[..i] == items;
  }

  /** `delete_directory_rules`: the same walk, deleting the rule of each redirected or hidden entry. */
  method DeleteDirectoryRules(targetBase: Path, moduleDir: Path, host: Host, walk: Walk)
    returns (r: Result<()>, log: seq<Effect>)
    ensures r == Ok(())
    ensures !host.pathExists(moduleDir) || !host.isDir(moduleDir) ==> log == []
    ensures host.pathExists(moduleDir) && host.isDir(moduleDir) ==> log == DeleteLog(targetBase, RelativeTo(moduleDir), walk(moduleDir))
  {
    r := Ok(());
    log := [];
    if !host.pathExists(moduleDir) || !host.isDir(moduleDir) {
      return;
    }
    var items := walk(moduleDir);
    var i := 0;
    while i < |items|
      invariant 0 <= i <= |items|
      invariant log == DeleteLog(targetBase, RelativeTo(moduleDir), items[..i])
    {
      assert items[..i + 1][..i] == items[..i];
      match items[i] {
        case None =>
        case Some(it) =>
          match StripPrefix(it.path, moduleDir) {
            case None =>
            case Some(rel) =>
              var target := JoinAll(targetBase, rel);
              if it.kind == WalkFile || it.kind == WalkSymlink {
                log := log + [HymoDeleteRule(target)];
              } else if it.kind == WalkCharDevice {
                if it.rdev.Some? && it.rdev.value == 0 {
                  log := log + [HymoDeleteRule(target)];
                }
              }
          }
      }
      i := i + 1;
    }
    assert items[..i] == items;
  }
}
