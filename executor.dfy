/**
 * Plan execution (src/core/executor.rs): a walk over the resolved tree that
 * dispatches on each node's strategy, records which module went through
 * which mechanism, and computes the names a Magic skeleton leaves out.
 *
 * `Ids` and `Visit` specify the walk: the ids it records per mechanism and
 * the calls it issues. `ExecuteNode` is the recursive walk itself; children
 * are taken in the order the map yields them, which is an oracle of the
 * environment.
 */
module Executor {
  import opened Wrappers
  import opened Paths
  import opened Order
  import opened Kernel
  import opened Settings
  import opened Tree
  import Inventory
  import Planner
  import OL = Overlay
  import MM = MagicMount
  import HD = HymoDevice

  /** Everything the walk reads besides the tree: configuration, constants and the system's answers. */
  datatype Env = Env(
    config: Config,
    consts: Consts,
    host: Host,
    readDir: MM.Lister,          // read_dir of a magic mirror
    copyOk: Path -> bool,        // copying a Hymo source onto this mirror path succeeds
    childOrder: FsNode -> seq<string>)  // the order `children.values()` yields this node's children in

  /** `ExecutionStats`: the module ids per mechanism (Bind nodes count as magic). */
  datatype Stats = Stats(overlay: set<string>, hymo: set<string>, magic: set<string>)

  datatype Mechanism = ByOverlay | ByHymo | ByMagic

  function Of(s: Stats, w: Mechanism): set<string> {
    match w
    case ByOverlay => s.overlay
    case ByHymo => s.hymo
    case ByMagic => s.magic
  }

  /** `ExecutionResult`: the three id lists. */
  datatype ExecutionResult = ExecutionResult(overlayModuleIds: seq<string>, hymoModuleIds: seq<string>,
                                             magicModuleIds: seq<string>)

  /** `HymoFs::is_available`: the control device exists. */
  predicate HymoAvailable(env: Env) {
    env.host.pathExists(HD.DevPath)
  }

  // ---------------------------------------------------------------------
  // Per-node actions

  /**
   * `ensure_mountpoint`: nothing when the path exists; otherwise the path is
   * created, as a directory with its ancestors, or as an empty file after
   * its parent directory. Failures are ignored.
   */
  function EnsureMountpoint(path: Path, fileType: FileType, host: Host): (r: seq<Effect>)
    ensures r == [] <==> host.pathExists(path)
    ensures !host.pathExists(path) && fileType == Directory ==> r == [CreateDirAll(path)]
    ensures !host.pathExists(path) && fileType != Directory ==>
      && |r| >= 1 && r[|r| - 1] == CreateFile(path)
      && forall k :: 0 <= k < |r| - 1 ==> Parent(path).Some? && r[k] == CreateDirAll(Parent(path).value)
  {
    if host.pathExists(path) then []
    else if fileType == Directory then [CreateDirAll(path)]
    else (match Parent(path) case Some(p) => [CreateDirAll(p)] case None => []) + [CreateFile(path)]
  }

  /** Where a Hymo source is copied: the Hymo mirror dir joined with the target minus its leading '/'. */
  function HymoMirrorPath(target: Path, consts: Consts): Path {
    MirrorOf(consts.hymoMirrorDir, target)
  }

  /** The mirror copy lies below the Hymo mirror dir, and distinct targets get distinct copies. */
  lemma HymoMirrorPathProperties(target: Path, other: Path, consts: Consts)
    ensures StartsWith(HymoMirrorPath(target, consts), consts.hymoMirrorDir)
    ensures TrimLeading(target, '/') != TrimLeading(other, '/') ==>
      HymoMirrorPath(target, consts) != HymoMirrorPath(other, consts)
  {
    MirrorOfProperties(consts.hymoMirrorDir, target, other);
  }

  datatype CopyRun = CopyRun(result: Result<Path>, log: seq<Effect>)

  /**
   * `copy_hymo_source`: the mirror path's parent is created (a failure
   * aborts), then the source is copied there; on success the mirror path
   * is returned.
   */
  function CopyHymoSource(source: Path, target: Path, env: Env): (c: CopyRun)
    ensures var mirror := HymoMirrorPath(target, env.consts);
      && (c.result.Ok? ==> c.result.value == mirror && |c.log| >= 1 && c.log[|c.log| - 1] == CopyToMirror(source, mirror))
      && (c.result.Ok? <==> (Parent(mirror).None? || env.host.createDirOk(Parent(mirror).value)) && env.copyOk(mirror))
  {
    var mirror := HymoMirrorPath(target, env.consts);
    var parent := Parent(mirror);
    var pre := if parent.Some? then [CreateDirAll(parent.value)] else [];
    if parent.Some? && !env.host.createDirOk(parent.value) then CopyRun(Err(CreateDirFailed(parent.value)), pre)
    else if !env.copyOk(mirror) then CopyRun(Err(CopyFailed(mirror)), pre + [CopyToMirror(source, mirror)])
    else CopyRun(Ok(mirror), pre + [CopyToMirror(source, mirror)])
  }

  /** The calls of a node that mounts as a whole: Overlay, Hymo or Bind. */
  function LeafLog(node: FsNode, env: Env): seq<Effect> {
    var host := env.host;
    match node.strategy
    case Overlay(lowerdirs) =>
      EnsureMountpoint(node.path, Directory, host)
        + OL.MountOverlayRun(node.path, lowerdirs, None, None, env.config.disableUmount, env.consts, host).log
    case Hymo(source) =>
      if !HymoAvailable(env) then []
      else
        var c := CopyHymoSource(source, node.path, env);
        c.log + (if c.result.Ok? then [HymoAddRule(node.path, c.result.value, 0)] else [])
    case Bind(source) =>
      EnsureMountpoint(node.path, if host.isDir(source) then Directory else File, host)
        + OL.BindMountOp(source, node.path, env.config.disableUmount, host).log
    case _ => []
  }

  /** The names a Magic skeleton leaves out: the children that are not Passthrough. */
  function Exclusions(node: FsNode): (r: set<string>)
    ensures forall k :: k in r <==> k in node.children && !node.children[k].strategy.Passthrough?
  {
    set k | k in node.children && !node.children[k].strategy.Passthrough?
  }

  /** `populate_skeleton` on a Magic node. */
  function SkeletonOf(node: FsNode, env: Env): Outcome {
    MM.Skeleton(node.path, Exclusions(node), env.config.disableUmount, env.consts, env.host, env.readDir)
  }

  // ---------------------------------------------------------------------
  // What the walk records and issues

  /** Whether the walk goes on into the children: always below Passthrough, below Magic once its skeleton is up. */
  predicate Descends(node: FsNode, env: Env) {
    node.strategy.Unresolved? || node.strategy.Passthrough? || (node.strategy.Magic? && SkeletonOf(node, env).result.Ok?)
  }

  function FirstId(node: FsNode): set<string> {
    if node.mutations == [] then {} else {node.mutations[0].moduleId}
  }

  function MutationIds(node: FsNode): set<string> {
    set m | m in node.mutations :: m.moduleId
  }

  /** The ids a node records itself: every mutation's for Overlay, the first one's for Hymo, Bind and Magic. */
  function OwnIds(node: FsNode, w: Mechanism): set<string> {
    match node.strategy
    case Overlay(_) => if w == ByOverlay then MutationIds(node) else {}
    case Hymo(_) => if w == ByHymo then FirstId(node) else {}
    case Bind(_) => if w == ByMagic then FirstId(node) else {}
    case Magic => if w == ByMagic then FirstId(node) else {}
    case _ => {}
  }

  /** The ids recorded by the walk of a subtree. */
  function Ids(node: FsNode, env: Env, w: Mechanism): set<string>
    decreases node, 1
  {
    OwnIds(node, w) + (if Descends(node, env) then ChildIds(node, node.children.Keys, env, w) else {})
  }

  /** The ids recorded below the children named in `keys`. */
  function ChildIds(node: FsNode, keys: set<string>, env: Env, w: Mechanism): set<string>
    decreases node, 0
  {
    set k, x | k in keys && k in node.children && x in Ids(node.children[k], env, w) :: x
  }

  /** The keys of `node.children`, each exactly once. */
  predicate ListsChildren(order: seq<string>, node: FsNode) {
    NoDup(order) && (forall k | k in order :: k in node.children) && (forall k | k in node.children :: k in order)
  }

  /**
   * The order the walk takes the children in: the order the map yields
   * them. An oracle answer that does not list every child exactly once
   * cannot come from a map and is replaced by ascending key order.
   */
  function ChildOrder(node: FsNode, env: Env): (r: seq<string>)
    ensures NoDup(r) && forall k :: k in r <==> k in node.children
  {
    var o := env.childOrder(node);
    if ListsChildren(o, node) then o else Ascending(node.children.Keys)
  }

  /** The calls the walk of a subtree issues. */
  function Visit(node: FsNode, env: Env): seq<Effect>
    decreases node, 1, 0
  {
    match node.strategy
    case Unresolved => VisitChildren(node, ChildOrder(node, env), env)
    case Passthrough => VisitChildren(node, ChildOrder(node, env), env)
    case Magic =>
      var skeleton := SkeletonOf(node, env);
      if skeleton.result.Err? then skeleton.log
      else skeleton.log + VisitChildren(node, ChildOrder(node, env), env) + [MakePrivate(node.path)]
    case _ => LeafLog(node, env)
  }

  /** The calls the walks of the children named in `keys` issue, in that order. */
  function VisitChildren(node: FsNode, keys: seq<string>, env: Env): seq<Effect>
    requires forall k :: k in keys ==> k in node.children
    decreases node, 0, |keys|
  {
    if keys == [] then []
    else Visit(node.children[keys[0]], env) + VisitChildren(node, keys[1..], env)
  }

  lemma {:induction false} VisitChildrenAppend(node: FsNode, a: seq<string>, b: seq<string>, env: Env)
    requires forall k :: k in a + b ==> k in node.children
    ensures VisitChildren(node, a + b, env) == VisitChildren(node, a, env) + VisitChildren(node, b, env)
    decreases |a|
  {
    if a == [] {
      assert a + b == b;
    } else {
      var first := Visit(node.children[a[0]], env);
      assert (a + b)[0] == a[0] && (a + b)[1..] == a[1..] + b;
      assert VisitChildren(node, a + b, env) == first + VisitChildren(node, a[1..] + b, env);
      VisitChildrenAppend(node, a[1..], b, env);
      ConcatAssoc(first, VisitChildren(node, a[1..], env), VisitChildren(node, b, env));
    }
  }

  /** Taking the first of `a` out of `a`, and the same key out of its permutation `b`, leaves permutations. */
  lemma RemoveMatched(a: seq<string>, b: seq<string>, j: nat)
    requires a != [] && j < |b| && b[j] == a[0] && multiset(a) == multiset(b)
    ensures multiset(a[1..]) == multiset(b[..j] + b[j + 1..])
  {
    var c := b[..j] + b[j + 1..];
    assert b == b[..j] + [a[0]] + b[j + 1..];
    assert multiset(b) == multiset(b[..j]) + multiset{a[0]} + multiset(b[j + 1..]);
    assert a == [a[0]] + a[1..];
    assert multiset(a) == multiset{a[0]} + multiset(a[1..]);
    assert multiset(c) == multiset(b[..j]) + multiset(b[j + 1..]);
    forall z ensures multiset(a[1..])[z] == multiset(c)[z] {
      assert multiset(a)[z] == multiset(b)[z];
    }
  }

  /** The calls of the children in `b` are those of `b[j]` and those of the others. */
  lemma VisitChildrenRemove(node: FsNode, b: seq<string>, j: nat, env: Env)
    requires forall k :: k in b ==> k in node.children
    requires j < |b|
    ensures forall k :: k in b[..j] + b[j + 1..] ==> k in node.children
    ensures multiset(VisitChildren(node, b, env)) ==
      multiset(Visit(node.children[b[j]], env)) + multiset(VisitChildren(node, b[..j] + b[j + 1..], env))
  {
    assert b == (b[..j] + [b[j]]) + b[j + 1..];
    VisitChildrenAppend(node, b[..j] + [b[j]], b[j + 1..], env);
    VisitChildrenAppend(node, b[..j], [b[j]], env);
    VisitChildrenAppend(node, b[..j], b[j + 1..], env);
    assert VisitChildren(node, [b[j]], env) == Visit(node.children[b[j]], env);
  }

  /**
   * The order of the children changes only the order of the calls: the
   * walks of the same children in any two orders issue the same calls.
   */
  lemma {:induction false} VisitOrderIrrelevant(node: FsNode, a: seq<string>, b: seq<string>, env: Env)
    requires forall k :: k in a ==> k in node.children
    requires multiset(a) == multiset(b)
    ensures forall k :: k in b ==> k in node.children
    ensures multiset(VisitChildren(node, a, env)) == multiset(VisitChildren(node, b, env))
    decreases |a|
  {
    assert forall k :: k in b ==> k in multiset(b);
    if a == [] {
      assert b == [];
    } else {
      var x := a[0];
      assert x in multiset(b);
      var j :| 0 <= j < |b| && b[j] == x;
      var c := b[..j] + b[j + 1..];
      RemoveMatched(a, b, j);
      VisitOrderIrrelevant(node, a[1..], c, env);
      VisitChildrenRemove(node, b, j, env);
    }
  }

  lemma ChildIdsAdd(node: FsNode, keys: set<string>, k: string, env: Env, w: Mechanism)
    requires k in node.children
    ensures ChildIds(node, keys + {k}, env, w) == ChildIds(node, keys, env, w) + Ids(node.children[k], env, w)
  {
  }

  // ---------------------------------------------------------------------
  // The walk

  /**
   * `execute_node`: the node's own action by strategy, then, below
   * Passthrough and below a Magic node whose skeleton is up, the children.
   * Every failure on the way is only logged, so the walk always succeeds.
   */
  method ExecuteNode(node: FsNode, env: Env, stats: Stats) returns (r: Result<()>, out: Stats, log: seq<Effect>)
    ensures r == Ok(())
    ensures forall w :: Of(out, w) == Of(stats, w) + Ids(node, env, w)
    ensures log == Visit(node, env)
    decreases node, 2
  {
    r := Ok(());
    match node.strategy {
      case Unresolved =>
        out, log := ExecuteChildren(node, ChildOrder(node, env), env, stats);
      case Passthrough =>
        out, log := ExecuteChildren(node, ChildOrder(node, env), env, stats);
      case Magic =>
        out, log := ExecuteMagic(node, env, stats);
      case _ =>
        out, log := ExecuteLeaf(node, env, stats);
    }
  }

  /** The Overlay, Hymo and Bind arms: the node mounts as a whole and its children are not visited. */
  method ExecuteLeaf(node: FsNode, env: Env, stats: Stats) returns (out: Stats, log: seq<Effect>)
    requires node.strategy.Overlay? || node.strategy.Hymo? || node.strategy.Bind?
    ensures forall w :: Of(out, w) == Of(stats, w) + Ids(node, env, w)
    ensures log == LeafLog(node, env)
  {
    forall w ensures Ids(node, env, w) == OwnIds(node, w) {
      LeafIds(node, env, w);
    }
    match node.strategy {
      case Overlay(lowerdirs) =>
        out := stats.(overlay := stats.overlay + MutationIds(node));
        log := MountOverlayLeaf(node, lowerdirs, env);
      case Hymo(source) =>
        out := stats.(hymo := stats.hymo + FirstId(node));
        log := MountHymoLeaf(node, source, env);
      case Bind(source) =>
        out := stats.(magic := stats.magic + FirstId(node));
        var ft := if env.host.isDir(source) then Directory else File;
        log := EnsureMountpoint(node.path, ft, env.host)
          + OL.BindMountOp(source, node.path, env.config.disableUmount, env.host).log;
    }
  }

  /** The Overlay arm: the mount point, then the overlay of the node's lower directories. */
  method MountOverlayLeaf(node: FsNode, lowerdirs: seq<Path>, env: Env) returns (log: seq<Effect>)
    requires node.strategy == Overlay(lowerdirs)
    ensures log == LeafLog(node, env)
  {
    log := EnsureMountpoint(node.path, Directory, env.host);
    var mounted, mountLog := OL.MountOverlay(node.path, lowerdirs, None, None, env.config.disableUmount,
                                              env.consts, env.host);
    log := log + mountLog;
  }

  /** The Hymo arm: with the device present, the copy onto the mirror and, once it is there, the redirect rule. */
  method MountHymoLeaf(node: FsNode, source: Path, env: Env) returns (log: seq<Effect>)
    requires node.strategy == Hymo(source)
    ensures log == LeafLog(node, env)
  {
    log := [];
    if HymoAvailable(env) {
      var copied := CopyHymoSource(source, node.path, env);
      log := copied.log;
      if copied.result.Ok? {
        log := log + [HymoAddRule(node.path, copied.result.value, 0)];
      }
    }
  }

  /** A node that mounts as a whole records only its own ids. */
  lemma LeafIds(node: FsNode, env: Env, w: Mechanism)
    requires node.strategy.Overlay? || node.strategy.Hymo? || node.strategy.Bind?
    ensures Ids(node, env, w) == OwnIds(node, w)
  {
    assert !Descends(node, env);
  }

  /** The Magic arm: the skeleton with its exclusions; only once it is up, the children and the private remount. */
  method ExecuteMagic(node: FsNode, env: Env, stats: Stats) returns (out: Stats, log: seq<Effect>)
    requires node.strategy.Magic?
    ensures forall w :: Of(out, w) == Of(stats, w) + Ids(node, env, w)
    ensures log == Visit(node, env)
    ensures var skeleton := SkeletonOf(node, env);
      && |log| >= |skeleton.log| && log[..|skeleton.log|] == skeleton.log
      && (skeleton.result.Ok? ==> log[|log| - 1] == MakePrivate(node.path))
    decreases node, 1
  {
    out := stats.(magic := stats.magic + FirstId(node));
    var exclusions := Exclusions(node);
    var skeleton, skeletonLog := MM.PopulateSkeleton(node.path, exclusions, env.config.disableUmount, env.consts,
                                                      env.host, env.readDir);
    log := skeletonLog;
    if skeleton.Err? {
      MagicSkipped(node, env, stats, out, skeletonLog);
      return;
    }
    var mid := out;
    var childLog;
    out, childLog := ExecuteChildren(node, ChildOrder(node, env), env, mid);
    MagicDescended(node, env, stats, mid, out, skeletonLog, childLog);
    log := log + childLog + [MakePrivate(node.path)];
  }

  /** A Magic node whose skeleton fails records only its own id and issues only the skeleton's calls. */
  lemma MagicSkipped(node: FsNode, env: Env, stats: Stats, out: Stats, skeletonLog: seq<Effect>)
    requires node.strategy.Magic? && SkeletonOf(node, env).result.Err? && skeletonLog == SkeletonOf(node, env).log
    requires out == stats.(magic := stats.magic + FirstId(node))
    ensures forall w :: Of(out, w) == Of(stats, w) + Ids(node, env, w)
    ensures skeletonLog == Visit(node, env)
  {
    forall w ensures Ids(node, env, w) == OwnIds(node, w) {
    }
  }

  /** A Magic node whose skeleton is up records its own id and its children's, and issues their calls and the remount. */
  lemma MagicDescended(node: FsNode, env: Env, stats: Stats, mid: Stats, out: Stats, skeletonLog: seq<Effect>,
                       childLog: seq<Effect>)
    requires node.strategy.Magic? && SkeletonOf(node, env).result.Ok? && skeletonLog == SkeletonOf(node, env).log
    requires mid == stats.(magic := stats.magic + FirstId(node))
    requires forall w :: Of(out, w) == Of(mid, w) + ChildIds(node, node.children.Keys, env, w)
    requires childLog == VisitChildren(node, ChildOrder(node, env), env)
    ensures forall w :: Of(out, w) == Of(stats, w) + Ids(node, env, w)
    ensures skeletonLog + childLog + [MakePrivate(node.path)] == Visit(node, env)
  {
    forall w ensures Ids(node, env, w) == OwnIds(node, w) + ChildIds(node, node.children.Keys, env, w) {
    }
  }

  /** The `for child in node.children.values()` loop, taking the children in `order`, the map's order. */
  method ExecuteChildren(node: FsNode, order: seq<string>, env: Env, stats: Stats) returns (out: Stats, log: seq<Effect>)
    requires forall k :: k in order <==> k in node.children
    ensures forall w :: Of(out, w) == Of(stats, w) + ChildIds(node, node.children.Keys, env, w)
    ensures log == VisitChildren(node, order, env)
    decreases node, 0
  {
    out := stats;
    log := [];
    var i := 0;
    ghost var done: set<string> := {};
    while i < |order|
      invariant 0 <= i <= |order|
      invariant forall k :: k in done <==> k in order[..i]
      invariant forall w :: Of(out, w) == Of(stats, w) + ChildIds(node, done, env, w)
      invariant log == VisitChildren(node, order[..i], env)
    {
      var k := order[i];
      var _, next, childLog := ExecuteNode(node.children[k], env, out);
      ChildrenStep(node, order, i, env, stats, out, next, done, log, childLog);
      out, log := next, log + childLog;
      done := done + {k};
      i := i + 1;
    }
    assert order[..i] == order;
    assert done == node.children.Keys;
  }

  /** One turn of the children loop: the ids and calls of the child `order[i]` are added to those before it. */
  lemma ChildrenStep(node: FsNode, order: seq<string>, i: nat, env: Env, stats: Stats, out: Stats, next: Stats,
                     done: set<string>, log: seq<Effect>, childLog: seq<Effect>)
    requires forall k :: k in order ==> k in node.children
    requires i < |order|
    requires forall w :: Of(out, w) == Of(stats, w) + ChildIds(node, done, env, w)
    requires forall w :: Of(next, w) == Of(out, w) + Ids(node.children[order[i]], env, w)
    requires log == VisitChildren(node, order[..i], env)
    requires childLog == Visit(node.children[order[i]], env)
    requires forall k :: k in done <==> k in order[..i]
    ensures forall w :: Of(next, w) == Of(stats, w) + ChildIds(node, done + {order[i]}, env, w)
    ensures log + childLog == VisitChildren(node, order[..i + 1], env)
    ensures forall k :: k in done + {order[i]} <==> k in order[..i + 1]
  {
    forall w ensures Of(next, w) == Of(stats, w) + ChildIds(node, done + {order[i]}, env, w) {
      ChildIdsAdd(node, done, order[i], env, w);
    }
    assert order[..i + 1] == order[..i] + [order[i]];
    VisitChildrenAppend(node, order[..i], [order[i]], env);
    assert VisitChildren(node, [order[i]], env) == childLog;
  }

  /** The device set-up `execute` issues first when HymoFS is available; each result is ignored. */
  function Preamble(env: Env): seq<Effect> {
    if !HymoAvailable(env) then []
    else [HymoClear, HymoSetStealth(env.config.hymofsStealth), HymoSetDebug(env.config.hymofsDebug),
          CreateDirAll(env.consts.hymoMirrorDir)]
  }

  /**
   * `execute`: the device set-up, the walk from the root, then each
   * mechanism's ids as a sorted, duplicate-free list of exactly the ids
   * the walk recorded for it.
   */
  method Execute(plan: FsNode, env: Env) returns (r: Result<ExecutionResult>, log: seq<Effect>)
    ensures r.Ok?
    ensures var res := r.value;
      && Sorted(res.overlayModuleIds) && NoDup(res.overlayModuleIds)
      && Sorted(res.hymoModuleIds) && NoDup(res.hymoModuleIds)
      && Sorted(res.magicModuleIds) && NoDup(res.magicModuleIds)
      && (forall x :: x in res.overlayModuleIds <==> x in Ids(plan, env, ByOverlay))
      && (forall x :: x in res.hymoModuleIds <==> x in Ids(plan, env, ByHymo))
      && (forall x :: x in res.magicModuleIds <==> x in Ids(plan, env, ByMagic))
    ensures |log| >= |Preamble(env)| && log[..|Preamble(env)|] == Preamble(env)
    ensures log == Preamble(env) + Visit(plan, env)
  {
    var pre := Preamble(env);
    var _, stats, walkLog := ExecuteNode(plan, env, Stats({}, {}, {}));
    assert Of(stats, ByOverlay) == Ids(plan, env, ByOverlay);
    assert Of(stats, ByHymo) == Ids(plan, env, ByHymo);
    assert Of(stats, ByMagic) == Ids(plan, env, ByMagic);
    var overlayIds := SortedList(stats.overlay);
    var hymoIds := SortedList(stats.hymo);
    var magicIds := SortedList(stats.magic);
    r := Ok(ExecutionResult(overlayIds, hymoIds, magicIds));
    log := pre + walkLog;
  }

  // ---------------------------------------------------------------------
  // Properties of the walk

  /** The node a path of child names leads to is reached by the walk: every node on the way descends. */
  ghost predicate Reached(node: FsNode, env: Env, p: seq<string>)
    decreases |p|
  {
    p == [] || (Descends(node, env) && p[0] in node.children && Reached(node.children[p[0]], env, p[1..]))
  }

  lemma ReachedExists(node: FsNode, env: Env, p: seq<string>)
    requires Reached(node, env, p)
    ensures NodeAt(node, p).Some?
    decreases |p|
  {
    if p != [] {
      ReachedExists(node.children[p[0]], env, p[1..]);
    }
  }

  /**
   * The ids recorded for a mechanism are exactly the own ids of the nodes
   * the walk reaches: every mutation's id at an Overlay node, the first
   * mutation's id at a Hymo node (hymo) or a Bind or Magic node (magic).
   * Nothing below an Overlay, Hymo or Bind node, or below a Magic node
   * whose skeleton failed, is recorded.
   */
  lemma {:induction false} IdsAreOwnIdsOfReached(node: FsNode, env: Env, w: Mechanism, x: string)
    ensures x in Ids(node, env, w) <==>
      exists p :: Reached(node, env, p) && NodeAt(node, p).Some? && x in OwnIds(NodeAt(node, p).value, w)
  {
    if x in Ids(node, env, w) {
      var p := IdReachedFrom(node, env, w, x);
    }
    if exists p :: Reached(node, env, p) && NodeAt(node, p).Some? && x in OwnIds(NodeAt(node, p).value, w) {
      var p :| Reached(node, env, p) && NodeAt(node, p).Some? && x in OwnIds(NodeAt(node, p).value, w);
      ReachedIdRecorded(node, env, w, x, p);
    }
  }

  /** A recorded id is an own id of some node the walk reaches. */
  lemma {:induction false} IdReachedFrom(node: FsNode, env: Env, w: Mechanism, x: string) returns (p: seq<string>)
    requires x in Ids(node, env, w)
    ensures Reached(node, env, p) && NodeAt(node, p).Some? && x in OwnIds(NodeAt(node, p).value, w)
    decreases node
  {
    if x in OwnIds(node, w) {
      p := [];
      assert NodeAt(node, p) == Some(node);
    } else {
      assert x in ChildIds(node, node.children.Keys, env, w);
      var k :| k in node.children && x in Ids(node.children[k], env, w);
      var q := IdReachedFrom(node.children[k], env, w, x);
      p := [k] + q;
      assert p[0] == k && p[1..] == q;
      assert NodeAt(node, p) == NodeAt(node.children[k], q);
    }
  }

  /** An own id of a node the walk reaches is recorded. */
  lemma {:induction false} ReachedIdRecorded(node: FsNode, env: Env, w: Mechanism, x: string, p: seq<string>)
    requires Reached(node, env, p) && NodeAt(node, p).Some? && x in OwnIds(NodeAt(node, p).value, w)
    ensures x in Ids(node, env, w)
    decreases |p|
  {
    if p == [] {
      assert NodeAt(node, p) == Some(node);
    } else {
      var child := node.children[p[0]];
      assert NodeAt(child, p[1..]) == NodeAt(node, p);
      ReachedIdRecorded(child, env, w, x, p[1..]);
      assert x in ChildIds(node, node.children.Keys, env, w);
    }
  }

  /** An Overlay node records every mutation's module id and nothing from below it. */
  lemma OverlayRecordsAll(node: FsNode, env: Env)
    requires node.strategy.Overlay?
    ensures forall i :: 0 <= i < |node.mutations| ==> node.mutations[i].moduleId in Ids(node, env, ByOverlay)
    ensures Ids(node, env, ByOverlay) == MutationIds(node)
    ensures Ids(node, env, ByHymo) == {} && Ids(node, env, ByMagic) == {}
    ensures Visit(node, env) == LeafLog(node, env)
  {
    forall i | 0 <= i < |node.mutations|
      ensures node.mutations[i].moduleId in MutationIds(node)
    {
      assert node.mutations[i] in node.mutations;
    }
  }

  /**
   * A Magic node whose skeleton fails records only its first mutation's id
   * as magic, issues only the skeleton's calls and visits no child.
   */
  lemma SkeletonFailureSkipsChildren(node: FsNode, env: Env)
    requires node.strategy.Magic? && SkeletonOf(node, env).result.Err?
    ensures Ids(node, env, ByMagic) == FirstId(node)
    ensures Ids(node, env, ByOverlay) == {} && Ids(node, env, ByHymo) == {}
    ensures Visit(node, env) == SkeletonOf(node, env).log
    ensures forall q :: Reached(node, env, q) ==> q == []
  {
  }

  /** Every node of a planned tree is planned. */
  lemma {:induction false} PlannedAt(node: FsNode, p: seq<string>, config: Config, builtins: seq<string>, host: Host)
    requires Planner.Planned(node, config, builtins, host) && NodeAt(node, p).Some?
    ensures Planner.Planned(NodeAt(node, p).value, config, builtins, host)
    decreases |p|
  {
    if p != [] {
      PlannedAt(node.children[p[0]], p[1..], config, builtins, host);
    }
  }

  /**
   * On a tree the planner resolved, the walk records a module as going
   * through HymoFS only for a non-directory whose first mutation is that
   * module's and has mode HymoFs.
   */
  lemma HymoIdsComeFromHymoFsFiles(plan: FsNode, env: Env, x: string)
    requires Planner.Planned(plan, env.config, env.consts.builtinPartitions, env.host)
    requires x in Ids(plan, env, ByHymo)
    ensures exists p :: NodeAt(plan, p).Some? && var n := NodeAt(plan, p).value;
      && n.strategy.Hymo? && |n.mutations| > 0 && n.mutations[0].moduleId == x
      && n.mutations[0].mode == Inventory.HymoFs && n.mutations[0].fileType != Directory
      && n.strategy.source == n.mutations[0].sourcePath
  {
    var p := IdReachedFrom(plan, env, ByHymo, x);
    PlannedAt(plan, p, env.config, env.consts.builtinPartitions, env.host);
    var n := NodeAt(plan, p).value;
    assert n.strategy.Hymo?;
  }
}
