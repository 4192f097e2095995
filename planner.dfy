/**
 * The mount planner (src/core/planner.rs): which partitions of a module are
 * scanned, how each module file is threaded into the mutation tree, and the
 * post-order pass that gives every node a mount strategy.
 */
module Planner {
  import opened Wrappers
  import opened Paths
  import opened Order
  import opened Kernel
  import opened Settings
  import opened Inventory
  import opened Tree

  // ---------------------------------------------------------------------
  // get_target_partitions

  /** The names, in order, whose directory exists under `root`. */
  function Existing(names: seq<string>, root: Path, host: Host): seq<string>
    decreases |names|
  {
    if names == [] then []
    else
      var before := Existing(names[..|names| - 1], root, host);
      var p := names[|names| - 1];
      if host.pathExists(Join(root, p)) then before + [p] else before
  }

  /** Appends, in order, each name that exists under `root` and is not listed yet. */
  function Extend(targets: seq<string>, names: seq<string>, root: Path, host: Host): seq<string>
    decreases |names|
  {
    if names == [] then targets
    else
      var p := names[0];
      Extend(if p !in targets && host.pathExists(Join(root, p)) then targets + [p] else targets,
             names[1..], root, host)
  }

  /** The partition list of one module root: existing built-ins, then new existing configured names. */
  function TargetPartitions(builtins: seq<string>, configured: seq<string>, root: Path, host: Host): seq<string> {
    Extend(Existing(builtins, root, host), configured, root, host)
  }

  function FirstIndex(s: seq<string>, x: string): (i: nat)
    requires x in s
    ensures i < |s| && s[i] == x && x !in s[..i]
  {
    if s[0] == x then 0 else 1 + FirstIndex(s[1..], x)
  }

  lemma {:induction false} ExistingMembers(names: seq<string>, root: Path, host: Host)
    ensures forall p :: p in Existing(names, root, host) <==> p in names && host.pathExists(Join(root, p))
    ensures NoDup(names) ==> NoDup(Existing(names, root, host))
    decreases |names|
  {
    if names != [] {
      var init := names[..|names| - 1];
      ExistingMembers(init, root, host);
      assert names == init + [names[|names| - 1]];
      if NoDup(names) {
        assert NoDup(init);
      }
    }
  }

  lemma {:induction false} ExtendPrefix(targets: seq<string>, names: seq<string>, root: Path, host: Host)
    ensures var r := Extend(targets, names, root, host);
      |r| >= |targets| && r[..|targets|] == targets
    decreases |names|
  {
    if names != [] {
      var p := names[0];
      if p !in targets && host.pathExists(Join(root, p)) {
        ExtendPrefix(targets + [p], names[1..], root, host);
        var r := Extend(targets, names, root, host);
        assert r[..|targets|] == r[..|targets| + 1][..|targets|];
      } else {
        ExtendPrefix(targets, names[1..], root, host);
      }
    }
  }

  lemma {:induction false} ExtendMembers(targets: seq<string>, names: seq<string>, root: Path, host: Host)
    ensures forall p :: p in Extend(targets, names, root, host) <==>
      p in targets || (p in names && host.pathExists(Join(root, p)))
    decreases |names|
  {
    if names != [] {
      var p := names[0];
      assert forall q :: q in names <==> q == p || q in names[1..];
      if p !in targets && host.pathExists(Join(root, p)) {
        ExtendMembers(targets + [p], names[1..], root, host);
      } else {
        ExtendMembers(targets, names[1..], root, host);
      }
    }
  }

  /** What `Extend` appends is new: none of it was in `targets` and none of it repeats. */
  lemma {:induction false} ExtendFresh(targets: seq<string>, names: seq<string>, root: Path, host: Host)
    ensures var r := Extend(targets, names, root, host);
      |r| >= |targets| && (forall p :: p in r[|targets|..] ==> p !in targets) && NoDup(r[|targets|..])
    decreases |names|
  {
    ExtendPrefix(targets, names, root, host);
    var r := Extend(targets, names, root, host);
    if names == [] {
      assert r[|targets|..] == [];
    } else {
      var p := names[0];
      if p !in targets && host.pathExists(Join(root, p)) {
        var t' := targets + [p];
        ExtendFresh(t', names[1..], root, host);
        ExtendPrefix(t', names[1..], root, host);
        FreshSnoc(targets, p, r);
      } else {
        ExtendFresh(targets, names[1..], root, host);
      }
    }
  }

  /** A fresh name followed by names fresh for the list with it is a fresh, duplicate-free suffix. */
  lemma FreshSnoc(targets: seq<string>, p: string, r: seq<string>)
    requires p !in targets
    requires |r| >= |targets| + 1 && r[..|targets| + 1] == targets + [p]
    requires forall q :: q in r[|targets| + 1..] ==> q !in targets + [p]
    requires NoDup(r[|targets| + 1..])
    ensures (forall q :: q in r[|targets|..] ==> q !in targets) && NoDup(r[|targets|..])
  {
    var t' := targets + [p];
    var tail := r[|t'|..];
    var suffix := r[|targets|..];
    assert t'[|targets|] == p;
    assert r[|targets|] == p;
    assert suffix == [p] + tail;
    assert p in t';
    assert p !in tail;
    forall q | q in suffix ensures q !in targets {
      if q != p {
        assert q in tail;
        assert q !in t';
      }
    }
    forall i, j | 0 <= i < j < |suffix| ensures suffix[i] != suffix[j] {
      if i == 0 {
        assert suffix[j] == tail[j - 1];
      } else {
        assert suffix[i] == tail[i - 1] && suffix[j] == tail[j - 1];
      }
    }
  }

  /** From position `from` on, `s` lists names of `names` in the order of their first occurrence there. */
  predicate InFirstOccurrenceOrder(s: seq<string>, from: nat, names: seq<string>) {
    forall i, j :: from <= i < j < |s| ==> Before(names, s[i], s[j])
  }

  /** Both names occur in `names`, `x` first. */
  predicate Before(names: seq<string>, x: string, y: string) {
    x in names && y in names && FirstIndex(names, x) < FirstIndex(names, y)
  }

  lemma FirstIndexTail(names: seq<string>, x: string)
    requires names != [] && x in names[1..] && x != names[0]
    ensures x in names && FirstIndex(names, x) == 1 + FirstIndex(names[1..], x)
  {
  }

  /** `Extend` appends names in the order of their first occurrence in `names`. */
  lemma {:induction false} ExtendOrder(targets: seq<string>, names: seq<string>, root: Path, host: Host)
    ensures InFirstOccurrenceOrder(Extend(targets, names, root, host), |targets|, names)
    decreases |names|
  {
    if names != [] {
      var p := names[0];
      if p !in targets && host.pathExists(Join(root, p)) {
        ExtendOrderAdded(targets, names, root, host);
      } else {
        ExtendOrderSkipped(targets, names, root, host);
      }
    }
  }

  lemma {:induction false} ExtendOrderAdded(targets: seq<string>, names: seq<string>, root: Path, host: Host)
    requires names != [] && names[0] !in targets && host.pathExists(Join(root, names[0]))
    ensures InFirstOccurrenceOrder(Extend(targets, names, root, host), |targets|, names)
    decreases |names|, 0
  {
    var p := names[0];
    var rest := names[1..];
    var t' := targets + [p];
    var r := Extend(targets, names, root, host);
    assert r == Extend(t', rest, root, host);
    ExtendOrder(t', rest, root, host);
    ExtendMembers(t', rest, root, host);
    ExtendFresh(t', rest, root, host);
    ExtendPrefix(t', rest, root, host);
    forall i, j | |targets| <= i < j < |r|
      ensures Before(names, r[i], r[j])
    {
      assert r[j] in r[|t'|..];
      assert r[j] != p && r[j] in rest;
      FirstIndexTail(names, r[j]);
      if i > |targets| {
        assert r[i] in r[|t'|..];
        assert r[i] != p && r[i] in rest;
        FirstIndexTail(names, r[i]);
      } else {
        assert r[i] == t'[|targets|] == p;
      }
    }
  }

  lemma {:induction false} ExtendOrderSkipped(targets: seq<string>, names: seq<string>, root: Path, host: Host)
    requires names != [] && !(names[0] !in targets && host.pathExists(Join(root, names[0])))
    ensures InFirstOccurrenceOrder(Extend(targets, names, root, host), |targets|, names)
    decreases |names|, 0
  {
    var rest := names[1..];
    var r := Extend(targets, names, root, host);
    assert r == Extend(targets, rest, root, host);
    ExtendOrder(targets, rest, root, host);
    forall k | |targets| <= k < |r|
      ensures r[k] != names[0]
    {
      SkippedElement(targets, names, root, host, k);
    }
    OrderDropHead(r, |targets|, names);
  }

  lemma SkippedElement(targets: seq<string>, names: seq<string>, root: Path, host: Host, i: nat)
    requires names != [] && !(names[0] !in targets && host.pathExists(Join(root, names[0])))
    requires |targets| <= i < |Extend(targets, names[1..], root, host)|
    ensures Extend(targets, names[1..], root, host)[i] != names[0]
  {
    var r := Extend(targets, names[1..], root, host);
    ExtendMembers(targets, names[1..], root, host);
    ExtendFresh(targets, names[1..], root, host);
    ExtendPrefix(targets, names[1..], root, host);
    assert r[i] == r[|targets|..][i - |targets|];
    assert r[i] !in targets;
  }

  /** An order by first occurrence that never meets the head of `names` is one by `names` too. */
  lemma OrderDropHead(s: seq<string>, from: nat, names: seq<string>)
    requires names != []
    requires InFirstOccurrenceOrder(s, from, names[1..])
    requires forall k :: from <= k < |s| ==> s[k] != names[0]
    ensures InFirstOccurrenceOrder(s, from, names)
  {
    forall i, j | from <= i < j < |s|
      ensures Before(names, s[i], s[j])
    {
      OrderAt(s, from, names[1..], i, j);
      FirstIndexTail(names, s[i]);
      FirstIndexTail(names, s[j]);
    }
  }

  lemma OrderAt(s: seq<string>, from: nat, names: seq<string>, i: nat, j: nat)
    requires InFirstOccurrenceOrder(s, from, names) && from <= i < j < |s|
    ensures Before(names, s[i], s[j])
  {
  }

  /**
   * The partition list names the existing built-ins first, in built-in order,
   * then existing configured names in configuration order; each listed name
   * is a built-in or configured name whose directory exists, and no name
   * appears twice (given that the built-in list has no repeats).
   */
  lemma TargetPartitionsProperties(builtins: seq<string>, configured: seq<string>, root: Path, host: Host)
    ensures var r := TargetPartitions(builtins, configured, root, host);
      var present := Existing(builtins, root, host);
      && |r| >= |present| && r[..|present|] == present
      && (forall p :: p in present <==> p in builtins && host.pathExists(Join(root, p)))
      && (forall p :: p in r <==> (p in builtins || p in configured) && host.pathExists(Join(root, p)))
      && InFirstOccurrenceOrder(r, |present|, configured)
      && (NoDup(builtins) ==> NoDup(r))
  {
    var r := TargetPartitions(builtins, configured, root, host);
    var present := Existing(builtins, root, host);
    ExistingMembers(builtins, root, host);
    ExtendPrefix(present, configured, root, host);
    ExtendMembers(present, configured, root, host);
    ExtendFresh(present, configured, root, host);
    ExtendOrder(present, configured, root, host);
    if NoDup(builtins) {
      forall i, j | 0 <= i < j < |r| ensures r[i] != r[j] {
        if j < |present| {
          assert r[i] == present[i] && r[j] == present[j];
        } else if i < |present| {
          assert r[i] in present;
          assert r[j] in r[|present|..];
        } else {
          assert r[i] == r[|present|..][i - |present|] && r[j] == r[|present|..][j - |present|];
        }
      }
    }
  }

  /** `get_target_partitions`, with its two loops. */
  method GetTargetPartitions(config: Config, consts: Consts, host: Host, moduleRoot: Path)
    returns (targets: seq<string>)
    ensures targets == TargetPartitions(consts.builtinPartitions, config.partitions, moduleRoot, host)
  {
    targets := [];
    var builtins := consts.builtinPartitions;
    var i := 0;
    while i < |builtins|
      invariant 0 <= i <= |builtins|
      invariant targets == Existing(builtins[..i], moduleRoot, host)
    {
      assert builtins[..i + 1][..i] == builtins[..i];
      if host.pathExists(Join(moduleRoot, builtins[i])) {
        targets := targets + [builtins[i]];
      }
      i := i + 1;
    }
    assert builtins[..|builtins|] == builtins;
    var configured := config.partitions;
    var j := 0;
    while j < |configured|
      invariant 0 <= j <= |configured|
      invariant Extend(targets, configured[j..], moduleRoot, host)
             == TargetPartitions(builtins, configured, moduleRoot, host)
    {
      assert configured[j..][1..] == configured[j + 1..];
      var p := configured[j];
      if p !in targets && host.pathExists(Join(moduleRoot, p)) {
        targets := targets + [p];
      }
      j := j + 1;
    }
  }

  // ---------------------------------------------------------------------
  // insert_into_tree

  /**
   * The cursor walk of `insert_into_tree` from `node`, whose accumulated path
   * is `acc`: each component (a "/" component is skipped) selects or creates
   * a child whose path is set to the accumulated path, and only the node of
   * the last component receives the mutation.
   */
  function InsertPath(node: FsNode, acc: Path, names: seq<string>, m: Mutation): FsNode
    decreases |names|
  {
    if names == [] then node
    else if names[0] == "/" then InsertPath(node, acc, names[1..], m)
    else
      var acc' := Join(acc, names[0]);
      var (parent, child) := GetOrCreateChild(node, names[0]);
      var child' := child.(path := acc');
      var updated := if |names| == 1 then InsertMutation(child', m) else InsertPath(child', acc', names[1..], m);
      parent.(children := parent.children[names[0] := updated])
  }

  /** The file type `insert_into_tree` records: symlink first, then directory, else file. */
  function DetectFileType(realSource: Path, host: Host): FileType {
    if host.isSymlink(realSource) then Symlink
    else if host.isDir(realSource) then Directory
    else File
  }

  /** `insert_into_tree` for the relative path with components `relative`. */
  function InsertIntoTree(root: FsNode, relative: seq<string>, realSource: Path, owner: Module, host: Host): FsNode {
    var m := Mutation(owner.id, realSource, DetectFileType(realSource, host),
                      GetMode(owner.rules, JoinSep(relative, '/')));
    InsertPath(root, "/", relative, m)
  }

  function MutationsAt(node: FsNode, names: seq<string>): seq<Mutation> {
    match NodeAt(node, names)
    case None => []
    case Some(n) => n.mutations
  }

  lemma NodeAtCons(node: FsNode, name: string, names: seq<string>)
    requires name in node.children
    ensures NodeAt(node, [name] + names) == NodeAt(node.children[name], names)
  {
    assert ([name] + names)[0] == name && ([name] + names)[1..] == names;
  }

  /** The child `insert_into_tree` steps into for `name`, with its path set to the pushed accumulator. */
  function StepChild(node: FsNode, acc: Path, name: string): FsNode {
    GetOrCreateChild(node, name).1.(path := Join(acc, name))
  }

  /** The child stepped into carries the tree below `name` as it was (a new child carries nothing). */
  lemma StepChildView(node: FsNode, acc: Path, name: string, q: seq<string>)
    ensures MutationsAt(StepChild(node, acc, name), q) == MutationsAt(node, [name] + q)
    ensures q != [] ==> NodeAt(StepChild(node, acc, name), q) == NodeAt(node, [name] + q)
  {
    assert ([name] + q)[0] == name && ([name] + q)[1..] == q;
    var child := StepChild(node, acc, name);
    if name in node.children {
      var prev := node.children[name];
      assert child == prev.(path := Join(acc, name));
      assert NodeAt(node, [name] + q) == NodeAt(prev, q);
      if q != [] {
        assert NodeAt(child, q) == NodeAt(prev, q);
      }
    } else {
      assert child.children == map[] && child.mutations == [];
      assert NodeAt(node, [name] + q) == None;
    }
  }

  /** The walk never changes the node it starts from, other than its children. */
  lemma {:induction false} InsertPathKeepsRoot(node: FsNode, acc: Path, names: seq<string>, m: Mutation)
    ensures var r := InsertPath(node, acc, names, m);
      r.name == node.name && r.path == node.path && r.mutations == node.mutations && r.strategy == node.strategy
    decreases |names|
  {
    if names != [] && names[0] == "/" {
      InsertPathKeepsRoot(node, acc, names[1..], m);
    }
  }

  /** One step of the walk: the first component's child is replaced by the walk below it. */
  lemma InsertPathStep(node: FsNode, acc: Path, names: seq<string>, m: Mutation)
    requires names != [] && names[0] != "/"
    ensures var name := names[0];
      var r := InsertPath(node, acc, names, m);
      var child := StepChild(node, acc, name);
      && name in r.children
      && r.children[name] == (if |names| == 1 then InsertMutation(child, m)
                              else InsertPath(child, Join(acc, name), names[1..], m))
  {
  }

  /** ... and, below the first component, the node reached is the one reached from that child. */
  lemma InsertPathBelow(node: FsNode, acc: Path, names: seq<string>, m: Mutation, q: seq<string>)
    requires names != [] && names[0] != "/"
    ensures var r := InsertPath(node, acc, names, m);
      names[0] in r.children && NodeAt(r, [names[0]] + q) == NodeAt(r.children[names[0]], q)
  {
    InsertPathStep(node, acc, names, m);
    NodeAtCons(InsertPath(node, acc, names, m), names[0], q);
  }

  /** ... while a path through any other child reaches what it reached before. */
  lemma InsertPathOther(node: FsNode, acc: Path, names: seq<string>, m: Mutation, x: string, q: seq<string>)
    requires names != [] && names[0] != "/" && x != names[0]
    ensures NodeAt(InsertPath(node, acc, names, m), [x] + q) == NodeAt(node, [x] + q)
  {
    assert ([x] + q)[0] == x && ([x] + q)[1..] == q;
  }

  /**
   * Inserting along `names` (no "/" component) leaves a node at every
   * prefix of `names`, whose path is `acc` pushed with that prefix.
   */
  lemma {:induction false} InsertPathReaches(node: FsNode, acc: Path, names: seq<string>, m: Mutation)
    requires names != [] && forall k :: 0 <= k < |names| ==> names[k] != "/"
    ensures var r := InsertPath(node, acc, names, m);
      forall i :: 1 <= i <= |names| ==>
        NodeAt(r, names[..i]).Some? && NodeAt(r, names[..i]).value.path == JoinAll(acc, names[..i])
    decreases |names|
  {
    var r := InsertPath(node, acc, names, m);
    var name := names[0];
    var child := StepChild(node, acc, name);
    InsertPathStep(node, acc, names, m);
    if |names| > 1 {
      InsertPathReaches(child, Join(acc, name), names[1..], m);
      InsertPathKeepsRoot(child, Join(acc, name), names[1..], m);
    }
    forall i | 1 <= i <= |names|
      ensures NodeAt(r, names[..i]).Some? && NodeAt(r, names[..i]).value.path == JoinAll(acc, names[..i])
    {
      var q := names[1..][..i - 1];
      assert names[..i] == [name] + q;
      InsertPathBelow(node, acc, names, m, q);
      assert JoinAll(acc, names[..i]) == JoinAll(Join(acc, name), q);
      if i == 1 {
        assert q == [];
      }
    }
  }

  /**
   * Inserting along `names` (no "/" component) gives the node at `names`
   * exactly the one new mutation `m`, at the end, and leaves the mutations
   * of the nodes above it as they were.
   */
  lemma InsertPathMutations(node: FsNode, acc: Path, names: seq<string>, m: Mutation)
    requires names != [] && forall k :: 0 <= k < |names| ==> names[k] != "/"
    ensures var r := InsertPath(node, acc, names, m);
      && MutationsAt(r, names) == MutationsAt(node, names) + [m]
      && (forall i :: 0 <= i < |names| ==> MutationsAt(r, names[..i]) == MutationsAt(node, names[..i]))
  {
    InsertPathTarget(node, acc, names, m);
    forall i | 0 <= i < |names|
      ensures MutationsAt(InsertPath(node, acc, names, m), names[..i]) == MutationsAt(node, names[..i])
    {
      InsertPathAbove(node, acc, names, m, i);
    }
  }

  /** The node at `names` gains `m` at the end of its mutations. */
  lemma {:induction false} InsertPathTarget(node: FsNode, acc: Path, names: seq<string>, m: Mutation)
    requires names != [] && forall k :: 0 <= k < |names| ==> names[k] != "/"
    ensures MutationsAt(InsertPath(node, acc, names, m), names) == MutationsAt(node, names) + [m]
    decreases |names|
  {
    var name := names[0];
    var child := StepChild(node, acc, name);
    var rest := names[1..];
    InsertPathStep(node, acc, names, m);
    if |names| > 1 {
      InsertPathTarget(child, Join(acc, name), rest, m);
    }
    assert names == [name] + rest;
    InsertPathBelow(node, acc, names, m, rest);
    StepChildView(node, acc, name, rest);
    if |names| == 1 {
      assert rest == [];
    }
  }

  /** The node at a proper prefix of `names` keeps its mutations. */
  lemma {:induction false} InsertPathAbove(node: FsNode, acc: Path, names: seq<string>, m: Mutation, i: nat)
    requires names != [] && forall k :: 0 <= k < |names| ==> names[k] != "/"
    requires i < |names|
    ensures MutationsAt(InsertPath(node, acc, names, m), names[..i]) == MutationsAt(node, names[..i])
    decreases |names|
  {
    if i == 0 {
      InsertPathKeepsRoot(node, acc, names, m);
      assert names[..0] == [];
    } else if i == 1 {
      InsertPathFirst(node, acc, names, m);
    } else {
      var q := names[1..][..i - 1];
      assert names[..i] == [names[0]] + q;
      InsertPathDeeper(node, acc, names, m, q);
      InsertPathAbove(StepChild(node, acc, names[0]), Join(acc, names[0]), names[1..], m, i - 1);
    }
  }

  /** With more components to go, the first node on the way keeps its mutations. */
  lemma InsertPathFirst(node: FsNode, acc: Path, names: seq<string>, m: Mutation)
    requires |names| > 1 && names[0] != "/"
    ensures MutationsAt(InsertPath(node, acc, names, m), names[..1]) == MutationsAt(node, names[..1])
  {
    assert names[..1] == [names[0]] + [];
    InsertPathDeeper(node, acc, names, m, []);
    InsertPathKeepsRoot(StepChild(node, acc, names[0]), Join(acc, names[0]), names[1..], m);
  }

  /** Below the first of two or more components, mutations are read off the walk from the stepped-into child. */
  lemma InsertPathDeeper(node: FsNode, acc: Path, names: seq<string>, m: Mutation, q: seq<string>)
    requires |names| > 1 && names[0] != "/"
    ensures var child := StepChild(node, acc, names[0]);
      && MutationsAt(InsertPath(node, acc, names, m), [names[0]] + q)
           == MutationsAt(InsertPath(child, Join(acc, names[0]), names[1..], m), q)
      && MutationsAt(node, [names[0]] + q) == MutationsAt(child, q)
  {
    InsertPathStep(node, acc, names, m);
    InsertPathBelow(node, acc, names, m, q);
    StepChildView(node, acc, names[0], q);
  }

  predicate IsPrefix(p: seq<string>, q: seq<string>) {
    |p| <= |q| && q[..|p|] == p
  }

  lemma PrefixCons(name: string, q: seq<string>, rest: seq<string>)
    ensures IsPrefix([name] + q, [name] + rest) <==> IsPrefix(q, rest)
  {
    if |q| <= |rest| {
      assert ([name] + rest)[..|q| + 1] == [name] + rest[..|q|];
      assert ([name] + rest[..|q|])[1..] == rest[..|q|];
      assert ([name] + q)[1..] == q;
    }
  }

  /** Inserting along `names` changes no node whose path is not a prefix of `names`. */
  lemma {:induction false} InsertPathElsewhere(node: FsNode, acc: Path, names: seq<string>, m: Mutation, p: seq<string>)
    requires names != [] && forall k :: 0 <= k < |names| ==> names[k] != "/"
    requires !IsPrefix(p, names)
    ensures NodeAt(InsertPath(node, acc, names, m), p) == NodeAt(node, p)
    decreases |names|
  {
    var r := InsertPath(node, acc, names, m);
    var name := names[0];
    var child := StepChild(node, acc, name);
    InsertPathStep(node, acc, names, m);
    assert p != [] by { assert names[..0] == []; }
    assert p == [p[0]] + p[1..];
    if p[0] == name {
      var q := p[1..];
      PrefixCons(name, q, names[1..]);
      PrefixCons(name, [], names[1..]);
      assert names == [name] + names[1..];
      assert q != [] && !IsPrefix(q, names[1..]);
      StepChildView(node, acc, name, q);
      InsertPathBelow(node, acc, names, m, q);
      if |names| == 1 {
        assert q == [q[0]] + q[1..];
      } else {
        InsertPathElsewhere(child, Join(acc, name), names[1..], m, q);
      }
    } else {
      InsertPathOther(node, acc, names, m, p[0], p[1..]);
    }
  }

  /**
   * `insert_into_tree` for a relative path of plain components: every
   * component prefix has a node whose path is "/" joined with that prefix,
   * the final node gains exactly one mutation (the module's id, the real
   * source, its detected type and the mode the module's rules give the
   * relative path), and nothing off that path changes.
   */
  lemma InsertIntoTreeShape(root: FsNode, relative: seq<string>, realSource: Path, owner: Module, host: Host)
    requires relative != [] && forall k :: 0 <= k < |relative| ==> relative[k] != "/"
    ensures var r := InsertIntoTree(root, relative, realSource, owner, host);
      && (forall i :: 1 <= i <= |relative| ==>
            NodeAt(r, relative[..i]).Some? && NodeAt(r, relative[..i]).value.path == JoinAll("/", relative[..i]))
      && MutationsAt(r, relative) == MutationsAt(root, relative) +
           [Mutation(owner.id, realSource, DetectFileType(realSource, host),
                     GetMode(owner.rules, JoinSep(relative, '/')))]
      && (forall i :: 0 <= i < |relative| ==> MutationsAt(r, relative[..i]) == MutationsAt(root, relative[..i]))
      && (forall p :: !IsPrefix(p, relative) ==> NodeAt(r, p) == NodeAt(root, p))
  {
    var m := Mutation(owner.id, realSource, DetectFileType(realSource, host),
                      GetMode(owner.rules, JoinSep(relative, '/')));
    InsertPathReaches(root, "/", relative, m);
    InsertPathMutations(root, "/", relative, m);
    forall p | !IsPrefix(p, relative)
      ensures NodeAt(InsertPath(root, "/", relative, m), p) == NodeAt(root, p)
    {
      InsertPathElsewhere(root, "/", relative, m, p);
    }
  }

  // ---------------------------------------------------------------------
  // resolve_tree

  /** The nodes the ladder always passes through: the root and the top-level built-in partitions. */
  predicate Exempt(node: FsNode, builtins: seq<string>) {
    node.name == "" || node.name == "/" || (node.name in builtins && ParentIsRoot(node.path))
  }

  function Sources(ms: seq<Mutation>): (r: seq<Path>)
    ensures |r| == |ms| && forall i :: 0 <= i < |ms| ==> r[i] == ms[i].sourcePath
  {
    if ms == [] then [] else [ms[0].sourcePath] + Sources(ms[1..])
  }

  predicate AllDirectories(ms: seq<Mutation>) {
    forall i :: 0 <= i < |ms| ==> ms[i].fileType == Directory
  }

  predicate HasModifiedChildren(node: FsNode) {
    exists k :: k in node.children && !node.children[k].strategy.Passthrough?
  }

  /**
   * What a strategy may be for `node`: anything but Unresolved; Passthrough
   * on an exempt node; Hymo and Bind only from a non-directory first mutation
   * of mode HymoFs resp. Magic, with that mutation's source; Overlay only with
   * force_ext4 off, on an existing system directory, over directory mutations
   * whose sources are the lower dirs, in order, and never empty; Magic only
   * from a Magic directory mutation or below a child that is not Passthrough.
   */
  predicate StrategySound(node: FsNode, s: MountStrategy, config: Config, builtins: seq<string>, host: Host) {
    var ms := node.mutations;
    && !s.Unresolved?
    && (Exempt(node, builtins) ==> s.Passthrough?)
    && (s.Hymo? ==> |ms| > 0 && ms[0].mode == HymoFs && ms[0].fileType != Directory && s.source == ms[0].sourcePath)
    && (s.Bind? ==> |ms| > 0 && ms[0].mode == MountMode.Magic && ms[0].fileType != Directory && s.source == ms[0].sourcePath)
    && (s.Overlay? ==>
          && !config.forceExt4 && host.isDir(node.path) && AllDirectories(ms)
          && s.lowerdirs == Sources(ms) && s.lowerdirs != []
          && ms[0].mode != HymoFs && ms[0].mode != MountMode.Magic)
    && (s.Magic? ==> (|ms| > 0 && ms[0].mode == MountMode.Magic && ms[0].fileType == Directory) || HasModifiedChildren(node))
  }

  /** The first mutation's mode alone decides: HymoFs or Magic. */
  predicate FirstModeDecides(ms: seq<Mutation>) {
    |ms| > 0 && (ms[0].mode == HymoFs || ms[0].mode == MountMode.Magic)
  }

  /** `can_overlay` with a non-empty list of lower dirs. */
  predicate OverlayEligible(node: FsNode, config: Config, host: Host) {
    !config.forceExt4 && AllDirectories(node.mutations) && host.isDir(node.path) && node.mutations != []
  }

  /** The decision ladder of `resolve_tree` for a node whose children are already resolved. */
  function Decide(node: FsNode, config: Config, builtins: seq<string>, host: Host): (s: MountStrategy)
    ensures StrategySound(node, s, config, builtins, host)
    ensures Exempt(node, builtins) ==> s == Passthrough
    ensures !Exempt(node, builtins) && |node.mutations| > 0 && node.mutations[0].mode == HymoFs ==>
      s == (if node.mutations[0].fileType == Directory then Passthrough else Hymo(node.mutations[0].sourcePath))
    ensures !Exempt(node, builtins) && |node.mutations| > 0 && node.mutations[0].mode == MountMode.Magic ==>
      s == (if node.mutations[0].fileType == Directory then MountStrategy.Magic else Bind(node.mutations[0].sourcePath))
    ensures !Exempt(node, builtins) && !FirstModeDecides(node.mutations) && OverlayEligible(node, config, host) ==>
      s == MountStrategy.Overlay(Sources(node.mutations))
    ensures !Exempt(node, builtins) && !FirstModeDecides(node.mutations) && !OverlayEligible(node, config, host) ==>
      s == (if HasModifiedChildren(node) then MountStrategy.Magic else Passthrough)
    ensures !Exempt(node, builtins) && node.mutations == [] ==>
      s == (if HasModifiedChildren(node) then MountStrategy.Magic else Passthrough)
  {
    var ms := node.mutations;
    if Exempt(node, builtins) then Passthrough
    else if |ms| > 0 && ms[0].mode == HymoFs then
      if ms[0].fileType == Directory then Passthrough else Hymo(ms[0].sourcePath)
    else if |ms| > 0 && ms[0].mode == MountMode.Magic then
      if ms[0].fileType == Directory then MountStrategy.Magic else Bind(ms[0].sourcePath)
    else if !config.forceExt4 && AllDirectories(ms) && host.isDir(node.path) && Sources(ms) != [] then
      MountStrategy.Overlay(Sources(ms))
    else if HasModifiedChildren(node) then MountStrategy.Magic
    else Passthrough
  }

  /** The post-order pass: children first, then the node itself. */
  function Resolve(node: FsNode, config: Config, builtins: seq<string>, host: Host): (r: FsNode)
    ensures r.name == node.name && r.path == node.path && r.mutations == node.mutations
    ensures r.children.Keys == node.children.Keys
    decreases node
  {
    var kids := map k | k in node.children :: Resolve(node.children[k], config, builtins, host);
    var n := node.(children := kids);
    n.(strategy := Decide(n, config, builtins, host))
  }

  /** Every node of the tree carries a sound strategy. */
  predicate Planned(node: FsNode, config: Config, builtins: seq<string>, host: Host)
    decreases node
  {
    && StrategySound(node, node.strategy, config, builtins, host)
    && forall k :: k in node.children ==> Planned(node.children[k], config, builtins, host)
  }

  /** After resolution no node is Unresolved, and every strategy obeys the ladder. */
  lemma {:induction false} ResolvePlanned(node: FsNode, config: Config, builtins: seq<string>, host: Host)
    ensures Planned(Resolve(node, config, builtins, host), config, builtins, host)
    decreases node
  {
    var r := Resolve(node, config, builtins, host);
    forall k | k in r.children ensures Planned(r.children[k], config, builtins, host) {
      ResolvePlanned(node.children[k], config, builtins, host);
    }
  }

  /** Resolution keeps the shape of the tree and every node's mutations. */
  lemma {:induction false} ResolveKeepsTree(node: FsNode, config: Config, builtins: seq<string>, host: Host, p: seq<string>)
    ensures NodeAt(Resolve(node, config, builtins, host), p).Some? == NodeAt(node, p).Some?
    ensures MutationsAt(Resolve(node, config, builtins, host), p) == MutationsAt(node, p)
    decreases |p|
  {
    if p != [] && p[0] in node.children {
      ResolveKeepsTree(node.children[p[0]], config, builtins, host, p[1..]);
    }
  }

  /** `resolve_tree`: resolves each child in turn (in map order), then decides for the node. */
  method ResolveTree(node: FsNode, config: Config, builtins: seq<string>, host: Host) returns (r: FsNode)
    ensures r == Resolve(node, config, builtins, host)
    decreases node, 1
  {
    var kids := ResolveChildren(node, config, builtins, host);
    var n := node.(children := kids);
    r := n.(strategy := Decide(n, config, builtins, host));
  }

  /** The loop of `resolve_tree` over the children: each is replaced by its resolution. */
  method ResolveChildren(node: FsNode, config: Config, builtins: seq<string>, host: Host)
    returns (kids: map<string, FsNode>)
    ensures kids == map k | k in node.children :: Resolve(node.children[k], config, builtins, host)
    decreases node, 0
  {
    kids := map[];
    var pending := node.children.Keys;
    while pending != {}
      invariant pending <= node.children.Keys
      invariant kids.Keys == node.children.Keys - pending
      invariant forall k :: k in kids ==> kids[k] == Resolve(node.children[k], config, builtins, host)
      decreases pending
    {
      var k :| k in pending;
      var child := ResolveTree(node.children[k], config, builtins, host);
      kids := kids[k := child];
      pending := pending - {k};
    }
  }

  // ---------------------------------------------------------------------
  // generate

  /**
   * Where a module's files are read from: the HymoFS mirror for a module
   * whose default mode is HymoFs, otherwise the storage root; the module's
   * own source directory when that is missing; nothing when both are missing.
   */
  function ContentPath(m: Module, consts: Consts, storageRoot: Path, host: Host): (r: Option<Path>)
    ensures r.Some? ==> host.pathExists(r.value)
    ensures r.None? <==>
      !host.pathExists(Join(if m.rules.defaultMode == HymoFs then consts.hymoMirrorDir else storageRoot, m.id))
      && !host.pathExists(m.sourcePath)
  {
    var searchRoot := if m.rules.defaultMode == HymoFs then consts.hymoMirrorDir else storageRoot;
    var first := Join(searchRoot, m.id);
    if host.pathExists(first) then Some(first)
    else if host.pathExists(m.sourcePath) then Some(m.sourcePath)
    else None
  }

  /**
   * The walk of one partition directory: for each entry below it, the names
   * leading from the directory to the entry, or a walk error.
   */
  type Walker = Path -> seq<Option<seq<string>>>

  /**
   * One walked entry: its path is the partition directory joined with the
   * entry's names; it is threaded into the tree under its components past
   * the content directory, and skipped when the content directory's
   * components do not begin its own.
   */
  function AddEntry(root: FsNode, m: Module, content: Path, part: string, sub: seq<string>, host: Host): FsNode {
    var path := JoinAll(Join(content, part), sub);
    match StripPrefix(path, content)
    case None => root
    case Some(relative) => InsertIntoTree(root, relative, path, m, host)
  }

  function AddEntries(root: FsNode, m: Module, content: Path, part: string,
                      entries: seq<Option<seq<string>>>, host: Host): FsNode
    decreases |entries|
  {
    if entries == [] then root
    else
      var before := AddEntries(root, m, content, part, entries[..|entries| - 1], host);
      match entries[|entries| - 1]
      case None => before
      case Some(sub) => AddEntry(before, m, content, part, sub, host)
  }

  /** A partition and names that are single plain components give exactly `[part] + sub`. */
  lemma {:induction false} PlainEntryRelative(content: Path, part: string, sub: seq<string>)
    requires content != "" && PlainName(part) && forall k :: 0 <= k < |sub| ==> PlainName(sub[k])
    ensures StripPrefix(JoinAll(Join(content, part), sub), content) == Some([part] + sub)
  {
    StripPrefixJoined(content, part, sub);
    PiecesPlain(part);
    PiecesAllPlain(sub);
  }

  /**
   * A partition name that is an absolute path parting from the content
   * directory, such as "/vendor" for a module below "/data", adds nothing:
   * `Join` lets it replace the content directory, and `strip_prefix` then
   * fails for every walked entry.
   */
  lemma OutsidePartitionAddsNothing(root: FsNode, m: Module, content: Path, part: string,
                                    entries: seq<Option<seq<string>>>, host: Host, i: nat)
    requires part != "" && part[0] == '/'
    requires i < |Components(part)| && i < |Components(content)| && Components(part)[i] != Components(content)[i]
    requires forall e :: e in entries && e.Some? ==> forall k :: 0 <= k < |e.value| ==> Relative(e.value[k])
    ensures AddEntries(root, m, content, part, entries, host) == root
    decreases |entries|
  {
    if entries != [] {
      var init := entries[..|entries| - 1];
      assert forall e :: e in init ==> e in entries;
      OutsidePartitionAddsNothing(root, m, content, part, init, host, i);
      match entries[|entries| - 1]
      case None =>
      case Some(sub) =>
        assert entries[|entries| - 1] in entries;
        ComponentsJoinAll(part, sub);
        var whole := Components(JoinAll(part, sub));
        assert whole[i] == Components(part)[i];
        assert Join(content, part) == part;
        assert StripPrefix(JoinAll(part, sub), content).None?;
    }
  }

  function AddPartition(root: FsNode, m: Module, content: Path, part: string, host: Host, walk: Walker): FsNode {
    var partSource := Join(content, part);
    if host.pathExists(partSource) then AddEntries(root, m, content, part, walk(partSource), host) else root
  }

  function AddPartitions(root: FsNode, m: Module, content: Path, parts: seq<string>, host: Host, walk: Walker): FsNode
    decreases |parts|
  {
    if parts == [] then root
    else AddPartition(AddPartitions(root, m, content, parts[..|parts| - 1], host, walk),
                      m, content, parts[|parts| - 1], host, walk)
  }

  function AddModule(root: FsNode, m: Module, config: Config, consts: Consts, storageRoot: Path,
                     host: Host, walk: Walker): FsNode
  {
    match ContentPath(m, consts, storageRoot, host)
    case None => root
    case Some(content) =>
      AddPartitions(root, m, content,
                    TargetPartitions(consts.builtinPartitions, config.partitions, content, host), host, walk)
  }

  function AddModules(root: FsNode, modules: seq<Module>, config: Config, consts: Consts, storageRoot: Path,
                      host: Host, walk: Walker): FsNode
    decreases |modules|
  {
    if modules == [] then root
    else AddModule(AddModules(root, modules[..|modules| - 1], config, consts, storageRoot, host, walk),
                   modules[|modules| - 1], config, consts, storageRoot, host, walk)
  }

  /** The unresolved tree `generate` builds from the modules, in module order. */
  function BuildTree(modules: seq<Module>, config: Config, consts: Consts, storageRoot: Path,
                     host: Host, walk: Walker): FsNode
  {
    AddModules(NewNode("/", "/"), modules, config, consts, storageRoot, host, walk)
  }

  /**
   * `generate`: threads every walked entry of every target partition of
   * every module into the tree, then resolves it. The plan is the
   * resolution of that tree, every node of it is planned soundly, and the
   * root is passed through.
   */
  method Generate(config: Config, consts: Consts, modules: seq<Module>, storageRoot: Path,
                  host: Host, walk: Walker) returns (plan: FsNode)
    ensures plan == Resolve(BuildTree(modules, config, consts, storageRoot, host, walk),
                            config, consts.builtinPartitions, host)
    ensures Planned(plan, config, consts.builtinPartitions, host)
    ensures plan.name == "/" && plan.path == "/" && plan.strategy == Passthrough
  {
    var root := NewNode("/", "/");
    var i := 0;
    while i < |modules|
      invariant 0 <= i <= |modules|
      invariant root == AddModules(NewNode("/", "/"), modules[..i], config, consts, storageRoot, host, walk)
    {
      assert modules[..i + 1][..i] == modules[..i];
      root := InsertModule(root, modules[i], config, consts, storageRoot, host, walk);
      i := i + 1;
    }
    assert modules[..i] == modules;
    InsertPathKeepsRootAll(NewNode("/", "/"), modules, config, consts, storageRoot, host, walk);
    plan := ResolveTree(root, config, consts.builtinPartitions, host);
    ResolvePlanned(root, config, consts.builtinPartitions, host);
  }

  /** One module of the `generate` loop: its content directory, then each target partition in turn. */
  method InsertModule(root: FsNode, m: Module, config: Config, consts: Consts, storageRoot: Path,
                      host: Host, walk: Walker) returns (r: FsNode)
    ensures r == AddModule(root, m, config, consts, storageRoot, host, walk)
  {
    r := root;
    var searchRoot := if m.rules.defaultMode == HymoFs then consts.hymoMirrorDir else storageRoot;
    var content := Join(searchRoot, m.id);
    if !host.pathExists(content) {
      content := m.sourcePath;
    }
    if host.pathExists(content) {
      var partitions := GetTargetPartitions(config, consts, host, content);
      var j := 0;
      while j < |partitions|
        invariant 0 <= j <= |partitions|
        invariant r == AddPartitions(root, m, content, partitions[..j], host, walk)
      {
        assert partitions[..j + 1][..j] == partitions[..j];
        var part := partitions[j];
        var partSource := Join(content, part);
        if host.pathExists(partSource) {
          r := InsertEntries(r, m, content, part, walk(partSource), host);
        }
        j := j + 1;
      }
      assert partitions[..j] == partitions;
    }
  }

  /** The walk of one partition: every entry that could be read is threaded into the tree. */
  method InsertEntries(root: FsNode, m: Module, content: Path, part: string,
                       entries: seq<Option<seq<string>>>, host: Host) returns (r: FsNode)
    ensures r == AddEntries(root, m, content, part, entries, host)
  {
    r := root;
    var partSource := Join(content, part);
    var k := 0;
    while k < |entries|
      invariant 0 <= k <= |entries|
      invariant r == AddEntries(root, m, content, part, entries[..k], host)
    {
      assert entries[..k + 1][..k] == entries[..k];
      if entries[k].Some? {
        var path := JoinAll(partSource, entries[k].value);
        var relative := StripPrefix(path, content);
        if relative.Some? {
          r := InsertIntoTree(r, relative.value, path, m, host);
        }
      }
      k := k + 1;
    }
    assert entries[..k] == entries;
  }

  /** Building the tree never changes the root node itself, only what hangs below it. */
  lemma {:induction false} InsertPathKeepsRootAll(root: FsNode, modules: seq<Module>, config: Config, consts: Consts,
                                                  storageRoot: Path, host: Host, walk: Walker)
    ensures var r := AddModules(root, modules, config, consts, storageRoot, host, walk);
      r.name == root.name && r.path == root.path
    decreases |modules|
  {
    if modules != [] {
      InsertPathKeepsRootAll(root, modules[..|modules| - 1], config, consts, storageRoot, host, walk);
      var before := AddModules(root, modules[..|modules| - 1], config, consts, storageRoot, host, walk);
      var m := modules[|modules| - 1];
      match ContentPath(m, consts, storageRoot, host)
      case None =>
      case Some(content) =>
        var parts := TargetPartitions(consts.builtinPartitions, config.partitions, content, host);
        PartitionsKeepRoot(before, m, content, parts, host, walk);
    }
  }

  lemma {:induction false} PartitionsKeepRoot(root: FsNode, m: Module, content: Path, parts: seq<string>,
                                              host: Host, walk: Walker)
    ensures var r := AddPartitions(root, m, content, parts, host, walk);
      r.name == root.name && r.path == root.path
    decreases |parts|
  {
    if parts != [] {
      PartitionsKeepRoot(root, m, content, parts[..|parts| - 1], host, walk);
      var before := AddPartitions(root, m, content, parts[..|parts| - 1], host, walk);
      var part := parts[|parts| - 1];
      var partSource := Join(content, part);
      if host.pathExists(partSource) {
        EntriesKeepRoot(before, m, content, part, walk(partSource), host);
      }
    }
  }

  lemma {:induction false} EntriesKeepRoot(root: FsNode, m: Module, content: Path, part: string,
                                           entries: seq<Option<seq<string>>>, host: Host)
    ensures var r := AddEntries(root, m, content, part, entries, host);
      r.name == root.name && r.path == root.path
    decreases |entries|
  {
    if entries != [] {
      EntriesKeepRoot(root, m, content, part, entries[..|entries| - 1], host);
      var before := AddEntries(root, m, content, part, entries[..|entries| - 1], host);
      match entries[|entries| - 1]
      case None =>
      case Some(sub) =>
        var path := JoinAll(Join(content, part), sub);
        match StripPrefix(path, content)
        case None =>
        case Some(relative) =>
          var mu := Mutation(m.id, path, DetectFileType(path, host), GetMode(m.rules, JoinSep(relative, '/')));
          InsertPathKeepsRoot(before, "/", relative, mu);
    }
  }
}
