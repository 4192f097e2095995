/**
 * The mutation tree (src/core/tree.rs). An `FsNode` owns its children
 * through a map keyed by child name; since nothing else refers to a child,
 * an update through `&mut` is modelled as building the updated node value.
 */
module Tree {
  import opened Wrappers
  import opened Paths
  import opened Inventory

  datatype FileType = File | Directory | Symlink

  /** One module's contribution at one path. */
  datatype Mutation = Mutation(moduleId: string, sourcePath: Path, fileType: FileType, mode: MountMode)

  datatype MountStrategy =
    | Unresolved
    | Passthrough
    | Overlay(lowerdirs: seq<Path>)
    | Hymo(source: Path)
    | Bind(source: Path)
    | Magic

  datatype FsNode = FsNode(
    name: string,
    path: Path,
    mutations: seq<Mutation>,
    children: map<string, FsNode>,
    strategy: MountStrategy)

  /** `FsNode::new`: a node with no mutations, no children and no strategy yet. */
  function NewNode(name: string, path: Path): (n: FsNode)
    ensures n.name == name && n.path == path
    ensures n.mutations == [] && n.children == map[] && n.strategy == Unresolved
  {
    FsNode(name, path, [], map[], Unresolved)
  }

  /**
   * `FsNode::get_or_create_child`: the updated parent and the child under
   * `name`. An existing child is returned unchanged and the parent is left
   * as it was; otherwise exactly one fresh child, named `name` at the parent
   * path joined with `name`, is added and every other child is untouched.
   */
  function GetOrCreateChild(node: FsNode, name: string): (r: (FsNode, FsNode))
    ensures var (parent, child) := r;
      && name in parent.children && parent.children[name] == child
      && parent.name == node.name && parent.path == node.path
      && parent.mutations == node.mutations && parent.strategy == node.strategy
      && (forall k :: k != name ==> (k in parent.children <==> k in node.children))
      && (forall k :: k != name && k in node.children ==> parent.children[k] == node.children[k])
    ensures name in node.children ==> r.0 == node && r.1 == node.children[name]
    ensures name !in node.children ==>
      && r.1 == NewNode(name, Join(node.path, name))
      && |r.0.children.Keys| == |node.children.Keys| + 1
  {
    if name in node.children then (node, node.children[name])
    else
      var child := NewNode(name, Join(node.path, name));
      var children := node.children[name := child];
      assert children.Keys == node.children.Keys + {name};
      (node.(children := children), child)
  }

  /** `FsNode::insert_mutation`: appends at the end and changes nothing else. */
  function InsertMutation(node: FsNode, m: Mutation): (r: FsNode)
    ensures |r.mutations| == |node.mutations| + 1
    ensures r.mutations[..|node.mutations|] == node.mutations && r.mutations[|node.mutations|] == m
    ensures r.name == node.name && r.path == node.path
    ensures r.children == node.children && r.strategy == node.strategy
  {
    node.(mutations := node.mutations + [m])
  }

  /** The node reached from `node` by following child names, if all exist. */
  function NodeAt(node: FsNode, names: seq<string>): (r: Option<FsNode>)
    decreases |names|
  {
    if names == [] then Some(node)
    else if names[0] in node.children then NodeAt(node.children[names[0]], names[1..])
    else None
  }
}
