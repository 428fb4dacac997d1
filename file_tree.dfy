/**
 * `buildFileTree`: the tree of directory nodes the file list is shown in.
 * Each node has a name, its full directory path, a map of child nodes by
 * name (kept as an insertion-ordered sequence with distinct names, as a
 * JavaScript `Map`) and the list of files filed directly under it.
 *
 * The ghost map `nodes` names every node of the tree by its directory key;
 * `Shaped` ties the nodes to the tree described in `TreeSpec`, and `Filed`
 * says which files each node holds.
 */
module FileTree {
  import opened Wrappers
  import opened Text
  import opened DiffTypes
  import opened Display
  import opened TreeSpec

  class FileTreeNode {
    const name: string
    const path: string
    var children: seq<FileTreeNode>
    var files: seq<DiffFile>

    constructor (name: string, path: string)
      ensures this.name == name && this.path == path
      ensures children == [] && files == []
    {
      this.name := name;
      this.path := path;
      children := [];
      files := [];
    }
  }

  type NodeMap = map<seq<string>, FileTreeNode>

  /** A record of each node's `children`, by directory key. */
  type KidsMap = map<seq<string>, seq<FileTreeNode>>

  /** The nodes are exactly the directories of the tree. */
  ghost predicate KeysMatch(nodes: NodeMap, dks: seq<seq<string>>) {
    forall k :: k in nodes <==> InTree(dks, k)
  }

  /** No node stands for two directories. */
  ghost predicate Distinct(nodes: NodeMap) {
    forall k1, k2 :: k1 in nodes && k2 in nodes && nodes[k1] == nodes[k2] ==> k1 == k2
  }

  /**
   * The node of directory `k` carries its path and name, and its children
   * are the nodes of its child directories, in the order the tree names them.
   */
  ghost predicate NodeShaped(nodes: NodeMap, kids: KidsMap, dks: seq<seq<string>>, k: seq<string>)
    requires k in nodes && k in kids
  {
    var names := ChildNames(dks, k);
    nodes[k].path == JoinPath(k) &&
    (k != [] ==> nodes[k].name == k[|k| - 1]) &&
    |kids[k]| == |names| &&
    forall j :: 0 <= j < |names| ==> k + [names[j]] in nodes && kids[k][j] == nodes[k + [names[j]]]
  }

  /** `nodes`, with children `kids`, is the tree of the key list `dks`. */
  ghost predicate Shaped(nodes: NodeMap, kids: KidsMap, dks: seq<seq<string>>) {
    KeysMatch(nodes, dks) && Distinct(nodes) && kids.Keys == nodes.Keys &&
    forall k {:trigger NodeShaped(nodes, kids, dks, k)} :: k in nodes ==> NodeShaped(nodes, kids, dks, k)
  }

  /** The nodes' `children` fields hold what `kids` records. */
  ghost predicate Linked(nodes: NodeMap, kids: KidsMap)
    reads set k | k in nodes :: nodes[k]`children
  {
    forall k :: k in nodes ==> k in kids && nodes[k].children == kids[k]
  }

  /** Each node holds the files filed under its directory, in input order. */
  ghost predicate Filed(nodes: NodeMap, files: seq<DiffFile>)
    reads set k | k in nodes :: nodes[k]`files
  {
    forall k :: k in nodes ==> nodes[k].files == FilesIn(files, k)
  }

  /** `children.has(part)` and `children.get(part)`: the child named `part`, if any. */
  function ChildNamed(children: seq<FileTreeNode>, part: string): (r: Option<FileTreeNode>)
    ensures r.Some? ==> exists j :: 0 <= j < |children| && children[j] == r.value && r.value.name == part
    ensures r.None? ==> forall j :: 0 <= j < |children| ==> children[j].name != part
    decreases |children|
  {
    if |children| == 0 then None
    else if children[0].name == part then Some(children[0])
    else ChildNamed(children[1..], part)
  }

  /** A node's shape depends on the key list only through the names of its children. */
  lemma NodeShapedSameNames(nodes: NodeMap, kids: KidsMap, dks: seq<seq<string>>, dks': seq<seq<string>>, k: seq<string>)
    requires k in nodes && k in kids && NodeShaped(nodes, kids, dks, k)
    requires ChildNames(dks', k) == ChildNames(dks, k)
    ensures NodeShaped(nodes, kids, dks', k)
  {
  }

  lemma ShapedWalkStart(nodes: NodeMap, kids: KidsMap, dks: seq<seq<string>>)
    requires Shaped(nodes, kids, dks)
    ensures Shaped(nodes, kids, dks + [[]])
  {
    forall k ensures k in nodes <==> InTree(dks + [[]], k) {
      WalkStart(dks, k);
    }
    forall k | k in nodes ensures NodeShaped(nodes, kids, dks + [[]], k) {
      WalkStart(dks, k);
      NodeShapedSameNames(nodes, kids, dks, dks + [[]], k);
    }
  }

  /** Walking into a directory that already exists changes nothing in the tree. */
  lemma ShapedWalkExisting(nodes: NodeMap, kids: KidsMap, dks: seq<seq<string>>, d: seq<string>, i: nat)
    requires i < |d|
    requires Shaped(nodes, kids, dks + [d[..i]])
    requires d[..i] in nodes && d[i] in ChildNames(dks + [d[..i]], d[..i])
    ensures Shaped(nodes, kids, dks + [d[..i + 1]])
  {
    assert d[..i + 1] == d[..i] + [d[i]];
    ChildBelowHeight(dks + [d[..i]], d[..i], d[i]);
    forall k ensures k in nodes <==> InTree(dks + [d[..i + 1]], k) {
      WalkStep(dks, d, i, k);
    }
    forall k | k in nodes ensures NodeShaped(nodes, kids, dks + [d[..i + 1]], k) {
      WalkStep(dks, d, i, k);
      NodeShapedSameNames(nodes, kids, dks + [d[..i]], dks + [d[..i + 1]], k);
    }
  }

  /** The child of the node of `k` whose name is `part` is the node of `k + [part]`. */
  lemma ChildNamedIsNode(nodes: NodeMap, kids: KidsMap, dks: seq<seq<string>>, k: seq<string>, part: string, child: FileTreeNode)
    requires Shaped(nodes, kids, dks) && k in nodes
    requires ChildNamed(kids[k], part) == Some(child)
    ensures part in ChildNames(dks, k)
    ensures k + [part] in nodes && nodes[k + [part]] == child
  {
    var names := ChildNames(dks, k);
    var j :| 0 <= j < |kids[k]| && kids[k][j] == child && child.name == part;
    assert NodeShaped(nodes, kids, dks, k);
    assert NodeShaped(nodes, kids, dks, k + [names[j]]);
    assert (k + [names[j]])[|k + [names[j]]| - 1] == names[j];
  }

  /** With no child named `part`, the directory `k + [part]` is not in the tree. */
  lemma NoChildNamedNoNode(nodes: NodeMap, kids: KidsMap, dks: seq<seq<string>>, k: seq<string>, part: string)
    requires Shaped(nodes, kids, dks) && k in nodes
    requires ChildNamed(kids[k], part) == None
    ensures part !in ChildNames(dks, k)
    ensures k + [part] !in nodes
  {
    var names := ChildNames(dks, k);
    assert NodeShaped(nodes, kids, dks, k);
    forall j | 0 <= j < |names| ensures names[j] != part {
      assert NodeShaped(nodes, kids, dks, k + [names[j]]);
      assert (k + [names[j]])[|k + [names[j]]| - 1] == names[j];
    }
    if k + [part] in nodes {
      ParentListsChild(dks, k + [part]);
      assert false;
    }
  }

  /** A node keeps its shape when a new child, named last among its child names, is appended to it. */
  lemma NodeShapedAppendChild(nodes: NodeMap, kids: KidsMap, dks: seq<seq<string>>, dks': seq<seq<string>>,
                              a: seq<string>, n: string, node: FileTreeNode)
    requires a in nodes && a in kids && NodeShaped(nodes, kids, dks, a)
    requires a + [n] !in nodes
    requires ChildNames(dks', a) == ChildNames(dks, a) + [n]
    requires node.name == n
    ensures var nodes' := nodes[a + [n] := node];
      var kids' := kids[a := kids[a] + [node]][a + [n] := []];
      a in nodes' && a in kids' && NodeShaped(nodes', kids', dks', a)
  {
    var b := a + [n];
    var names := ChildNames(dks, a);
    var names' := ChildNames(dks', a);
    var nodes' := nodes[b := node];
    var kids' := kids[a := kids[a] + [node]][b := []];
    assert a != b;
    hide ChildNames, JoinPath;
    forall j | 0 <= j < |names'| ensures a + [names'[j]] in nodes' && kids'[a][j] == nodes'[a + [names'[j]]] {
      if j < |names| {
        assert names'[j] == names[j] && a + [names[j]] in nodes;
      }
    }
  }

  /** The parent of the new directory lists the new node last among its children. */
  lemma ParentShapedAfterNewChild(nodes: NodeMap, kids: KidsMap, dks: seq<seq<string>>, d: seq<string>, i: nat,
                                  node: FileTreeNode)
    requires i < |d|
    requires Shaped(nodes, kids, dks + [d[..i]])
    requires d[..i] in nodes && ChildNamed(kids[d[..i]], d[i]) == None
    requires node.name == d[i]
    ensures var nodes' := nodes[d[..i + 1] := node];
      var kids' := kids[d[..i] := kids[d[..i]] + [node]][d[..i + 1] := []];
      d[..i] in nodes' && d[..i] in kids' && NodeShaped(nodes', kids', dks + [d[..i + 1]], d[..i])
  {
    var a := d[..i];
    assert d[..i + 1] == a + [d[i]];
    NoChildNamedNoNode(nodes, kids, dks + [a], a, d[i]);
    WalkStep(dks, d, i, a);
    assert NodeShaped(nodes, kids, dks + [a], a);
    hide Shaped, NodeShaped, ChildNames, JoinPath, ChildNamed;
    NodeShapedAppendChild(nodes, kids, dks + [a], dks + [d[..i + 1]], a, d[i], node);
  }

  /** After the new directory `d[..i + 1]` is added, the node of each directory has the expected shape. */
  lemma NodeShapedAfterNewChild(nodes: NodeMap, kids: KidsMap, dks: seq<seq<string>>, d: seq<string>, i: nat,
                                node: FileTreeNode, k: seq<string>)
    requires i < |d|
    requires Shaped(nodes, kids, dks + [d[..i]])
    requires d[..i] in nodes && ChildNamed(kids[d[..i]], d[i]) == None
    requires node.name == d[i] && node.path == JoinPath(d[..i + 1])
    requires k in nodes || k == d[..i + 1]
    ensures var nodes' := nodes[d[..i + 1] := node];
      var kids' := kids[d[..i] := kids[d[..i]] + [node]][d[..i + 1] := []];
      k in nodes' && k in kids' && NodeShaped(nodes', kids', dks + [d[..i + 1]], k)
  {
    var a := d[..i];
    var b := d[..i + 1];
    assert b == a + [d[i]];
    NoChildNamedNoNode(nodes, kids, dks + [a], a, d[i]);
    NewDirectoryIsLeaf(dks, d, i);
    WalkStep(dks, d, i, k);
    hide ChildNames, JoinPath, ChildNamed;
    if k == b {
      assert b[|b| - 1] == d[i];
    } else if k == a {
      ParentShapedAfterNewChild(nodes, kids, dks, d, i, node);
    } else {
      assert NodeShaped(nodes, kids, dks + [a], k);
    }
  }

  /**
   * Adding a node for the new directory `d[..i + 1]`, with no children, as
   * the last child of the node of `d[..i]` gives the tree of the key list
   * walked one segment further.
   */
  lemma ShapedAfterNewChild(nodes: NodeMap, kids: KidsMap, dks: seq<seq<string>>, d: seq<string>, i: nat, node: FileTreeNode)
    requires i < |d|
    requires Shaped(nodes, kids, dks + [d[..i]])
    requires d[..i] in nodes && ChildNamed(kids[d[..i]], d[i]) == None
    requires node !in nodes.Values
    requires node.name == d[i] && node.path == JoinPath(d[..i + 1])
    ensures d[..i + 1] !in nodes
    ensures Shaped(nodes[d[..i + 1] := node], kids[d[..i] := kids[d[..i]] + [node]][d[..i + 1] := []], dks + [d[..i + 1]])
  {
    var a := d[..i];
    var b := d[..i + 1];
    var after := dks + [b];
    assert b == a + [d[i]];
    NoChildNamedNoNode(nodes, kids, dks + [a], a, d[i]);
    var nodes' := nodes[b := node];
    var kids' := kids[a := kids[a] + [node]][b := []];
    forall k ensures k in nodes' <==> InTree(after, k) {
      WalkStep(dks, d, i, k);
    }
    forall k | k in nodes' ensures NodeShaped(nodes', kids', after, k) {
      NodeShapedAfterNewChild(nodes, kids, dks, d, i, node, k);
    }
  }

  /** Appending a file to the node of its directory key files it. */
  lemma FiledAfterPush(nodes: NodeMap, done: seq<DiffFile>, file: DiffFile, k0: seq<string>)
    requires k0 == DirKey(file) && k0 in nodes && Distinct(nodes)
    requires forall k :: k in nodes && k != k0 ==> nodes[k].files == FilesIn(done, k)
    requires nodes[k0].files == FilesIn(done, k0) + [file]
    ensures Filed(nodes, done + [file])
  {
    forall k | k in nodes ensures nodes[k].files == FilesIn(done + [file], k) {
      FilesInSnoc(done, file, k);
    }
  }

  /** The node of a new directory holds no file, and the other nodes keep theirs. */
  lemma FiledAfterNewChild(nodes: NodeMap, done: seq<DiffFile>, b: seq<string>, node: FileTreeNode)
    requires Filed(nodes, done)
    requires node.files == [] && FilesIn(done, b) == []
    ensures Filed(nodes[b := node], done)
  {
  }

  lemma SliceSnoc(d: seq<string>, i: nat)
    requires i < |d| && ValidSegments(d)
    ensures d[..i + 1] == d[..i] + [d[i]]
    ensures ValidSegments(d[..i])
  {
  }

  /**
   * Creates the node of the new directory `d[..i + 1]`, with path `nextPath`,
   * and appends it to the children of `current`, the node of `d[..i]`.
   */
  method AddChild(current: FileTreeNode, part: string, nextPath: string,
                  ghost done: seq<DiffFile>, ghost d: seq<string>, ghost i: nat, ghost nodes: NodeMap, ghost kids: KidsMap)
    returns (next: FileTreeNode, ghost nodes': NodeMap, ghost kids': KidsMap)
    requires i < |d| && part == d[i]
    requires Shaped(nodes, kids, DirKeys(done) + [d[..i]]) && Linked(nodes, kids) && Filed(nodes, done)
    requires d[..i] in nodes && current == nodes[d[..i]] && nextPath == JoinPath(d[..i + 1])
    requires ChildNamed(current.children, part) == None
    modifies current`children
    ensures Shaped(nodes', kids', DirKeys(done) + [d[..i + 1]]) && Linked(nodes', kids') && Filed(nodes', done)
    ensures d[..i + 1] !in nodes && nodes' == nodes[d[..i + 1] := next] && fresh(next)
  {
    hide NodeShaped, ChildNames, FilesIn, JoinPath;
    ghost var a := d[..i];
    ghost var b := d[..i + 1];
    next := new FileTreeNode(part, nextPath);
    ShapedAfterNewChild(nodes, kids, DirKeys(done), d, i, next);
    NotInTreeHoldsNoFile(done, a, b);
    current.children := current.children + [next];
    nodes' := nodes[b := next];
    kids' := kids[a := kids[a] + [next]][b := []];
    forall k | k in nodes' ensures k in kids' && nodes'[k].children == kids'[k] {
      if k != a && k != b {
        assert nodes[k] != current;
      }
    }
    FiledAfterNewChild(nodes, done, b, next);
  }

  /**
   * One step of the walk down a file's directory segments (the callback run
   * for each segment): extends the current path by `part` and moves to the
   * child named `part`, first creating it (with that path) when there is none.
   */
  method Descend(current: FileTreeNode, currentPath: string, part: string,
                 ghost done: seq<DiffFile>, ghost d: seq<string>, ghost i: nat, ghost nodes: NodeMap, ghost kids: KidsMap)
    returns (next: FileTreeNode, nextPath: string, ghost nodes': NodeMap, ghost kids': KidsMap)
    requires i < |d| && part == d[i] && ValidSegments(d)
    requires Shaped(nodes, kids, DirKeys(done) + [d[..i]]) && Linked(nodes, kids) && Filed(nodes, done)
    requires d[..i] in nodes && current == nodes[d[..i]] && currentPath == JoinPath(d[..i])
    modifies current`children
    ensures Shaped(nodes', kids', DirKeys(done) + [d[..i + 1]]) && Linked(nodes', kids') && Filed(nodes', done)
    ensures d[..i + 1] in nodes' && next == nodes'[d[..i + 1]] && nextPath == JoinPath(d[..i + 1])
    ensures nodes' == nodes || (d[..i + 1] !in nodes && nodes' == nodes[d[..i + 1] := next] && fresh(next))
  {
    SliceSnoc(d, i);
    JoinPathStep(d[..i], part);
    nextPath := if currentPath != "" then currentPath + "/" + part else part;
    var child := ChildNamed(current.children, part);
    if child.Some? {
      ChildNamedIsNode(nodes, kids, DirKeys(done) + [d[..i]], d[..i], part, child.value);
      ShapedWalkExisting(nodes, kids, DirKeys(done), d, i);
      next := child.value;
      nodes', kids' := nodes, kids;
    } else {
      next, nodes', kids' := AddChild(current, part, nextPath, done, d, i, nodes, kids);
    }
  }

  /** A step that keeps the map or adds one new key keeps every node an earlier map held. */
  lemma StepKeepsNodes(nodes: NodeMap, before: NodeMap, after: NodeMap, key: seq<string>, n: FileTreeNode)
    requires after == before || (key !in before && after == before[key := n])
    requires forall k :: k in nodes ==> k in before && before[k] == nodes[k]
    ensures forall k :: k in nodes ==> k in after && after[k] == nodes[k]
  {
  }

  /**
   * The walk from the root down the directory segments `dirs` of the next
   * file, creating the nodes that do not exist yet; returns the node reached.
   */
  method WalkDown(root: FileTreeNode, dirs: seq<string>, ghost done: seq<DiffFile>, ghost nodes: NodeMap, ghost kids: KidsMap)
    returns (current: FileTreeNode, ghost nodes': NodeMap, ghost kids': KidsMap)
    requires ValidSegments(dirs)
    requires Shaped(nodes, kids, DirKeys(done)) && Linked(nodes, kids) && Filed(nodes, done)
    requires [] in nodes && nodes[[]] == root
    modifies set k | k in nodes :: nodes[k]`children
    ensures Shaped(nodes', kids', DirKeys(done) + [dirs]) && Linked(nodes', kids') && Filed(nodes', done)
    ensures dirs in nodes' && current == nodes'[dirs]
    ensures [] in nodes' && nodes'[[]] == root
    ensures forall k :: k in nodes' ==> (k in nodes && nodes'[k] == nodes[k]) || fresh(nodes'[k])
    ensures forall k :: k in nodes ==> k in nodes' && nodes'[k] == nodes[k]
  {
    hide NodeShaped, ChildNames, FilesIn, Shaped, Linked, Filed, DirKeys;
    ghost var dks := DirKeys(done);
    current := root;
    var currentPath := "";
    nodes', kids' := nodes, kids;
    ShapedWalkStart(nodes, kids, dks);
    assert dirs[..0] == [];
    for i := 0 to |dirs|
      invariant Shaped(nodes', kids', dks + [dirs[..i]]) && Linked(nodes', kids') && Filed(nodes', done)
      invariant dirs[..i] in nodes' && current == nodes'[dirs[..i]]
      invariant currentPath == JoinPath(dirs[..i])
      invariant [] in nodes' && nodes'[[]] == root
      invariant forall k :: k in nodes' ==> (k in nodes && nodes'[k] == nodes[k]) || fresh(nodes'[k])
      invariant forall k :: k in nodes ==> k in nodes' && nodes'[k] == nodes[k]
    {
      hide JoinPath;
      ghost var before := nodes';
      current, currentPath, nodes', kids' := Descend(current, currentPath, dirs[i], done, dirs, i, nodes', kids');
      StepKeepsNodes(nodes, before, nodes', dirs[..i + 1], current);
    }
    assert dirs[..|dirs|] == dirs;
  }

  /** `node.files.push(file)` on the node of the file's directory key. */
  method PushFile(node: FileTreeNode, file: DiffFile, ghost done: seq<DiffFile>, ghost nodes: NodeMap, ghost k0: seq<string>)
    requires k0 == DirKey(file) && k0 in nodes && node == nodes[k0]
    requires Distinct(nodes) && Filed(nodes, done)
    modifies node`files
    ensures node.files == old(node.files) + [file]
    ensures Filed(nodes, done + [file])
  {
    node.files := node.files + [file];
    FiledAfterPush(nodes, done, file, k0);
  }

  /**
   * Files one file into the tree (the callback `buildFileTree` runs for each
   * file): a file with at most one segment goes to the root; otherwise the
   * walk goes down its directory segments, creating the nodes that do not
   * exist yet, and the file is appended to the node it reaches.
   */
  method PlaceFile(root: FileTreeNode, file: DiffFile, ghost done: seq<DiffFile>, ghost nodes: NodeMap, ghost kids: KidsMap)
    returns (ghost nodes': NodeMap, ghost kids': KidsMap)
    requires Shaped(nodes, kids, DirKeys(done)) && Linked(nodes, kids) && Filed(nodes, done)
    requires [] in nodes && nodes[[]] == root
    modifies set k | k in nodes :: nodes[k]
    ensures Shaped(nodes', kids', DirKeys(done + [file])) && Linked(nodes', kids') && Filed(nodes', done + [file])
    ensures [] in nodes' && nodes'[[]] == root
    ensures forall k :: k in nodes' ==> (k in nodes && nodes'[k] == nodes[k]) || fresh(nodes'[k])
    ensures forall k :: k in nodes ==> k in nodes' && nodes'[k] == nodes[k]
  {
    hide NodeShaped, ChildNames, FilesIn, JoinPath, Linked, Segments, DisplayPathOrUntitled;
    DirKeysSnoc(done, file);
    var displayPath := DisplayPathOrUntitled(file);
    var parts := Segments(displayPath);
    if |parts| <= 1 {
      ShapedWalkStart(nodes, kids, DirKeys(done));
      PushFile(root, file, done, nodes, []);
      return nodes, kids;
    }
    var dirs := parts[..|parts| - 1];
    assert dirs == DirKey(file);
    var current;
    current, nodes', kids' := WalkDown(root, dirs, done, nodes, kids);
    PushFile(current, file, done, nodes', dirs);
  }

  /** The root of an empty tree: no name, no path, no children and no files. */
  method NewRoot() returns (root: FileTreeNode, ghost nodes: NodeMap, ghost kids: KidsMap)
    ensures Shaped(nodes, kids, DirKeys([])) && Linked(nodes, kids) && Filed(nodes, [])
    ensures [] in nodes && nodes[[]] == root
    ensures forall k :: k in nodes ==> fresh(nodes[k])
  {
    root := new FileTreeNode("", "");
    nodes := map[[] := root];
    kids := map[[] := []];
    assert ChildNames([], []) == [];
  }

  /**
   * `buildFileTree`: files every file in turn, starting from an empty root.
   * The tree is the one `TreeSpec` describes for the file list: every node
   * sits at its directory key, has the path those segments join to and lists
   * its children in the order files first reach them, and every file is held
   * by the node of its directory key, in input order.
   */
  method BuildFileTree(files: seq<DiffFile>) returns (root: FileTreeNode, ghost nodes: NodeMap, ghost kids: KidsMap)
    ensures Shaped(nodes, kids, DirKeys(files)) && Linked(nodes, kids) && Filed(nodes, files)
    ensures [] in nodes && nodes[[]] == root
    ensures forall k :: k in nodes ==> fresh(nodes[k])
  {
    hide Shaped, Linked, Filed, DirKeys, NodeShaped, ChildNames, FilesIn, JoinPath;
    root, nodes, kids := NewRoot();
    assert files[..0] == [];
    for n := 0 to |files|
      invariant Shaped(nodes, kids, DirKeys(files[..n])) && Linked(nodes, kids) && Filed(nodes, files[..n])
      invariant [] in nodes && nodes[[]] == root
      invariant forall k :: k in nodes ==> fresh(nodes[k])
    {
      assert files[..n + 1] == files[..n] + [files[n]];
      nodes, kids := PlaceFile(root, files[n], files[..n], nodes, kids);
    }
    assert files[..|files|] == files;
  }
}
