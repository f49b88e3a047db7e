/** The project tree of twee2tools/projects.py as an arena: node `0` is the
    root, every other node names its parent by index, and every node lists
    its children in insertion order (the `OrderedDict` of `ProjectNode`).
    This module holds what `ProjectNode` computes from the tree: depth,
    height, the module/submodule/file classification, the includes listing,
    the passages a node collects, and the node reached by a dotted name. */
module ProjectTree {
  import opened Wrappers
  import opened Strings
  import opened Passages

  /** The least height below a depth-2 node that makes it a submodule. */
  const SubmoduleHeightThreshold: nat := 3

  /** A `ProjectNode`: its name fragment, its parent, its passage and its
      children. The root's fragment is `None` in the program and `""` here. */
  datatype Node = Node(fragment: string, parent: Option<nat>, passage: Option<Passage>, children: seq<nat>)

  /** Only the root has no parent, and every other node comes after its
      parent. */
  ghost predicate ParentsBefore(nodes: seq<Node>) {
    && |nodes| > 0
    && nodes[0].parent.None?
    && (forall i :: 0 < i < |nodes| ==> nodes[i].parent.Some? && nodes[i].parent.value < i)
  }

  /** Every child comes after its parent and names it as its parent. */
  ghost predicate ChildrenLinked(nodes: seq<Node>) {
    forall i, k :: 0 <= i < |nodes| && 0 <= k < |nodes[i].children| ==>
      i < nodes[i].children[k] < |nodes| && nodes[nodes[i].children[k]].parent == Some(i)
  }

  /** Siblings have distinct fragments: the children form a dictionary. */
  ghost predicate SiblingsDistinct(nodes: seq<Node>)
    requires ChildrenLinked(nodes)
  {
    forall i, k1, k2 :: 0 <= i < |nodes| && 0 <= k1 < k2 < |nodes[i].children| ==>
      nodes[nodes[i].children[k1]].fragment != nodes[nodes[i].children[k2]].fragment
  }

  ghost predicate WellFormed(nodes: seq<Node>) {
    ParentsBefore(nodes) && ChildrenLinked(nodes) && SiblingsDistinct(nodes)
  }

  /** All of `cs` are nodes after `i`. */
  ghost predicate Below(nodes: seq<Node>, i: nat, cs: seq<nat>) {
    forall k :: 0 <= k < |cs| ==> i < cs[k] < |nodes|
  }

  /** `is_root`. */
  predicate IsRoot(nodes: seq<Node>, i: nat)
    requires i < |nodes|
  {
    nodes[i].parent.None?
  }

  /** `depth`: the number of steps up to the root. */
  function Depth(nodes: seq<Node>, i: nat): nat
    requires WellFormed(nodes) && i < |nodes|
    decreases i
  {
    if nodes[i].parent.None? then 0 else 1 + Depth(nodes, nodes[i].parent.value)
  }

  /** `height`: 0 for a node without children, otherwise one more than the
      greatest height of a child. */
  function Height(nodes: seq<Node>, i: nat): nat
    requires WellFormed(nodes) && i < |nodes|
    decreases |nodes| - i, 1
  {
    if |nodes[i].children| == 0 then 0 else 1 + MaxHeight(nodes, i, nodes[i].children)
  }

  /** The greatest height of the nodes `cs`, children of `i`. */
  function MaxHeight(nodes: seq<Node>, i: nat, cs: seq<nat>): (r: nat)
    requires WellFormed(nodes) && i < |nodes| && Below(nodes, i, cs)
    ensures forall k :: 0 <= k < |cs| ==> Height(nodes, cs[k]) <= r
    ensures |cs| > 0 ==> exists k :: 0 <= k < |cs| && r == Height(nodes, cs[k])
    decreases |nodes| - i, 0, |cs|
  {
    if |cs| == 0 then 0
    else
      var rest := MaxHeight(nodes, i, cs[1..]);
      assert forall k :: 1 <= k < |cs| ==> cs[k] == cs[1..][k - 1];
      var h := Height(nodes, cs[0]);
      if |cs| == 1 || h >= rest then h
      else
        var k :| 0 <= k < |cs[1..]| && rest == Height(nodes, cs[1..][k]);
        assert rest == Height(nodes, cs[k + 1]);
        rest
  }

  /** The height exceeds every child's height by at least one, and by
      exactly one for the highest child. */
  lemma HeightIsMax(nodes: seq<Node>, i: nat)
    requires WellFormed(nodes) && i < |nodes|
    ensures Height(nodes, i) == 0 <==> |nodes[i].children| == 0
    ensures forall k :: 0 <= k < |nodes[i].children| ==>
              Height(nodes, nodes[i].children[k]) < Height(nodes, i)
    ensures |nodes[i].children| > 0 ==>
              exists k :: 0 <= k < |nodes[i].children| && Height(nodes, i) == Height(nodes, nodes[i].children[k]) + 1
  {
  }

  /** `is_module`. */
  predicate IsModule(nodes: seq<Node>, i: nat)
    requires WellFormed(nodes) && i < |nodes|
  {
    Depth(nodes, i) == 1
  }

  /** `is_submodule`. */
  predicate IsSubmodule(nodes: seq<Node>, i: nat)
    requires WellFormed(nodes) && i < |nodes|
  {
    Depth(nodes, i) == 2 && Height(nodes, i) >= SubmoduleHeightThreshold
  }

  /** `is_file`: a child of a submodule, or a child of a module that has a
      passage or is not a submodule itself. */
  predicate IsFile(nodes: seq<Node>, i: nat)
    requires WellFormed(nodes) && i < |nodes|
  {
    if IsRoot(nodes, i) then false
    else
      var p := nodes[i].parent.value;
      if IsSubmodule(nodes, p) then true
      else if IsModule(nodes, p) then nodes[i].passage.Some? || !IsSubmodule(nodes, i)
      else false
  }

  /** `has_includes`. */
  predicate HasIncludes(nodes: seq<Node>, i: nat)
    requires WellFormed(nodes) && i < |nodes|
  {
    IsRoot(nodes, i) || IsModule(nodes, i) || IsSubmodule(nodes, i)
  }

  /** A child is one deeper than its parent. */
  lemma ChildDepth(nodes: seq<Node>, i: nat, k: nat)
    requires WellFormed(nodes) && i < |nodes| && k < |nodes[i].children|
    ensures Depth(nodes, nodes[i].children[k]) == Depth(nodes, i) + 1
  {
  }

  /** The classification by depth: only the root has depth 0; no node is
      both a module and a submodule; files sit at depth 2 or 3 only, at
      depth 2 exactly when they have a passage or are not submodules, at
      depth 3 exactly when their parent is a submodule; only the root,
      modules and submodules have includes. */
  lemma Classification(nodes: seq<Node>, i: nat)
    requires WellFormed(nodes) && i < |nodes|
    ensures IsRoot(nodes, i) <==> Depth(nodes, i) == 0
    ensures !(IsModule(nodes, i) && IsSubmodule(nodes, i))
    ensures Depth(nodes, i) <= 1 ==> !IsFile(nodes, i)
    ensures Depth(nodes, i) == 2 ==>
              (IsFile(nodes, i) <==> nodes[i].passage.Some? || !IsSubmodule(nodes, i))
    ensures Depth(nodes, i) == 3 ==>
              (IsFile(nodes, i) <==> IsSubmodule(nodes, nodes[i].parent.value))
    ensures Depth(nodes, i) >= 4 ==> !IsFile(nodes, i)
    ensures HasIncludes(nodes, i) <==> Depth(nodes, i) <= 1 || IsSubmodule(nodes, i)
  {
  }

  // ---------------------------------------------------------------------
  // The includes listing
  // ---------------------------------------------------------------------

  /** A child that gets a directory of its own. */
  predicate IsDirectory(nodes: seq<Node>, c: nat)
    requires WellFormed(nodes) && c < |nodes|
  {
    IsModule(nodes, c) || IsSubmodule(nodes, c)
  }

  /** The fragments of the directory children among `cs`, in order. */
  function DirectoriesOf(nodes: seq<Node>, cs: seq<nat>): (r: seq<string>)
    requires WellFormed(nodes) && forall k :: 0 <= k < |cs| ==> cs[k] < |nodes|
    ensures forall k :: 0 <= k < |cs| && IsDirectory(nodes, cs[k]) ==> nodes[cs[k]].fragment in r
    ensures forall x :: x in r ==> exists k :: 0 <= k < |cs| && IsDirectory(nodes, cs[k]) && nodes[cs[k]].fragment == x
  {
    if |cs| == 0 then []
    else
      var rest := DirectoriesOf(nodes, cs[1..]);
      assert forall k :: 1 <= k < |cs| ==> cs[k] == cs[1..][k - 1];
      (if IsDirectory(nodes, cs[0]) then [nodes[cs[0]].fragment] else []) + rest
  }

  /** The fragments of the file children among `cs`, in order. */
  function FilesOf(nodes: seq<Node>, cs: seq<nat>): (r: seq<string>)
    requires WellFormed(nodes) && forall k :: 0 <= k < |cs| ==> cs[k] < |nodes|
    ensures forall k :: 0 <= k < |cs| && IsFile(nodes, cs[k]) ==> nodes[cs[k]].fragment in r
    ensures forall x :: x in r ==> exists k :: 0 <= k < |cs| && IsFile(nodes, cs[k]) && nodes[cs[k]].fragment == x
  {
    if |cs| == 0 then []
    else
      var rest := FilesOf(nodes, cs[1..]);
      assert forall k :: 1 <= k < |cs| ==> cs[k] == cs[1..][k - 1];
      (if IsFile(nodes, cs[0]) then [nodes[cs[0]].fragment] else []) + rest
  }

  /** Which of `cs` are directories. */
  function DirectoryFlags(nodes: seq<Node>, cs: seq<nat>): (r: seq<bool>)
    requires WellFormed(nodes) && forall k :: 0 <= k < |cs| ==> cs[k] < |nodes|
    ensures |r| == |cs| && forall k :: 0 <= k < |cs| ==> r[k] == IsDirectory(nodes, cs[k])
  {
    seq(|cs|, k requires 0 <= k < |cs| => IsDirectory(nodes, cs[k]))
  }

  /** Which of `cs` are files. */
  function FileFlags(nodes: seq<Node>, cs: seq<nat>): (r: seq<bool>)
    requires WellFormed(nodes) && forall k :: 0 <= k < |cs| ==> cs[k] < |nodes|
    ensures |r| == |cs| && forall k :: 0 <= k < |cs| ==> r[k] == IsFile(nodes, cs[k])
  {
    seq(|cs|, k requires 0 <= k < |cs| => IsFile(nodes, cs[k]))
  }

  /** The fragments of `cs`. */
  function Fragments(nodes: seq<Node>, cs: seq<nat>): (r: seq<string>)
    requires forall k :: 0 <= k < |cs| ==> cs[k] < |nodes|
    ensures |r| == |cs| && forall k :: 0 <= k < |cs| ==> r[k] == nodes[cs[k]].fragment
  {
    seq(|cs|, k requires 0 <= k < |cs| => nodes[cs[k]].fragment)
  }

  /** `directories` is the comprehension that picks the directory children's
      fragments. */
  lemma {:induction false} DirectoriesPick(nodes: seq<Node>, cs: seq<nat>)
    requires WellFormed(nodes) && forall k :: 0 <= k < |cs| ==> cs[k] < |nodes|
    ensures DirectoriesOf(nodes, cs) == Pick(DirectoryFlags(nodes, cs), Fragments(nodes, cs))
  {
    if |cs| > 0 {
      DirectoriesPick(nodes, cs[1..]);
      assert DirectoryFlags(nodes, cs)[1..] == DirectoryFlags(nodes, cs[1..]);
      assert Fragments(nodes, cs)[1..] == Fragments(nodes, cs[1..]);
    }
  }

  /** `files` is the comprehension that picks the file children's fragments. */
  lemma {:induction false} FilesPick(nodes: seq<Node>, cs: seq<nat>)
    requires WellFormed(nodes) && forall k :: 0 <= k < |cs| ==> cs[k] < |nodes|
    ensures FilesOf(nodes, cs) == Pick(FileFlags(nodes, cs), Fragments(nodes, cs))
  {
    if |cs| > 0 {
      FilesPick(nodes, cs[1..]);
      assert FileFlags(nodes, cs)[1..] == FileFlags(nodes, cs[1..]);
      assert Fragments(nodes, cs)[1..] == Fragments(nodes, cs[1..]);
    }
  }

  /** The directories are the directory children among `cs`, each once, in
      the order of `cs`: `idx` gives, increasing, the position in `cs` of the
      child behind each entry, and every directory child has an entry. */
  lemma DirectoriesInOrder(nodes: seq<Node>, cs: seq<nat>) returns (idx: seq<nat>)
    requires WellFormed(nodes) && forall k :: 0 <= k < |cs| ==> cs[k] < |nodes|
    ensures |idx| == |DirectoriesOf(nodes, cs)| && Increasing(idx)
    ensures forall j :: 0 <= j < |idx| ==>
              idx[j] < |cs| && IsDirectory(nodes, cs[idx[j]]) && DirectoriesOf(nodes, cs)[j] == nodes[cs[idx[j]]].fragment
    ensures forall k :: 0 <= k < |cs| && IsDirectory(nodes, cs[k]) ==> k in idx
  {
    DirectoriesPick(nodes, cs);
    idx := PickInOrder(DirectoryFlags(nodes, cs), Fragments(nodes, cs));
  }

  /** The files are the file children among `cs`, each once, in the order of
      `cs`, as for `DirectoriesInOrder`. */
  lemma FilesInOrder(nodes: seq<Node>, cs: seq<nat>) returns (idx: seq<nat>)
    requires WellFormed(nodes) && forall k :: 0 <= k < |cs| ==> cs[k] < |nodes|
    ensures |idx| == |FilesOf(nodes, cs)| && Increasing(idx)
    ensures forall j :: 0 <= j < |idx| ==>
              idx[j] < |cs| && IsFile(nodes, cs[idx[j]]) && FilesOf(nodes, cs)[j] == nodes[cs[idx[j]]].fragment
    ensures forall k :: 0 <= k < |cs| && IsFile(nodes, cs[k]) ==> k in idx
  {
    FilesPick(nodes, cs);
    idx := PickInOrder(FileFlags(nodes, cs), Fragments(nodes, cs));
  }

  /** `directories`. */
  function Directories(nodes: seq<Node>, i: nat): seq<string>
    requires WellFormed(nodes) && i < |nodes|
  {
    DirectoriesOf(nodes, nodes[i].children)
  }

  /** `files`. */
  function Files(nodes: seq<Node>, i: nat): seq<string>
    requires WellFormed(nodes) && i < |nodes|
  {
    FilesOf(nodes, nodes[i].children)
  }

  /** `includes`: each directory with a trailing `/`, then each file. */
  function Includes(nodes: seq<Node>, i: nat): (r: seq<string>)
    requires WellFormed(nodes) && i < |nodes|
    ensures |r| == |Directories(nodes, i)| + |Files(nodes, i)|
    ensures forall k :: 0 <= k < |Directories(nodes, i)| ==> r[k] == Directories(nodes, i)[k] + "/"
    ensures r[|Directories(nodes, i)|..] == Files(nodes, i)
  {
    var dirs := Directories(nodes, i);
    seq(|dirs|, k requires 0 <= k < |dirs| => dirs[k] + "/") + Files(nodes, i)
  }

  /** The includes of a node name every directory child with a `/` and every
      file child; a submodule child with a passage is named both ways. */
  lemma IncludesListChildren(nodes: seq<Node>, i: nat, k: nat)
    requires WellFormed(nodes) && i < |nodes| && k < |nodes[i].children|
    ensures var c := nodes[i].children[k];
            && (IsDirectory(nodes, c) ==> nodes[c].fragment + "/" in Includes(nodes, i))
            && (IsFile(nodes, c) ==> nodes[c].fragment in Includes(nodes, i)[|Directories(nodes, i)|..])
            && (IsSubmodule(nodes, c) && nodes[c].passage.Some? ==>
                  nodes[c].fragment + "/" in Includes(nodes, i)
                  && nodes[c].fragment in Includes(nodes, i)[|Directories(nodes, i)|..])
  {
    var c := nodes[i].children[k];
    var dirs := Directories(nodes, i);
    if IsDirectory(nodes, c) {
      var x :| 0 <= x < |dirs| && dirs[x] == nodes[c].fragment;
      assert Includes(nodes, i)[x] == nodes[c].fragment + "/";
    }
    if IsSubmodule(nodes, c) && nodes[c].passage.Some? {
      ChildDepth(nodes, i, k);
      assert IsModule(nodes, i);
      assert IsFile(nodes, c);
    }
  }

  // ---------------------------------------------------------------------
  // The passages a node collects
  // ---------------------------------------------------------------------

  /** The nodes whose passages `passages` returns, in order: the node's own
      passage, then, unless the node is a submodule with a passage, those of
      its children in order. */
  function PassageNodes(nodes: seq<Node>, i: nat): (r: seq<nat>)
    requires WellFormed(nodes) && i < |nodes|
    ensures forall k :: 0 <= k < |r| ==> i <= r[k] < |nodes| && nodes[r[k]].passage.Some?
    decreases |nodes| - i, 1
  {
    var own := if nodes[i].passage.Some? then [i] else [];
    if nodes[i].passage.Some? && IsSubmodule(nodes, i) then own
    else own + ChildPassageNodes(nodes, i, nodes[i].children)
  }

  /** The nodes whose passages the children `cs` of `i` collect. */
  function ChildPassageNodes(nodes: seq<Node>, i: nat, cs: seq<nat>): (r: seq<nat>)
    requires WellFormed(nodes) && i < |nodes| && Below(nodes, i, cs)
    ensures forall k :: 0 <= k < |r| ==> i < r[k] < |nodes| && nodes[r[k]].passage.Some?
    decreases |nodes| - i, 0, |cs|
  {
    if |cs| == 0 then []
    else ChildPassageNodes(nodes, i, cs[..|cs| - 1]) + PassageNodes(nodes, cs[|cs| - 1])
  }

  /** The passages of the nodes `ns`, in order. */
  function PassagesAt(nodes: seq<Node>, ns: seq<nat>): (r: seq<Passage>)
    requires forall k :: 0 <= k < |ns| ==> ns[k] < |nodes| && nodes[ns[k]].passage.Some?
    ensures |r| == |ns|
  {
    seq(|ns|, k requires 0 <= k < |ns| => nodes[ns[k]].passage.value)
  }

  lemma PassagesAtAppend(nodes: seq<Node>, a: seq<nat>, b: seq<nat>)
    requires forall k :: 0 <= k < |a| ==> a[k] < |nodes| && nodes[a[k]].passage.Some?
    requires forall k :: 0 <= k < |b| ==> b[k] < |nodes| && nodes[b[k]].passage.Some?
    ensures PassagesAt(nodes, a + b) == PassagesAt(nodes, a) + PassagesAt(nodes, b)
  {
  }

  /** `passages`. */
  function NodePassages(nodes: seq<Node>, i: nat): (r: seq<Passage>)
    requires WellFormed(nodes) && i < |nodes|
  {
    PassagesAt(nodes, PassageNodes(nodes, i))
  }

  /** A submodule with a passage collects only that passage; a node without
      children collects its own passage if it has one. */
  lemma PassageNodesCut(nodes: seq<Node>, i: nat)
    requires WellFormed(nodes) && i < |nodes|
    ensures IsSubmodule(nodes, i) && nodes[i].passage.Some? ==> PassageNodes(nodes, i) == [i]
    ensures |nodes[i].children| == 0 ==>
              PassageNodes(nodes, i) == (if nodes[i].passage.Some? then [i] else [])
  {
  }

  /** Every node whose passage a node collects is at least as deep as it. */
  lemma {:induction false} PassageNodesDeeper(nodes: seq<Node>, i: nat)
    requires WellFormed(nodes) && i < |nodes|
    ensures forall k :: 0 <= k < |PassageNodes(nodes, i)| ==>
              Depth(nodes, PassageNodes(nodes, i)[k]) >= Depth(nodes, i)
    decreases |nodes| - i, 1
  {
    ChildPassageNodesDeeper(nodes, i, nodes[i].children);
  }

  lemma {:induction false} ChildPassageNodesDeeper(nodes: seq<Node>, i: nat, cs: seq<nat>)
    requires WellFormed(nodes) && i < |nodes| && Below(nodes, i, cs)
    requires forall k :: 0 <= k < |cs| ==> nodes[cs[k]].parent == Some(i)
    ensures forall k :: 0 <= k < |ChildPassageNodes(nodes, i, cs)| ==>
              Depth(nodes, ChildPassageNodes(nodes, i, cs)[k]) > Depth(nodes, i)
    decreases |nodes| - i, 0, |cs|
  {
    if |cs| > 0 {
      var c := cs[|cs| - 1];
      ChildPassageNodesDeeper(nodes, i, cs[..|cs| - 1]);
      PassageNodesDeeper(nodes, c);
      assert Depth(nodes, c) == Depth(nodes, i) + 1;
    }
  }

  // ---------------------------------------------------------------------
  // Names and paths
  // ---------------------------------------------------------------------

  /** The position among `cs` of the child with fragment `f`, if any. */
  function FindPos(nodes: seq<Node>, cs: seq<nat>, f: string): (r: Option<nat>)
    requires forall k :: 0 <= k < |cs| ==> cs[k] < |nodes|
    ensures r.Some? ==> r.value < |cs| && nodes[cs[r.value]].fragment == f
    ensures r.Some? ==> forall k :: 0 <= k < r.value ==> nodes[cs[k]].fragment != f
    ensures r.None? ==> forall k :: 0 <= k < |cs| ==> nodes[cs[k]].fragment != f
  {
    if |cs| == 0 then None
    else if nodes[cs[|cs| - 1]].fragment == f && FindPos(nodes, cs[..|cs| - 1], f).None? then Some(|cs| - 1)
    else
      var r := FindPos(nodes, cs[..|cs| - 1], f);
      assert forall k :: 0 <= k < |cs| - 1 ==> cs[..|cs| - 1][k] == cs[k];
      r
  }

  /** `self.children[f]`: the child of `i` with fragment `f`, if any. */
  function FindChild(nodes: seq<Node>, i: nat, f: string): (r: Option<nat>)
    requires WellFormed(nodes) && i < |nodes|
    ensures r.Some? ==> i < r.value < |nodes| && nodes[r.value].fragment == f && nodes[r.value].parent == Some(i)
    ensures r.Some? <==> exists k :: 0 <= k < |nodes[i].children| && nodes[nodes[i].children[k]].fragment == f
  {
    match FindPos(nodes, nodes[i].children, f)
    case Some(k) => Some(nodes[i].children[k])
    case None => None
  }

  /** The node reached from `i` by following the fragments of `path`. */
  function Lookup(nodes: seq<Node>, i: nat, path: seq<string>): (r: Option<nat>)
    requires WellFormed(nodes) && i < |nodes|
    ensures r.Some? ==> i <= r.value < |nodes|
    decreases |path|
  {
    if |path| == 0 then Some(i)
    else match FindChild(nodes, i, path[0])
      case None => None
      case Some(c) => Lookup(nodes, c, path[1..])
  }

  /** The fragments from the root down to `j`. */
  ghost function PathFromRoot(nodes: seq<Node>, j: nat): seq<string>
    requires WellFormed(nodes) && j < |nodes|
    decreases j
  {
    if nodes[j].parent.None? then [] else PathFromRoot(nodes, nodes[j].parent.value) + [nodes[j].fragment]
  }

  /** Following a path adds it to the path from the root. */
  lemma {:induction false} LookupPath(nodes: seq<Node>, i: nat, path: seq<string>)
    requires WellFormed(nodes) && i < |nodes| && Lookup(nodes, i, path).Some?
    ensures PathFromRoot(nodes, Lookup(nodes, i, path).value) == PathFromRoot(nodes, i) + path
    decreases |path|
  {
    if |path| > 0 {
      var c := FindChild(nodes, i, path[0]).value;
      LookupPath(nodes, c, path[1..]);
      assert path == [path[0]] + path[1..];
    }
  }

  /** Every prefix of a path that leads somewhere leads somewhere. */
  lemma {:induction false} LookupPrefix(nodes: seq<Node>, i: nat, path: seq<string>, l: nat)
    requires WellFormed(nodes) && i < |nodes| && Lookup(nodes, i, path).Some? && l <= |path|
    ensures Lookup(nodes, i, path[..l]).Some?
    decreases |path|
  {
    if l > 0 {
      var c := FindChild(nodes, i, path[0]).value;
      LookupPrefix(nodes, c, path[1..], l - 1);
      assert path[..l][0] == path[0] && path[..l][1..] == path[1..][..l - 1];
    }
  }

  /** Different paths from the root reach different nodes. */
  lemma LookupInjective(nodes: seq<Node>, p1: seq<string>, p2: seq<string>)
    requires WellFormed(nodes) && Lookup(nodes, 0, p1).Some? && Lookup(nodes, 0, p2).Some?
    requires Lookup(nodes, 0, p1) == Lookup(nodes, 0, p2)
    ensures p1 == p2
  {
    LookupPath(nodes, 0, p1);
    LookupPath(nodes, 0, p2);
    assert PathFromRoot(nodes, 0) == [];
    assert [] + p1 == p1 && [] + p2 == p2;
  }

  /** The fragments `add_passage` follows for a passage name: the part before
      the first `.` while there is a non-empty rest after it, and the
      remaining name as the last fragment. */
  function PathOf(name: string): (r: seq<string>)
    ensures |r| > 0
    decreases |name|
  {
    var (fragment, rest) := SplitName(name);
    if rest == "" then [name]
    else [fragment] + PathOf(rest)
  }

  /** Joining the fragments of a name with `.` gives the name back, so
      distinct names have distinct paths. */
  lemma {:induction false} PathOfJoin(name: string)
    ensures Join(PathOf(name), ".") == name
    decreases |name|
  {
    var (fragment, rest) := SplitName(name);
    if rest != "" {
      PathOfJoin(rest);
      var tail := PathOf(rest);
      assert PathOf(name) == [fragment] + tail;
      assert ([fragment] + tail)[1..] == tail;
    }
  }

  /** `full_name`: `None` at the root; a node whose parent has an empty or
      no name is named by its fragment; any other node by its parent's name,
      a `.` and its fragment. */
  function NodeFullName(nodes: seq<Node>, i: nat): Option<string>
    requires WellFormed(nodes) && i < |nodes|
    decreases i
  {
    if nodes[i].parent.None? then None
    else match NodeFullName(nodes, nodes[i].parent.value)
      case Some(parentName) =>
        if parentName != "" then Some(parentName + "." + nodes[i].fragment) else Some(nodes[i].fragment)
      case None => Some(nodes[i].fragment)
  }

  /** `path` without its leading empty fragments: the suffix that starts
      with a non-empty fragment, or nothing when all are empty. */
  function DropLeadingEmpty(path: seq<string>): (r: seq<string>)
    ensures |r| <= |path| && r == path[|path| - |r|..]
    ensures |r| > 0 ==> r[0] != ""
    ensures forall k :: 0 <= k < |path| - |r| ==> path[k] == ""
  {
    if |path| > 0 && path[0] == "" then
      var r := DropLeadingEmpty(path[1..]);
      assert forall k :: 1 <= k < |path| ==> path[k] == path[1..][k - 1];
      r
    else path
  }

  /** One more fragment after `path`: it is kept when something before it
      is, and dropped exactly when it is empty otherwise. */
  lemma {:induction false} DropLeadingEmptySnoc(path: seq<string>, x: string)
    ensures DropLeadingEmpty(path + [x])
            == if DropLeadingEmpty(path) == [] then DropLeadingEmpty([x]) else DropLeadingEmpty(path) + [x]
  {
    if |path| == 0 {
      assert path + [x] == [x];
    } else if path[0] == "" {
      assert (path + [x])[1..] == path[1..] + [x];
      DropLeadingEmptySnoc(path[1..], x);
    }
  }

  /** A node below the root is named by its fragments from the root joined
      with `.`, once the leading empty fragments are dropped: `if
      parent_name` treats an empty parent name as no name. */
  lemma {:induction false} NodeFullNameJoin(nodes: seq<Node>, i: nat)
    requires WellFormed(nodes) && 0 < i < |nodes|
    ensures NodeFullName(nodes, i) == Some(Join(DropLeadingEmpty(PathFromRoot(nodes, i)), "."))
    decreases i
  {
    var p := nodes[i].parent.value;
    var f := nodes[i].fragment;
    var above := PathFromRoot(nodes, p);
    assert PathFromRoot(nodes, i) == above + [f];
    DropLeadingEmptySnoc(above, f);
    var kept := DropLeadingEmpty(above);
    JoinKept(kept, f);
    if p == 0 {
      assert above == [];
    } else {
      NodeFullNameJoin(nodes, p);
    }
  }

  /** `full_name` one level down, on the joined fragments: a non-empty
      parent name gets `.` and the fragment, an empty one is replaced. */
  lemma JoinKept(kept: seq<string>, f: string)
    requires |kept| > 0 ==> kept[0] != ""
    ensures var parentName := Join(kept, ".");
            (if parentName != "" then parentName + "." + f else f)
            == Join(if kept == [] then DropLeadingEmpty([f]) else kept + [f], ".")
  {
    if kept == [] {
      if f == "" {
        assert DropLeadingEmpty([f]) == DropLeadingEmpty([f][1..]) == [];
      } else {
        assert DropLeadingEmpty([f]) == [f];
      }
    } else {
      JoinSnoc(kept, f, ".");
      JoinNonEmpty(kept, ".");
    }
  }

  /** A node whose first fragment is not empty is named by all its fragments
      from the root joined with `.`. */
  lemma NodeFullNamePlain(nodes: seq<Node>, i: nat)
    requires WellFormed(nodes) && 0 < i < |nodes|
    requires |PathFromRoot(nodes, i)| > 0 && PathFromRoot(nodes, i)[0] != ""
    ensures NodeFullName(nodes, i) == Some(Join(PathFromRoot(nodes, i), "."))
  {
    NodeFullNameJoin(nodes, i);
    var path := PathFromRoot(nodes, i);
    assert DropLeadingEmpty(path) == path[0..];
  }

  /** The name `.x` is filed under an empty fragment and then `x`; its full
      name is `x`, not `.x`. */
  lemma EmptyLeadDropped(nodes: seq<Node>)
    requires nodes == [Node("", None, None, [1]), Node("", Some(0), None, [2]), Node("x", Some(1), None, [])]
    ensures PathFromRoot(nodes, 2) == ["", "x"]
    ensures NodeFullName(nodes, 2) == Some("x") && Join(PathFromRoot(nodes, 2), ".") == ".x"
  {
    assert PathFromRoot(nodes, 1) == [""];
  }
}
