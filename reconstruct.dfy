/** What `ProjectNode.reconstruct` does to the file system, as the list of
    actions it performs in order: making a directory, writing a node's
    `includes.txt`, writing a node's `<fragment>.tw2`. Directories are
    sequences of path components below the directory the walk starts in. */
module Reconstruction {
  import opened Strings
  import opened Passages
  import opened ProjectTree

  type Dir = seq<string>

  datatype Action =
    | MakeDirs(dir: Dir)                  // `util.mkdir_p(root)`
    | WriteIncludes(dir: Dir, node: nat)  // `write_includes(root)`
    | WritePassages(dir: Dir, node: nat)  // `write_passages(root)`

  /** The name of the file an action writes. */
  function FileName(nodes: seq<Node>, a: Action): string
    requires !a.MakeDirs? && a.node < |nodes|
  {
    if a.WriteIncludes? then "includes.txt" else nodes[a.node].fragment + ".tw2"
  }

  /** Each line followed by a newline. */
  function Lines(lines: seq<string>): string {
    if |lines| == 0 then "" else lines[0] + "\n" + Lines(lines[1..])
  }

  /** What an action writes: the includes one per line, or the text of each
      collected passage followed by a newline. */
  function Content(nodes: seq<Node>, a: Action): string
    requires WellFormed(nodes) && !a.MakeDirs? && a.node < |nodes|
  {
    if a.WriteIncludes? then Lines(Includes(nodes, a.node))
    else
      var ps := NodePassages(nodes, a.node);
      Lines(seq(|ps|, k requires 0 <= k < |ps| => PassageText(ps[k])))
  }

  /** The actions of `reconstruct` at node `i` with `dir` as its directory:
      its own directory and includes if it has includes, its own passages if
      it is a file but not a submodule, then what its children do. */
  function Reconstruct(nodes: seq<Node>, i: nat, dir: Dir): seq<Action>
    requires WellFormed(nodes) && i < |nodes|
    decreases |nodes| - i, 1
  {
    (if HasIncludes(nodes, i) then [MakeDirs(dir), WriteIncludes(dir, i)] else [])
    + (if IsFile(nodes, i) && !IsSubmodule(nodes, i) then [WritePassages(dir, i)] else [])
    + ReconstructChildren(nodes, i, nodes[i].children, dir)
  }

  /** The actions for the children `cs` of `i`, in order. */
  function ReconstructChildren(nodes: seq<Node>, i: nat, cs: seq<nat>, dir: Dir): seq<Action>
    requires WellFormed(nodes) && i < |nodes| && Below(nodes, i, cs)
    decreases |nodes| - i, 0, |cs|
  {
    if |cs| == 0 then []
    else ReconstructChildren(nodes, i, cs[..|cs| - 1], dir) + ChildActions(nodes, i, cs[|cs| - 1], dir)
  }

  /** The actions for one child `c` of `i`: a module or submodule is
      reconstructed in a directory named by its fragment, and a submodule
      that is a file also gets its `.tw2` next to that directory; a file is
      reconstructed in `dir` itself; any other child does nothing. */
  function ChildActions(nodes: seq<Node>, i: nat, c: nat, dir: Dir): seq<Action>
    requires WellFormed(nodes) && i < c < |nodes|
    decreases |nodes| - i, 0, 0
  {
    if IsDirectory(nodes, c) then
      Reconstruct(nodes, c, dir + [nodes[c].fragment])
      + (if IsSubmodule(nodes, c) && IsFile(nodes, c) then [WritePassages(dir, c)] else [])
    else if IsFile(nodes, c) then Reconstruct(nodes, c, dir)
    else []
  }

  // ---------------------------------------------------------------------
  // Which nodes are written
  // ---------------------------------------------------------------------

  /** Includes are written only for nodes that have includes, passages only
      for file nodes. */
  ghost predicate WellAimed(nodes: seq<Node>, acts: seq<Action>)
    requires WellFormed(nodes)
  {
    forall k :: 0 <= k < |acts| && !acts[k].MakeDirs? ==>
      && acts[k].node < |nodes|
      && (acts[k].WriteIncludes? ==> HasIncludes(nodes, acts[k].node))
      && (acts[k].WritePassages? ==> IsFile(nodes, acts[k].node))
  }

  lemma AimedAppend(nodes: seq<Node>, a: seq<Action>, b: seq<Action>)
    requires WellFormed(nodes) && WellAimed(nodes, a) && WellAimed(nodes, b)
    ensures WellAimed(nodes, a + b)
  {
    forall k | |a| <= k < |a + b| ensures (a + b)[k] == b[k - |a|] {}
  }

  /** `reconstruct` writes includes only for root, modules and submodules,
      and passages only for files. */
  lemma {:induction false} ReconstructAimed(nodes: seq<Node>, i: nat, dir: Dir)
    requires WellFormed(nodes) && i < |nodes|
    ensures WellAimed(nodes, Reconstruct(nodes, i, dir))
    decreases |nodes| - i, 1
  {
    var own := (if HasIncludes(nodes, i) then [MakeDirs(dir), WriteIncludes(dir, i)] else [])
               + (if IsFile(nodes, i) && !IsSubmodule(nodes, i) then [WritePassages(dir, i)] else []);
    ChildrenAimed(nodes, i, nodes[i].children, dir);
    AimedAppend(nodes, own, ReconstructChildren(nodes, i, nodes[i].children, dir));
  }

  lemma {:induction false} ChildrenAimed(nodes: seq<Node>, i: nat, cs: seq<nat>, dir: Dir)
    requires WellFormed(nodes) && i < |nodes| && Below(nodes, i, cs)
    ensures WellAimed(nodes, ReconstructChildren(nodes, i, cs, dir))
    decreases |nodes| - i, 0, |cs|
  {
    if |cs| > 0 {
      ChildrenAimed(nodes, i, cs[..|cs| - 1], dir);
      ChildAimed(nodes, i, cs[|cs| - 1], dir);
      AimedAppend(nodes, ReconstructChildren(nodes, i, cs[..|cs| - 1], dir), ChildActions(nodes, i, cs[|cs| - 1], dir));
    }
  }

  lemma {:induction false} ChildAimed(nodes: seq<Node>, i: nat, c: nat, dir: Dir)
    requires WellFormed(nodes) && i < c < |nodes|
    ensures WellAimed(nodes, ChildActions(nodes, i, c, dir))
    decreases |nodes| - i, 0, 0
  {
    if IsDirectory(nodes, c) {
      ReconstructAimed(nodes, c, dir + [nodes[c].fragment]);
      var tail := if IsSubmodule(nodes, c) && IsFile(nodes, c) then [WritePassages(dir, c)] else [];
      AimedAppend(nodes, Reconstruct(nodes, c, dir + [nodes[c].fragment]), tail);
    } else if IsFile(nodes, c) {
      ReconstructAimed(nodes, c, dir);
    }
  }

  /** No passage of a depth-1 module is ever written: every `.tw2` file
      belongs to a file node, and a file node collects only passages at its
      own depth (2 or more) or below. */
  lemma ModulePassagesNotWritten(nodes: seq<Node>, dir: Dir, k: nat, m: nat)
    requires WellFormed(nodes) && k < |Reconstruct(nodes, 0, dir)|
    requires Reconstruct(nodes, 0, dir)[k].WritePassages?
    requires m < |nodes| && IsModule(nodes, m)
    ensures Reconstruct(nodes, 0, dir)[k].node < |nodes|
    ensures m !in PassageNodes(nodes, Reconstruct(nodes, 0, dir)[k].node)
  {
    ReconstructAimed(nodes, 0, dir);
    var c := Reconstruct(nodes, 0, dir)[k].node;
    Classification(nodes, c);
    PassageNodesDeeper(nodes, c);
  }

  // ---------------------------------------------------------------------
  // Every listed file is written
  // ---------------------------------------------------------------------

  /** The actions for the children contain those of each child. */
  lemma {:induction false} ChildrenContain(nodes: seq<Node>, i: nat, cs: seq<nat>, dir: Dir, k: nat, a: Action)
    requires WellFormed(nodes) && i < |nodes| && Below(nodes, i, cs) && k < |cs|
    requires a in ChildActions(nodes, i, cs[k], dir)
    ensures a in ReconstructChildren(nodes, i, cs, dir)
    decreases |cs|
  {
    if k < |cs| - 1 {
      assert cs[..|cs| - 1][k] == cs[k];
      ChildrenContain(nodes, i, cs[..|cs| - 1], dir, k, a);
    }
  }

  /** Reconstructing a node writes the includes file of every directory
      child in that child's directory, and the `.tw2` of every file child
      in the node's own directory: whatever the node's includes list is
      written. */
  lemma ChildrenWritten(nodes: seq<Node>, i: nat, dir: Dir, k: nat)
    requires WellFormed(nodes) && i < |nodes| && k < |nodes[i].children|
    ensures var c := nodes[i].children[k];
            var acts := Reconstruct(nodes, i, dir);
            && (IsDirectory(nodes, c) ==> WriteIncludes(dir + [nodes[c].fragment], c) in acts)
            && (IsFile(nodes, c) ==> WritePassages(dir, c) in acts)
  {
    var c := nodes[i].children[k];
    var cs := nodes[i].children;
    var own := (if HasIncludes(nodes, i) then [MakeDirs(dir), WriteIncludes(dir, i)] else [])
               + (if IsFile(nodes, i) && !IsSubmodule(nodes, i) then [WritePassages(dir, i)] else []);
    assert Reconstruct(nodes, i, dir) == own + ReconstructChildren(nodes, i, cs, dir);
    ChildWritten(nodes, i, k, dir);
    if IsDirectory(nodes, c) {
      ChildrenContain(nodes, i, cs, dir, k, WriteIncludes(dir + [nodes[c].fragment], c));
    }
    if IsFile(nodes, c) {
      ChildrenContain(nodes, i, cs, dir, k, WritePassages(dir, c));
    }
  }

  /** The actions for child `k` of `i` write its includes file when it is a
      directory, and its `.tw2` when it is a file. */
  lemma ChildWritten(nodes: seq<Node>, i: nat, k: nat, dir: Dir)
    requires WellFormed(nodes) && i < |nodes| && k < |nodes[i].children|
    ensures nodes[i].children[k] > i
    ensures var c := nodes[i].children[k];
            var mine := ChildActions(nodes, i, c, dir);
            && (IsDirectory(nodes, c) ==> WriteIncludes(dir + [nodes[c].fragment], c) in mine)
            && (IsFile(nodes, c) ==> WritePassages(dir, c) in mine)
  {
    var c := nodes[i].children[k];
    assert nodes[c].parent.Some? && nodes[c].parent.value == i;
    ChildDepth(nodes, i, k);
    Classification(nodes, c);
    ReconstructStarts(nodes, c, dir);
    ReconstructStarts(nodes, c, dir + [nodes[c].fragment]);
  }

  /** The first actions at a node: making its directory and writing its
      includes when it has includes, otherwise writing its passages when it
      is a file but not a submodule. */
  lemma ReconstructStarts(nodes: seq<Node>, c: nat, dir: Dir)
    requires WellFormed(nodes) && c < |nodes|
    ensures var acts := Reconstruct(nodes, c, dir);
            && (HasIncludes(nodes, c) ==> |acts| >= 2 && acts[0] == MakeDirs(dir) && acts[1] == WriteIncludes(dir, c))
            && (!HasIncludes(nodes, c) && IsFile(nodes, c) && !IsSubmodule(nodes, c) ==>
                  |acts| >= 1 && acts[0] == WritePassages(dir, c))
  {
  }

  // ---------------------------------------------------------------------
  // Directories exist before files are written into them
  // ---------------------------------------------------------------------

  /** The directories made by `acts`. */
  function DirsMade(acts: seq<Action>): set<Dir> {
    if |acts| == 0 then {}
    else DirsMade(acts[..|acts| - 1]) + (if acts[|acts| - 1].MakeDirs? then {acts[|acts| - 1].dir} else {})
  }

  lemma {:induction false} DirsMadeAppend(a: seq<Action>, b: seq<Action>)
    ensures DirsMade(a + b) == DirsMade(a) + DirsMade(b)
    decreases |b|
  {
    if |b| == 0 {
      assert a + b == a;
    } else {
      DirsMadeAppend(a, b[..|b| - 1]);
      assert (a + b)[..|a + b| - 1] == a + b[..|b| - 1];
    }
  }

  /** Every write in `acts` goes into `dir` or into a directory made
      earlier in `acts`. */
  ghost predicate ReadyIn(acts: seq<Action>, dir: Dir) {
    forall k :: 0 <= k < |acts| && !acts[k].MakeDirs? ==>
      acts[k].dir == dir || acts[k].dir in DirsMade(acts[..k])
  }

  lemma ReadyAppend(a: seq<Action>, b: seq<Action>, dir: Dir)
    requires ReadyIn(a, dir) && ReadyIn(b, dir)
    ensures ReadyIn(a + b, dir)
  {
    var ab := a + b;
    forall k | 0 <= k < |ab| && !ab[k].MakeDirs?
      ensures ab[k].dir == dir || ab[k].dir in DirsMade(ab[..k])
    {
      if k >= |a| {
        assert ab[k] == b[k - |a|];
        assert ab[..k] == a + b[..k - |a|];
        DirsMadeAppend(a, b[..k - |a|]);
      } else {
        assert ab[..k] == a[..k];
      }
    }
  }

  /** Actions that first make `sub` and otherwise write into `sub` or into
      directories they made write only into directories they made. */
  lemma ReadyAfterMake(acts: seq<Action>, sub: Dir, dir: Dir)
    requires ReadyIn(acts, sub) && |acts| > 0 && acts[0] == MakeDirs(sub)
    ensures ReadyIn(acts, dir)
  {
    forall k | 0 <= k < |acts| && !acts[k].MakeDirs?
      ensures acts[k].dir in DirsMade(acts[..k])
    {
      assert acts[..k] == [acts[0]] + acts[1..k];
      DirsMadeAppend([acts[0]], acts[1..k]);
      assert [acts[0]][..0] == [];
    }
  }

  lemma {:induction false} ReconstructReadyIn(nodes: seq<Node>, i: nat, dir: Dir)
    requires WellFormed(nodes) && i < |nodes|
    ensures ReadyIn(Reconstruct(nodes, i, dir), dir)
    ensures HasIncludes(nodes, i) ==> Reconstruct(nodes, i, dir)[0] == MakeDirs(dir)
    decreases |nodes| - i, 1
  {
    var own := (if HasIncludes(nodes, i) then [MakeDirs(dir), WriteIncludes(dir, i)] else [])
               + (if IsFile(nodes, i) && !IsSubmodule(nodes, i) then [WritePassages(dir, i)] else []);
    assert ReadyIn(own, dir);
    ChildrenReadyIn(nodes, i, nodes[i].children, dir);
    ReadyAppend(own, ReconstructChildren(nodes, i, nodes[i].children, dir), dir);
  }

  lemma {:induction false} ChildrenReadyIn(nodes: seq<Node>, i: nat, cs: seq<nat>, dir: Dir)
    requires WellFormed(nodes) && i < |nodes| && Below(nodes, i, cs)
    ensures ReadyIn(ReconstructChildren(nodes, i, cs, dir), dir)
    decreases |nodes| - i, 0, |cs|
  {
    if |cs| > 0 {
      ChildrenReadyIn(nodes, i, cs[..|cs| - 1], dir);
      ChildReadyIn(nodes, i, cs[|cs| - 1], dir);
      ReadyAppend(ReconstructChildren(nodes, i, cs[..|cs| - 1], dir), ChildActions(nodes, i, cs[|cs| - 1], dir), dir);
    } else {
      assert ReconstructChildren(nodes, i, cs, dir) == [];
    }
  }

  lemma {:induction false} ChildReadyIn(nodes: seq<Node>, i: nat, c: nat, dir: Dir)
    requires WellFormed(nodes) && i < c < |nodes|
    ensures ReadyIn(ChildActions(nodes, i, c, dir), dir)
    decreases |nodes| - i, 0, 0
  {
    if IsDirectory(nodes, c) {
      var sub := dir + [nodes[c].fragment];
      ReconstructReadyIn(nodes, c, sub);
      ReadyAfterMake(Reconstruct(nodes, c, sub), sub, dir);
      var tail := if IsSubmodule(nodes, c) && IsFile(nodes, c) then [WritePassages(dir, c)] else [];
      assert ReadyIn(tail, dir);
      ReadyAppend(Reconstruct(nodes, c, sub), tail, dir);
    } else if IsFile(nodes, c) {
      ReconstructReadyIn(nodes, c, dir);
    } else {
      assert ChildActions(nodes, i, c, dir) == [];
    }
  }

  /** Reconstructing from the root makes every directory before writing any
      file into it. */
  lemma ReconstructReady(nodes: seq<Node>, dir: Dir)
    requires WellFormed(nodes)
    ensures forall k :: 0 <= k < |Reconstruct(nodes, 0, dir)| && !Reconstruct(nodes, 0, dir)[k].MakeDirs? ==>
              Reconstruct(nodes, 0, dir)[k].dir in DirsMade(Reconstruct(nodes, 0, dir)[..k])
  {
    ReconstructReadyIn(nodes, 0, dir);
    var acts := Reconstruct(nodes, 0, dir);
    assert HasIncludes(nodes, 0);
    ReadyAfterMake(acts, dir, dir);
    forall k | 0 <= k < |acts| && !acts[k].MakeDirs?
      ensures acts[k].dir in DirsMade(acts[..k])
    {
      assert acts[..k] == [acts[0]] + acts[1..k];
      DirsMadeAppend([acts[0]], acts[1..k]);
      assert [acts[0]][..0] == [];
    }
  }

  // ---------------------------------------------------------------------
  // Running the actions
  // ---------------------------------------------------------------------

  /** The directories and the file contents, a file named by its directory
      and its name. */
  datatype FileSystem = FileSystem(dirs: set<Dir>, files: map<(Dir, string), string>)

  /** The files `acts` write, each with the content of the last write. */
  function Written(nodes: seq<Node>, acts: seq<Action>): map<(Dir, string), string>
    requires WellFormed(nodes)
    requires forall k :: 0 <= k < |acts| && !acts[k].MakeDirs? ==> acts[k].node < |nodes|
  {
    if |acts| == 0 then map[]
    else
      var a := acts[|acts| - 1];
      var before := Written(nodes, acts[..|acts| - 1]);
      if a.MakeDirs? then before else before[(a.dir, FileName(nodes, a)) := Content(nodes, a)]
  }

  /** The file system after performing `acts` one after the other: a
      directory is made, a file is created or overwritten. */
  function Apply(nodes: seq<Node>, fs: FileSystem, acts: seq<Action>): (r: FileSystem)
    requires WellFormed(nodes)
    requires forall k :: 0 <= k < |acts| && !acts[k].MakeDirs? ==> acts[k].node < |nodes|
    ensures r == FileSystem(fs.dirs + DirsMade(acts), fs.files + Written(nodes, acts))
  {
    if |acts| == 0 then fs
    else
      var a := acts[|acts| - 1];
      var before := Apply(nodes, fs, acts[..|acts| - 1]);
      if a.MakeDirs? then FileSystem(before.dirs + {a.dir}, before.files)
      else
        var key := (a.dir, FileName(nodes, a));
        UpdateUnion(fs.files, Written(nodes, acts[..|acts| - 1]), key, Content(nodes, a));
        FileSystem(before.dirs, before.files[key := Content(nodes, a)])
  }

  /** Writing a file over the union of two maps writes it over the second. */
  lemma UpdateUnion<K, V>(m1: map<K, V>, m2: map<K, V>, k: K, v: V)
    ensures (m1 + m2)[k := v] == m1 + m2[k := v]
  {
  }

  /** Running the same actions twice leaves the file system as running them
      once: a rerun of `reconstruct` on the same tree overwrites every file
      with the same content. */
  lemma ApplyIdempotent(nodes: seq<Node>, fs: FileSystem, acts: seq<Action>)
    requires WellFormed(nodes)
    requires forall k :: 0 <= k < |acts| && !acts[k].MakeDirs? ==> acts[k].node < |nodes|
    ensures Apply(nodes, Apply(nodes, fs, acts), acts) == Apply(nodes, fs, acts)
  {
    var w := Written(nodes, acts);
    assert (fs.files + w) + w == fs.files + w;
  }

  /** In particular, reconstructing a tree twice is the same as once. */
  lemma ReconstructIdempotent(nodes: seq<Node>, fs: FileSystem, dir: Dir)
    requires WellFormed(nodes)
    ensures var acts := Reconstruct(nodes, 0, dir);
            (forall k :: 0 <= k < |acts| && !acts[k].MakeDirs? ==> acts[k].node < |nodes|)
            && Apply(nodes, Apply(nodes, fs, acts), acts) == Apply(nodes, fs, acts)
  {
    ReconstructAimed(nodes, 0, dir);
    ApplyIdempotent(nodes, fs, Reconstruct(nodes, 0, dir));
  }
}
