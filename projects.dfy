/** The mutable project tree of twee2tools/projects.py: `ProjectNode`'s
    insertions (`add_child`, `add_passage`), the walks that collect passages
    and issue the writes of `reconstruct`, and `populate_project_tree`. The
    whole tree is one object holding the node arena; a node is an index. */
module Projects {
  import opened Wrappers
  import opened Strings
  import opened Passages
  import OrderedMaps
  import opened ProjectTree
  import opened Reconstruction

  /** An explicit child handed to `add_child`: a new node with its own
      fragment and passage and no children. */
  datatype Leaf = Leaf(fragment: string, passage: Option<Passage>)

  /** The nodes after a new node with `fragment` and `passage` is stored
      under `at`: it takes the place of the child with the same fragment,
      if there is one, and goes after the other children otherwise. */
  function Inserted(nodes: seq<Node>, at: nat, fragment: string, passage: Option<Passage>): seq<Node>
    requires WellFormed(nodes) && at < |nodes|
  {
    var n := |nodes|;
    var cs := nodes[at].children;
    var cs' := match FindPos(nodes, cs, fragment)
      case Some(k) => cs[k := n]
      case None => cs + [n];
    nodes[at := nodes[at].(children := cs')] + [Node(fragment, Some(at), passage, [])]
  }

  lemma InsertedParents(nodes: seq<Node>, at: nat, fragment: string, passage: Option<Passage>)
    requires WellFormed(nodes) && at < |nodes|
    ensures ParentsBefore(Inserted(nodes, at, fragment, passage))
  {
  }

  lemma InsertedLinked(nodes: seq<Node>, at: nat, fragment: string, passage: Option<Passage>)
    requires WellFormed(nodes) && at < |nodes|
    ensures ChildrenLinked(Inserted(nodes, at, fragment, passage))
  {
    var r := Inserted(nodes, at, fragment, passage);
    forall i, k | 0 <= i < |r| && 0 <= k < |r[i].children|
      ensures i < r[i].children[k] < |r| && r[r[i].children[k]].parent == Some(i)
    {
      if i != at {
        assert r[i] == nodes[i];
      }
    }
  }

  lemma InsertedDistinct(nodes: seq<Node>, at: nat, fragment: string, passage: Option<Passage>)
    requires WellFormed(nodes) && at < |nodes|
    ensures ChildrenLinked(Inserted(nodes, at, fragment, passage))
    ensures SiblingsDistinct(Inserted(nodes, at, fragment, passage))
  {
    InsertedLinked(nodes, at, fragment, passage);
    var r := Inserted(nodes, at, fragment, passage);
    var n := |nodes|;
    var cs := nodes[at].children;
    assert forall k :: 0 <= k < |cs| ==> cs[k] < n;
    forall i, k1, k2 | 0 <= i < |r| && 0 <= k1 < k2 < |r[i].children|
      ensures r[r[i].children[k1]].fragment != r[r[i].children[k2]].fragment
    {
      if i != at {
        assert r[i] == nodes[i];
      } else {
        var c1 := r[i].children[k1];
        var c2 := r[i].children[k2];
        assert r[n].fragment == fragment;
        match FindPos(nodes, cs, fragment)
        case Some(k) =>
          assert nodes[cs[k]].fragment == fragment;
        case None =>
      }
    }
  }

  /** Storing a node keeps the tree well formed, and the new node is the
      child under its fragment. */
  lemma InsertedWellFormed(nodes: seq<Node>, at: nat, fragment: string, passage: Option<Passage>)
    requires WellFormed(nodes) && at < |nodes|
    ensures WellFormed(Inserted(nodes, at, fragment, passage))
    ensures FindChild(Inserted(nodes, at, fragment, passage), at, fragment) == Some(|nodes|)
  {
    InsertedParents(nodes, at, fragment, passage);
    InsertedDistinct(nodes, at, fragment, passage);
    var r := Inserted(nodes, at, fragment, passage);
    var cs := nodes[at].children;
    var k: nat := match FindPos(nodes, cs, fragment) case Some(x) => x case None => |cs|;
    assert r[at].children[k] == |nodes|;
    assert r[r[at].children[k]].fragment == fragment;
    var pos := FindPos(r, r[at].children, fragment).value;
    assert pos == k;
  }

  /** `after` extends `before`: every node of `before` keeps its fragment
      and parent, and its children only gain new ones at the end. */
  ghost predicate Grows(before: seq<Node>, after: seq<Node>) {
    && |before| <= |after|
    && forall j :: 0 <= j < |before| ==>
         after[j].fragment == before[j].fragment && after[j].parent == before[j].parent
         && before[j].children <= after[j].children
  }

  /** No passage changes, except at `leaf`; added nodes have no passage. */
  ghost predicate PassagesKept(before: seq<Node>, after: seq<Node>, leaf: nat) {
    forall j :: 0 <= j < |after| && j != leaf ==> after[j].passage == (if j < |before| then before[j].passage else None)
  }

  /** No passage changes; added nodes have no passage. */
  ghost predicate SamePassages(before: seq<Node>, after: seq<Node>) {
    && |before| <= |after|
    && forall j :: 0 <= j < |after| ==> after[j].passage == (if j < |before| then before[j].passage else None)
  }

  lemma PassagesKeptCompose(a: seq<Node>, b: seq<Node>, c: seq<Node>, leaf: nat)
    requires SamePassages(a, b) && PassagesKept(b, c, leaf)
    ensures PassagesKept(a, c, leaf)
  {
  }

  lemma GrowsTransitive(a: seq<Node>, b: seq<Node>, c: seq<Node>)
    requires Grows(a, b) && Grows(b, c)
    ensures Grows(a, c)
  {
    forall j | 0 <= j < |a| ensures a[j].children <= c[j].children {
      assert a[j].children == b[j].children[..|a[j].children|];
      assert b[j].children == c[j].children[..|b[j].children|];
    }
  }

  /** Appending a child is growth and changes no passage. */
  lemma InsertedGrows(nodes: seq<Node>, at: nat, fragment: string)
    requires WellFormed(nodes) && at < |nodes|
    requires FindChild(nodes, at, fragment).None?
    ensures Grows(nodes, Inserted(nodes, at, fragment, None))
    ensures SamePassages(nodes, Inserted(nodes, at, fragment, None))
  {
    assert FindPos(nodes, nodes[at].children, fragment).None?;
  }

  /** A child found before the tree grew is still the one found. */
  lemma FindChildGrows(before: seq<Node>, after: seq<Node>, i: nat, f: string)
    requires WellFormed(before) && WellFormed(after) && Grows(before, after) && i < |before|
    requires FindChild(before, i, f).Some?
    ensures FindChild(after, i, f) == FindChild(before, i, f)
  {
    var cs := before[i].children;
    var cs' := after[i].children;
    var k := FindPos(before, cs, f).value;
    assert cs'[k] == cs[k];
    assert forall x :: 0 <= x < |cs| ==> cs[x] < |before| && cs'[x] == cs[x];
    var r := FindPos(after, cs', f);
    assert r.Some?;
    assert r.value <= k;
    assert r.value == k;
  }

  /** Paths that lead somewhere still lead to the same node after the tree
      grew. */
  lemma {:induction false} LookupGrows(before: seq<Node>, after: seq<Node>, i: nat, path: seq<string>)
    requires WellFormed(before) && WellFormed(after) && Grows(before, after) && i < |before|
    requires Lookup(before, i, path).Some?
    ensures Lookup(after, i, path) == Lookup(before, i, path)
    decreases |path|
  {
    if |path| > 0 {
      FindChildGrows(before, after, i, path[0]);
      LookupGrows(before, after, FindChild(before, i, path[0]).value, path[1..]);
    }
  }

  /** Old nodes keep their path from the root as the tree grows. */
  lemma {:induction false} PathFromRootGrows(before: seq<Node>, after: seq<Node>, j: nat)
    requires WellFormed(before) && WellFormed(after) && Grows(before, after) && j < |before|
    ensures PathFromRoot(after, j) == PathFromRoot(before, j)
    decreases j
  {
    if before[j].parent.Some? {
      PathFromRootGrows(before, after, before[j].parent.value);
    }
  }

  /** Setting a passage leaves the shape of the tree as it was. */
  lemma SetPassageGrows(nodes: seq<Node>, j: nat, p: Passage)
    requires WellFormed(nodes) && j < |nodes|
    ensures WellFormed(nodes[j := nodes[j].(passage := Some(p))])
    ensures Grows(nodes, nodes[j := nodes[j].(passage := Some(p))])
    ensures PassagesKept(nodes, nodes[j := nodes[j].(passage := Some(p))], j)
  {
    var r := nodes[j := nodes[j].(passage := Some(p))];
    assert forall i :: 0 <= i < |r| ==> r[i].children == nodes[i].children && r[i].fragment == nodes[i].fragment;
  }

  /** The node that `name` leads to from the root exists and holds `p`. */
  ghost predicate Holds(nodes: seq<Node>, name: string, p: Passage)
    requires WellFormed(nodes)
  {
    Lookup(nodes, 0, PathOf(name)).Some? && nodes[Lookup(nodes, 0, PathOf(name)).value].passage == Some(p)
  }

  /** Lines of text with one more line. */
  lemma LinesSnoc(lines: seq<string>, x: string)
    ensures Lines(lines + [x]) == Lines(lines) + x + "\n"
  {
    if |lines| > 0 {
      LinesSnoc(lines[1..], x);
      assert (lines + [x])[1..] == lines[1..] + [x];
    } else {
      assert (lines + [x])[1..] == [];
    }
  }

  /** What `add_child(fragment)` without overwrite or explicit child does
      to the nodes is growth without passage changes. */
  lemma ChildAdded(before: seq<Node>, after: seq<Node>, at: nat, fragment: string)
    requires WellFormed(before) && at < |before|
    requires FindChild(before, at, fragment).Some? ==> after == before
    requires FindChild(before, at, fragment).None? ==> after == Inserted(before, at, fragment, None)
    ensures Grows(before, after) && SamePassages(before, after) && after == Step(before, at, fragment)
  {
    if FindChild(before, at, fragment).None? {
      InsertedGrows(before, at, fragment);
    }
  }

  /** The last step of `add_passage`: the passage is set on the child
      found or made under the whole remaining name. */
  lemma PassageSet(before: seq<Node>, mid: seq<Node>, at: nat, name: string, leaf: nat, p: Passage)
    requires WellFormed(before) && WellFormed(mid) && at < |before|
    requires Grows(before, mid) && SamePassages(before, mid)
    requires FindChild(mid, at, name) == Some(leaf)
    requires SplitName(name).1 == "" && mid == Step(before, at, name)
    ensures var after := mid[leaf := mid[leaf].(passage := Some(p))];
            && WellFormed(after) && Grows(before, after) && PassagesKept(before, after, leaf)
            && leaf < |after| && after[leaf].passage == Some(p)
            && Lookup(after, at, PathOf(name)) == Some(leaf)
            && mid == Walked(before, at, PathOf(name))
            && GrowsAlong(before, after, at, PathOf(name))
  {
    var after := mid[leaf := mid[leaf].(passage := Some(p))];
    WalkedName(before, mid, at, name, leaf);
    PassageAlong(before, at, PathOf(name), leaf, p);
    SetPassageGrows(mid, leaf, p);
    assert PathOf(name) == [name];
    assert Lookup(mid, at, [name]) == Some(leaf) by {
      assert [name][1..] == [];
    }
    LookupGrows(mid, after, at, [name]);
    GrowsTransitive(before, mid, after);
    PassagesKeptCompose(before, mid, after, leaf);
  }

  /** The recursive step of `add_passage`: the passage was added below the
      child under the first fragment. */
  lemma PassageBelow(before: seq<Node>, mid: seq<Node>, after: seq<Node>, at: nat, name: string, c: nat, leaf: nat, p: Passage)
    requires WellFormed(before) && WellFormed(mid) && WellFormed(after) && at < |before|
    requires Grows(before, mid) && SamePassages(before, mid)
    requires mid == Step(before, at, SplitName(name).0) && FindChild(mid, at, SplitName(name).0) == Some(c)
    requires SplitName(name).1 != ""
    requires Grows(mid, after) && PassagesKept(mid, after, leaf)
    requires Lookup(after, c, PathOf(SplitName(name).1)) == Some(leaf)
    requires var w := Walked(mid, c, PathOf(SplitName(name).1));
             leaf < |w| && after == w[leaf := w[leaf].(passage := Some(p))]
    ensures Grows(before, after) && PassagesKept(before, after, leaf)
    ensures Lookup(after, at, PathOf(name)) == Some(leaf)
    ensures var w := Walked(before, at, PathOf(name));
            leaf < |w| && after == w[leaf := w[leaf].(passage := Some(p))]
    ensures GrowsAlong(before, after, at, PathOf(name))
  {
    var (fragment, rest) := SplitName(name);
    WalkedName(before, mid, at, name, c);
    PassageAlong(before, at, PathOf(name), leaf, p);
    GrowsTransitive(before, mid, after);
    PassagesKeptCompose(before, mid, after, leaf);
    FindChildGrows(mid, after, at, fragment);
    var path := PathOf(name);
    assert path == [fragment] + PathOf(rest);
    assert path[1..] == PathOf(rest);
  }

  /** `add_child(fragment)` without overwrite or explicit child: the nodes
      as they were when `at` has a child under `fragment`, and with a new
      empty child under it, after the others, otherwise. */
  function Step(nodes: seq<Node>, at: nat, fragment: string): (r: seq<Node>)
    requires WellFormed(nodes) && at < |nodes|
    ensures WellFormed(r) && |nodes| <= |r| && FindChild(r, at, fragment).Some?
  {
    if FindChild(nodes, at, fragment).Some? then nodes
    else
      InsertedWellFormed(nodes, at, fragment, None);
      Inserted(nodes, at, fragment, None)
  }

  /** The nodes once `add_passage` has followed `path` from `at`, before the
      passage is set: each fragment leads on to the child under it, which is
      made when missing. */
  function Walked(nodes: seq<Node>, at: nat, path: seq<string>): (r: seq<Node>)
    requires WellFormed(nodes) && at < |nodes|
    ensures WellFormed(r) && |nodes| <= |r|
    decreases |path|
  {
    if |path| == 0 then nodes
    else
      var mid := Step(nodes, at, path[0]);
      Walked(mid, FindChild(mid, at, path[0]).value, path[1..])
  }

  /** `j` is reached from `at` by a prefix of `path`. */
  ghost predicate Along(nodes: seq<Node>, at: nat, path: seq<string>, j: nat)
    requires WellFormed(nodes) && at < |nodes|
  {
    exists l :: 0 <= l <= |path| && Lookup(nodes, at, path[..l]) == Some(j)
  }

  /** What following `path` from `at` may do to the tree: every added node
      lies on the path and has at most one child, and an old node whose
      children changed lies on the path and gained exactly one child, a new
      node, after the others. */
  ghost predicate GrowsAlong(before: seq<Node>, after: seq<Node>, at: nat, path: seq<string>)
    requires WellFormed(after) && at < |after|
  {
    && (forall j :: |before| <= j < |after| ==> Along(after, at, path, j) && |after[j].children| <= 1)
    && (forall j :: 0 <= j < |before| && j < |after| && after[j].children != before[j].children ==>
          && Along(after, at, path, j)
          && |after[j].children| == |before[j].children| + 1
          && after[j].children[|before[j].children|] >= |before|)
  }

  /** One step of `add_child`: only `at` may change, by one new empty child
      after the others. */
  lemma StepShape(nodes: seq<Node>, at: nat, fragment: string)
    requires WellFormed(nodes) && at < |nodes|
    ensures var r := Step(nodes, at, fragment);
            && Grows(nodes, r) && SamePassages(nodes, r) && |r| <= |nodes| + 1
            && (forall j :: 0 <= j < |nodes| && j != at ==> r[j].children == nodes[j].children)
            && (|r| > |nodes| ==> && FindChild(r, at, fragment) == Some(|nodes|) && r[|nodes|].children == []
                                  && r[at].children == nodes[at].children + [|nodes|])
  {
    if FindChild(nodes, at, fragment).None? {
      InsertedGrows(nodes, at, fragment);
      InsertedWellFormed(nodes, at, fragment, None);
      assert FindPos(nodes, nodes[at].children, fragment).None?;
    }
  }

  /** A node on the rest of the path from the first fragment's child is on
      the whole path from `at`. */
  lemma AlongOuter(nodes: seq<Node>, at: nat, path: seq<string>, c: nat, j: nat)
    requires WellFormed(nodes) && at < |nodes| && |path| > 0
    requires FindChild(nodes, at, path[0]) == Some(c) && Along(nodes, c, path[1..], j)
    ensures Along(nodes, at, path, j)
  {
    var l :| 0 <= l <= |path| - 1 && Lookup(nodes, c, path[1..][..l]) == Some(j);
    var q := path[..l + 1];
    assert q[0] == path[0] && q[1..] == path[1..][..l];
    assert Lookup(nodes, at, q) == Some(j);
  }

  /** `at` itself is on every path from `at`. */
  lemma AlongStart(nodes: seq<Node>, at: nat, path: seq<string>)
    requires WellFormed(nodes) && at < |nodes|
    ensures Along(nodes, at, path, at)
  {
    assert Lookup(nodes, at, path[..0]) == Some(at);
  }

  /** The recursive step of `add_passage` keeps its changes on the path:
      one `add_child` at `at`, then the rest of the path from the child. */
  lemma AlongCompose(before: seq<Node>, mid: seq<Node>, after: seq<Node>, at: nat, path: seq<string>, c: nat)
    requires WellFormed(before) && at < |before| && |path| > 0
    requires mid == Step(before, at, path[0]) && FindChild(mid, at, path[0]) == Some(c)
    requires WellFormed(after) && Grows(mid, after) && GrowsAlong(mid, after, c, path[1..])
    ensures GrowsAlong(before, after, at, path)
  {
    StepShape(before, at, path[0]);
    FindChildGrows(mid, after, at, path[0]);
    forall j | |before| <= j < |after| ensures Along(after, at, path, j) && |after[j].children| <= 1 {
      if j < |mid| {
        assert j == c;
        AlongStart(after, c, path[1..]);
      }
      AlongOuter(after, at, path, c, j);
    }
    forall j | 0 <= j < |before| && j < |after| && after[j].children != before[j].children
      ensures && Along(after, at, path, j)
              && |after[j].children| == |before[j].children| + 1
              && after[j].children[|before[j].children|] >= |before|
    {
      if mid[j].children == before[j].children {
        AlongOuter(after, at, path, c, j);
      } else {
        assert j == at && c == |before|;
        assert after[at].children == mid[at].children;
        AlongStart(after, at, path);
      }
    }
  }

  /** Following a path from `at` grows the tree, reaches a node, and changes
      it only along the path. */
  lemma {:induction false} WalkedGrows(nodes: seq<Node>, at: nat, path: seq<string>)
    requires WellFormed(nodes) && at < |nodes|
    ensures var r := Walked(nodes, at, path);
            Grows(nodes, r) && Lookup(r, at, path).Some? && GrowsAlong(nodes, r, at, path)
    decreases |path|
  {
    if |path| > 0 {
      var mid := Step(nodes, at, path[0]);
      var c := FindChild(mid, at, path[0]).value;
      var r := Walked(mid, c, path[1..]);
      StepShape(nodes, at, path[0]);
      WalkedGrows(mid, c, path[1..]);
      GrowsTransitive(nodes, mid, r);
      FindChildGrows(mid, r, at, path[0]);
      AlongCompose(nodes, mid, r, at, path, c);
    }
  }

  /** Setting a passage moves no node off a path. */
  lemma AlongPassage(before: seq<Node>, w: seq<Node>, at: nat, path: seq<string>, leaf: nat, p: Passage)
    requires WellFormed(w) && at < |w| && leaf < |w| && GrowsAlong(before, w, at, path)
    ensures var after := w[leaf := w[leaf].(passage := Some(p))];
            WellFormed(after) && GrowsAlong(before, after, at, path)
  {
    var after := w[leaf := w[leaf].(passage := Some(p))];
    SetPassageGrows(w, leaf, p);
    forall j | 0 <= j < |w| && Along(w, at, path, j) ensures Along(after, at, path, j) {
      var l :| 0 <= l <= |path| && Lookup(w, at, path[..l]) == Some(j);
      LookupGrows(w, after, at, path[..l]);
    }
  }

  /** `add_passage` follows the first fragment of the name with one
      `add_child`, then the rest of the name from the child. */
  lemma WalkedName(before: seq<Node>, mid: seq<Node>, at: nat, name: string, c: nat)
    requires WellFormed(before) && at < |before|
    requires var f := if SplitName(name).1 == "" then name else SplitName(name).0;
             mid == Step(before, at, f) && FindChild(mid, at, f) == Some(c)
    ensures SplitName(name).1 == "" ==> Walked(before, at, PathOf(name)) == mid
    ensures SplitName(name).1 != "" ==> Walked(before, at, PathOf(name)) == Walked(mid, c, PathOf(SplitName(name).1))
  {
    var path := PathOf(name);
    if SplitName(name).1 == "" {
      assert path == [name] && path[1..] == [];
    } else {
      assert path[1..] == PathOf(SplitName(name).1);
    }
  }

  /** Following a path and setting the passage of a node changes the tree
      only along the path. */
  lemma PassageAlong(before: seq<Node>, at: nat, path: seq<string>, leaf: nat, p: Passage)
    requires WellFormed(before) && at < |before| && leaf < |Walked(before, at, path)|
    ensures var w := Walked(before, at, path);
            WellFormed(w[leaf := w[leaf].(passage := Some(p))])
            && GrowsAlong(before, w[leaf := w[leaf].(passage := Some(p))], at, path)
  {
    WalkedGrows(before, at, path);
    AlongPassage(before, Walked(before, at, path), at, path, leaf, p);
  }

  /** One more child's passages in `passages`. */
  lemma CollectStep(nodes: seq<Node>, i: nat, own: seq<nat>, cs: seq<nat>, k: nat)
    requires WellFormed(nodes) && i < |nodes| && Below(nodes, i, cs) && k < |cs|
    requires forall x :: 0 <= x < |own| ==> own[x] < |nodes| && nodes[own[x]].passage.Some?
    ensures PassagesAt(nodes, own + ChildPassageNodes(nodes, i, cs[..k + 1]))
            == PassagesAt(nodes, own + ChildPassageNodes(nodes, i, cs[..k])) + NodePassages(nodes, cs[k])
  {
    assert cs[..k + 1][..k] == cs[..k];
    assert own + ChildPassageNodes(nodes, i, cs[..k + 1])
        == (own + ChildPassageNodes(nodes, i, cs[..k])) + PassageNodes(nodes, cs[k]);
    PassagesAtAppend(nodes, own + ChildPassageNodes(nodes, i, cs[..k]), PassageNodes(nodes, cs[k]));
  }

  /** One more child's actions in `reconstruct`. */
  lemma ReconstructStep(nodes: seq<Node>, i: nat, cs: seq<nat>, k: nat, dir: Dir, own: seq<Action>, acts: seq<Action>, sub: seq<Action>)
    requires WellFormed(nodes) && i < |nodes| && Below(nodes, i, cs) && k < |cs|
    requires acts == own + ReconstructChildren(nodes, i, cs[..k], dir)
    requires sub == ChildActions(nodes, i, cs[k], dir)
    ensures acts + sub == own + ReconstructChildren(nodes, i, cs[..k + 1], dir)
  {
    assert cs[..k + 1][..k] == cs[..k];
    SeqAssoc(own, ReconstructChildren(nodes, i, cs[..k], dir), sub);
  }

  /** A `ProjectNode` tree: node `0` is the root. */
  class Project {
    var nodes: seq<Node>

    ghost predicate Valid()
      reads this
    {
      WellFormed(nodes)
    }

    /** `ProjectNode(None, None)`: a root without passage or children. */
    constructor ()
      ensures Valid()
      ensures nodes == [Node("", None, None, [])]
    {
      nodes := [Node("", None, None, [])];
    }

    /** `add_child`: an explicit child with another fragment is an error;
        otherwise, unless the fragment is taken and `overwrite` is false, a
        new node (the explicit child, or an empty one) is stored under the
        fragment; the child now stored under the fragment is returned. */
    method AddChild(at: nat, fragment: string, overwrite: bool, child: Option<Leaf>) returns (r: Result<nat>)
      requires Valid() && at < |nodes|
      modifies this
      ensures Valid() && |old(nodes)| <= |nodes|
      ensures child.Some? && child.value.fragment != fragment ==> r.Failure? && nodes == old(nodes)
      ensures child.None? || child.value.fragment == fragment ==> r.Success?
      ensures r.Success? ==> FindChild(nodes, at, fragment) == Some(r.value)
      ensures r.Success? && !overwrite && FindChild(old(nodes), at, fragment).Some? ==> nodes == old(nodes)
      ensures r.Success? && (overwrite || FindChild(old(nodes), at, fragment).None?) ==>
                nodes == Inserted(old(nodes), at, fragment, if child.Some? then child.value.passage else None)
    {
      if child.Some? && fragment != child.value.fragment {
        return Failure("Encountered inconsistent name fragments");
      }
      var found := FindChild(nodes, at, fragment);
      if overwrite || found.None? {
        var passage := if child.Some? then child.value.passage else None;
        InsertedWellFormed(nodes, at, fragment, passage);
        nodes := Inserted(nodes, at, fragment, passage);
        found := FindChild(nodes, at, fragment);
      }
      return Success(found.value);
    }

    /** `add_passage`: follow the fragments of `name` from `at`, creating
        the nodes that are missing, and set the passage of the last node.
        The node reached is returned. */
    method AddPassage(at: nat, p: Passage, name: string) returns (leaf: nat)
      requires Valid() && at < |nodes|
      modifies this
      ensures Valid() && Grows(old(nodes), nodes) && PassagesKept(old(nodes), nodes, leaf)
      ensures leaf < |nodes| && nodes[leaf].passage == Some(p)
      ensures Lookup(nodes, at, PathOf(name)) == Some(leaf)
      ensures var w := Walked(old(nodes), at, PathOf(name));
              leaf < |w| && nodes == w[leaf := w[leaf].(passage := Some(p))]
      ensures GrowsAlong(old(nodes), nodes, at, PathOf(name))
      decreases |name|
    {
      var (fragment, rest) := SplitName(name);
      ghost var before := nodes;
      if rest == "" {
        var r := AddChild(at, name, false, None);
        ChildAdded(before, nodes, at, name);
        leaf := r.value;
        ghost var mid := nodes;
        nodes := nodes[leaf := nodes[leaf].(passage := Some(p))];
        PassageSet(before, mid, at, name, leaf, p);
      } else {
        var r := AddChild(at, fragment, false, None);
        ChildAdded(before, nodes, at, fragment);
        var c := r.value;
        ghost var mid := nodes;
        leaf := AddPassage(c, p, rest);
        PassageBelow(before, mid, nodes, at, name, c, leaf, p);
      }
    }

    /** `passages`: the node's own passage, then, unless the node is a
        submodule with a passage, the passages of its children in order. */
    method CollectPassages(i: nat) returns (ps: seq<Passage>)
      requires Valid() && i < |nodes|
      ensures ps == NodePassages(nodes, i)
      decreases |nodes| - i
    {
      ps := [];
      ghost var own: seq<nat> := [];
      if nodes[i].passage.Some? {
        ps := ps + [nodes[i].passage.value];
        own := [i];
        if IsSubmodule(nodes, i) {
          return;
        }
      }
      var cs := nodes[i].children;
      assert Below(nodes, i, cs);
      for k := 0 to |cs|
        invariant PassagesAt(nodes, own + ChildPassageNodes(nodes, i, cs[..k])) == ps
      {
        var sub := CollectPassages(cs[k]);
        CollectStep(nodes, i, own, cs, k);
        ps := ps + sub;
      }
      assert cs[..|cs|] == cs;
    }

    /** The text `write_includes` puts in `includes.txt`: each include
        followed by a newline. */
    method IncludesText(i: nat) returns (text: string)
      requires Valid() && i < |nodes|
      ensures text == Content(nodes, WriteIncludes([], i))
    {
      var lines := Includes(nodes, i);
      text := "";
      for k := 0 to |lines|
        invariant text == Lines(lines[..k])
      {
        LinesSnoc(lines[..k], lines[k]);
        TakeOneMore(lines, k);
        text := text + lines[k] + "\n";
      }
      assert lines[..|lines|] == lines;
    }

    /** The text `write_passages` puts in `<fragment>.tw2`: each collected
        passage as text followed by a newline. */
    method PassagesText(i: nat) returns (text: string)
      requires Valid() && i < |nodes|
      ensures text == Content(nodes, WritePassages([], i))
    {
      var ps := CollectPassages(i);
      ghost var lines := seq(|ps|, k requires 0 <= k < |ps| => PassageText(ps[k]));
      text := "";
      for k := 0 to |ps|
        invariant text == Lines(lines[..k])
      {
        LinesSnoc(lines[..k], lines[k]);
        TakeOneMore(lines, k);
        text := text + PassageText(ps[k]) + "\n";
      }
      assert lines[..|lines|] == lines;
    }

    /** `reconstruct`: the actions at node `i` in directory `dir`, with the
        recursive calls for its children issued in order. */
    method Reconstruct(i: nat, dir: Dir) returns (acts: seq<Action>)
      requires Valid() && i < |nodes|
      ensures acts == Reconstruction.Reconstruct(nodes, i, dir)
      decreases |nodes| - i, 1
    {
      acts := [];
      if HasIncludes(nodes, i) {
        acts := acts + [MakeDirs(dir), WriteIncludes(dir, i)];
      }
      if IsFile(nodes, i) && !IsSubmodule(nodes, i) {
        acts := acts + [WritePassages(dir, i)];
      }
      ghost var own := acts;
      var cs := nodes[i].children;
      assert Below(nodes, i, cs);
      assert ReconstructChildren(nodes, i, cs[..0], dir) == [];
      for k := 0 to |cs|
        invariant acts == own + ReconstructChildren(nodes, i, cs[..k], dir)
      {
        var sub := ReconstructChild(i, cs[k], dir);
        ReconstructStep(nodes, i, cs, k, dir, own, acts, sub);
        acts := acts + sub;
      }
      assert cs[..|cs|] == cs;
    }

    /** The actions `reconstruct` issues for one child `c` of `i`. */
    method ReconstructChild(i: nat, c: nat, dir: Dir) returns (acts: seq<Action>)
      requires Valid() && i < c < |nodes|
      ensures acts == ChildActions(nodes, i, c, dir)
      decreases |nodes| - i, 0
    {
      if IsDirectory(nodes, c) {
        acts := Reconstruct(c, dir + [nodes[c].fragment]);
        if IsSubmodule(nodes, c) && IsFile(nodes, c) {
          acts := acts + [WritePassages(dir, c)];
        }
      } else if IsFile(nodes, c) {
        acts := Reconstruct(c, dir);
      } else {
        acts := [];
      }
    }
  }

  /** `populate_project_tree`: a root, then each passage of the dictionary
      added under its name, in key order. Every name then leads from the
      root to a node holding its passage, every passage in the tree is the
      passage of a name leading to it, every node lies on the path of a
      name, and the children of each node come in the order in which the
      names first passed them. */
  method PopulateProjectTree(m: OrderedMaps.OrderedMap<string, Passage>) returns (project: Project)
    requires OrderedMaps.Valid(m)
    ensures fresh(project) && project.Valid()
    ensures forall name :: name in m.values ==> Holds(project.nodes, name, m.values[name])
    ensures forall j :: 0 <= j < |project.nodes| && project.nodes[j].passage.Some? ==>
              exists name :: name in m.values && PathFromRoot(project.nodes, j) == PathOf(name)
                             && project.nodes[j].passage == Some(m.values[name])
    ensures OnPaths(project.nodes, m.keys, |m.keys|) && InNameOrder(project.nodes, m.keys, |m.keys|)
  {
    project := new Project();
    PopulatedStart(project.nodes, m);
    for i := 0 to |m.keys|
      invariant fresh(project) && project.Valid() && Populated(project.nodes, m, i)
    {
      var name := m.keys[i];
      assert name in m.values;
      ghost var before := project.nodes;
      var leaf := project.AddPassage(0, m.values[name], name);
      PopulateRound(before, project.nodes, leaf, m, i);
    }
    assert m.keys[..|m.keys|] == m.keys;
  }

  /** What the first `i` rounds of `populate_project_tree` leave: the names
      added lead to their passages, every passage belongs to one of them,
      and the nodes lie on their paths, children in the order the names
      first passed them. */
  ghost predicate Populated(nodes: seq<Node>, m: OrderedMaps.OrderedMap<string, Passage>, i: nat)
    requires i <= |m.keys|
  {
    && WellFormed(nodes)
    && AllHeld(nodes, m, m.keys[..i]) && AllOwned(nodes, m, m.keys[..i])
    && Reached(nodes, m.keys, i) && OnPaths(nodes, m.keys, i) && InNameOrder(nodes, m.keys, i)
  }

  /** The lone root is what no round leaves. */
  lemma PopulatedStart(nodes: seq<Node>, m: OrderedMaps.OrderedMap<string, Passage>)
    requires nodes == [Node("", None, None, [])]
    ensures Populated(nodes, m, 0)
  {
  }

  /** One round of `populate_project_tree`. */
  lemma PopulateRound(before: seq<Node>, after: seq<Node>, leaf: nat, m: OrderedMaps.OrderedMap<string, Passage>, i: nat)
    requires OrderedMaps.Valid(m) && i < |m.keys| && m.keys[i] in m.values && Populated(before, m, i)
    requires WellFormed(after) && Grows(before, after) && PassagesKept(before, after, leaf)
    requires leaf < |after| && after[leaf].passage == Some(m.values[m.keys[i]])
    requires Lookup(after, 0, PathOf(m.keys[i])) == Some(leaf)
    requires GrowsAlong(before, after, 0, PathOf(m.keys[i]))
    ensures Populated(after, m, i + 1)
  {
    PopulateHolds(before, after, leaf, m, i);
    PopulateOwners(before, after, leaf, m, i);
    PopulateReached(before, after, m.keys, i);
    PopulateOnPaths(before, after, m.keys, i);
    PopulateOrder(before, after, m.keys, i);
  }

  /** Every name in `names` leads to its passage in `nodes`. */
  ghost predicate AllHeld(nodes: seq<Node>, m: OrderedMaps.OrderedMap<string, Passage>, names: seq<string>) {
    && WellFormed(nodes)
    && forall name :: name in names && name in m.values ==> Holds(nodes, name, m.values[name])
  }

  /** Every node holding a passage is reached by one of `names`, and holds
      that name's passage. */
  ghost predicate AllOwned(nodes: seq<Node>, m: OrderedMaps.OrderedMap<string, Passage>, names: seq<string>) {
    && WellFormed(nodes)
    && forall j :: 0 <= j < |nodes| && nodes[j].passage.Some? ==>
      exists name :: name in names && name in m.values && PathFromRoot(nodes, j) == PathOf(name)
                     && nodes[j].passage == Some(m.values[name])
  }

  /** One round of `populate_project_tree`: every name added so far still
      leads to its passage. */
  lemma PopulateHolds(before: seq<Node>, after: seq<Node>, leaf: nat, m: OrderedMaps.OrderedMap<string, Passage>, i: nat)
    requires OrderedMaps.Valid(m) && i < |m.keys| && m.keys[i] in m.values
    requires WellFormed(before) && WellFormed(after) && Grows(before, after) && PassagesKept(before, after, leaf)
    requires leaf < |after| && after[leaf].passage == Some(m.values[m.keys[i]])
    requires Lookup(after, 0, PathOf(m.keys[i])) == Some(leaf)
    requires AllHeld(before, m, m.keys[..i])
    ensures AllHeld(after, m, m.keys[..i + 1])
  {
    var key := m.keys[i];
    TakeOneMore(m.keys, i);
    forall name | name in m.keys[..i + 1] && name in m.values ensures Holds(after, name, m.values[name]) {
      if name != key {
        HoldsKept(before, after, leaf, key, name, m.values[name]);
      }
    }
  }

  /** A name other than the one just added still leads to its passage: its
      node is an old one, and not the new name's node, whose path differs. */
  lemma HoldsKept(before: seq<Node>, after: seq<Node>, leaf: nat, key: string, name: string, p: Passage)
    requires WellFormed(before) && WellFormed(after) && Grows(before, after) && PassagesKept(before, after, leaf)
    requires Lookup(after, 0, PathOf(key)) == Some(leaf)
    requires name != key && Holds(before, name, p)
    ensures Holds(after, name, p)
  {
    LookupGrows(before, after, 0, PathOf(name));
    var j := Lookup(after, 0, PathOf(name)).value;
    if j == leaf {
      LookupInjective(after, PathOf(name), PathOf(key));
      PathOfJoin(name);
      PathOfJoin(key);
    }
  }

  /** One round of `populate_project_tree`: every passage in the tree still
      belongs to a name added so far that leads to it. */
  lemma PopulateOwners(before: seq<Node>, after: seq<Node>, leaf: nat, m: OrderedMaps.OrderedMap<string, Passage>, i: nat)
    requires OrderedMaps.Valid(m) && i < |m.keys| && m.keys[i] in m.values
    requires WellFormed(before) && WellFormed(after) && Grows(before, after) && PassagesKept(before, after, leaf)
    requires leaf < |after| && after[leaf].passage == Some(m.values[m.keys[i]])
    requires Lookup(after, 0, PathOf(m.keys[i])) == Some(leaf)
    requires AllOwned(before, m, m.keys[..i])
    ensures AllOwned(after, m, m.keys[..i + 1])
  {
    var key := m.keys[i];
    TakeOneMore(m.keys, i);
    LookupPath(after, 0, PathOf(key));
    assert PathFromRoot(after, leaf) == PathOf(key);
    forall j | 0 <= j < |after| && after[j].passage.Some?
      ensures exists name :: name in m.keys[..i + 1] && name in m.values && PathFromRoot(after, j) == PathOf(name)
                             && after[j].passage == Some(m.values[name])
    {
      if j == leaf {
        assert key in m.keys[..i + 1];
      } else {
        assert j < |before| && before[j].passage == after[j].passage;
        var name :| name in m.keys[..i] && name in m.values && PathFromRoot(before, j) == PathOf(name)
                    && before[j].passage == Some(m.values[name]);
        PathFromRootGrows(before, after, j);
        assert name in m.keys[..i + 1];
      }
    }
  }

  /** The first `n` names lead somewhere from the root. */
  ghost predicate Reached(nodes: seq<Node>, names: seq<string>, n: nat)
    requires WellFormed(nodes) && n <= |names|
  {
    forall x :: 0 <= x < n ==> Lookup(nodes, 0, PathOf(names[x])).Some?
  }

  /** `j` lies on the path of one of the first `n` names. */
  ghost predicate OnSomePath(nodes: seq<Node>, names: seq<string>, n: nat, j: nat)
    requires WellFormed(nodes) && n <= |names|
  {
    exists x :: 0 <= x < n && Along(nodes, 0, PathOf(names[x]), j)
  }

  /** Every node but the root lies on the path of one of the first `n`
      names. */
  ghost predicate OnPaths(nodes: seq<Node>, names: seq<string>, n: nat)
    requires WellFormed(nodes) && n <= |names|
  {
    forall j :: 0 < j < |nodes| ==> OnSomePath(nodes, names, n, j)
  }

  /** Among the first `n` names, one whose path passes `c1` comes before
      every name whose path passes `c2`. */
  ghost predicate EarlierName(nodes: seq<Node>, names: seq<string>, n: nat, c1: nat, c2: nat)
    requires WellFormed(nodes) && n <= |names|
  {
    exists x1 :: && 0 <= x1 < n && Along(nodes, 0, PathOf(names[x1]), c1)
                 && forall x2 :: 0 <= x2 < n && Along(nodes, 0, PathOf(names[x2]), c2) ==> x1 < x2
  }

  /** The children of every node are listed in the order in which the
      first `n` names first passed through them. */
  ghost predicate InNameOrder(nodes: seq<Node>, names: seq<string>, n: nat)
    requires WellFormed(nodes) && n <= |names|
  {
    forall j, k1, k2 :: 0 <= j < |nodes| && 0 <= k1 < k2 < |nodes[j].children| ==>
      EarlierName(nodes, names, n, nodes[j].children[k1], nodes[j].children[k2])
  }

  /** Along a path that already led somewhere, the grown tree has the same
      nodes as before. */
  lemma AlongKept(before: seq<Node>, after: seq<Node>, path: seq<string>, j: nat)
    requires WellFormed(before) && WellFormed(after) && Grows(before, after)
    requires Lookup(before, 0, path).Some?
    ensures Along(after, 0, path, j) <==> Along(before, 0, path, j)
    ensures Along(before, 0, path, j) ==> j < |before|
  {
    forall l | 0 <= l <= |path| ensures Lookup(after, 0, path[..l]) == Lookup(before, 0, path[..l]) {
      LookupPrefix(before, 0, path, l);
      LookupGrows(before, after, 0, path[..l]);
    }
  }

  /** One round of `populate_project_tree`: the names added so far still
      lead somewhere. */
  lemma PopulateReached(before: seq<Node>, after: seq<Node>, names: seq<string>, i: nat)
    requires WellFormed(before) && WellFormed(after) && Grows(before, after) && i < |names|
    requires Reached(before, names, i) && Lookup(after, 0, PathOf(names[i])).Some?
    ensures Reached(after, names, i + 1)
  {
    forall x | 0 <= x < i ensures Lookup(after, 0, PathOf(names[x])).Some? {
      LookupGrows(before, after, 0, PathOf(names[x]));
    }
  }

  /** One round of `populate_project_tree`: the new nodes lie on the new
      name's path, the old ones on the paths they lay on. */
  lemma PopulateOnPaths(before: seq<Node>, after: seq<Node>, names: seq<string>, i: nat)
    requires WellFormed(before) && WellFormed(after) && Grows(before, after) && i < |names|
    requires GrowsAlong(before, after, 0, PathOf(names[i]))
    requires Reached(before, names, i) && OnPaths(before, names, i)
    ensures OnPaths(after, names, i + 1)
  {
    var n := i + 1;
    forall j | 0 < j < |after| ensures OnSomePath(after, names, n, j) {
      if j >= |before| {
        assert Along(after, 0, PathOf(names[i]), j);
      } else {
        OnSomePathKept(before, after, names, i, j);
      }
    }
  }

  /** An old node on an earlier name's path stays on it. */
  lemma OnSomePathKept(before: seq<Node>, after: seq<Node>, names: seq<string>, i: nat, j: nat)
    requires WellFormed(before) && WellFormed(after) && Grows(before, after) && i < |names|
    requires Reached(before, names, i) && OnSomePath(before, names, i, j)
    ensures OnSomePath(after, names, i + 1, j)
  {
    var x :| 0 <= x < i && Along(before, 0, PathOf(names[x]), j);
    AlongKept(before, after, PathOf(names[x]), j);
  }

  /** One round of `populate_project_tree`: children keep their order, and
      a child added now, after the others, is passed only by the new name,
      which comes after every earlier one. */
  lemma PopulateOrder(before: seq<Node>, after: seq<Node>, names: seq<string>, i: nat)
    requires WellFormed(before) && WellFormed(after) && Grows(before, after) && i < |names|
    requires GrowsAlong(before, after, 0, PathOf(names[i]))
    requires Reached(before, names, i) && OnPaths(before, names, i) && InNameOrder(before, names, i)
    ensures InNameOrder(after, names, i + 1)
  {
    var n := i + 1;
    forall j, k1, k2 | 0 <= j < |after| && 0 <= k1 < k2 < |after[j].children|
      ensures EarlierName(after, names, n, after[j].children[k1], after[j].children[k2])
    {
      OrderPair(before, after, names, i, j, k1, k2);
    }
  }

  /** `PopulateOrder` for the children at `k1` and `k2` of `j`. */
  lemma OrderPair(before: seq<Node>, after: seq<Node>, names: seq<string>, i: nat, j: nat, k1: nat, k2: nat)
    requires WellFormed(before) && WellFormed(after) && Grows(before, after) && i < |names|
    requires GrowsAlong(before, after, 0, PathOf(names[i]))
    requires Reached(before, names, i) && OnPaths(before, names, i) && InNameOrder(before, names, i)
    requires j < |after| && k1 < k2 < |after[j].children|
    ensures EarlierName(after, names, i + 1, after[j].children[k1], after[j].children[k2])
  {
    AddedChildren(before, after, 0, PathOf(names[i]), j, k2);
    if j >= |before| {
      assert false;
    }
    var c1, c2 := after[j].children[k1], after[j].children[k2];
    var bc := before[j].children;
    assert c1 == bc[k1];
    if k2 < |bc| {
      assert c2 == bc[k2];
      OrderKept(before, after, names, i, c1, c2);
    } else {
      OrderNew(before, after, names, i, c1, c2);
    }
  }

  /** A new node has at most one child, and the children an old node
      gained are new nodes. */
  lemma AddedChildren(before: seq<Node>, after: seq<Node>, at: nat, path: seq<string>, j: nat, k: nat)
    requires WellFormed(after) && at < |after| && Grows(before, after) && GrowsAlong(before, after, at, path)
    requires j < |after| && k < |after[j].children|
    ensures j >= |before| ==> |after[j].children| <= 1
    ensures j < |before| && k >= |before[j].children| ==> after[j].children[k] >= |before|
  {
    if j < |before| && k >= |before[j].children| {
      assert after[j].children != before[j].children;
    }
  }

  /** Two old nodes keep their order of first passing. */
  lemma OrderKept(before: seq<Node>, after: seq<Node>, names: seq<string>, i: nat, c1: nat, c2: nat)
    requires WellFormed(before) && WellFormed(after) && Grows(before, after) && i < |names|
    requires Reached(before, names, i) && EarlierName(before, names, i, c1, c2)
    ensures EarlierName(after, names, i + 1, c1, c2)
  {
    var x1 :| && 0 <= x1 < i && Along(before, 0, PathOf(names[x1]), c1)
              && forall x2 :: 0 <= x2 < i && Along(before, 0, PathOf(names[x2]), c2) ==> x1 < x2;
    AlongKept(before, after, PathOf(names[x1]), c1);
    forall x2 | 0 <= x2 < i + 1 && Along(after, 0, PathOf(names[x2]), c2) ensures x1 < x2 {
      if x2 < i {
        AlongKept(before, after, PathOf(names[x2]), c2);
      }
    }
  }

  /** An old node comes before a new one: only the new name passes the new
      node. */
  lemma OrderNew(before: seq<Node>, after: seq<Node>, names: seq<string>, i: nat, c1: nat, c2: nat)
    requires WellFormed(before) && WellFormed(after) && Grows(before, after) && i < |names|
    requires Reached(before, names, i) && OnSomePath(before, names, i, c1) && c2 >= |before|
    ensures EarlierName(after, names, i + 1, c1, c2)
  {
    var x1 :| 0 <= x1 < i && Along(before, 0, PathOf(names[x1]), c1);
    AlongKept(before, after, PathOf(names[x1]), c1);
    forall x2 | 0 <= x2 < i + 1 && Along(after, 0, PathOf(names[x2]), c2) ensures x1 < x2 {
      if x2 < i {
        AlongKept(before, after, PathOf(names[x2]), c2);
        assert false;
      }
    }
  }
}
