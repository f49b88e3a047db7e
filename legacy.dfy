/** The older single-file splitter, twee/parse_twee.py. Its passage model,
    header parser, line parser, natural sort key and project tree are the
    same code as in twee2tools and are modelled once, in Passages, Natural and
    Projects; what it adds is `process_file`, which chains them. */
module LegacyTwee {
  import opened Wrappers
  import opened Passages
  import OrderedMaps
  import opened ProjectTree
  import opened Projects

  /** `process_file` from the lines of the file on: parse the lines (failing
      as `parse_lines` does), keep and order the passages that belong in a
      project, keyed by their final names, and build the project tree from
      them. Every kept passage is then reached by its name's path, every
      passage in the tree is one of them, every node lies on one of their
      paths, and children come in the order the names first passed them. */
  method ProcessFile(lines: seq<string>) returns (r: Result<Project>)
    ensures ParseLinesSpec(lines).Failure? ==> r == Failure(ParseLinesSpec(lines).error)
    ensures ParseLinesSpec(lines).Success? ==>
              var m := FilterPassages(ParseLinesSpec(lines).value);
              && r.Success? && fresh(r.value) && r.value.Valid()
              && (forall name :: name in m.values ==> Holds(r.value.nodes, name, m.values[name]))
              && (forall j :: 0 <= j < |r.value.nodes| && r.value.nodes[j].passage.Some? ==>
                    exists name :: name in m.values && PathFromRoot(r.value.nodes, j) == PathOf(name)
                                   && r.value.nodes[j].passage == Some(m.values[name]))
              && OnPaths(r.value.nodes, m.keys, |m.keys|) && InNameOrder(r.value.nodes, m.keys, |m.keys|)
  {
    var parsed := ParseLines(lines);
    if parsed.Failure? {
      return Failure(parsed.error);
    }
    var kept := FilterPassages(parsed.value);
    var tree := PopulateProjectTree(kept);
    return Success(tree);
  }
}
