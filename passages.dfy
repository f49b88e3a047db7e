/** The Twee2 passage model of twee2tools/passages.py: dotted passage names,
    the passage record and its header line, the header-line pattern, the
    line-list parser and the filter that keys the passages of a project by
    their final names. */
module Passages {
  import opened Wrappers
  import opened Strings
  import opened Segments
  import opened Natural
  import opened Sorting
  import opened OrderedMaps
  import opened HeaderLines

  /** The separator of the parts of a dotted passage name. */
  const NameDelimiter: char := '.'

  /** Passage names and tags that never end up in a project file. */
  const SpecialPassages: set<string> :=
    {"Start", "StorySubtitle", "StoryAuthor", "StoryMenu", "StorySettings", "StoryIncludes"}
  const SpecialTags: set<string> := {"stylesheet", "script", "haml", "twee2"}

  /** Passage names and tags of the project-level passages. */
  const ProjectPassages: set<string> :=
    {"PassageDone", "PassageHeader", "PassageFooter", "PassageReady",
     "Start", "StoryAuthor", "StoryBanner", "StoryCaption", "StoryInit",
     "StoryInterface", "StoryMenu", "StorySettings", "StoryShare",
     "StorySubtitle", "StoryTitle", "StoryIncludes"}
  const ProjectTags: set<string> := {"script", "stylesheet", "widget"}

  /** The module that project-level passages are moved into. */
  const ProjectModule: string := "stella"

  /** The first fragment of a dotted name and the rest of the name after the
      first delimiter (`''` when there is none). */
  function SplitName(name: string): (r: (string, string))
    ensures NameDelimiter !in r.0
    ensures NameDelimiter in name ==> name == r.0 + [NameDelimiter] + r.1
    ensures NameDelimiter !in name ==> r == (name, "")
  {
    Partition(name, NameDelimiter)
  }

  /** A passage: its name, tags, geometry and content lines. */
  datatype Passage = Passage(name: string, tags: seq<string>, geometry: seq<string>, content: seq<string>)

  /** The `Passage` constructor as the parser calls it: a missing tag list or
      geometry becomes empty, and the content starts empty. */
  function NewPassage(name: string, tags: Option<seq<string>>, geometry: Option<seq<string>>): (p: Passage)
    ensures p.name == name && p.content == []
    ensures tags.Some? ==> p.tags == tags.value
    ensures tags.None? ==> p.tags == []
    ensures geometry.Some? ==> p.geometry == geometry.value
    ensures geometry.None? ==> p.geometry == []
  {
    Passage(name, tags.GetOr([]), geometry.GetOr([]), [])
  }

  /** The header line of a passage. */
  function PassageHeader(p: Passage): string {
    HeaderText(p.name, p.tags, p.geometry)
  }

  /** The content lines joined by newlines. */
  function CombinedContent(p: Passage): string {
    Join(p.content, "\n")
  }

  /** The passage as text: its header line, a newline, then its content. */
  function PassageText(p: Passage): string {
    Join([PassageHeader(p), CombinedContent(p)], "\n")
  }

  /** The tags of `tags` that belong to `wanted`, in order. */
  function TagsIn(tags: seq<string>, wanted: set<string>): (r: seq<string>)
    ensures forall k :: 0 <= k < |r| ==> r[k] in wanted && r[k] in tags
    ensures forall k :: 0 <= k < |tags| && tags[k] in wanted ==> tags[k] in r
    ensures |r| == 0 <==> forall k :: 0 <= k < |tags| ==> tags[k] !in wanted
  {
    if |tags| == 0 then []
    else if tags[0] in wanted then
      var rest := TagsIn(tags[1..], wanted);
      assert forall k :: 1 <= k < |tags| ==> tags[k] == tags[1..][k - 1];
      [tags[0]] + rest
    else
      var rest := TagsIn(tags[1..], wanted);
      assert forall k :: 1 <= k < |tags| ==> tags[k] == tags[1..][k - 1];
      assert forall k :: 0 <= k < |rest| ==> rest[k] in tags by {
        forall k | 0 <= k < |rest| ensures rest[k] in tags {
          var j :| 0 <= j < |tags[1..]| && tags[1..][j] == rest[k];
          assert tags[j + 1] == rest[k];
        }
      }
      rest
  }

  /** Which of `tags` are wanted. */
  function WantedFlags(tags: seq<string>, wanted: set<string>): (r: seq<bool>)
    ensures |r| == |tags| && forall k :: 0 <= k < |tags| ==> r[k] == (tags[k] in wanted)
  {
    seq(|tags|, k requires 0 <= k < |tags| => tags[k] in wanted)
  }

  /** `TagsIn` is the comprehension that picks the wanted tags. */
  lemma {:induction false} TagsInPick(tags: seq<string>, wanted: set<string>)
    ensures TagsIn(tags, wanted) == Pick(WantedFlags(tags, wanted), tags)
  {
    if |tags| > 0 {
      TagsInPick(tags[1..], wanted);
      assert WantedFlags(tags, wanted)[1..] == WantedFlags(tags[1..], wanted);
    }
  }

  /** The wanted tags, each occurrence once, in the order the passage lists
      them. */
  lemma TagsInOrder(tags: seq<string>, wanted: set<string>) returns (idx: seq<nat>)
    ensures |idx| == |TagsIn(tags, wanted)| && Increasing(idx)
    ensures forall j :: 0 <= j < |idx| ==> idx[j] < |tags| && tags[idx[j]] in wanted && TagsIn(tags, wanted)[j] == tags[idx[j]]
    ensures forall k :: 0 <= k < |tags| && tags[k] in wanted ==> k in idx
  {
    TagsInPick(tags, wanted);
    idx := PickInOrder(WantedFlags(tags, wanted), tags);
  }

  predicate IsSpecialPassage(p: Passage) {
    p.name in SpecialPassages
  }

  function SpecialTagsOf(p: Passage): seq<string> {
    TagsIn(p.tags, SpecialTags)
  }

  predicate IsProjectPassage(p: Passage) {
    p.name in ProjectPassages
  }

  function ProjectTagsOf(p: Passage): seq<string> {
    TagsIn(p.tags, ProjectTags)
  }

  /** The name a passage is filed under: project-level passages move into
      the `stella` module, every other passage keeps its own name. */
  function FullName(p: Passage): (r: string)
    ensures r == ProjectModule + [NameDelimiter] + p.name
            <==> p.name in ProjectPassages || exists k :: 0 <= k < |p.tags| && p.tags[k] in ProjectTags
    ensures r != ProjectModule + [NameDelimiter] + p.name ==> r == p.name
  {
    if IsProjectPassage(p) || |ProjectTagsOf(p)| > 0 then ProjectModule + [NameDelimiter] + p.name
    else
      assert |p.name| != |ProjectModule + [NameDelimiter] + p.name|;
      p.name
  }

  /** A project-level passage lands in the `stella` module, under its own
      name. */
  lemma ProjectPassageName(p: Passage)
    requires IsProjectPassage(p) || |ProjectTagsOf(p)| > 0
    ensures SplitName(FullName(p)) == (ProjectModule, p.name)
  {
    var n := FullName(p);
    assert n[..6] == ProjectModule && n[6] == NameDelimiter && n[7..] == p.name;
    assert IndexOf(n, NameDelimiter) == 6 by {
      assert forall k :: 0 <= k < 6 ==> n[k] != NameDelimiter;
    }
  }


  // ---------------------------------------------------------------------
  // Reading passages back from their text
  // ---------------------------------------------------------------------

  /** The line matches the header pattern. */
  predicate IsHeaderLine(line: string) {
    MatchHeader(line).Some?
  }

  /** The passages whose header line reads back as written. */
  predicate HeaderRoundTrips(p: Passage) {
    ReadsBack(p.name, p.tags, p.geometry)
  }

  /** The passage a header line opens, with the lines of its body. */
  function PassageOf(g: Group): Passage
    requires IsHeaderLine(g.header)
  {
    var h := ParseHeader(g.header).value;
    NewPassage(h.name, h.tags, h.geometry).(content := g.body)
  }

  /** A passage's header line is a header line, and reading it back with the
      passage's content as body gives the passage. */
  lemma PassageHeaderRoundTrip(p: Passage)
    requires HeaderRoundTrips(p)
    ensures IsHeaderLine(PassageHeader(p))
    ensures PassageOf(Group(PassageHeader(p), p.content)) == p
  {
    HeaderRoundTrip(p.name, p.tags, p.geometry);
  }

  // ---------------------------------------------------------------------
  // Parsing a list of lines into passages
  // ---------------------------------------------------------------------

  function PassagesOf(groups: seq<Group>): (ps: seq<Passage>)
    requires forall k :: 0 <= k < |groups| ==> IsHeaderLine(groups[k].header)
    ensures |ps| == |groups|
    ensures forall k :: 0 <= k < |groups| ==> ps[k] == PassageOf(groups[k])
  {
    if |groups| == 0 then [] else PassagesOf(groups[..|groups| - 1]) + [PassageOf(groups[|groups| - 1])]
  }

  /** What `parse_lines` computes: an error naming the first line when it is
      not a header, otherwise one passage per header line with the lines up
      to the next header as content. */
  function ParseLinesSpec(lines: seq<string>): Result<seq<Passage>> {
    var split := SplitAtHeaders(lines, IsHeaderLine);
    if |split.0| > 0 then Failure(split.0[0]) else Success(PassagesOf(split.1))
  }

  /** The state of the `parse_lines` loop after the lines `prefix`: no line
      came before the first header, and the finished passages followed by the
      open one are the passages of the groups read so far. */
  ghost predicate Parsed(prefix: seq<string>, passages: seq<Passage>, current: Option<Passage>) {
    var split := SplitAtHeaders(prefix, IsHeaderLine);
    && split.0 == []
    && (current.None? <==> |split.1| == 0)
    && (current.None? ==> passages == [])
    && (current.Some? ==> passages + [current.value] == PassagesOf(split.1))
  }

  /** A header line closes the open passage and opens a new, empty one. */
  lemma ParsedHeader(prefix: seq<string>, line: string, passages: seq<Passage>, current: Option<Passage>)
    requires Parsed(prefix, passages, current) && IsHeaderLine(line)
    ensures Parsed(prefix + [line], passages + (if current.Some? then [current.value] else []),
                   Some(PassageOf(Group(line, []))))
  {
    SplitAtHeadersSnoc(prefix, line, IsHeaderLine);
    var before := SplitAtHeaders(prefix, IsHeaderLine).1;
    var after := SplitAtHeaders(prefix + [line], IsHeaderLine).1;
    assert after == before + [Group(line, [])];
    assert after[..|after| - 1] == before;
  }

  /** Any other line joins the content of the open passage. */
  lemma ParsedBody(prefix: seq<string>, line: string, passages: seq<Passage>, current: Option<Passage>)
    requires Parsed(prefix, passages, current) && !IsHeaderLine(line) && current.Some?
    ensures Parsed(prefix + [line], passages, Some(current.value.(content := current.value.content + [line])))
  {
    SplitAtHeadersSnoc(prefix, line, IsHeaderLine);
    var before := SplitAtHeaders(prefix, IsHeaderLine).1;
    var after := SplitAtHeaders(prefix + [line], IsHeaderLine).1;
    var init, last := before[..|before| - 1], before[|before| - 1];
    var grown := Group(last.header, last.body + [line]);
    assert after == init + [grown];
    FrontLast(before);
    PassagesOfSnoc(init, last);
    PassagesOfSnoc(init, grown);
    SnocParts(passages, current.value, PassagesOf(init), PassageOf(last));
  }

  /** The passages of one more group are one more passage. */
  lemma PassagesOfSnoc(groups: seq<Group>, g: Group)
    requires forall k :: 0 <= k < |groups| ==> IsHeaderLine(groups[k].header)
    requires IsHeaderLine(g.header)
    ensures PassagesOf(groups + [g]) == PassagesOf(groups) + [PassageOf(g)]
  {
    assert (groups + [g])[..|groups|] == groups;
  }

  /** Two sequences with one more element agree on both parts. */
  lemma SnocParts<T>(a: seq<T>, x: T, b: seq<T>, y: T)
    requires a + [x] == b + [y]
    ensures a == b && x == y
  {
    assert a == (a + [x])[..|a|];
    assert b == (b + [y])[..|b|];
  }

  /** `parse_lines`: the loop that opens a passage at each header line and
      appends every other line to the open passage; a line before the first
      header is an error. */
  method ParseLines(lines: seq<string>) returns (r: Result<seq<Passage>>)
    ensures r == ParseLinesSpec(lines)
  {
    var passages: seq<Passage> := [];
    var current: Option<Passage> := None;
    for i := 0 to |lines|
      invariant Parsed(lines[..i], passages, current)
    {
      var line := lines[i];
      TakeOneMore(lines, i);
      if MatchHeader(line).Some? {
        ParsedHeader(lines[..i], line, passages, current);
        if current.Some? {
          passages := passages + [current.value];
        }
        var h := ParseHeader(line).value;
        current := Some(NewPassage(h.name, h.tags, h.geometry));
      } else {
        if current.None? {
          FirstLineFails(lines, i, passages);
          return Failure(line);
        }
        ParsedBody(lines[..i], line, passages, current);
        current := Some(current.value.(content := current.value.content + [line]));
      }
    }
    if current.Some? {
      passages := passages + [current.value];
    }
    assert lines[..|lines|] == lines;
    return Success(passages);
  }

  /** With nothing parsed yet, no line has been read, so a first line that
      is not a header makes the whole input fail on it. */
  lemma FirstLineFails(lines: seq<string>, i: nat, passages: seq<Passage>)
    requires i < |lines| && Parsed(lines[..i], passages, None) && !IsHeaderLine(lines[i])
    ensures ParseLinesSpec(lines) == Failure(lines[i])
  {
    SplitAtHeadersUnsplit(lines[..i], IsHeaderLine);
    assert |lines[..i]| == 0;
    ParseLinesFails(lines);
  }

  /** Leading lines stay leading when more lines follow. */
  lemma {:induction false} LeadPersists(a: seq<string>, b: seq<string>)
    requires |SplitAtHeaders(a, IsHeaderLine).0| > 0
    ensures SplitAtHeaders(a + b, IsHeaderLine).0[0] == SplitAtHeaders(a, IsHeaderLine).0[0]
  {
    SplitAtHeadersLead(a, IsHeaderLine);
    SplitAtHeadersLead(a + b, IsHeaderLine);
    assert (a + b)[0] == a[0];
  }

  /** Parsing fails exactly when the first line is not a header, and the
      error names that line. */
  lemma ParseLinesFails(lines: seq<string>)
    ensures ParseLinesSpec(lines).Failure? <==> |lines| > 0 && !IsHeaderLine(lines[0])
    ensures ParseLinesSpec(lines).Failure? ==> ParseLinesSpec(lines).error == lines[0]
  {
    SplitAtHeadersLead(lines, IsHeaderLine);
  }

    /** On success there is one passage per header line, in order, each with
      the name, tags and geometry its header line gives. */
  lemma ParseLinesHeaders(lines: seq<string>)
    requires ParseLinesSpec(lines).Success?
    ensures var ps := ParseLinesSpec(lines).value;
            var hs := Headers(lines, IsHeaderLine);
            && |ps| == |hs|
            && (forall k :: 0 <= k < |ps| ==>
                  IsHeaderLine(hs[k])
                  && ps[k].(content := []) == NewPassage(ParseHeader(hs[k]).value.name,
                                                         ParseHeader(hs[k]).value.tags,
                                                         ParseHeader(hs[k]).value.geometry))
  {
    var split := SplitAtHeaders(lines, IsHeaderLine);
    var ps := PassagesOf(split.1);
    assert ParseLinesSpec(lines).value == ps;
    SplitAtHeadersHeaders(lines, IsHeaderLine);
  }

  /** On success the lines are exactly the header lines, each followed by its
      passage's content, and no content line is a header line. */
  lemma ParseLinesContents(lines: seq<string>)
    requires ParseLinesSpec(lines).Success?
    ensures var ps := ParseLinesSpec(lines).value;
            var hs := Headers(lines, IsHeaderLine);
            && |ps| == |hs|
            && Unsplit(seq(|ps|, k requires 0 <= k < |ps| => Group(hs[k], ps[k].content))) == lines
            && (forall k :: 0 <= k < |ps| ==> NoHeaders(ps[k].content, IsHeaderLine))
  {
    var split := SplitAtHeaders(lines, IsHeaderLine);
    var ps := PassagesOf(split.1);
    assert split.0 == [] && ParseLinesSpec(lines).value == ps;
    SplitAtHeadersUnsplit(lines, IsHeaderLine);
    SplitAtHeadersHeaders(lines, IsHeaderLine);
    SplitAtHeadersBodies(lines, IsHeaderLine);
    Regroup(split.1, Headers(lines, IsHeaderLine));
  }

  /** The groups are given back by their header lines and the contents of
      the passages they open. */
  lemma Regroup(groups: seq<Group>, hs: seq<string>)
    requires forall k :: 0 <= k < |groups| ==> IsHeaderLine(groups[k].header)
    requires |hs| == |groups| && forall k :: 0 <= k < |groups| ==> groups[k].header == hs[k]
    ensures var ps := PassagesOf(groups);
            && seq(|ps|, k requires 0 <= k < |ps| => Group(hs[k], ps[k].content)) == groups
            && forall k :: 0 <= k < |ps| ==> ps[k].content == groups[k].body
  {
    var ps := PassagesOf(groups);
    var gs := seq(|ps|, k requires 0 <= k < |ps| => Group(hs[k], ps[k].content));
    forall k | 0 <= k < |ps| ensures gs[k] == groups[k] {
      assert ps[k] == PassageOf(groups[k]);
    }
  }

  /** Each passage's header line with its content lines as body. */
  function WrittenGroups(ps: seq<Passage>): (r: seq<Group>)
    ensures |r| == |ps|
  {
    seq(|ps|, k requires 0 <= k < |ps| => Group(PassageHeader(ps[k]), ps[k].content))
  }

  /** The passages whose text reads back: each header reads back as written
      and no content line looks like a header. */
  ghost predicate ReadableAll(ps: seq<Passage>) {
    forall k :: 0 <= k < |ps| ==> HeaderRoundTrips(ps[k]) && NoHeaders(ps[k].content, IsHeaderLine)
  }

  /** Writing passages out line by line, each header line followed by the
      content lines, and parsing the lines gives the passages back. */
  lemma ParseWrittenLines(ps: seq<Passage>)
    requires ReadableAll(ps)
    ensures ParseLinesSpec(Unsplit(WrittenGroups(ps))) == Success(ps)
  {
    var groups := WrittenGroups(ps);
    forall k | 0 <= k < |ps|
      ensures IsHeaderLine(groups[k].header) && NoHeaders(groups[k].body, IsHeaderLine)
      ensures PassageOf(groups[k]) == ps[k]
    {
      PassageHeaderRoundTrip(ps[k]);
    }
    UnsplitSplit(groups, IsHeaderLine);
    assert PassagesOf(groups) == ps;
  }

  /** An empty line list parses to no passages. */
  lemma ParseNoLines()
    ensures ParseLinesSpec([]) == Success([])
  {
  }

  // ---------------------------------------------------------------------
  // Filtering the passages of a project
  // ---------------------------------------------------------------------

  /** `repr(s)` for a text without quotes, backslashes or non-printable characters. */
  function QuoteText(s: string): string {
    "'" + s + "'"
  }

  function Quoted(xs: seq<string>): (r: seq<string>)
    ensures |r| == |xs|
  {
    seq(|xs|, k requires 0 <= k < |xs| => QuoteText(xs[k]))
  }

  /** `repr` of a passage: its name, then its tags as a list and its geometry
      as a tuple when they are not empty. */
  function PassageRepr(p: Passage): string {
    "Passage(" + p.name
    + (if |p.tags| > 0 then ", tags=[" + Join(Quoted(p.tags), ", ") + "]" else "")
    + (if |p.geometry| > 0
       then ", geometry=(" + Join(Quoted(p.geometry), ", ") + (if |p.geometry| == 1 then "," else "") + ")"
       else "")
    + ")"
  }

  /** The sort key of a passage, `natural_keys(passage)`. */
  function SortKey(p: Passage): seq<KeyPart> {
    NaturalKeys(PassageRepr(p))
  }

  /** A passage that is left out of a project. */
  predicate Excluded(p: Passage) {
    IsSpecialPassage(p) || |SpecialTagsOf(p)| > 0
  }

  /** The `(full name, passage)` pairs of the passages that are not excluded,
      in order. */
  function KeptPairs(ps: seq<Passage>): (r: seq<(string, Passage)>)
    ensures forall k :: 0 <= k < |r| ==> r[k].1 in ps && !Excluded(r[k].1) && r[k].0 == FullName(r[k].1)
    ensures forall p :: p in ps && !Excluded(p) ==> (FullName(p), p) in r
  {
    if |ps| == 0 then []
    else
      var rest := KeptPairs(ps[1..]);
      assert forall p :: p in ps[1..] ==> p in ps;
      assert forall p :: p in ps ==> p == ps[0] || p in ps[1..];
      (if Excluded(ps[0]) then [] else [(FullName(ps[0]), ps[0])]) + rest
  }

  /** `filter_passages`: the passages that are not excluded, in natural-key
      order, keyed by their full names in an insertion-ordered dictionary. */
  function FilterPassages(ps: seq<Passage>): (r: OrderedMap<string, Passage>)
    ensures Valid(r)
  {
    FromPairs(KeptPairs(SortBy(ps, SortKey)))
  }

  /** Sorting keeps exactly the passages it was given. */
  lemma SortKeepsPassages(ps: seq<Passage>, p: Passage)
    ensures p in SortBy(ps, SortKey) <==> p in ps
  {
    SortBySorted(ps, SortKey);
    assert p in ps <==> p in multiset(ps);
    assert p in SortBy(ps, SortKey) <==> p in multiset(SortBy(ps, SortKey));
  }

  /** A name is a key exactly when some passage that is not excluded has it
      as its full name. */
  lemma FilterPassagesKeys(ps: seq<Passage>, name: string)
    ensures name in FilterPassages(ps).values
            <==> exists p :: p in ps && !Excluded(p) && FullName(p) == name
  {
    var pairs := KeptPairs(SortBy(ps, SortKey));
    FromPairsKeys(pairs, name);
    if HasKey(pairs, name) {
      var i :| 0 <= i < |pairs| && pairs[i].0 == name;
      SortKeepsPassages(ps, pairs[i].1);
    }
    if exists p :: p in ps && !Excluded(p) && FullName(p) == name {
      var p :| p in ps && !Excluded(p) && FullName(p) == name;
      SortKeepsPassages(ps, p);
      var i :| 0 <= i < |pairs| && pairs[i] == (FullName(p), p);
      assert HasKey(pairs, name);
    }
  }

  /** The passage stored under a name is one that is not excluded and has
      that full name; of several, the last in natural-key order. */
  lemma FilterPassagesValues(ps: seq<Passage>, name: string)
    requires name in FilterPassages(ps).values
    ensures var pairs := KeptPairs(SortBy(ps, SortKey));
            var p := FilterPassages(ps).values[name];
            && HasKey(pairs, name) && p == pairs[LastIndex(pairs, name)].1
            && p in ps && !Excluded(p) && FullName(p) == name
  {
    var pairs := KeptPairs(SortBy(ps, SortKey));
    FromPairsKeys(pairs, name);
    var i := LastIndex(pairs, name);
    FromPairsValues(pairs, name, i);
    SortKeepsPassages(ps, pairs[i].1);
  }

  /** The names are listed in the order in which they first occur among the
      kept passages in natural-key order: a repeated name keeps its first
      place. */
  lemma FilterPassagesOrder(ps: seq<Passage>, a: nat, b: nat)
    requires a < b < |FilterPassages(ps).keys|
    ensures var pairs := KeptPairs(SortBy(ps, SortKey));
            var keys := FilterPassages(ps).keys;
            && HasKey(pairs, keys[a]) && HasKey(pairs, keys[b])
            && FirstIndex(pairs, keys[a]) < FirstIndex(pairs, keys[b])
  {
    FromPairsOrder(KeptPairs(SortBy(ps, SortKey)), a, b);
  }

  /** `StoryInit` is kept and moved into the `stella` module. */
  lemma StoryInitMoves()
    ensures FilterPassages([Passage("StoryInit", [], [], [])]).keys == ["stella.StoryInit"]
  {
    var p := Passage("StoryInit", [], [], []);
    assert "StoryInit" in ProjectPassages;
    assert "StoryInit" !in SpecialPassages;
    assert !Excluded(p);
    assert ProjectModule + [NameDelimiter] + p.name == "stella.StoryInit";
    assert FullName(p) == "stella.StoryInit";
    assert SortBy([p], SortKey) == [p] by {
      assert [p][..0] == [];
    }
    assert [p][1..] == [];
    var pairs := [("stella.StoryInit", p)];
    assert KeptPairs([p]) == pairs;
    assert pairs[..0] == [];
    assert FromPairs(pairs) == Put(Empty(), "stella.StoryInit", p);
  }

  /** `Start` is special and left out. */
  lemma StartIsLeftOut()
    ensures FilterPassages([Passage("Start", [], [], [])]).keys == []
  {
    var p := Passage("Start", [], [], []);
    assert IsSpecialPassage(p);
    assert SortBy([p], SortKey) == [p] by {
      assert [p][..0] == [];
    }
    assert [p][1..] == [];
    assert KeptPairs([p]) == [];
  }
}
