/** The passage header line of twee2tools/passages.py: the pattern
        ^:: *([^\[]*?) *(\[(.*?)\])? *(<(.*?)>)? *$
    matched by hand, position by position in the line, and the header text
    written back from a name, tags and geometry. Group 1 is the name, group 3
    the tag text and group 5 the geometry text. `.` does not match a newline;
    `$` is taken as the end of the line. */
module HeaderLines {
  import opened Wrappers
  import opened Strings

  /** The groups of a successful match: the name and, when present, the tag
      text and the geometry text. */
  datatype Groups = Groups(name: string, tags: Option<string>, geometry: Option<string>)

  /** The first position at or after `i` that does not hold a space. */
  function SkipSpaces(t: string, i: nat): (r: nat)
    requires i <= |t|
    ensures i <= r <= |t|
    ensures forall k :: i <= k < r ==> t[k] == ' '
    ensures r < |t| ==> t[r] != ' '
    decreases |t| - i
  {
    if i == |t| || t[i] != ' ' then i else SkipSpaces(t, i + 1)
  }

  /** The position just past the last character of `t[i..e]` that is not a
      space, or `i` when there is none. */
  function TrimEnd(t: string, i: nat, e: nat): (r: nat)
    requires i <= e <= |t|
    ensures i <= r <= e
    ensures forall k :: r <= k < e ==> t[k] == ' '
    ensures r > i ==> t[r - 1] != ' '
    decreases e - i
  {
    if e == i || t[e - 1] != ' ' then e else TrimEnd(t, i, e - 1)
  }

  /** No newline in `t[i..j]`: `.` can match all of it. */
  predicate NoNewline(t: string, i: nat, j: nat)
    requires i <= j <= |t|
  {
    forall k :: i <= k < j ==> t[k] != '\n'
  }

  /** ` *(<(.*?)>)? *$` from position `i`: `Some(None)` when only spaces
      remain, `Some(Some(g))` for `<g>` followed by spaces only, `None` when
      this part of the pattern fails. The lazy `.*?` has to reach the last
      `>` because only spaces may follow it. */
  function GeometryAt(t: string, i: nat): Option<Option<string>>
    requires i <= |t|
  {
    var s := SkipSpaces(t, i);
    if s == |t| then Some(None)
    else
      var e := TrimEnd(t, s, |t|);
      if t[s] == '<' && e >= s + 2 && t[e - 1] == '>' && NoNewline(t, s + 1, e - 1) then Some(Some(t[s + 1..e - 1]))
      else None
  }

  /** The lazy `\[(.*?)\]` opened at `open`: the first `]` at `i` or later
      after which the geometry part matches. */
  function CloseTags(t: string, open: nat, i: nat): Option<(Option<string>, Option<string>)>
    requires open < i <= |t|
    decreases |t| - i
  {
    if i == |t| || t[i] == '\n' then None
    else if t[i] == ']' && GeometryAt(t, i + 1).Some? then
      Some((Some(t[open + 1..i]), GeometryAt(t, i + 1).value))
    else CloseTags(t, open, i + 1)
  }

  /** ` *(\[(.*?)\])? *(<(.*?)>)? *$` from position `i`: the tag text and the
      geometry text when they are present. */
  function TagsAt(t: string, i: nat): Option<(Option<string>, Option<string>)>
    requires i <= |t|
  {
    var s := SkipSpaces(t, i);
    if s < |t| && t[s] == '[' then CloseTags(t, s, s + 1)
    else match GeometryAt(t, s)
      case Some(g) => Some((None, g))
      case None => None
  }

  /** The lazy name group `[^\[]*?` starting at `a`: the shortest name ending
      at `j` or later after which the rest of the pattern matches. */
  function NameFrom(t: string, a: nat, j: nat): Option<Groups>
    requires a <= j <= |t|
    decreases |t| - j
  {
    match TagsAt(t, j)
    case Some(rest) => Some(Groups(t[a..j], rest.0, rest.1))
    case None => if j == |t| || t[j] == '[' then None else NameFrom(t, a, j + 1)
  }

  /** `PASSAGE_HEADER.match(line)`: the groups, or `None` when the line is
      not a passage header. */
  function MatchHeader(line: string): (r: Option<Groups>)
    ensures r.Some? ==> |line| >= 2 && line[0] == ':' && line[1] == ':'
  {
    if |line| >= 2 && line[0] == ':' && line[1] == ':' then
      var a := SkipSpaces(line, 2);
      NameFrom(line, a, a)
    else None
  }

  /** The fields of a passage header, as `parse_passage_header` returns
      them; a missing group gives `None`. */
  datatype Header = Header(name: string, tags: Option<seq<string>>, geometry: Option<seq<string>>)

  /** `parse_passage_header(line)`: `None` (the program's `(None, None, None)`)
      when the line does not match; otherwise the name, the tag text split on
      single spaces without the empty pieces, and the geometry text split on
      commas with the empty pieces kept. */
  function ParseHeader(line: string): (r: Option<Header>)
    ensures r.Some? <==> MatchHeader(line).Some?
    ensures r.Some? ==> |line| >= 2 && line[0] == ':' && line[1] == ':'
    ensures r.Some? && r.value.tags.Some? ==>
              forall k :: 0 <= k < |r.value.tags.value| ==>
                |r.value.tags.value[k]| > 0 && ' ' !in r.value.tags.value[k]
    ensures r.Some? && r.value.geometry.Some? ==> |r.value.geometry.value| >= 1
  {
    match MatchHeader(line)
    case None => None
    case Some(g) =>
      var tags := if g.tags.Some? then Some(NonEmpty(Split(g.tags.value, ' '))) else None;
      var geometry := if g.geometry.Some? then Some(Split(g.geometry.value, ',')) else None;
      assert tags.Some? ==> forall k :: 0 <= k < |tags.value| ==> ' ' !in tags.value[k] by {
        if tags.Some? {
          NonEmptyFrom(Split(g.tags.value, ' '), ' ');
        }
      }
      Some(Header(g.name, tags, geometry))
  }

  /** Dropping empty pieces keeps every remaining piece free of `c` when all
      pieces were. */
  lemma {:induction false} NonEmptyFrom(parts: seq<string>, c: char)
    requires forall k :: 0 <= k < |parts| ==> c !in parts[k]
    ensures forall k :: 0 <= k < |NonEmpty(parts)| ==> c !in NonEmpty(parts)[k]
  {
    if |parts| > 0 {
      NonEmptyFrom(parts[1..], c);
      var rest := NonEmpty(parts[1..]);
      if |parts[0]| > 0 {
        assert NonEmpty(parts) == [parts[0]] + rest;
      }
    }
  }

  /** A bare `::` is a header with an empty name and neither tags nor
      geometry. */
  lemma BareHeader()
    ensures ParseHeader("::") == Some(Header("", None, None))
  {
    assert SkipSpaces("::", 2) == 2;
    assert TagsAt("::", 2) == Some((None, None));
    assert "::"[2..2] == "";
  }

  /** Every line that starts with `::` and has no `[` is a header. */
  lemma HeaderWithoutBracket(line: string)
    requires |line| >= 2 && line[0] == ':' && line[1] == ':' && '[' !in line
    ensures ParseHeader(line).Some?
  {
    var a := SkipSpaces(line, 2);
    NameFromFinds(line, a, a);
  }

  lemma {:induction false} NameFromFinds(t: string, a: nat, j: nat)
    requires a <= j <= |t|
    requires '[' !in t
    ensures NameFrom(t, a, j).Some?
    decreases |t| - j
  {
    if j == |t| {
      assert SkipSpaces(t, j) == j;
    } else if TagsAt(t, j).None? {
      assert t[j] in t;
      NameFromFinds(t, a, j + 1);
    }
  }

  // ---------------------------------------------------------------------
  // Writing a header and reading it back
  // ---------------------------------------------------------------------

  /** The tag group of a header line, empty when there are no tags. */
  function TagsText(tags: seq<string>): string {
    if |tags| == 0 then "" else " [" + Join(tags, " ") + "]"
  }

  /** The geometry group of a header line, empty when there is no
      geometry. */
  function GeometryText(geometry: seq<string>): string {
    if |geometry| == 0 then "" else " <" + Join(geometry, ",") + ">"
  }

  /** The header line of a passage with this name, tags and geometry. */
  function HeaderText(name: string, tags: seq<string>, geometry: seq<string>): string {
    "::" + name + TagsText(tags) + GeometryText(geometry)
  }

  /** The headers that read back as written: a name without `[` or `<` and
      without spaces at its ends, non-empty tags without spaces, `]` or
      newlines, geometry parts without commas or newlines. */
  predicate ReadsBack(name: string, tags: seq<string>, geometry: seq<string>) {
    && '[' !in name && '<' !in name
    && (|name| > 0 ==> name[0] != ' ' && name[|name| - 1] != ' ')
    && (forall k :: 0 <= k < |tags| ==>
          |tags[k]| > 0 && ' ' !in tags[k] && ']' !in tags[k] && '\n' !in tags[k])
    && (forall k :: 0 <= k < |geometry| ==> ',' !in geometry[k] && '\n' !in geometry[k])
  }

  /** Writing a header and parsing it gives back its name, tags and geometry,
      with empty tags or geometry read as an absent group. */
  lemma HeaderRoundTrip(name: string, tags: seq<string>, geometry: seq<string>)
    requires ReadsBack(name, tags, geometry)
    ensures ParseHeader(HeaderText(name, tags, geometry))
            == Some(Header(name, if |tags| == 0 then None else Some(tags),
                           if |geometry| == 0 then None else Some(geometry)))
  {
    var line := HeaderText(name, tags, geometry);
    HeaderLayout(name, tags, geometry);
    SuffixMatches(line, 2 + |name|, tags, geometry);
    NameMatches(line, name, if |tags| == 0 then None else Some(Join(tags, " ")), GeometryRaw(geometry));
    HeaderFields(line, name, tags, geometry);
  }

  /** Where the parts of a written header sit on its line. */
  lemma HeaderLayout(name: string, tags: seq<string>, geometry: seq<string>)
    ensures var line := HeaderText(name, tags, geometry);
            && 2 + |name| <= |line| && line[0] == ':' && line[1] == ':'
            && line[2..2 + |name|] == name
            && line[2 + |name|..] == TagsText(tags) + GeometryText(geometry)
  {
    var line := HeaderText(name, tags, geometry);
    var suffix := TagsText(tags) + GeometryText(geometry);
    assert line == "::" + name + suffix;
  }

  /** A name without `[` or `<` and without spaces at its ends, written
      right after `::`, is the name group when the rest of the line matches
      right after it. */
  lemma NameMatches(line: string, name: string, tagsRaw: Option<string>, geomRaw: Option<string>)
    requires '[' !in name && '<' !in name
    requires |name| > 0 ==> name[0] != ' ' && name[|name| - 1] != ' '
    requires 2 + |name| <= |line| && line[0] == ':' && line[1] == ':'
    requires line[2..2 + |name|] == name
    requires TagsAt(line, 2 + |name|) == Some((tagsRaw, geomRaw))
    ensures MatchHeader(line) == Some(Groups(name, tagsRaw, geomRaw))
  {
    var end := 2 + |name|;
    var a := SkipSpaces(line, 2);
    if |name| > 0 {
      assert line[2] == name[0];
      assert a == 2;
      forall j | a <= j < end
        ensures line[j] != '[' && TagsAt(line, j).None?
      {
        assert line[j] == name[j - 2];
        forall x | j <= x <= end - 1 ensures line[x] != '[' && line[x] != '<' {
          assert line[x] == name[x - 2];
        }
        assert line[end - 1] == name[|name| - 1];
        NotNameEnd(line, j, end - 1);
      }
      NameFromSkip(line, a, a, end);
    } else {
      SkipSpacesSame(line, 2, a);
      assert line[a..a] == name;
    }
  }

  /** Splitting the rendered groups gives back the tags and the geometry. */
  lemma HeaderFields(line: string, name: string, tags: seq<string>, geometry: seq<string>)
    requires forall k :: 0 <= k < |tags| ==> |tags[k]| > 0 && ' ' !in tags[k]
    requires forall k :: 0 <= k < |geometry| ==> ',' !in geometry[k]
    requires MatchHeader(line)
             == Some(Groups(name, if |tags| == 0 then None else Some(Join(tags, " ")), GeometryRaw(geometry)))
    ensures ParseHeader(line)
            == Some(Header(name, if |tags| == 0 then None else Some(tags),
                           if |geometry| == 0 then None else Some(geometry)))
  {
    if |tags| > 0 {
      SplitJoin(tags, ' ');
      NonEmptyKeeps(tags);
    }
    if |geometry| > 0 {
      SplitJoin(geometry, ',');
    }
  }

  /** Positions in a run of spaces all skip to the same place. */
  lemma SkipSpacesSame(t: string, i: nat, j: nat)
    requires i <= j <= |t| && j <= SkipSpaces(t, i)
    ensures SkipSpaces(t, j) == SkipSpaces(t, i)
    decreases j - i
  {
    if i < j {
      SkipSpacesSame(t, i + 1, j);
    }
  }

  /** The rest of the pattern matches a rendered suffix with the rendered
      groups. */
  lemma SuffixMatches(t: string, i: nat, tags: seq<string>, geometry: seq<string>)
    requires i <= |t| && t[i..] == TagsText(tags) + GeometryText(geometry)
    requires forall k :: 0 <= k < |tags| ==> ']' !in tags[k] && '\n' !in tags[k]
    requires forall k :: 0 <= k < |geometry| ==> '\n' !in geometry[k]
    ensures TagsAt(t, i) == Some((if |tags| == 0 then None else Some(Join(tags, " ")), GeometryRaw(geometry)))
  {
    if |tags| > 0 {
      SuffixWithTags(t, i, tags, geometry);
    } else if |geometry| > 0 {
      SuffixGeometryOnly(t, i, geometry);
    } else {
      assert |t| == i;
    }
  }

  /** The geometry text as group 5 gives it, `None` when there is none. */
  function GeometryRaw(geometry: seq<string>): Option<string> {
    if |geometry| == 0 then None else Some(Join(geometry, ","))
  }

  /** The geometry group as written matches the geometry part. */
  lemma GeometryTextShape(geometry: seq<string>)
    requires forall k :: 0 <= k < |geometry| ==> '\n' !in geometry[k]
    ensures var rest := GeometryText(geometry);
            var geomRaw := GeometryRaw(geometry);
            (rest == "" && geomRaw == None)
            || (geomRaw.Some? && rest == " <" + geomRaw.value + ">" && '\n' !in geomRaw.value)
  {
    if |geometry| > 0 {
      JoinExcludes(geometry, ",", '\n');
    }
  }

  lemma SuffixWithTags(t: string, i: nat, tags: seq<string>, geometry: seq<string>)
    requires |tags| > 0
    requires i <= |t| && t[i..] == TagsText(tags) + GeometryText(geometry)
    requires forall k :: 0 <= k < |tags| ==> ']' !in tags[k] && '\n' !in tags[k]
    requires forall k :: 0 <= k < |geometry| ==> '\n' !in geometry[k]
    ensures TagsAt(t, i) == Some((Some(Join(tags, " ")), GeometryRaw(geometry)))
  {
    var j := Join(tags, " ");
    var rest := GeometryText(geometry);
    JoinExcludes(tags, " ", ']');
    JoinExcludes(tags, " ", '\n');
    GeometryTextShape(geometry);
    assert t[i..] == " [" + j + "]" + rest;
    TagsLayout(t, i, j, rest);
    GeometryTextMatches(t, i + 3 + |j|, rest, GeometryRaw(geometry));
    TagsRendered(t, i, j, GeometryRaw(geometry));
  }

  lemma SuffixGeometryOnly(t: string, i: nat, geometry: seq<string>)
    requires |geometry| > 0
    requires i <= |t| && t[i..] == GeometryText(geometry)
    requires forall k :: 0 <= k < |geometry| ==> '\n' !in geometry[k]
    ensures TagsAt(t, i) == Some((None, GeometryRaw(geometry)))
  {
    var g := Join(geometry, ",");
    JoinExcludes(geometry, ",", '\n');
    assert t[i..] == " <" + g + ">";
    GeometryRendered(t, i, g);
    SkipSpacesSame(t, i, i + 1);
  }

  /** ` <g>` at the end of the line is the geometry group `g`. */
  lemma GeometryRendered(t: string, i: nat, g: string)
    requires i <= |t| && t[i..] == " <" + g + ">" && '\n' !in g
    ensures SkipSpaces(t, i) == i + 1
    ensures GeometryAt(t, i) == Some(Some(g))
  {
    assert t[i] == ' ' && t[i + 1] == '<' && t[|t| - 1] == '>';
    assert SkipSpaces(t, i + 1) == i + 1;
    assert TrimEnd(t, i + 1, |t|) == |t|;
    assert t[i + 2..|t| - 1] == g;
    forall k | i + 2 <= k < |t| - 1 ensures t[k] != '\n' {
      assert t[k] == g[k - i - 2];
    }
  }

  /** An empty rest, or ` <g>`, matches the geometry part. */
  lemma GeometryTextMatches(t: string, i: nat, rest: string, geomRaw: Option<string>)
    requires i <= |t| && t[i..] == rest
    requires (rest == "" && geomRaw == None)
             || (geomRaw.Some? && rest == " <" + geomRaw.value + ">" && '\n' !in geomRaw.value)
    ensures GeometryAt(t, i) == Some(geomRaw)
  {
    if rest != "" {
      GeometryRendered(t, i, geomRaw.value);
    }
  }

  /** ` [j]` followed by a matching geometry part is the tag group `j`. */
  lemma TagsRendered(t: string, i: nat, j: string, geomRaw: Option<string>)
    requires i + 3 + |j| <= |t|
    requires t[i] == ' ' && t[i + 1] == '[' && t[i + 2 + |j|] == ']'
    requires forall k :: i + 2 <= k < i + 2 + |j| ==> t[k] != ']' && t[k] != '\n'
    requires t[i + 2..i + 2 + |j|] == j
    requires GeometryAt(t, i + 3 + |j|) == Some(geomRaw)
    ensures TagsAt(t, i) == Some((Some(j), geomRaw))
  {
    TagsClose(t, i, i + 2 + |j|, geomRaw);
  }

  /** Where the parts of ` [j]rest` sit in the line. */
  lemma TagsLayout(t: string, i: nat, j: string, rest: string)
    requires i <= |t| && t[i..] == " [" + j + "]" + rest
    requires ']' !in j && '\n' !in j
    ensures i + 3 + |j| <= |t|
    ensures t[i] == ' ' && t[i + 1] == '[' && t[i + 2 + |j|] == ']'
    ensures forall k :: i + 2 <= k < i + 2 + |j| ==> t[k] != ']' && t[k] != '\n'
    ensures t[i + 2..i + 2 + |j|] == j
    ensures t[i + 3 + |j|..] == rest
  {
    forall k | i + 2 <= k < i + 2 + |j| ensures t[k] != ']' && t[k] != '\n' {
      assert t[k] == t[i..][k - i] == j[k - i - 2];
    }
    assert t[i..][2..2 + |j|] == j;
    assert t[i..][3 + |j|..] == rest;
  }

  /** A `[` after one space, a bracket-free text and a `]` after which the
      geometry part matches: the tag group is the text between. */
  lemma TagsClose(t: string, i: nat, close: nat, geomRaw: Option<string>)
    requires i + 2 <= close < |t|
    requires t[i] == ' ' && t[i + 1] == '[' && t[close] == ']'
    requires forall k :: i + 2 <= k < close ==> t[k] != ']' && t[k] != '\n'
    requires GeometryAt(t, close + 1) == Some(geomRaw)
    ensures TagsAt(t, i) == Some((Some(t[i + 2..close]), geomRaw))
  {
    assert SkipSpaces(t, i + 1) == i + 1;
    assert SkipSpaces(t, i) == i + 1;
    CloseTagsSkip(t, i + 1, i + 2, close);
  }

  /** A character in neither the pieces nor the separator is not in their
      join. */
  lemma {:induction false} JoinExcludes(parts: seq<string>, sep: string, c: char)
    requires c !in sep
    requires forall k :: 0 <= k < |parts| ==> c !in parts[k]
    ensures c !in Join(parts, sep)
  {
    if |parts| > 1 {
      JoinExcludes(parts[1..], sep, c);
    }
  }

  /** Scanning for the closing bracket passes over characters that are
      neither `]` nor a newline. */
  lemma {:induction false} CloseTagsSkip(t: string, open: nat, i: nat, j: nat)
    requires open < i <= j <= |t|
    requires forall k :: i <= k < j ==> t[k] != ']' && t[k] != '\n'
    ensures CloseTags(t, open, i) == CloseTags(t, open, j)
    decreases j - i
  {
    if i < j {
      CloseTagsSkip(t, open, i + 1, j);
    }
  }

  /** The name cannot end at `k` when the characters up to a later non-space
      at `last` are neither `[` nor `<`: what follows does not match. */
  lemma NotNameEnd(t: string, k: nat, last: nat)
    requires k <= last < |t| && t[last] != ' '
    requires forall x :: k <= x <= last ==> t[x] != '[' && t[x] != '<'
    ensures TagsAt(t, k).None?
  {
    var s := SkipSpaces(t, k);
    assert s <= last;
    assert SkipSpaces(t, s) == s;
  }

  /** The name search passes over positions where the name cannot end. */
  lemma {:induction false} NameFromSkip(t: string, a: nat, j: nat, m: nat)
    requires a <= j <= m <= |t|
    requires forall x :: j <= x < m ==> t[x] != '[' && TagsAt(t, x).None?
    ensures NameFrom(t, a, j) == NameFrom(t, a, m)
    decreases m - j
  {
    if j < m {
      NameFromSkip(t, a, j + 1, m);
    }
  }
}
