/** Cutting a sequence of lines at its header lines: the lines before the
    first header, then each header with the lines that follow it up to the next
    header. Both line parsers of the repository do this, each with its own
    notion of header line (twee2tools/passages.py `parse_lines` and
    twee/twine_to_twee.py `passageParser`). */
module Segments {

  /** A header line and the lines that follow it. */
  datatype Group = Group(header: string, body: seq<string>)

  /** The lines before the first header and the groups, in input order. */
  function SplitAtHeaders(lines: seq<string>, isHeader: string -> bool): (r: (seq<string>, seq<Group>))
    ensures forall k :: 0 <= k < |r.1| ==> isHeader(r.1[k].header)
  {
    if |lines| == 0 then ([], [])
    else
      var rest := SplitAtHeaders(lines[1..], isHeader);
      if isHeader(lines[0]) then ([], [Group(lines[0], rest.0)] + rest.1)
      else ([lines[0]] + rest.0, rest.1)
  }

  /** The groups written back out, each header followed by its body. */
  function Unsplit(groups: seq<Group>): seq<string> {
    if |groups| == 0 then [] else [groups[0].header] + groups[0].body + Unsplit(groups[1..])
  }

  /** No line of `s` is a header. */
  ghost predicate NoHeaders(s: seq<string>, isHeader: string -> bool) {
    forall i :: 0 <= i < |s| ==> !isHeader(s[i])
  }

  /** The lines that are headers, in order. */
  function Headers(lines: seq<string>, isHeader: string -> bool): seq<string> {
    if |lines| == 0 then []
    else (if isHeader(lines[0]) then [lines[0]] else []) + Headers(lines[1..], isHeader)
  }

  /** Splitting loses and invents nothing: the leading lines followed by the
      groups written back out are the input. */
  lemma {:induction false} SplitAtHeadersUnsplit(lines: seq<string>, isHeader: string -> bool)
    ensures SplitAtHeaders(lines, isHeader).0 + Unsplit(SplitAtHeaders(lines, isHeader).1) == lines
  {
    if |lines| > 0 {
      var rest := SplitAtHeaders(lines[1..], isHeader);
      SplitAtHeadersUnsplit(lines[1..], isHeader);
      var r := SplitAtHeaders(lines, isHeader);
      assert lines == [lines[0]] + lines[1..];
      if isHeader(lines[0]) {
        assert r.1 == [Group(lines[0], rest.0)] + rest.1;
        assert r.1[1..] == rest.1;
        assert Unsplit(r.1) == [lines[0]] + rest.0 + Unsplit(rest.1);
      }
    }
  }

  /** Every header opens exactly one group, in order. */
  lemma {:induction false} SplitAtHeadersHeaders(lines: seq<string>, isHeader: string -> bool)
    ensures |SplitAtHeaders(lines, isHeader).1| == |Headers(lines, isHeader)|
    ensures forall k :: 0 <= k < |SplitAtHeaders(lines, isHeader).1| ==>
              SplitAtHeaders(lines, isHeader).1[k].header == Headers(lines, isHeader)[k]
  {
    if |lines| > 0 {
      SplitAtHeadersHeaders(lines[1..], isHeader);
    }
  }

  /** No leading line and no body line is a header. */
  lemma {:induction false} SplitAtHeadersBodies(lines: seq<string>, isHeader: string -> bool)
    ensures NoHeaders(SplitAtHeaders(lines, isHeader).0, isHeader)
    ensures forall k :: 0 <= k < |SplitAtHeaders(lines, isHeader).1| ==>
              NoHeaders(SplitAtHeaders(lines, isHeader).1[k].body, isHeader)
  {
    if |lines| > 0 {
      var rest := SplitAtHeaders(lines[1..], isHeader);
      SplitAtHeadersBodies(lines[1..], isHeader);
      var r := SplitAtHeaders(lines, isHeader);
      if isHeader(lines[0]) {
        forall k | 0 <= k < |r.1| ensures NoHeaders(r.1[k].body, isHeader) {
          if k > 0 { assert r.1[k] == rest.1[k - 1]; }
        }
      } else {
        forall i | 0 <= i < |r.0| ensures !isHeader(r.0[i]) {
          if i > 0 { assert r.0[i] == rest.0[i - 1]; }
        }
      }
    }
  }

  /** There are leading lines exactly when the first line is not a header, and
      then they start with it. */
  lemma SplitAtHeadersLead(lines: seq<string>, isHeader: string -> bool)
    ensures |SplitAtHeaders(lines, isHeader).0| > 0 <==> |lines| > 0 && !isHeader(lines[0])
    ensures |SplitAtHeaders(lines, isHeader).0| > 0 ==> SplitAtHeaders(lines, isHeader).0[0] == lines[0]
  {
  }

  /** Appending one line: a header opens a new, empty group; any other line
      joins the last group, or the leading lines while there is no group. */
  lemma {:induction false} SplitAtHeadersSnoc(lines: seq<string>, line: string, isHeader: string -> bool)
    ensures var before := SplitAtHeaders(lines, isHeader);
            var after := SplitAtHeaders(lines + [line], isHeader);
            if isHeader(line) then after == (before.0, before.1 + [Group(line, [])])
            else if |before.1| == 0 then after == (before.0 + [line], [])
            else after == (before.0, before.1[..|before.1| - 1]
                             + [Group(before.1[|before.1| - 1].header, before.1[|before.1| - 1].body + [line])])
  {
    if |lines| == 0 {
      assert lines + [line] == [line];
      var rest := SplitAtHeaders([line][1..], isHeader);
      assert [line][1..] == [];
      assert rest == ([], []);
      var after := SplitAtHeaders([line], isHeader);
      var before := SplitAtHeaders(lines, isHeader);
      assert before == ([], []);
      if isHeader(line) {
        assert after == ([], [Group(line, rest.0)] + rest.1);
        assert [Group(line, rest.0)] + rest.1 == [Group(line, [])];
        assert before.1 + [Group(line, [])] == [Group(line, [])];
      } else {
        assert after == ([line] + rest.0, rest.1);
        assert [line] + rest.0 == [line];
        assert before.0 + [line] == [line];
      }
    } else {
      SplitAtHeadersSnoc(lines[1..], line, isHeader);
      assert (lines + [line])[1..] == lines[1..] + [line];
      assert (lines + [line])[0] == lines[0];
      var b := SplitAtHeaders(lines[1..], isHeader);
      var a := SplitAtHeaders(lines[1..] + [line], isHeader);
      var before := SplitAtHeaders(lines, isHeader);
      var after := SplitAtHeaders(lines + [line], isHeader);
      var g0 := Group(lines[0], b.0);
      if isHeader(lines[0]) {
        assert before == ([], [g0] + b.1);
        assert after == ([], [Group(lines[0], a.0)] + a.1);
        if isHeader(line) {
          assert a == (b.0, b.1 + [Group(line, [])]);
          assert [g0] + (b.1 + [Group(line, [])]) == ([g0] + b.1) + [Group(line, [])];
        } else if |b.1| == 0 {
          assert a == (b.0 + [line], []);
          assert before.1[..|before.1| - 1] == [];
          assert before.1[|before.1| - 1] == g0;
          assert a.1 == [] && a.0 == b.0 + [line];
          assert [Group(lines[0], a.0)] + a.1 == [Group(lines[0], b.0 + [line])];
          assert after == ([], [Group(lines[0], b.0 + [line])]);
          assert before.1[..|before.1| - 1] + [Group(g0.header, g0.body + [line])]
              == [Group(lines[0], b.0 + [line])];
        } else {
          var last := b.1[|b.1| - 1];
          assert a == (b.0, b.1[..|b.1| - 1] + [Group(last.header, last.body + [line])]);
          assert before.1[|before.1| - 1] == last;
          assert before.1[..|before.1| - 1] == [g0] + b.1[..|b.1| - 1];
          assert after.1 == [g0] + (b.1[..|b.1| - 1] + [Group(last.header, last.body + [line])]);
          assert after.1 == ([g0] + b.1[..|b.1| - 1]) + [Group(last.header, last.body + [line])];
        }
      } else {
        assert before == ([lines[0]] + b.0, b.1);
        assert after == ([lines[0]] + a.0, a.1);
        if !isHeader(line) && |b.1| == 0 {
          assert a == (b.0 + [line], []);
          assert [lines[0]] + (b.0 + [line]) == ([lines[0]] + b.0) + [line];
        }
      }
    }
  }

  /** Lines without headers in front of lines that start at a header are
      all leading lines. */
  lemma {:induction false} BodyThenGroups(body: seq<string>, rest: seq<string>, isHeader: string -> bool)
    requires NoHeaders(body, isHeader)
    requires SplitAtHeaders(rest, isHeader).0 == []
    ensures SplitAtHeaders(body + rest, isHeader) == (body, SplitAtHeaders(rest, isHeader).1)
  {
    if |body| > 0 {
      BodyThenGroups(body[1..], rest, isHeader);
      assert (body + rest)[1..] == body[1..] + rest;
      assert (body + rest)[0] == body[0];
      assert [body[0]] + body[1..] == body;
    } else {
      assert body + rest == rest;
    }
  }

  /** Groups written back out split into the same groups, when every header
      is a header line and no body line is. */
  lemma {:induction false} UnsplitSplit(groups: seq<Group>, isHeader: string -> bool)
    requires forall k :: 0 <= k < |groups| ==> isHeader(groups[k].header) && NoHeaders(groups[k].body, isHeader)
    ensures SplitAtHeaders(Unsplit(groups), isHeader) == ([], groups)
  {
    if |groups| > 0 {
      var g := groups[0];
      var rest := groups[1..];
      assert forall k :: 0 <= k < |rest| ==> rest[k] == groups[k + 1];
      UnsplitSplit(rest, isHeader);
      BodyThenGroups(g.body, Unsplit(rest), isHeader);
      var lines := Unsplit(groups);
      assert lines == [g.header] + (g.body + Unsplit(rest));
      assert lines[1..] == g.body + Unsplit(rest);
      assert groups == [Group(g.header, g.body)] + rest;
    }
  }
}
