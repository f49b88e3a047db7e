/** The prototype converter twee/twine_to_twee.py: `passageParser` reads a
    Twine export line by line, as `readline` returns the lines (each with its
    newline, `''` at end of file), and gathers a dictionary from passage key
    to passage text. A line holding `::` anywhere starts a new key; every other
    line, newline included, is added to the current text; a line that is only
    a newline is dropped. */
module TwineToTwee {
  import opened Strings
  import opened Segments
  import OrderedMaps

  type Dict = OrderedMaps.OrderedMap<string, string>

  /** `"::" in line`. */
  predicate IsKeyLine(line: string) {
    |line| >= 2 && (line[..2] == "::" || IsKeyLine(line[1..]))
  }

  /** `IsKeyLine` holds exactly when two colons stand side by side somewhere
      in the line. */
  lemma {:induction false} KeyLineAt(line: string)
    ensures IsKeyLine(line) <==> exists k :: 0 <= k < |line| - 1 && line[k] == ':' && line[k + 1] == ':'
  {
    if |line| >= 2 {
      KeyLineAt(line[1..]);
      if line[..2] == "::" {
        assert line[0] == line[..2][0] && line[1] == line[..2][1];
      }
      if IsKeyLine(line[1..]) {
        var k :| 0 <= k < |line[1..]| - 1 && line[1..][k] == ':' && line[1..][k + 1] == ':';
        assert line[k + 1] == ':' && line[k + 2] == ':';
      }
      if exists k :: 0 <= k < |line| - 1 && line[k] == ':' && line[k + 1] == ':' {
        var k :| 0 <= k < |line| - 1 && line[k] == ':' && line[k + 1] == ':';
        if k > 0 {
          assert line[1..][k - 1] == ':' && line[1..][k] == ':';
        } else {
          assert line[..2] == [line[0], line[1]];
        }
      }
    }
  }

  /** The key of a key line: `line[2:pos]` for the first space `pos`, or
      `line[2:]` when there is none, with Python's slicing (a slice that ends
      before it starts is empty). The text from position 2 up to the first
      space (empty when that space is at position 0 or 1), or to the end of
      the line, so without a space the line's newline stays in the key. */
  function KeyOf(line: string): (key: string)
    ensures ' ' !in key
    ensures IndexOf(line, ' ') < 2 ==> key == ""
    ensures |line| >= 2 && ' ' !in line[..2] ==> key <= line[2..]
    ensures |line| >= 2 && ' ' !in line[..2] ==> 2 + |key| == |line| || line[2 + |key|] == ' '
  {
    var pos := IndexOf(line, ' ');
    if pos < 2 || |line| < 2 then ""
    else
      assert ' ' !in line[2..pos] by {
        forall k | 0 <= k < pos - 2 ensures line[2..pos][k] != ' ' { assert line[2..pos][k] == line[k + 2]; }
      }
      line[2..pos]
  }

  /** The key is taken from position 2 wherever the `::` stands: a line
      with `::` in the middle is a key line whose key starts before the
      `::`'s end. */
  lemma KeyOfMidLine()
    ensures IsKeyLine("ab::c d\n") && KeyOf("ab::c d\n") == "::c"
  {
    var line := "ab::c d\n";
    assert line[2..4] == "::";
    assert IndexOf(line, ' ') == 5;
  }

  /** A header `::name rest` whose rest is empty or starts with a space has the
      key `name`, as the docstring of `passageParser` asks for `::PassageFooter
      <0,undefined>`. */
  lemma KeyOfHeader(name: string, rest: string)
    requires ' ' !in name
    requires rest == "" || rest[0] == ' '
    ensures KeyOf("::" + name + rest) == name
  {
    var line := "::" + name + rest;
    assert line[..2] == "::";
    assert line[2..] == name + rest;
    assert ' ' !in line[..2];
    assert forall k :: 0 <= k < |name| ==> line[2 + k] == name[k];
    assert rest != "" ==> line[2 + |name|] == ' ';
  }

  /** The lines up to the end of file: reading stops at the first `''`. */
  function Live(lines: seq<string>): (r: seq<string>)
    ensures r <= lines
  {
    if |lines| == 0 || lines[0] == "" then []
    else
      var rest := Live(lines[1..]);
      assert lines == [lines[0]] + lines[1..];
      [lines[0]] + rest
  }

  /** The lines that are not a bare newline, in order. */
  function NonBlank(lines: seq<string>): (r: seq<string>)
    ensures "\n" !in r
  {
    if |lines| == 0 then []
    else NonBlank(lines[..|lines| - 1]) + (if lines[|lines| - 1] == "\n" then [] else [lines[|lines| - 1]])
  }

  /** A key line and the text after it. */
  function Record(g: Group): (string, string) {
    (KeyOf(g.header), Concat(g.body))
  }

  /** One pair per group, in order. */
  function Pairs(groups: seq<Group>): (r: seq<(string, string)>)
    ensures |r| == |groups|
  {
    if |groups| == 0 then [] else Pairs(groups[..|groups| - 1]) + [Record(groups[|groups| - 1])]
  }

  /** The key/text pairs of the input in order: the text before the first key
      line under key `""`, then one pair per key line. */
  function Records(lines: seq<string>): (r: seq<(string, string)>)
    ensures |r| >= 1 && r[0].0 == ""
  {
    var (lead, groups) := SplitAtHeaders(NonBlank(lines), IsKeyLine);
    [("", Concat(lead))] + Pairs(groups)
  }

  /** The pairs, less those whose key and text are both empty. */
  function Kept(records: seq<(string, string)>): (r: seq<(string, string)>)
    ensures ("", "") !in r
  {
    if |records| == 0 then []
    else
      var last := records[|records| - 1];
      Kept(records[..|records| - 1]) + (if last == ("", "") then [] else [last])
  }

  /** The pairs stored in the dictionary, in order: every pair but the last
      unless both its key and its text are empty, and the last pair always. */
  function Stored(records: seq<(string, string)>): (r: seq<(string, string)>)
    requires |records| >= 1
    ensures |r| >= 1 && r[|r| - 1] == records[|records| - 1]
  {
    Kept(records[..|records| - 1]) + [records[|records| - 1]]
  }

  /** The dictionary `passageParser` returns for the lines: the stored pairs
      assigned in order, so a repeated key keeps its first position and its
      last text. */
  function PassageDict(lines: seq<string>): (r: Dict)
    ensures OrderedMaps.Valid(r)
  {
    OrderedMaps.FromPairs(Stored(Records(Live(lines))))
  }

  /** The loop state after the lines `prefix`: the dictionary holds the kept
      pairs before the current one, and the current key and text are the last
      pair. */
  ghost predicate Scanned(prefix: seq<string>, output: Dict, key: string, val: string) {
    var records := Records(prefix);
    && output == OrderedMaps.FromPairs(Kept(records[..|records| - 1]))
    && (key, val) == records[|records| - 1]
  }

  /** One more line that is only a newline changes no pair. */
  lemma BlankRecords(prefix: seq<string>)
    ensures Records(prefix + ["\n"]) == Records(prefix)
  {
    assert (prefix + ["\n"])[..|prefix|] == prefix;
    assert NonBlank(prefix + ["\n"]) == NonBlank(prefix);
  }

  /** One more key line adds a pair with its key and no text. */
  lemma KeyRecords(prefix: seq<string>, line: string)
    requires line != "\n" && IsKeyLine(line)
    ensures Records(prefix + [line]) == Records(prefix) + [(KeyOf(line), "")]
  {
    assert (prefix + [line])[..|prefix|] == prefix;
    assert NonBlank(prefix + [line]) == NonBlank(prefix) + [line];
    SplitAtHeadersSnoc(NonBlank(prefix), line, IsKeyLine);
    var groups := SplitAtHeaders(NonBlank(prefix), IsKeyLine).1;
    assert (groups + [Group(line, [])])[..|groups|] == groups;
  }

  /** One more line that is neither blank nor a key line is added to the text
      of the last pair. */
  lemma TextRecords(prefix: seq<string>, line: string)
    requires line != "\n" && !IsKeyLine(line)
    ensures var before := Records(prefix);
            Records(prefix + [line])
              == before[..|before| - 1] + [(before[|before| - 1].0, before[|before| - 1].1 + line)]
  {
    assert (prefix + [line])[..|prefix|] == prefix;
    var lines := NonBlank(prefix);
    assert NonBlank(prefix + [line]) == lines + [line];
    SplitAtHeadersSnoc(lines, line, IsKeyLine);
    var (lead, groups) := SplitAtHeaders(lines, IsKeyLine);
    if |groups| == 0 {
      ConcatSnoc(lead, line);
    } else {
      var last := groups[|groups| - 1];
      var init := groups[..|groups| - 1];
      ConcatSnoc(last.body, line);
      assert (init + [Group(last.header, last.body + [line])])[..|init|] == init;
    }
  }

  /** Storing the current pair when a key line comes keeps `Scanned`. */
  lemma KeyStep(prefix: seq<string>, line: string, output: Dict, key: string, val: string)
    requires line != "\n" && IsKeyLine(line)
    requires Scanned(prefix, output, key, val)
    ensures Scanned(prefix + [line], if key == "" && val == "" then output else OrderedMaps.Put(output, key, val), KeyOf(line), "")
  {
    KeyRecords(prefix, line);
    StoreStep(Records(prefix), Records(prefix + [line]), output, KeyOf(line));
  }

  /** A new pair after the current one: the current pair is stored unless
      its key and text are both empty. */
  lemma StoreStep(records: seq<(string, string)>, after: seq<(string, string)>, output: Dict, key: string)
    requires |records| >= 1 && output == OrderedMaps.FromPairs(Kept(records[..|records| - 1]))
    requires after == records + [(key, "")]
    ensures var last := records[|records| - 1];
            OrderedMaps.FromPairs(Kept(after[..|after| - 1]))
              == if last == ("", "") then output else OrderedMaps.Put(output, last.0, last.1)
  {
    assert after[..|after| - 1] == records;
    var init := records[..|records| - 1];
    var last := records[|records| - 1];
    FrontLast(records);
    KeptSnoc(init, last);
    if last != ("", "") {
      FromPairsSnoc(Kept(init), last);
      assert OrderedMaps.FromPairs(Kept(records)) == OrderedMaps.Put(output, last.0, last.1);
    } else {
      assert Kept(records) == Kept(init);
    }
  }

  /** Keeping the pairs of one more record. */
  lemma KeptSnoc(records: seq<(string, string)>, last: (string, string))
    ensures Kept(records + [last]) == Kept(records) + (if last == ("", "") then [] else [last])
  {
    assert (records + [last])[..|records|] == records;
  }

  /** Assigning one more pair. */
  lemma FromPairsSnoc(pairs: seq<(string, string)>, x: (string, string))
    ensures OrderedMaps.FromPairs(pairs + [x]) == OrderedMaps.Put(OrderedMaps.FromPairs(pairs), x.0, x.1)
  {
    assert (pairs + [x])[..|pairs|] == pairs;
  }

  /** Adding a text line to the current text keeps `Scanned`. */
  lemma TextStep(prefix: seq<string>, line: string, output: Dict, key: string, val: string)
    requires line != "\n" && !IsKeyLine(line)
    requires Scanned(prefix, output, key, val)
    ensures Scanned(prefix + [line], output, key, val + line)
  {
    TextRecords(prefix, line);
    var records := Records(prefix);
    var after := Records(prefix + [line]);
    assert after[..|after| - 1] == records[..|records| - 1];
  }

  /** `passageParser` over the lines `readline` would return. The dictionary
      is the stored pairs of the input up to the end of file, assigned in
      order. */
  method PassageParser(lines: seq<string>) returns (output: Dict)
    ensures output == PassageDict(lines)
  {
    output := OrderedMaps.Empty();
    var currentKey := "";
    var currentVal := "";
    var i := 0;
    assert Records([]) == [("", "")];
    while i < |lines|
      invariant i <= |lines| && "" !in lines[..i]
      invariant Scanned(lines[..i], output, currentKey, currentVal)
    {
      var line := lines[i];
      if line == "" {
        break;
      }
      output, currentKey, currentVal := ReadLine(lines[..i], line, output, currentKey, currentVal);
      ReadOneMore(lines, i);
      i := i + 1;
    }
    LivePrefix(lines, i);
    ScannedDict(lines[..i], output, currentKey, currentVal);
    output := OrderedMaps.Put(output, currentKey, currentVal);
  }

  /** One more line read, that is not the end of file. */
  lemma ReadOneMore(lines: seq<string>, i: nat)
    requires i < |lines| && "" !in lines[..i] && lines[i] != ""
    ensures lines[..i + 1] == lines[..i] + [lines[i]] && "" !in lines[..i + 1]
  {
    TakeOneMore(lines, i);
  }

  /** One round of the loop of `passageParser`, for a line that is not the
      end of file: a bare newline is dropped, a key line stores the current
      pair (unless its key and text are both empty) and starts a new one,
      any other line is added to the current text. */
  method ReadLine(ghost read: seq<string>, line: string, output: Dict, currentKey: string, currentVal: string)
    returns (output': Dict, currentKey': string, currentVal': string)
    requires line != "" && Scanned(read, output, currentKey, currentVal)
    ensures Scanned(read + [line], output', currentKey', currentVal')
  {
    output', currentKey', currentVal' := output, currentKey, currentVal;
    if line == "\n" {
      BlankRecords(read);
    } else if IsKeyLine(line) {
      KeyStep(read, line, output, currentKey, currentVal);
      if !(currentKey == "" && currentVal == "") {
        output' := OrderedMaps.Put(output, currentKey, currentVal);
        currentVal' := "";
      }
      currentKey' := KeyOf(line);
    } else {
      TextStep(read, line, output, currentKey, currentVal);
      currentVal' := currentVal + line;
    }
  }

  /** At the end of file the current pair is stored whatever it is. */
  lemma ScannedDict(prefix: seq<string>, output: Dict, key: string, val: string)
    requires Scanned(prefix, output, key, val)
    ensures OrderedMaps.Put(output, key, val) == OrderedMaps.FromPairs(Stored(Records(prefix)))
  {
    var records := Records(prefix);
    FromPairsSnoc(Kept(records[..|records| - 1]), (key, val));
  }

  /** Lines none of which is `''`, followed by the end of the input or by
      `''`, are the lines read. */
  lemma {:induction false} LivePrefix(lines: seq<string>, i: nat)
    requires i <= |lines| && "" !in lines[..i]
    requires i == |lines| || lines[i] == ""
    ensures Live(lines) == lines[..i]
  {
    if i > 0 {
      assert lines[..i] == [lines[0]] + lines[1..][..i - 1];
      LivePrefix(lines[1..], i - 1);
    }
  }

  /** Empty input gives `{'': ''}`. */
  lemma EmptyInput()
    ensures PassageDict([]) == OrderedMaps.OrderedMap([""], map["" := ""])
  {
    assert Records([]) == [("", "")];
    assert Stored([("", "")]) == [("", "")];
    assert OrderedMaps.FromPairs([("", "")]) == OrderedMaps.Put(OrderedMaps.Empty(), "", "") by {
      assert [("", "")][..0] == [];
    }
  }

  /** A key is in the dictionary exactly when some stored pair has it, and
      its text is that of the last such pair. */
  lemma PassageDictValues(lines: seq<string>, key: string)
    ensures var stored := Stored(Records(Live(lines)));
            && (key in PassageDict(lines).values <==> OrderedMaps.HasKey(stored, key))
            && (OrderedMaps.HasKey(stored, key) ==>
                  PassageDict(lines).values[key] == stored[OrderedMaps.LastIndex(stored, key)].1)
  {
    var stored := Stored(Records(Live(lines)));
    OrderedMaps.FromPairsKeys(stored, key);
    if OrderedMaps.HasKey(stored, key) {
      var i := OrderedMaps.LastIndex(stored, key);
      OrderedMaps.FromPairsValues(stored, key, i);
    }
  }

  /** The pair current at the end of file is stored and keeps its text: the
      last key line's text always wins. */
  lemma LastPairWins(lines: seq<string>)
    ensures var records := Records(Live(lines));
            var (key, text) := records[|records| - 1];
            key in PassageDict(lines).values && PassageDict(lines).values[key] == text
  {
    var stored := Stored(Records(Live(lines)));
    OrderedMaps.FromPairsValues(stored, stored[|stored| - 1].0, |stored| - 1);
  }

  /** Dropping the newline-only lines from the front of a list. */
  lemma {:induction false} NonBlankCons(x: string, rest: seq<string>)
    ensures NonBlank([x] + rest) == (if x == "\n" then [] else [x]) + NonBlank(rest)
  {
    if |rest| > 0 {
      var init, last := rest[..|rest| - 1], rest[|rest| - 1];
      var e := if x == "\n" then [] else [x];
      var t := if last == "\n" then [] else [last];
      NonBlankCons(x, init);
      assert ([x] + rest)[..|rest|] == [x] + init;
      assert ([x] + rest)[|rest|] == last;
      assert NonBlank([x] + rest) == NonBlank([x] + init) + t;
      assert NonBlank(rest) == NonBlank(init) + t;
      SeqAssoc(e, NonBlank(init), t);
    } else {
      assert ([x] + rest)[..0] == [];
    }
  }

  /** The lines read, less the newline-only ones, do not change when a
      newline-only line is inserted. */
  lemma {:induction false} NonBlankLive(a: seq<string>, b: seq<string>)
    ensures NonBlank(Live(a + ["\n"] + b)) == NonBlank(Live(a + b))
  {
    if |a| == 0 {
      assert a + ["\n"] + b == ["\n"] + b && a + b == b;
      NonBlankLiveBlank(b);
    } else if a[0] == "" {
      EndOfFileFirst(a, b);
    } else {
      NonBlankLive(a[1..], b);
      FirstLine(a + ["\n"], b);
      FirstLine(a, b);
      assert (a + ["\n"])[1..] == a[1..] + ["\n"];
      NonBlankLiveCons(a[0], a[1..] + ["\n"] + b, a[1..] + b);
    }
  }

  /** The first line of a non-empty `a` followed by `b` and the rest. */
  lemma FirstLine(a: seq<string>, b: seq<string>)
    requires |a| > 0
    ensures a + b == [a[0]] + (a[1..] + b)
  {
  }

  /** A newline-only first line is read and dropped. */
  lemma NonBlankLiveBlank(b: seq<string>)
    ensures NonBlank(Live(["\n"] + b)) == NonBlank(Live(b))
  {
    LiveCons("\n", b);
    NonBlankCons("\n", Live(b));
  }

  /** Nothing is read after an end of file in first place. */
  lemma EndOfFileFirst(a: seq<string>, b: seq<string>)
    requires |a| > 0 && a[0] == ""
    ensures Live(a + ["\n"] + b) == [] && Live(a + b) == []
  {
    assert (a + ["\n"] + b)[0] == "" && (a + b)[0] == "";
  }

  /** The step of `NonBlankLive`: the same first line, read and kept, in
      front of two inputs that read the same. */
  lemma NonBlankLiveCons(x: string, u: seq<string>, v: seq<string>)
    requires x != ""
    requires NonBlank(Live(u)) == NonBlank(Live(v))
    ensures NonBlank(Live([x] + u)) == NonBlank(Live([x] + v))
  {
    LiveCons(x, u);
    LiveCons(x, v);
    NonBlankCons(x, Live(u));
    NonBlankCons(x, Live(v));
  }

  /** A line that is not the end of file is read, then the rest. */
  lemma LiveCons(x: string, rest: seq<string>)
    requires x != ""
    ensures Live([x] + rest) == [x] + Live(rest)
  {
    assert ([x] + rest)[1..] == rest;
  }

  /** A line that is only a newline, wherever it stands, changes nothing. */
  lemma BlankLineIgnored(a: seq<string>, b: seq<string>)
    ensures PassageDict(a + ["\n"] + b) == PassageDict(a + b)
  {
    NonBlankLive(a, b);
  }
}
