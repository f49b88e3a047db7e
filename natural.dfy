/** Natural-order sort keys (twee2tools/util.py: `atoi`, `natural_keys`):
    a text is cut into its maximal runs of digits and the text between them,
    `re.split('(\d+)', text)` keeping the separators, and each digit run is
    read as a number, so that keys compare numbers numerically. */
module Natural {
  import opened Strings

  /** One element of a key list: a Python `str` or a Python `int`. */
  datatype KeyPart = Text(s: string) | Num(n: nat)

  /** The value of one ASCII digit. */
  function DigitValue(c: char): (v: nat)
    requires IsDigit(c)
    ensures v <= 9
  {
    (c as int) - ('0' as int)
  }

  /** `int(s)` for a run of ASCII digits. */
  function DecimalValue(s: string): nat
    requires forall i :: 0 <= i < |s| ==> IsDigit(s[i])
  {
    if |s| == 0 then 0
    else 10 * DecimalValue(s[..|s| - 1]) + DigitValue(s[|s| - 1])
  }

  /** `atoi(text)`: a number exactly when the text is a non-empty run of
      digits, otherwise the text itself, unchanged. */
  function Atoi(text: string): (r: KeyPart)
    ensures r.Num? <==> IsDigits(text)
    ensures r.Text? ==> r.s == text
  {
    if IsDigits(text) then Num(DecimalValue(text)) else Text(text)
  }

  /** A leading zero does not change the value of a digit run. */
  lemma {:induction false} DecimalValueLeadingZero(t: string)
    requires forall i :: 0 <= i < |t| ==> IsDigit(t[i])
    ensures DecimalValue("0" + t) == DecimalValue(t)
  {
    if |t| > 0 {
      var u := t[..|t| - 1];
      DecimalValueLeadingZero(u);
      assert ("0" + t)[..|t|] == "0" + u;
    }
  }

  /** `atoi` loses leading zeros: "007" and "7" give the same key part. */
  lemma AtoiLeadingZero(t: string)
    requires IsDigits(t)
    ensures Atoi("0" + t) == Atoi(t)
  {
    DecimalValueLeadingZero(t);
  }

  /** The shape of the pieces of `re.split('(\d+)', text)`: digit-free text
      first, then pairs of a non-empty digit run and digit-free text, where a
      text piece between two digit runs is not empty. */
  predicate Alternating(parts: seq<string>)
    decreases |parts|
  {
    && |parts| >= 1
    && DigitFree(parts[0])
    && (|parts| == 1 ||
        (|parts| >= 3 && IsDigits(parts[1]) && (|parts| > 3 ==> |parts[2]| > 0)
         && Alternating(parts[2..])))
  }

  /** `re.split('(\d+)', text)`. */
  function SplitDigits(text: string): (r: seq<string>)
    ensures Alternating(r)
    ensures Concat(r) == text
  {
    if |text| == 0 then [""]
    else
      var c, rest := text[0], SplitDigits(text[1..]);
      assert text == [c] + text[1..];
      if !IsDigit(c) then
        PrependText(c, rest);
        [[c] + rest[0]] + rest[1..]
      else if rest[0] == "" && |rest| > 1 then
        PrependDigitToRun(c, rest);
        ["", [c] + rest[1]] + rest[2..]
      else
        PrependDigitRun(c, rest);
        ["", [c]] + rest
  }

  lemma ConcatCons(x: string, y: seq<string>)
    ensures Concat([x] + y) == x + Concat(y)
  {
    assert ([x] + y)[1..] == y;
  }

  lemma ConcatCons2(x: string, y: string, z: seq<string>)
    ensures Concat([x, y] + z) == x + y + Concat(z)
  {
    assert ([x, y] + z)[1..] == [y] + z;
    ConcatCons(y, z);
  }

  /** A non-digit joins the leading text piece. */
  lemma PrependText(c: char, rest: seq<string>)
    requires Alternating(rest) && !IsDigit(c)
    ensures Alternating([[c] + rest[0]] + rest[1..])
    ensures Concat([[c] + rest[0]] + rest[1..]) == [c] + Concat(rest)
  {
    PrependTextShape(c, rest);
    PrependFirst([c], rest);
  }

  lemma PrependTextShape(c: char, rest: seq<string>)
    requires Alternating(rest) && !IsDigit(c)
    ensures Alternating([[c] + rest[0]] + rest[1..])
  {
    DigitFreeCons(c, rest[0]);
    NewHead(rest, [c] + rest[0]);
  }

  lemma DigitFreeCons(c: char, s: string)
    requires !IsDigit(c) && DigitFree(s)
    ensures DigitFree([c] + s)
  {
    forall k | 0 <= k < |[c] + s| ensures !IsDigit(([c] + s)[k]) {
      if k > 0 { assert ([c] + s)[k] == s[k - 1]; }
    }
  }

  /** Another digit-free leading piece keeps the shape. */
  lemma NewHead(rest: seq<string>, h: string)
    requires Alternating(rest) && DigitFree(h)
    ensures Alternating([h] + rest[1..])
  {
    var r := [h] + rest[1..];
    if |rest| > 1 {
      assert r[1] == rest[1] && r[2..] == rest[2..];
    }
  }

  /** Text put in front of the first piece is put in front of the
      concatenation. */
  lemma PrependFirst(t: string, rest: seq<string>)
    requires |rest| >= 1
    ensures Concat([t + rest[0]] + rest[1..]) == t + Concat(rest)
  {
    ConcatCons(t + rest[0], rest[1..]);
    SeqAssoc(t, rest[0], Concat(rest[1..]));
  }

  /** A digit in front of a leading digit run joins that run. */
  lemma PrependDigitToRun(c: char, rest: seq<string>)
    requires Alternating(rest) && IsDigit(c) && rest[0] == "" && |rest| > 1
    ensures Alternating(["", [c] + rest[1]] + rest[2..])
    ensures Concat(["", [c] + rest[1]] + rest[2..]) == [c] + Concat(rest)
  {
    PrependDigitToRunShape(c, rest);
    PrependSecond([c], rest);
  }

  lemma PrependDigitToRunShape(c: char, rest: seq<string>)
    requires Alternating(rest) && IsDigit(c) && rest[0] == "" && |rest| > 1
    ensures Alternating(["", [c] + rest[1]] + rest[2..])
  {
    DigitsCons(c, rest[1]);
    NewRun(rest, [c] + rest[1]);
  }

  lemma DigitsCons(c: char, s: string)
    requires IsDigit(c) && IsDigits(s)
    ensures IsDigits([c] + s)
  {
    forall k | 0 <= k < |[c] + s| ensures IsDigit(([c] + s)[k]) {
      if k > 0 { assert ([c] + s)[k] == s[k - 1]; }
    }
  }

  /** Another first digit run behind an empty leading piece keeps the
      shape. */
  lemma NewRun(rest: seq<string>, d: string)
    requires Alternating(rest) && |rest| > 1 && rest[0] == "" && IsDigits(d)
    ensures Alternating(["", d] + rest[2..])
  {
    var r := ["", d] + rest[2..];
    assert r[2..] == rest[2..];
  }

  /** Text put in front of the second piece, behind an empty first piece, is
      put in front of the concatenation. */
  lemma PrependSecond(t: string, rest: seq<string>)
    requires |rest| >= 2 && rest[0] == ""
    ensures Concat(["", t + rest[1]] + rest[2..]) == t + Concat(rest)
  {
    ConcatCons2("", t + rest[1], rest[2..]);
    assert rest[1..][1..] == rest[2..];
    assert Concat(rest) == rest[1] + Concat(rest[2..]);
    SeqAssoc(t, rest[1], Concat(rest[2..]));
  }

  /** A digit in front of a leading text piece starts a new digit run. */
  lemma PrependDigitRun(c: char, rest: seq<string>)
    requires Alternating(rest) && IsDigit(c) && !(rest[0] == "" && |rest| > 1)
    ensures Alternating(["", [c]] + rest)
    ensures Concat(["", [c]] + rest) == [c] + Concat(rest)
  {
    var r := ["", [c]] + rest;
    ConcatCons2("", [c], rest);
    assert r[0] == "" && r[1] == [c] && r[2..] == rest;
    assert DigitFree(r[0]) && IsDigits(r[1]);
    assert |r| > 3 ==> |r[2]| > 0;
  }

  /** The split is the ONLY alternating decomposition of the text: any pieces
      of that shape that concatenate to the text are the split's pieces. */
  lemma {:induction false} SplitDigitsUnique(text: string, parts: seq<string>)
    requires Alternating(parts) && Concat(parts) == text
    ensures parts == SplitDigits(text)
    decreases |text|, 2
  {
    ConcatCons(parts[0], parts[1..]);
    assert parts == [parts[0]] + parts[1..];
    if |text| == 0 {
    } else if |parts[0]| > 0 {
      UniqueLeadingText(text, parts);
    } else {
      UniqueLeadingRun(text, parts);
    }
  }

  /** The first character belongs to the leading text piece. */
  lemma {:induction false} UniqueLeadingText(text: string, parts: seq<string>)
    requires Alternating(parts) && Concat(parts) == text && |parts[0]| > 0
    ensures parts == SplitDigits(text)
    decreases |text|, 0
  {
    ConcatCons(parts[0], parts[1..]);
    var c, rest := text[0], SplitDigits(text[1..]);
    var head := parts[0][1..];
    var p' := [head] + parts[1..];
    assert parts[0] == [c] + head;
    ConcatCons(head, parts[1..]);
    assert text[1..] == Concat(p');
    assert Alternating(p') by {
      if |parts| > 1 { assert p'[2..] == parts[2..]; }
    }
    SplitDigitsUnique(text[1..], p');
    assert parts == [[c] + rest[0]] + rest[1..];
  }

  /** An empty leading piece: the text starts with the first digit run. */
  lemma {:induction false} UniqueLeadingRun(text: string, parts: seq<string>)
    requires Alternating(parts) && Concat(parts) == text && |text| > 0 && parts[0] == ""
    ensures parts == SplitDigits(text)
    decreases |text|, 1
  {
    assert parts == [parts[0], parts[1]] + parts[2..];
    ConcatCons2(parts[0], parts[1], parts[2..]);
    if |parts[1]| == 1 {
      UniqueOneDigitRun(text, parts);
    } else {
      UniqueLongerRun(text, parts);
    }
  }

  /** A one-digit leading run stands alone: what follows it starts with
      text, or is the last, empty piece. */
  lemma {:induction false} UniqueOneDigitRun(text: string, parts: seq<string>)
    requires Alternating(parts) && |parts| >= 3 && parts[0] == "" && |parts[1]| == 1
    requires text == parts[1] + Concat(parts[2..])
    ensures parts == SplitDigits(text)
    decreases |text|, 0
  {
    var c := text[0];
    assert parts[1] == [c] && IsDigit(c);
    var p' := parts[2..];
    assert text[1..] == Concat(p');
    SplitDigitsUnique(text[1..], p');
    var rest := SplitDigits(text[1..]);
    assert rest[0] != "" || |rest| == 1;
    assert parts == ["", [c]] + rest;
  }

  /** A longer leading run is the first digit followed by the rest of the
      run. */
  lemma {:induction false} UniqueLongerRun(text: string, parts: seq<string>)
    requires Alternating(parts) && |parts| >= 3 && parts[0] == "" && |parts[1]| > 1
    requires text == parts[1] + Concat(parts[2..])
    ensures parts == SplitDigits(text)
    decreases |text|, 0
  {
    var c := text[0];
    var d := parts[1][1..];
    assert parts[1] == [c] + d && IsDigit(c);
    var p' := ["", d] + parts[2..];
    ConcatCons2("", d, parts[2..]);
    assert text[1..] == Concat(p');
    assert Alternating(p') by {
      assert p'[2..] == parts[2..];
    }
    SplitDigitsUnique(text[1..], p');
    var rest := SplitDigits(text[1..]);
    assert rest[2..] == parts[2..];
    assert parts == ["", [c] + rest[1]] + rest[2..];
  }

  /** A piece of a concatenation contributes its length. */
  lemma {:induction false} ConcatLength(parts: seq<string>, k: nat)
    requires k < |parts|
    ensures |Concat(parts)| >= |parts[k]|
  {
    if k > 0 {
      ConcatLength(parts[1..], k - 1);
    }
  }

  /** `atoi` applied to every piece. */
  function AtoiAll(parts: seq<string>): (r: seq<KeyPart>)
    ensures |r| == |parts|
    ensures forall k :: 0 <= k < |parts| ==> r[k] == Atoi(parts[k])
  {
    if |parts| == 0 then [] else [Atoi(parts[0])] + AtoiAll(parts[1..])
  }

  /** `natural_keys` applied to a text that has already been through `repr`. */
  function NaturalKeys(reprText: string): seq<KeyPart> {
    AtoiAll(SplitDigits(reprText))
  }

  /** The shape of every natural key: a digit-free text, then pairs of a number
      and a digit-free text. */
  predicate KeyShape(key: seq<KeyPart>)
    decreases |key|
  {
    && |key| >= 1
    && key[0].Text? && DigitFree(key[0].s)
    && (|key| == 1 || (|key| >= 3 && key[1].Num? && KeyShape(key[2..])))
  }

  lemma {:induction false} AtoiAllShape(parts: seq<string>)
    requires Alternating(parts)
    ensures KeyShape(AtoiAll(parts))
    decreases |parts|
  {
    if |parts[0]| > 0 { assert !IsDigit(parts[0][0]); }
    if |parts| > 1 {
      AtoiAllShape(parts[2..]);
      assert AtoiAll(parts)[2..] == AtoiAll(parts[2..]);
    }
  }

  /** In a key of that shape the texts sit at the even positions and the
      numbers at the odd ones. */
  lemma {:induction false} KeyShapeAt(key: seq<KeyPart>, k: nat)
    requires KeyShape(key) && k < |key|
    ensures key[k].Text? <==> k % 2 == 0
    ensures key[k].Text? ==> DigitFree(key[k].s)
    ensures |key| % 2 == 1
  {
    if k >= 2 {
      KeyShapeAt(key[2..], k - 2);
    } else if |key| > 1 {
      KeyShapeAt(key[2..], 0);
    }
  }

  /** Every natural key has odd length, digit-free texts at the even positions
      and numbers at the odd positions. */
  lemma NaturalKeysShape(text: string, k: nat)
    requires k < |NaturalKeys(text)|
    ensures |NaturalKeys(text)| % 2 == 1
    ensures NaturalKeys(text)[k].Text? <==> k % 2 == 0
    ensures NaturalKeys(text)[k].Text? ==> DigitFree(NaturalKeys(text)[k].s)
  {
    AtoiAllShape(SplitDigits(text));
    KeyShapeAt(NaturalKeys(text), k);
  }

  /** Two natural keys hold an element of the same Python type at every
      position they share, so comparing them never compares a `str` with an
      `int` (which Python refuses with `TypeError`). */
  lemma KeysComparable(a: string, b: string, k: nat)
    requires k < |NaturalKeys(a)| && k < |NaturalKeys(b)|
    ensures NaturalKeys(a)[k].Text? <==> NaturalKeys(b)[k].Text?
  {
    NaturalKeysShape(a, k);
    NaturalKeysShape(b, k);
  }

  // ---- Python's ordering of key lists ----

  /** Python's lexicographic `<` on sequences, given the order of elements. */
  function LexLt<T(==)>(a: seq<T>, b: seq<T>, lt: (T, T) -> bool): bool {
    if |a| == 0 then |b| > 0
    else if |b| == 0 then false
    else if a[0] != b[0] then lt(a[0], b[0])
    else LexLt(a[1..], b[1..], lt)
  }

  ghost predicate StrictTotalOrder<T(!new)>(lt: (T, T) -> bool) {
    && (forall x :: !lt(x, x))
    && (forall x, y, z :: lt(x, y) && lt(y, z) ==> lt(x, z))
    && (forall x, y :: x != y ==> lt(x, y) || lt(y, x))
  }

  lemma {:induction false} LexLtIrreflexive<T(!new)>(a: seq<T>, lt: (T, T) -> bool)
    requires StrictTotalOrder(lt)
    ensures !LexLt(a, a, lt)
  {
    if |a| > 0 {
      LexLtIrreflexive(a[1..], lt);
    }
  }

  lemma {:induction false} LexLtTransitive<T(!new)>(a: seq<T>, b: seq<T>, c: seq<T>, lt: (T, T) -> bool)
    requires StrictTotalOrder(lt)
    requires LexLt(a, b, lt) && LexLt(b, c, lt)
    ensures LexLt(a, c, lt)
  {
    if |a| > 0 && |b| > 0 && |c| > 0 && a[0] == b[0] && b[0] == c[0] {
      LexLtTransitive(a[1..], b[1..], c[1..], lt);
    }
  }

  lemma {:induction false} LexLtTotal<T(!new)>(a: seq<T>, b: seq<T>, lt: (T, T) -> bool)
    requires StrictTotalOrder(lt)
    ensures a == b || LexLt(a, b, lt) || LexLt(b, a, lt)
  {
    if |a| > 0 && |b| > 0 && a[0] == b[0] {
      LexLtTotal(a[1..], b[1..], lt);
      if a[1..] == b[1..] {
        assert a == [a[0]] + a[1..] && b == [b[0]] + b[1..];
      }
    }
  }

  /** Python's `<` on one-character strings: by code point. */
  function CharLt(x: char, y: char): bool {
    x < y
  }

  /** Python's `<` on key elements: strings lexicographically by code point,
      numbers numerically. A string and a number are never compared in keys
      of the same shape (KeysComparable); the model puts strings first so that
      the order is total. */
  function PartLt(x: KeyPart, y: KeyPart): bool {
    match (x, y)
    case (Text(s), Text(t)) => LexLt(s, t, CharLt)
    case (Num(m), Num(n)) => m < n
    case (Text(_), Num(_)) => true
    case (Num(_), Text(_)) => false
  }

  /** Python's `<` on natural keys. */
  function KeyLt(a: seq<KeyPart>, b: seq<KeyPart>): bool {
    LexLt(a, b, PartLt)
  }

  lemma CharLtOrder()
    ensures StrictTotalOrder(CharLt)
  {
  }

  lemma PartLtOrder()
    ensures StrictTotalOrder(PartLt)
  {
    CharLtOrder();
    forall x: KeyPart
      ensures !PartLt(x, x)
    {
      if x.Text? { LexLtIrreflexive(x.s, CharLt); }
    }
    forall x: KeyPart, y: KeyPart, z: KeyPart | PartLt(x, y) && PartLt(y, z)
      ensures PartLt(x, z)
    {
      if x.Text? && y.Text? && z.Text? { LexLtTransitive(x.s, y.s, z.s, CharLt); }
    }
    forall x: KeyPart, y: KeyPart | x != y
      ensures PartLt(x, y) || PartLt(y, x)
    {
      if x.Text? && y.Text? { LexLtTotal(x.s, y.s, CharLt); }
    }
  }

  /** The key order is a strict total order: sorting by it is well defined. */
  lemma KeyLtOrder()
    ensures StrictTotalOrder(KeyLt)
  {
    PartLtOrder();
    forall a: seq<KeyPart>
      ensures !KeyLt(a, a)
    {
      LexLtIrreflexive(a, PartLt);
    }
    forall a: seq<KeyPart>, b: seq<KeyPart>, c: seq<KeyPart> | KeyLt(a, b) && KeyLt(b, c)
      ensures KeyLt(a, c)
    {
      LexLtTransitive(a, b, c, PartLt);
    }
    forall a: seq<KeyPart>, b: seq<KeyPart> | a != b
      ensures KeyLt(a, b) || KeyLt(b, a)
    {
      LexLtTotal(a, b, PartLt);
    }
  }

  lemma KeyLtIrreflexive(a: seq<KeyPart>)
    ensures !KeyLt(a, a)
  {
    PartLtOrder();
    LexLtIrreflexive(a, PartLt);
  }

  lemma KeyLtTransitive(a: seq<KeyPart>, b: seq<KeyPart>, c: seq<KeyPart>)
    requires KeyLt(a, b) && KeyLt(b, c)
    ensures KeyLt(a, c)
  {
    PartLtOrder();
    LexLtTransitive(a, b, c, PartLt);
  }

  lemma KeyLtTotal(a: seq<KeyPart>, b: seq<KeyPart>)
    ensures a == b || KeyLt(a, b) || KeyLt(b, a)
  {
    PartLtOrder();
    LexLtTotal(a, b, PartLt);
  }

  /** Embedded numbers compare numerically: "p2" sorts before "p10", although
      the character '1' comes before '2'. */
  lemma NumbersCompareNumerically()
    ensures NaturalKeys("p2") == [Text("p"), Num(2), Text("")]
    ensures NaturalKeys("p10") == [Text("p"), Num(10), Text("")]
    ensures KeyLt(NaturalKeys("p2"), NaturalKeys("p10"))
    ensures LexLt("p10", "p2", CharLt)
  {
    KeysOfP2();
    KeysOfP10();
    KeysP2BeforeP10();
    TextP10BeforeP2();
  }

  lemma KeysP2BeforeP10()
    ensures KeyLt([Text("p"), Num(2), Text("")], [Text("p"), Num(10), Text("")])
  {
    var k2: seq<KeyPart> := [Text("p"), Num(2), Text("")];
    var k10: seq<KeyPart> := [Text("p"), Num(10), Text("")];
    assert k2[1..] == [Num(2), Text("")] && k10[1..] == [Num(10), Text("")];
    assert LexLt(k2[1..], k10[1..], PartLt);
  }

  lemma TextP10BeforeP2()
    ensures LexLt("p10", "p2", CharLt)
  {
    assert "p10"[1..] == "10" && "p2"[1..] == "2";
    assert LexLt("10", "2", CharLt);
  }

  lemma KeysOfP2()
    ensures NaturalKeys("p2") == [Text("p"), Num(2), Text("")]
  {
    assert "p" + "2" == "p2";
    KeysOf("p", "2", 2);
  }

  lemma KeysOfP10()
    ensures NaturalKeys("p10") == [Text("p"), Num(10), Text("")]
  {
    assert "p" + "10" == "p10";
    assert DecimalValue("10") == 10 by {
      assert "10"[..1] == "1";
    }
    KeysOf("p", "10", 10);
  }

  lemma KeysOf(t: string, d: string, n: nat)
    requires DigitFree(t) && IsDigits(d) && DecimalValue(d) == n
    ensures NaturalKeys(t + d) == [Text(t), Num(n), Text("")]
  {
    SplitOneRun(t, d);
  }

  /** A text piece followed by one digit run splits into those two pieces and
      an empty trailing text. */
  lemma SplitOneRun(t: string, d: string)
    requires DigitFree(t) && IsDigits(d)
    ensures SplitDigits(t + d) == [t, d, ""]
    ensures NaturalKeys(t + d) == [Text(t), Num(DecimalValue(d)), Text("")]
  {
    var parts := [t, d, ""];
    assert parts[2..] == [""];
    ConcatCons2(t, d, [""]);
    SplitDigitsUnique(t + d, parts);
  }

  /** Texts that differ only in the leading zeros of a digit run get equal
      keys: "p007" and "p7". */
  lemma LeadingZerosEqualKeys()
    ensures NaturalKeys("p007") == NaturalKeys("p7")
  {
    SplitOneRun("p", "007");
    SplitOneRun("p", "7");
    assert "007" == "0" + "07" && "07" == "0" + "7";
    DecimalValueLeadingZero("07");
    DecimalValueLeadingZero("7");
  }
}
