/** Python string operations the Twee tools rely on, over `seq<char>`:
    `str.split(sep)` with an explicit one-character separator, `sep.join(parts)`,
    `str.partition(sep)` and the digit test of `str.isdigit()` restricted to ASCII;
    and `Pick`, the filter a list comprehension with a condition performs. */
module Strings {

  /** An ASCII decimal digit. */
  predicate IsDigit(c: char) {
    '0' <= c <= '9'
  }

  /** `s.isdigit()` for ASCII text: non-empty and digits only. */
  predicate IsDigits(s: string) {
    |s| > 0 && forall i :: 0 <= i < |s| ==> IsDigit(s[i])
  }

  /** No digit anywhere in `s`. */
  predicate DigitFree(s: string) {
    forall i :: 0 <= i < |s| ==> !IsDigit(s[i])
  }

  /** Every character of `s` is a space. */
  predicate AllSpaces(s: string) {
    forall i :: 0 <= i < |s| ==> s[i] == ' '
  }

  /** `sep.join(parts)`. */
  function Join(parts: seq<string>, sep: string): string {
    if |parts| == 0 then ""
    else if |parts| == 1 then parts[0]
    else parts[0] + sep + Join(parts[1..], sep)
  }

  /** Joining one more part appends the separator and the part. */
  lemma {:induction false} JoinSnoc(parts: seq<string>, x: string, sep: string)
    requires |parts| > 0
    ensures Join(parts + [x], sep) == Join(parts, sep) + sep + x
  {
    if |parts| > 1 {
      JoinSnoc(parts[1..], x, sep);
      assert (parts + [x])[1..] == parts[1..] + [x];
    } else {
      assert (parts + [x])[1..] == [x];
    }
  }

  /** A join that starts with a non-empty part is not empty. */
  lemma JoinNonEmpty(parts: seq<string>, sep: string)
    requires |parts| > 0 && |parts[0]| > 0
    ensures |Join(parts, sep)| > 0
  {
    if |parts| > 1 {
      assert Join(parts, sep) == parts[0] + sep + Join(parts[1..], sep);
    }
  }

  /** The concatenation of all `parts`, `''.join(parts)`. */
  function Concat(parts: seq<string>): string {
    if |parts| == 0 then "" else parts[0] + Concat(parts[1..])
  }

  /** Appending is associative. */
  lemma SeqAssoc<T>(a: seq<T>, b: seq<T>, c: seq<T>)
    ensures (a + b) + c == a + (b + c)
  {
  }

  /** A prefix one longer is the prefix and the next element. */
  lemma TakeOneMore<T>(s: seq<T>, i: nat)
    requires i < |s|
    ensures s[..i + 1] == s[..i] + [s[i]]
  {
  }

  /** A non-empty sequence is its front followed by its last element. */
  lemma FrontLast<T>(s: seq<T>)
    requires |s| > 0
    ensures s == s[..|s| - 1] + [s[|s| - 1]]
  {
  }

  /** Concatenating one more part appends it. */
  lemma {:induction false} ConcatSnoc(parts: seq<string>, x: string)
    ensures Concat(parts + [x]) == Concat(parts) + x
  {
    if |parts| > 0 {
      ConcatSnoc(parts[1..], x);
      assert (parts + [x])[1..] == parts[1..] + [x];
    } else {
      assert (parts + [x])[1..] == [];
    }
  }

  /** `s.split(sep)` for a one-character separator: the pieces between the
      separators, empty pieces kept, so there is always at least one piece. */
  function Split(s: string, sep: char): (r: seq<string>)
    ensures |r| >= 1
    ensures forall k :: 0 <= k < |r| ==> sep !in r[k]
  {
    if |s| == 0 then [""]
    else if s[0] == sep then [""] + Split(s[1..], sep)
    else
      var rest := Split(s[1..], sep);
      [[s[0]] + rest[0]] + rest[1..]
  }

  /** Joining the pieces of a split with the separator gives back the text. */
  lemma {:induction false} JoinSplit(s: string, sep: char)
    ensures Join(Split(s, sep), [sep]) == s
  {
    if |s| == 0 {
    } else if s[0] == sep {
      JoinSplit(s[1..], sep);
      assert s == [sep] + s[1..];
    } else {
      JoinSplit(s[1..], sep);
      var rest := Split(s[1..], sep);
      if |rest| == 1 {
        assert Join(rest, [sep]) == rest[0];
      } else {
        assert Join(rest, [sep]) == rest[0] + [sep] + Join(rest[1..], [sep]);
        assert Split(s, sep) == [[s[0]] + rest[0]] + rest[1..];
        assert (Split(s, sep))[1..] == rest[1..];
      }
      assert s == [s[0]] + s[1..];
    }
  }

  /** Splitting the join of separator-free pieces gives back the pieces. */
  lemma {:induction false} SplitJoin(parts: seq<string>, sep: char)
    requires |parts| >= 1
    requires forall k :: 0 <= k < |parts| ==> sep !in parts[k]
    ensures Split(Join(parts, [sep]), sep) == parts
  {
    if |parts| == 1 {
      SplitNoSeparator(parts[0], sep);
    } else {
      SplitJoin(parts[1..], sep);
      SplitPrefix(parts[0], Join(parts[1..], [sep]), sep);
      assert parts == [parts[0]] + parts[1..];
    }
  }

  /** A text without the separator is one piece. */
  lemma {:induction false} SplitNoSeparator(s: string, sep: char)
    requires sep !in s
    ensures Split(s, sep) == [s]
  {
    if |s| > 0 {
      SplitNoSeparator(s[1..], sep);
      assert s == [s[0]] + s[1..];
    }
  }

  /** A separator-free head followed by the separator starts a new piece. */
  lemma {:induction false} SplitPrefix(head: string, tail: string, sep: char)
    requires sep !in head
    ensures Split(head + [sep] + tail, sep) == [head] + Split(tail, sep)
  {
    if |head| == 0 {
      assert head + [sep] + tail == [sep] + tail;
      assert ([sep] + tail)[1..] == tail;
    } else {
      SplitPrefix(head[1..], tail, sep);
      assert (head + [sep] + tail)[1..] == head[1..] + [sep] + tail;
      assert [head[0]] + head[1..] == head;
    }
  }

  /** The elements of `parts` that are not empty, in order. */
  function NonEmpty(parts: seq<string>): (r: seq<string>)
    ensures forall k :: 0 <= k < |r| ==> |r[k]| > 0
    ensures |r| <= |parts|
  {
    if |parts| == 0 then []
    else if |parts[0]| == 0 then NonEmpty(parts[1..])
    else [parts[0]] + NonEmpty(parts[1..])
  }

  /** Filtering out empty strings keeps a list that has none unchanged. */
  lemma {:induction false} NonEmptyKeeps(parts: seq<string>)
    requires forall k :: 0 <= k < |parts| ==> |parts[k]| > 0
    ensures NonEmpty(parts) == parts
  {
    if |parts| > 0 {
      NonEmptyKeeps(parts[1..]);
      assert parts == [parts[0]] + parts[1..];
    }
  }

  /** The index of the first `c` in `s`, or `|s|` when there is none. */
  function IndexOf(s: string, c: char): (i: nat)
    ensures i <= |s|
    ensures forall k :: 0 <= k < i ==> s[k] != c
    ensures i < |s| ==> s[i] == c
  {
    if |s| == 0 then 0
    else if s[0] == c then 0
    else 1 + IndexOf(s[1..], c)
  }

  /** `s.partition(sep)`: the text before the first separator and the text
      after it; without a separator the whole text and `''`. */
  function Partition(s: string, sep: char): (r: (string, string))
    ensures sep !in r.0
    ensures sep in s ==> s == r.0 + [sep] + r.1
    ensures sep !in s ==> r == (s, "")
  {
    var i := IndexOf(s, sep);
    if i == |s| then (s, "") else (s[..i], s[i + 1..])
  }

  /** The number of leading spaces of `s`. */
  function LeadingSpaces(s: string): (n: nat)
    ensures n <= |s|
    ensures AllSpaces(s[..n])
    ensures n < |s| ==> s[n] != ' '
  {
    if |s| == 0 || s[0] != ' ' then 0 else 1 + LeadingSpaces(s[1..])
  }

  /** The index just past the last non-space character of `s` (0 when `s` is
      only spaces). */
  function TrailingStart(s: string): (n: nat)
    ensures n <= |s|
    ensures AllSpaces(s[n..])
    ensures n > 0 ==> s[n - 1] != ' '
  {
    if |s| == 0 then 0
    else if s[|s| - 1] != ' ' then |s|
    else TrailingStart(s[..|s| - 1])
  }

  /** Positions listed in increasing order. */
  ghost predicate Increasing(idx: seq<nat>) {
    forall j1, j2 :: 0 <= j1 < j2 < |idx| ==> idx[j1] < idx[j2]
  }

  /** The elements of `xs` whose flag in `keep` is set, in order. */
  function Pick<T>(keep: seq<bool>, xs: seq<T>): seq<T>
    requires |keep| == |xs|
  {
    if |xs| == 0 then [] else (if keep[0] then [xs[0]] else []) + Pick(keep[1..], xs[1..])
  }

  /** What `Pick` keeps, each once and in order: `idx` gives, increasing, the
      position in `xs` behind each element kept, and every flagged position
      is among them. */
  lemma {:induction false} PickInOrder<T>(keep: seq<bool>, xs: seq<T>) returns (idx: seq<nat>)
    requires |keep| == |xs|
    ensures |idx| == |Pick(keep, xs)| && Increasing(idx)
    ensures forall j :: 0 <= j < |idx| ==> idx[j] < |xs| && keep[idx[j]] && Pick(keep, xs)[j] == xs[idx[j]]
    ensures forall k :: 0 <= k < |xs| && keep[k] ==> k in idx
  {
    if |xs| == 0 {
      idx := [];
    } else {
      var rest := PickInOrder(keep[1..], xs[1..]);
      var moved := Moved(rest);
      idx := if keep[0] then [0] + moved else moved;
      PickStepIncreasing(rest, moved, idx, keep[0]);
      PickStepEntries(keep, xs, Pick(keep, xs), Pick(keep[1..], xs[1..]), rest, moved, idx);
      PickStepCovers(keep, xs, rest, moved, idx);
    }
  }

  /** Each of `rest` one further on. */
  function Moved(rest: seq<nat>): (r: seq<nat>)
    ensures |r| == |rest| && forall j :: 0 <= j < |rest| ==> r[j] == rest[j] + 1
  {
    seq(|rest|, j requires 0 <= j < |rest| => rest[j] + 1)
  }

  /** Moving increasing positions one on, after position `0` or not, keeps
      them increasing. */
  lemma PickStepIncreasing(rest: seq<nat>, moved: seq<nat>, idx: seq<nat>, first: bool)
    requires Increasing(rest) && moved == Moved(rest)
    requires idx == if first then [0] + moved else moved
    ensures Increasing(idx)
  {
    if first {
      forall j1, j2 | 0 <= j1 < j2 < |idx| ensures idx[j1] < idx[j2] {
        assert idx[j2] == moved[j2 - 1];
        if j1 > 0 {
          assert idx[j1] == moved[j1 - 1];
        }
      }
    }
  }

  /** Each position in the tail's `Pick`, moved one on, stands behind the
      same element of the whole. */
  lemma PickStepEntries<T>(keep: seq<bool>, xs: seq<T>, r: seq<T>, rr: seq<T>, rest: seq<nat>, moved: seq<nat>, idx: seq<nat>)
    requires |keep| == |xs| > 0
    requires r == (if keep[0] then [xs[0]] else []) + rr && |rest| == |rr|
    requires forall j :: 0 <= j < |rest| ==> rest[j] < |xs| - 1 && keep[1..][rest[j]] && rr[j] == xs[1..][rest[j]]
    requires moved == Moved(rest) && idx == if keep[0] then [0] + moved else moved
    ensures |idx| == |r|
    ensures forall j :: 0 <= j < |idx| ==> idx[j] < |xs| && keep[idx[j]] && r[j] == xs[idx[j]]
  {
    var off := if keep[0] then 1 else 0;
    forall j | off <= j < |idx| ensures idx[j] < |xs| && keep[idx[j]] && r[j] == xs[idx[j]] {
      var i := rest[j - off];
      assert idx[j] == moved[j - off] == i + 1;
      assert r[j] == rr[j - off] == xs[1..][i] == xs[i + 1];
      assert keep[1..][i] == keep[i + 1];
    }
  }

  /** Every flagged position of the whole is among the tail's positions
      moved one on, or is the head. */
  lemma PickStepCovers<T>(keep: seq<bool>, xs: seq<T>, rest: seq<nat>, moved: seq<nat>, idx: seq<nat>)
    requires |keep| == |xs| > 0
    requires forall k :: 0 <= k < |xs| - 1 && keep[1..][k] ==> k in rest
    requires moved == Moved(rest) && idx == if keep[0] then [0] + moved else moved
    ensures forall k :: 0 <= k < |xs| && keep[k] ==> k in idx
  {
    var off := if keep[0] then 1 else 0;
    forall k | 0 < k < |xs| && keep[k] ensures k in idx {
      assert keep[1..][k - 1] == keep[k];
      var j :| 0 <= j < |rest| && rest[j] == k - 1;
      assert idx[j + off] == moved[j] == k;
    }
    if keep[0] {
      assert idx[0] == 0;
    }
  }
}
