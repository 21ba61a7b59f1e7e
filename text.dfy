/** The string operations of Go's `strings` package that the alias builder relies on,
    over strings as sequences of Unicode code points. */
module Text {
  import opened Optional

  /** Unicode White_Space, the set `strings.TrimSpace` trims. */
  predicate IsSpace(c: char)
    ensures c as int < 0x80 ==> (IsSpace(c) <==> c as int in {9, 10, 11, 12, 13, 32})
  {
    var n := c as int;
    (9 <= n <= 13) || n == 32 || n == 0x85 || n == 0xA0 || n == 0x1680
    || (0x2000 <= n <= 0x200A) || n == 0x2028 || n == 0x2029 || n == 0x202F
    || n == 0x205F || n == 0x3000
  }

  /** Drops the longest all-space prefix. */
  function TrimLeft(s: string): (r: string)
    ensures |r| <= |s| && r == s[|s| - |r|..]
    ensures forall k :: 0 <= k < |s| - |r| ==> IsSpace(s[k])
    ensures r == [] || !IsSpace(r[0])
    decreases |s|
  {
    if |s| > 0 && IsSpace(s[0]) then TrimLeft(s[1..]) else s
  }

  /** Drops the longest all-space suffix. */
  function TrimRight(s: string): (r: string)
    ensures |r| <= |s| && r == s[..|r|]
    ensures forall k :: |r| <= k < |s| ==> IsSpace(s[k])
    ensures r == [] || !IsSpace(r[|r| - 1])
    decreases |s|
  {
    if |s| > 0 && IsSpace(s[|s| - 1]) then TrimRight(s[..|s| - 1]) else s
  }

  /** `r` is the part of `s` that starts at `lo`, with only white space around it. */
  ghost predicate TrimmedAt(s: string, lo: int, r: string) {
    0 <= lo <= |s| - |r| && r == s[lo..lo + |r|]
    && (forall k :: 0 <= k < lo ==> IsSpace(s[k]))
    && (forall k :: lo + |r| <= k < |s| ==> IsSpace(s[k]))
  }

  /** `strings.TrimSpace`: the infix of `s` left after removing leading and trailing
      white space; it neither starts nor ends with white space. */
  function TrimSpace(s: string): (r: string)
    ensures r == [] || (!IsSpace(r[0]) && !IsSpace(r[|r| - 1]))
  {
    TrimRight(TrimLeft(s))
  }

  /** What `TrimSpace` removes is white space on either side of its result. */
  lemma TrimSpaceInfix(s: string)
    ensures exists lo :: TrimmedAt(s, lo, TrimSpace(s))
  {
    var left := TrimLeft(s);
    var r := TrimRight(left);
    var lo := |s| - |left|;
    assert r == TrimSpace(s);
    assert r == s[lo..lo + |r|];
    assert forall k :: lo + |r| <= k < |s| ==> s[k] == left[k - lo];
    assert TrimmedAt(s, lo, r);
  }

  /** A string trims to nothing exactly when every character in it is white space. */
  lemma TrimSpaceEmpty(s: string)
    ensures TrimSpace(s) == [] <==> forall k :: 0 <= k < |s| ==> IsSpace(s[k])
  {
    if TrimSpace(s) != [] {
      TrimSpaceInfix(s);
      var r := TrimSpace(s);
      var lo :| TrimmedAt(s, lo, r);
      assert s[lo] == r[0];
    }
  }

  /** A string that neither starts nor ends with white space is its own trim. */
  lemma TrimSpaceUnchanged(s: string)
    requires s == [] || (!IsSpace(s[0]) && !IsSpace(s[|s| - 1]))
    ensures TrimSpace(s) == s
  {
  }

  /** `strings.TrimPrefix`: removes one occurrence of `prefix` from the front, if there. */
  function TrimPrefix(s: string, prefix: string): (r: string)
    ensures if prefix <= s then prefix + r == s else r == s
  {
    if prefix <= s then s[|prefix|..] else s
  }

  /** Splits `s` at the first occurrence of `c` (Go's `strings.SplitN(s, c, 2)`):
      the part before it, and the part after it if `c` occurs at all. */
  function Cut(s: string, c: char): (r: (string, Option<string>))
    ensures r.1.None? ==> r.0 == s && c !in s
    ensures r.1.Some? ==> s == r.0 + [c] + r.1.value && c !in r.0
  {
    if c !in s then (s, None)
    else if s[0] == c then ([], Some(s[1..]))
    else
      var t := Cut(s[1..], c);
      assert s == [s[0]] + s[1..];
      ([s[0]] + t.0, t.1)
  }

  /** The text before a cut, followed by `c` and the text after it when there is one. */
  function Rejoin(before: string, c: char, after: Option<string>): string {
    before + (if after.Some? then [c] + after.value else "")
  }

  /** Rejoining the two sides of a cut gives back the string. */
  lemma {:induction false} CutRejoin(s: string, c: char)
    ensures Rejoin(Cut(s, c).0, c, Cut(s, c).1) == s
  {
    var t := Cut(s, c);
    if t.1.Some? {
      assert s == t.0 + [c] + t.1.value;
    }
  }

  /** Cutting at the first `c` recovers the parts around it. */
  lemma {:induction false} CutAt(b: string, c: char, a: string)
    requires c !in b
    ensures Cut(b + [c] + a, c) == (b, Some(a))
  {
    var s := b + [c] + a;
    assert s[|b|] == c;
    if b == [] {
      assert s[1..] == a;
    } else {
      assert s[0] == b[0] && b == [b[0]] + b[1..];
      assert s[1..] == b[1..] + [c] + a;
      CutAt(b[1..], c, a);
    }
  }

  /** Go's `strings.Split(s, c)`: the maximal pieces between occurrences of `c`. */
  function Split(s: string, c: char): (r: seq<string>)
    ensures |r| > 0
    ensures forall k :: 0 <= k < |r| ==> c !in r[k]
    decreases |s|
  {
    var t := Cut(s, c);
    if t.1.None? then [s] else [t.0] + Split(t.1.value, c)
  }

  /** `strings.Join(parts, c)`. */
  function Join(parts: seq<string>, c: char): string
    decreases |parts|
  {
    if |parts| == 0 then ""
    else if |parts| == 1 then parts[0]
    else parts[0] + [c] + Join(parts[1..], c)
  }

  /** Joining the pieces of a split gives back the string. */
  lemma {:induction false} JoinSplit(s: string, c: char)
    ensures Join(Split(s, c), c) == s
    decreases |s|
  {
    var t := Cut(s, c);
    if t.1.Some? {
      JoinSplit(t.1.value, c);
      assert Split(s, c)[1..] == Split(t.1.value, c);
    }
  }

  /** Splitting a join of pieces free of the separator gives back the pieces. */
  lemma {:induction false} SplitJoin(parts: seq<string>, c: char)
    requires |parts| > 0
    requires forall k :: 0 <= k < |parts| ==> c !in parts[k]
    ensures Split(Join(parts, c), c) == parts
    decreases |parts|
  {
    if |parts| > 1 {
      SplitJoin(parts[1..], c);
      CutAt(parts[0], c, Join(parts[1..], c));
      assert parts == [parts[0]] + parts[1..];
    }
  }
}
