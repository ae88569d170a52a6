/**
 Python's string operations as the interpreter uses them: `str.replace`,
 `str.split(sep)`, `str.split(sep, 1)`, `sep.join(...)`, `str.strip()` and
 `str.lower()`, together with the facts about them that the rest of the
 model relies on.
 */
module Text {
  import opened Wrappers

  // ---------------------------------------------------------------------
  // Occurrences of a pattern
  // ---------------------------------------------------------------------

  /** `pat` occurs in `s` starting at index `i`. */
  predicate OccursAt(s: string, pat: string, i: int)
  {
    0 <= i && i + |pat| <= |s| && s[i..i + |pat|] == pat
  }

  /** The index of the first occurrence of `pat` in `s` (Python's `str.find`, with None for -1). */
  function FindIndex(s: string, pat: string): (r: Option<nat>)
    ensures r.Some? ==> OccursAt(s, pat, r.value)
    ensures r.Some? ==> forall j :: 0 <= j < r.value ==> !OccursAt(s, pat, j)
    ensures r.None? ==> forall j :: !OccursAt(s, pat, j)
    decreases |s|
  {
    if |s| < |pat| then None
    else if s[..|pat|] == pat then Some(0)
    else
      match FindIndex(s[1..], pat)
      case None =>
        assert forall j :: OccursAt(s, pat, j) && j > 0 ==> OccursAt(s[1..], pat, j - 1);
        None
      case Some(i) =>
        assert forall j :: 0 < j <= i ==> (OccursAt(s, pat, j) ==> OccursAt(s[1..], pat, j - 1));
        assert s[i + 1..i + 1 + |pat|] == s[1..][i..i + |pat|];
        Some(i + 1)
  }

  /** Python's `pat in s`. */
  predicate Contains(s: string, pat: string)
  {
    FindIndex(s, pat).Some?
  }

  // ---------------------------------------------------------------------
  // str.replace
  // ---------------------------------------------------------------------

  /** `sub` before every character of `s` and once at its end: `s.replace('', sub)`. */
  function InsertEverywhere(s: string, sub: string): string
  {
    if s == [] then sub else sub + [s[0]] + InsertEverywhere(s[1..], sub)
  }

  /**
   Python's `s.replace(pat, sub)`: every non-overlapping occurrence of `pat`,
   scanning left to right, replaced by `sub`.
   */
  function Replace(s: string, pat: string, sub: string): string
    decreases |s|
  {
    if pat == [] then InsertEverywhere(s, sub)
    else if |s| < |pat| then s
    else if s[..|pat|] == pat then sub + Replace(s[|pat|..], pat, sub)
    else [s[0]] + Replace(s[1..], pat, sub)
  }

  /** Replacing one character: what the result can contain. */
  lemma {:induction false} ReplaceCharMembers(s: string, c: char, sub: string, d: char)
    ensures d in Replace(s, [c], sub) ==> (d in s && d != c) || d in sub
    ensures d in s && d != c ==> d in Replace(s, [c], sub)
    decreases |s|
  {
    if |s| >= 1 {
      ReplaceCharMembers(s[1..], c, sub, d);
      assert s == [s[0]] + s[1..];
      if s[..1] == [c] {
        assert s[0] == c;
      } else {
        assert s[0] != c;
      }
    }
  }

  /** A character absent from both the input and the replacement stays absent. */
  lemma ReplaceCharKeepsOut(s: string, c: char, sub: string, d: char)
    requires d !in s || d == c
    requires d !in sub
    ensures d !in Replace(s, [c], sub)
  {
    ReplaceCharMembers(s, c, sub, d);
  }

  /** Replacing a character that does not occur changes nothing. */
  lemma {:induction false} ReplaceCharAbsent(s: string, c: char, sub: string)
    requires c !in s
    ensures Replace(s, [c], sub) == s
    decreases |s|
  {
    if |s| >= 1 {
      assert s[..1] != [c] by { assert s[0] in s; }
      ReplaceCharAbsent(s[1..], c, sub);
      assert s == [s[0]] + s[1..];
    }
  }

  /** A replacement at least as long as the pattern never shortens the string. */
  lemma {:induction false} ReplaceNotShorter(s: string, pat: string, sub: string)
    requires |sub| >= |pat|
    ensures |Replace(s, pat, sub)| >= |s|
    decreases |s|
  {
    if pat == [] {
      InsertEverywhereLength(s, sub);
    } else if |s| >= |pat| {
      if s[..|pat|] == pat {
        ReplaceNotShorter(s[|pat|..], pat, sub);
      } else {
        ReplaceNotShorter(s[1..], pat, sub);
      }
    }
  }

  lemma {:induction false} InsertEverywhereLength(s: string, sub: string)
    ensures |InsertEverywhere(s, sub)| == |s| + (|s| + 1) * |sub|
    decreases |s|
  {
    if s != [] {
      InsertEverywhereLength(s[1..], sub);
    }
  }

  /**
   Two single-character replacements commute when neither replacement text
   contains the other's character.
   */
  lemma {:induction false} ReplaceCharsCommute(s: string, a: char, x: string, b: char, y: string)
    requires a != b && a !in y && b !in x
    ensures Replace(Replace(s, [a], x), [b], y) == Replace(Replace(s, [b], y), [a], x)
    decreases |s|
  {
    if |s| >= 1 {
      var t := s[1..];
      ReplaceCharsCommute(t, a, x, b, y);
      assert s == [s[0]] + t;
      var ra := Replace(t, [a], x);
      var rb := Replace(t, [b], y);
      if s[0] == a {
        assert Replace(s, [a], x) == x + ra;
        assert Replace(s, [b], y) == [a] + rb;
        ReplaceCharAbsent(x, b, y);
        ReplaceCharConcat(x, ra, b, y);
        ReplaceCharConcat([a], rb, a, x);
      } else if s[0] == b {
        assert Replace(s, [a], x) == [b] + ra;
        assert Replace(s, [b], y) == y + rb;
        ReplaceCharAbsent(y, a, x);
        ReplaceCharConcat([b], ra, b, y);
        ReplaceCharConcat(y, rb, a, x);
      } else {
        assert Replace(s, [a], x) == [s[0]] + ra;
        assert Replace(s, [b], y) == [s[0]] + rb;
        ReplaceCharConcat([s[0]], ra, b, y);
        ReplaceCharConcat([s[0]], rb, a, x);
        ReplaceCharAbsent([s[0]], a, x);
        ReplaceCharAbsent([s[0]], b, y);
      }
    }
  }

  /** A single-character replacement distributes over concatenation. */
  lemma {:induction false} ReplaceCharConcat(u: string, v: string, c: char, sub: string)
    ensures Replace(u + v, [c], sub) == Replace(u, [c], sub) + Replace(v, [c], sub)
    decreases |u|
  {
    if u != [] {
      ReplaceCharConcat(u[1..], v, c, sub);
      assert (u + v)[1..] == u[1..] + v;
      assert (u + v)[..1] == u[..1];
    } else {
      assert u + v == v;
    }
  }

  // ---------------------------------------------------------------------
  // sep.join and str.split
  // ---------------------------------------------------------------------

  /** Python's `sep.join(xs)`. */
  function Join(xs: seq<string>, sep: string): string
  {
    if |xs| == 0 then ""
    else if |xs| == 1 then xs[0]
    else xs[0] + sep + Join(xs[1..], sep)
  }

  /** A character in no piece and not in the separator is not in the joined text. */
  lemma {:induction false} JoinKeepsOut(xs: seq<string>, sep: string, c: char)
    requires c !in sep && forall k :: 0 <= k < |xs| ==> c !in xs[k]
    ensures c !in Join(xs, sep)
    decreases |xs|
  {
    if |xs| > 1 {
      JoinKeepsOut(xs[1..], sep, c);
    }
  }

  /** Python's `s.split(sep)` with no limit: the pieces between the non-overlapping occurrences of `sep`. */
  function Split(s: string, sep: string): (r: seq<string>)
    requires sep != []
    ensures |r| >= 1
    decreases |s|
  {
    match FindIndex(s, sep)
    case None => [s]
    case Some(i) => [s[..i]] + Split(s[i + |sep|..], sep)
  }

  /** Python's `s.split(sep, 1)`: at most two pieces, cut at the first occurrence. */
  function SplitOnce(s: string, sep: string): (r: seq<string>)
    requires sep != []
    ensures 1 <= |r| <= 2
    ensures |r| == 1 <==> !Contains(s, sep)
    ensures |r| == 1 ==> r[0] == s
    ensures |r| == 2 ==> r[0] + sep + r[1] == s && !Contains(r[0], sep)
  {
    match FindIndex(s, sep)
    case None => [s]
    case Some(i) =>
      assert s == s[..i] + s[i..i + |sep|] + s[i + |sep|..];
      NoOccurrenceInPrefix(s, sep, i);
      [s[..i], s[i + |sep|..]]
  }

  /** A prefix that ends before the first occurrence contains no occurrence. */
  lemma NoOccurrenceInPrefix(s: string, sep: string, i: nat)
    requires i <= |s| && sep != []
    requires forall j :: 0 <= j < i ==> !OccursAt(s, sep, j)
    ensures !Contains(s[..i], sep)
  {
    forall j | OccursAt(s[..i], sep, j) ensures OccursAt(s, sep, j) && j < i {
      assert s[..i][j..j + |sep|] == s[j..j + |sep|];
    }
  }

  /** When `sep` occurs, the first piece of the split is what precedes its first occurrence. */
  lemma SplitAtFirst(s: string, sep: string)
    requires sep != [] && Contains(s, sep)
    ensures var pieces := Split(s, sep);
            && |pieces| >= 2 && !Contains(pieces[0], sep)
            && |pieces[0]| + |sep| <= |s|
            && s == pieces[0] + sep + s[|pieces[0]| + |sep|..]
  {
    var i := FindIndex(s, sep).value;
    var rest := s[i + |sep|..];
    assert Split(s, sep) == [s[..i]] + Split(rest, sep);
    NoOccurrenceInPrefix(s, sep, i);
    assert s[i..i + |sep|] == sep;
    assert s == s[..i] + s[i..i + |sep|] + rest;
  }

  /** Without an occurrence of `sep` the split is the whole string. */
  lemma SplitWithout(s: string, sep: string)
    requires sep != [] && !Contains(s, sep)
    ensures Split(s, sep) == [s]
  {
  }

  /** Joining the pieces of a split with the same separator gives back the string. */
  lemma {:induction false} JoinSplit(s: string, sep: string)
    requires sep != []
    ensures Join(Split(s, sep), sep) == s
    decreases |s|
  {
    var f := FindIndex(s, sep);
    if f.Some? {
      var i := f.value;
      var rest := s[i + |sep|..];
      JoinSplit(rest, sep);
      var pieces := [s[..i]] + Split(rest, sep);
      assert Split(s, sep) == pieces;
      assert pieces[1..] == Split(rest, sep);
      assert Join(pieces, sep) == s[..i] + sep + rest;
      assert s[i..i + |sep|] == sep;
      assert s == s[..i] + s[i..i + |sep|] + rest;
    }
  }

  /**
   Splitting a join gives back the pieces, provided the separator's last
   character occurs nowhere else in the separator and in none of the pieces.
   */
  lemma {:induction false} SplitJoin(xs: seq<string>, sep: string)
    requires |xs| >= 1 && sep != []
    requires sep[|sep| - 1] !in sep[..|sep| - 1]
    requires forall k :: 0 <= k < |xs| ==> sep[|sep| - 1] !in xs[k]
    ensures Split(Join(xs, sep), sep) == xs
    decreases |xs|
  {
    if |xs| == 1 {
      NoMarkNoOccurrence(xs[0], sep);
    } else {
      var x, tail := xs[0], xs[1..];
      var rest := Join(tail, sep);
      SplitJoin(tail, sep);
      FirstOccurrenceAfterMarkFree(x, sep, rest);
      var s := x + sep + rest;
      assert Join(xs, sep) == s;
      assert s[..|x|] == x;
      assert s[|x| + |sep|..] == rest;
      assert Split(s, sep) == [x] + Split(rest, sep);
      assert xs == [x] + tail;
    }
  }

  /** A string without the separator's last character holds no occurrence of it. */
  lemma NoMarkNoOccurrence(x: string, sep: string)
    requires sep != [] && sep[|sep| - 1] !in x
    ensures FindIndex(x, sep).None?
  {
    forall i | 0 <= i && i + |sep| <= |x| ensures !OccursAt(x, sep, i) {
      assert x[i..i + |sep|][|sep| - 1] == x[i + |sep| - 1];
    }
  }

  lemma FirstOccurrenceAfterMarkFree(x: string, sep: string, y: string)
    requires sep != []
    requires sep[|sep| - 1] !in sep[..|sep| - 1]
    requires sep[|sep| - 1] !in x
    ensures FindIndex(x + sep + y, sep) == Some(|x|)
  {
    var s := x + sep + y;
    var c := sep[|sep| - 1];
    assert s[|x|..|x| + |sep|] == sep;
    assert OccursAt(s, sep, |x|);
    forall i | 0 <= i < |x| && i + |sep| <= |s| ensures !OccursAt(s, sep, i) {
      var k := i + |sep| - 1;
      assert s[i..i + |sep|][|sep| - 1] == s[k];
      if k < |x| {
        assert s[k] == x[k];
      } else {
        assert s[k] == sep[k - |x|] == sep[..|sep| - 1][k - |x|];
      }
    }
  }

  /** The first piece of a split on one character holds no such character. */
  lemma SplitFirstPieceLacksSep(s: string, c: char)
    ensures c !in Split(s, [c])[0]
  {
    var f := FindIndex(s, [c]);
    var p := Split(s, [c])[0];
    var n := if f.Some? then f.value else |s|;
    assert p == s[..n];
    forall k | 0 <= k < |p| ensures p[k] != c {
      assert s[k..k + 1] == [s[k]];
      assert !OccursAt(s, [c], k);
    }
  }

  /** Counting occurrences of one character. */
  function CountChar(s: string, c: char): nat
  {
    if s == [] then 0 else (if s[0] == c then 1 else 0) + CountChar(s[1..], c)
  }

  lemma {:induction false} CountCharAbsent(s: string, c: char)
    requires c !in s
    ensures CountChar(s, c) == 0
    decreases |s|
  {
    if s != [] {
      assert s[0] in s;
      CountCharAbsent(s[1..], c);
    }
  }

  lemma {:induction false} CountCharConcat(u: string, v: string, c: char)
    ensures CountChar(u + v, c) == CountChar(u, c) + CountChar(v, c)
    decreases |u|
  {
    if u != [] {
      CountCharConcat(u[1..], v, c);
      assert (u + v)[1..] == u[1..] + v;
    } else {
      assert u + v == v;
    }
  }

  // ---------------------------------------------------------------------
  // str.strip and str.lower
  // ---------------------------------------------------------------------

  /** The characters Python's `str.isspace()` accepts. */
  predicate IsSpace(c: char)
  {
    var n := c as int;
    (0x09 <= n <= 0x0D) || (0x1C <= n <= 0x20) || n == 0x85 || n == 0xA0 || n == 0x1680
    || (0x2000 <= n <= 0x200A) || n == 0x2028 || n == 0x2029 || n == 0x202F || n == 0x205F
    || n == 0x3000
  }

  /** Python's `s.lstrip()`: the suffix left after the leading whitespace (`StripLeftSpec`). */
  function StripLeft(s: string): string
    decreases |s|
  {
    if s != [] && IsSpace(s[0]) then StripLeft(s[1..]) else s
  }

  /** Python's `s.rstrip()`: the prefix left before the trailing whitespace (`StripRightSpec`). */
  function StripRight(s: string): string
    decreases |s|
  {
    if s != [] && IsSpace(s[|s| - 1]) then StripRight(s[..|s| - 1]) else s
  }

  /** Python's `s.strip()`. */
  function Strip(s: string): string
  {
    StripRight(StripLeft(s))
  }

  /** `lstrip` removes exactly the leading run of whitespace. */
  lemma {:induction false} StripLeftSpec(s: string)
    ensures var r := StripLeft(s);
            && |r| <= |s| && r == s[|s| - |r|..]
            && (forall k :: 0 <= k < |s| - |r| ==> IsSpace(s[k]))
            && (r == [] || !IsSpace(r[0]))
    decreases |s|
  {
    if s != [] && IsSpace(s[0]) {
      StripLeftSpec(s[1..]);
    }
  }

  /** `rstrip` removes exactly the trailing run of whitespace. */
  lemma {:induction false} StripRightSpec(s: string)
    ensures var r := StripRight(s);
            && |r| <= |s| && r == s[..|r|]
            && (forall k :: |r| <= k < |s| ==> IsSpace(s[k]))
            && (r == [] || !IsSpace(r[|r| - 1]))
    decreases |s|
  {
    if s != [] && IsSpace(s[|s| - 1]) {
      StripRightSpec(s[..|s| - 1]);
      assert s[..|s| - 1][..|StripRight(s)|] == s[..|StripRight(s)|];
    }
  }

  /**
   `strip` keeps a contiguous part of the text, drops only whitespace on
   either side of it, and leaves no whitespace at either end.
   */
  lemma StripSpec(s: string)
    ensures var r := Strip(s);
            && exists lo, hi :: 0 <= lo <= hi <= |s| && r == s[lo..hi]
                 && (forall k :: 0 <= k < lo ==> IsSpace(s[k]))
                 && (forall k :: hi <= k < |s| ==> IsSpace(s[k]))
    ensures Strip(s) == [] || (!IsSpace(Strip(s)[0]) && !IsSpace(Strip(s)[|Strip(s)| - 1]))
  {
    var l := StripLeft(s);
    StripLeftSpec(s);
    StripRightSpec(l);
    var r := StripRight(l);
    var lo := |s| - |l|;
    var hi := lo + |r|;
    assert r == s[lo..hi];
    forall k | hi <= k < |s| ensures IsSpace(s[k]) {
      assert s[k] == l[k - lo];
    }
    if r != [] {
      assert r[0] == l[0];
    }
  }

  /** Stripping twice is the same as stripping once. */
  lemma StripIdempotent(s: string)
    ensures Strip(Strip(s)) == Strip(s)
  {
    StripSpec(s);
    var r := Strip(s);
    if r != [] {
      assert StripLeft(r) == r;
      assert StripRight(r) == r;
    }
  }

  /** `str.lower()` on one character, for the ASCII letters. */
  function LowerChar(c: char): char
  {
    if 'A' <= c <= 'Z' then (c as int + 32) as char else c
  }

  /** `str.lower()`, character by character. */
  function Lower(s: string): string
  {
    seq(|s|, i requires 0 <= i < |s| => LowerChar(s[i]))
  }

  /** Python's `s[:n]`: the first `n` characters, or all of `s` when it is shorter. */
  function Take(s: string, n: nat): string
  {
    if |s| <= n then s else s[..n]
  }
}
