/**
 The identifier sanitiser `sqlsafenames`: a fixed sequence of substring
 replacements applied to a column or table label, one after the other.
 */
module Sanitizer {
  import opened Wrappers
  import opened Text

  /** A replacement table in the dictionary's iteration order: (substring, replacement). */
  type Replacements = seq<(string, string)>

  /** The table used when the caller passes none (or an empty one). */
  const DEFAULT_REPLACEMENTS: Replacements := [(" ", "_"), ("-", "_"), ("#", "NUM"), ("%", "PERCENT")]

  /** The characters the default table rewrites. */
  predicate IsTrigger(c: char)
  {
    c == ' ' || c == '-' || c == '#' || c == '%'
  }

  /** No character of `s` is one the default table rewrites. */
  predicate TriggerFree(s: string)
  {
    forall k :: 0 <= k < |s| ==> !IsTrigger(s[k])
  }

  /** The replacements applied in order, each to the result of the previous one. */
  function ApplyAll(s: string, table: Replacements): string
    decreases |table|
  {
    if table == [] then s else ApplyAll(Replace(s, table[0].0, table[0].1), table[1..])
  }

  /**
   `sqlsafenames(string, replacements)`: a missing or empty table means the
   default one. With the default table the result holds no trigger character
   and is never shorter than the label.
   */
  function SqlSafeNames(s: string, replacements: Option<Replacements>): (r: string)
    ensures replacements.None? || replacements == Some([]) ==> TriggerFree(r) && |r| >= |s|
  {
    var table := if replacements.None? || replacements.value == [] then DEFAULT_REPLACEMENTS
                 else replacements.value;
    if table == DEFAULT_REPLACEMENTS then
      DefaultIsTriggerFree(s);
      DefaultNotShorter(s);
      ApplyAll(s, table)
    else
      ApplyAll(s, table)
  }

  /** The sanitiser with its default table, as every call site in the program uses it. */
  function SafeName(s: string): string
  {
    SqlSafeNames(s, None)
  }

  /** The default table, unfolded: four single-character replacements in order. */
  lemma DefaultSteps(s: string)
    ensures ApplyAll(s, DEFAULT_REPLACEMENTS)
         == Replace(Replace(Replace(Replace(s, " ", "_"), "-", "_"), "#", "NUM"), "%", "PERCENT")
  {
    var t := DEFAULT_REPLACEMENTS;
    assert t[1..][1..][1..][1..] == [];
  }

  /** After the default table no space, hyphen, `#` or `%` is left. */
  lemma DefaultIsTriggerFree(s: string)
    ensures TriggerFree(ApplyAll(s, DEFAULT_REPLACEMENTS))
  {
    DefaultSteps(s);
    var s1 := Replace(s, " ", "_");
    var s2 := Replace(s1, "-", "_");
    var s3 := Replace(s2, "#", "NUM");
    var s4 := Replace(s3, "%", "PERCENT");
    ReplaceCharKeepsOut(s, ' ', "_", ' ');
    ReplaceCharKeepsOut(s1, '-', "_", ' ');
    ReplaceCharKeepsOut(s1, '-', "_", '-');
    ReplaceCharKeepsOut(s2, '#', "NUM", ' ');
    ReplaceCharKeepsOut(s2, '#', "NUM", '-');
    ReplaceCharKeepsOut(s2, '#', "NUM", '#');
    ReplaceCharKeepsOut(s3, '%', "PERCENT", ' ');
    ReplaceCharKeepsOut(s3, '%', "PERCENT", '-');
    ReplaceCharKeepsOut(s3, '%', "PERCENT", '#');
    ReplaceCharKeepsOut(s3, '%', "PERCENT", '%');
    forall k | 0 <= k < |s4| ensures !IsTrigger(s4[k]) {
      assert s4[k] in s4;
    }
  }

  /** A character that is not in the label and not in any default replacement is not in the result. */
  lemma SafeNameKeepsOut(s: string, d: char)
    requires d !in s && d !in "_NUMPERCENT"
    ensures d !in SafeName(s)
  {
    DefaultSteps(s);
    var s1 := Replace(s, " ", "_");
    var s2 := Replace(s1, "-", "_");
    var s3 := Replace(s2, "#", "NUM");
    assert d !in "_" && d !in "NUM" && d !in "PERCENT";
    ReplaceCharKeepsOut(s, ' ', "_", d);
    ReplaceCharKeepsOut(s1, '-', "_", d);
    ReplaceCharKeepsOut(s2, '#', "NUM", d);
    ReplaceCharKeepsOut(s3, '%', "PERCENT", d);
  }

  /** Every default replacement is at least as long as what it replaces. */
  lemma DefaultNotShorter(s: string)
    ensures |ApplyAll(s, DEFAULT_REPLACEMENTS)| >= |s|
  {
    DefaultSteps(s);
    var s1 := Replace(s, " ", "_");
    var s2 := Replace(s1, "-", "_");
    var s3 := Replace(s2, "#", "NUM");
    ReplaceNotShorter(s, " ", "_");
    ReplaceNotShorter(s1, "-", "_");
    ReplaceNotShorter(s2, "#", "NUM");
    ReplaceNotShorter(s3, "%", "PERCENT");
  }

  /** A label with no trigger character passes through the default sanitiser unchanged. */
  lemma SafeNameKeepsCleanLabel(s: string)
    requires TriggerFree(s)
    ensures SafeName(s) == s
  {
    DefaultSteps(s);
    assert ' ' !in s && '-' !in s && '#' !in s && '%' !in s;
    ReplaceCharAbsent(s, ' ', "_");
    ReplaceCharAbsent(s, '-', "_");
    ReplaceCharAbsent(s, '#', "NUM");
    ReplaceCharAbsent(s, '%', "PERCENT");
  }

  /** Sanitising twice is the same as sanitising once. */
  lemma SafeNameIdempotent(s: string)
    ensures SafeName(SafeName(s)) == SafeName(s)
  {
    SafeNameKeepsCleanLabel(SafeName(s));
  }

  /** An absent table and an empty table both behave exactly like the default table. */
  lemma EmptyTableIsDefault(s: string)
    ensures SqlSafeNames(s, Some([])) == SqlSafeNames(s, None)
    ensures SqlSafeNames(s, None) == SqlSafeNames(s, Some(DEFAULT_REPLACEMENTS))
  {
  }

  /** The example label that contains every trigger. */
  lemma SafeNameExample(raw: string, expected: string)
    requires raw == "A B-C#D%E" && expected == "A_B_CNUMDPERCENTE"
    ensures SafeName(raw) == expected
  {
    var s1, s2, s3 := "A_B-C#D%E", "A_B_C#D%E", "A_B_CNUMD%E";
    ExampleSpace(raw, s1);
    ExampleHyphen(s1, s2);
    ExampleHash(s2, s3);
    ExamplePercent(s3, expected);
    DefaultChain(raw, s1, s2, s3, expected);
  }

  // Each step of the example is its own lemma so that each literal split is
  // proved on its own; the four splits in one proof exceed the resource limit.

  lemma ExampleSpace(s: string, t: string)
    requires s == "A B-C#D%E" && t == "A_B-C#D%E"
    ensures Replace(s, " ", "_") == t
  {
    ExampleStep(s, "A", " ", "B-C#D%E", "_", t);
  }

  lemma ExampleHyphen(s: string, t: string)
    requires s == "A_B-C#D%E" && t == "A_B_C#D%E"
    ensures Replace(s, "-", "_") == t
  {
    ExampleStep(s, "A_B", "-", "C#D%E", "_", t);
  }

  lemma ExampleHash(s: string, t: string)
    requires s == "A_B_C#D%E" && t == "A_B_CNUMD%E"
    ensures Replace(s, "#", "NUM") == t
  {
    ExampleStep(s, "A_B_C", "#", "D%E", "NUM", t);
  }

  lemma ExamplePercent(s: string, t: string)
    requires s == "A_B_CNUMD%E" && t == "A_B_CNUMDPERCENTE"
    ensures Replace(s, "%", "PERCENT") == t
  {
    ExampleStep(s, "A_B_CNUMD", "%", "E", "PERCENT", t);
  }

  /** One replacement step of the example: a single occurrence between two untouched parts. */
  lemma ExampleStep(s: string, u: string, pat: string, v: string, sub: string, t: string)
    requires s == u + pat + v && t == u + sub + v
    requires |pat| == 1 && pat[0] !in u && pat[0] !in v
    ensures Replace(s, pat, sub) == t
  {
    var c := pat[0];
    assert pat == [c];
    ReplaceCharConcat(u + [c], v, c, sub);
    ReplaceCharConcat(u, [c], c, sub);
    ReplaceCharAbsent(u, c, sub);
    ReplaceCharAbsent(v, c, sub);
    assert Replace([c], [c], sub) == sub + Replace([], [c], sub);
  }

  /** The default table as four replacement steps, given the result of each step. */
  lemma DefaultChain(s0: string, s1: string, s2: string, s3: string, s4: string)
    requires Replace(s0, " ", "_") == s1
    requires Replace(s1, "-", "_") == s2
    requires Replace(s2, "#", "NUM") == s3
    requires Replace(s3, "%", "PERCENT") == s4
    ensures SafeName(s0) == s4
  {
    DefaultSteps(s0);
  }

  /**
   For the default table the order of the four replacements does not
   matter: applying them in any order gives the same result, so the
   dictionary's iteration order cannot change it.
   */
  lemma DefaultOrderIrrelevant(s: string, order: Replacements)
    requires multiset(order) == multiset(DEFAULT_REPLACEMENTS)
    ensures ApplyAll(s, order) == SafeName(s)
  {
    SameResultInAnyOrder(s, order, DEFAULT_REPLACEMENTS);
  }

  /** Two tables with the same default replacements, in whatever order, give the same result. */
  lemma {:induction false} SameResultInAnyOrder(s: string, p: Replacements, t: Replacements)
    requires multiset(p) == multiset(t)
    requires forall x :: x in t ==> x in DEFAULT_REPLACEMENTS
    ensures ApplyAll(s, p) == ApplyAll(s, t)
    decreases |p|
  {
    if p == [] {
      assert |t| == |multiset(t)| == 0;
    } else {
      var k := RemoveFirst(p, t);
      MoveToFront(s, t, k);
      var rest := t[..k] + t[k + 1..];
      forall x | x in rest ensures x in DEFAULT_REPLACEMENTS {
        assert x in t;
      }
      SameResultInAnyOrder(Replace(s, p[0].0, p[0].1), p[1..], rest);
    }
  }

  /** The first entry of `p` sits somewhere in `t`; with it taken out of both, the rest still match. */
  lemma RemoveFirst<T>(p: seq<T>, t: seq<T>) returns (k: nat)
    requires p != [] && multiset(p) == multiset(t)
    ensures k < |t| && t[k] == p[0]
    ensures multiset(p[1..]) == multiset(t[..k] + t[k + 1..])
  {
    assert p[0] in multiset(t);
    k :| 0 <= k < |t| && t[k] == p[0];
    var front, back := t[..k], t[k + 1..];
    assert t == front + [t[k]] + back;
    assert multiset(t) == multiset(front) + multiset{p[0]} + multiset(back);
    assert multiset(front + back) == multiset(front) + multiset(back);
    assert p == [p[0]] + p[1..];
    assert multiset(p) == multiset{p[0]} + multiset(p[1..]);
    forall x ensures multiset(p[1..])[x] == multiset(front + back)[x] {
      assert multiset(p)[x] == multiset(t)[x];
    }
  }

  /** Any default replacement can be applied first instead of in its place. */
  lemma {:induction false} MoveToFront(s: string, t: Replacements, k: nat)
    requires k < |t| && forall x :: x in t ==> x in DEFAULT_REPLACEMENTS
    ensures ApplyAll(s, t) == ApplyAll(Replace(s, t[k].0, t[k].1), t[..k] + t[k + 1..])
    decreases k
  {
    if k == 0 {
      assert t[..0] + t[1..] == t[1..];
    } else {
      var head := t[0];
      var u := t[1..];
      assert u[k - 1] == t[k];
      forall x | x in u ensures x in DEFAULT_REPLACEMENTS {
        assert x in t;
      }
      MoveToFront(Replace(s, head.0, head.1), u, k - 1);
      DefaultPairCommutes(s, head, t[k]);
      var rest := t[..k] + t[k + 1..];
      assert rest[0] == head && rest[1..] == u[..k - 1] + u[k..];
    }
  }

  /** Any two default replacements commute. */
  lemma DefaultPairCommutes(s: string, e: (string, string), f: (string, string))
    requires e in DEFAULT_REPLACEMENTS && f in DEFAULT_REPLACEMENTS
    ensures Replace(Replace(s, e.0, e.1), f.0, f.1) == Replace(Replace(s, f.0, f.1), e.0, e.1)
  {
    if e != f {
      assert |e.0| == 1 && |f.0| == 1 && e.0[0] != f.0[0];
      assert e.0 == [e.0[0]] && f.0 == [f.0[0]];
      assert e.0[0] !in f.1 && f.0[0] !in e.1;
      ReplaceCharsCommute(s, e.0[0], e.1, f.0[0], f.1);
    }
  }
}
