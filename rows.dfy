/**
 The row factory `dict_factory`: one result row turned into a mapping from
 column name to value, the columns taken in the cursor's description order.
 */
module Rows {

  /** No later column carries the same name as column `i`. */
  predicate LastWithName(names: seq<string>, i: int)
    requires 0 <= i < |names|
  {
    forall j :: i < j < |names| ==> names[j] != names[i]
  }

  /** All column names differ. */
  predicate Distinct(names: seq<string>)
  {
    forall i, j :: 0 <= i < j < |names| ==> names[i] != names[j]
  }

  /**
   `dict_factory(cursor, row)`: column `idx` is stored under its name, in
   order, so a later column overwrites an earlier one of the same name. The
   keys are exactly the column names, and a name maps to the value of the
   last column that carries it.
   */
  function DictFactory<V>(names: seq<string>, row: seq<V>): (d: map<string, V>)
    requires |names| <= |row|
    ensures d.Keys == set i | 0 <= i < |names| :: names[i]
    ensures forall i :: 0 <= i < |names| && LastWithName(names, i) ==> d[names[i]] == row[i]
    decreases |names|
  {
    if names == [] then map[]
    else
      var n := |names| - 1;
      var prev := DictFactory(names[..n], row);
      assert forall i :: 0 <= i < n && LastWithName(names, i) ==> LastWithName(names[..n], i);
      KeysOfPrefix(names);
      prev[names[n] := row[n]]
  }

  /** The names of a non-empty column list: those of all but the last, and the last. */
  lemma KeysOfPrefix(names: seq<string>)
    requires names != []
    ensures var n := |names| - 1;
            (set i | 0 <= i < |names| :: names[i]) == (set i | 0 <= i < n :: names[..n][i]) + {names[n]}
  {
    var n := |names| - 1;
    var all := set i | 0 <= i < |names| :: names[i];
    var front := set i | 0 <= i < n :: names[..n][i];
    forall x | x in all ensures x in front + {names[n]} {
      var i :| 0 <= i < |names| && names[i] == x;
      if i < n {
        assert names[..n][i] == x;
      }
    }
    forall x | x in front ensures x in all {
      var i :| 0 <= i < n && names[..n][i] == x;
      assert names[i] == x;
    }
    assert names[n] in all;
  }

  /** With distinct column names the i-th name maps to the i-th value. */
  lemma DictFactoryDistinct<V>(names: seq<string>, row: seq<V>)
    requires |names| <= |row| && Distinct(names)
    ensures forall i :: 0 <= i < |names| ==> DictFactory(names, row)[names[i]] == row[i]
  {
    forall i | 0 <= i < |names| ensures LastWithName(names, i) {
    }
  }
}
