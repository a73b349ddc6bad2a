/** Cardinalities of finite sets. */
module Sets {
  import opened Sorting

  lemma SubsetSize<T>(a: set<T>, b: set<T>)
    requires a <= b
    ensures |a| <= |b|
  {
    assert b == a + (b - a);
  }

  lemma WholeSet<T>(a: set<T>, b: set<T>)
    requires a <= b && |a| == |b|
    ensures a == b
  {
    assert b == a + (b - a);
  }

  ghost function Elements<T>(s: seq<T>): set<T> {
    set x | x in s
  }

  /** A list has as many elements as positions exactly when none repeats. */
  lemma {:induction false} ElementsSize<T>(s: seq<T>)
    ensures |Elements(s)| <= |s|
    ensures |Elements(s)| == |s| <==> Distinct(s)
  {
    if s == [] {
    } else {
      ElementsSize(s[1..]);
      assert s == [s[0]] + s[1..];
      assert Elements(s) == {s[0]} + Elements(s[1..]);
      if s[0] in s[1..] {
        assert Elements(s) == Elements(s[1..]);
      } else {
        assert Distinct(s) <==> Distinct(s[1..]) by {
          if Distinct(s) {
            assert forall i, j :: 0 <= i < j < |s[1..]| ==> s[1..][i] == s[i + 1] && s[1..][j] == s[j + 1];
          }
        }
      }
    }
  }

  ghost function Indices(m: nat): (r: set<nat>)
    ensures |r| == m
    ensures forall i: nat :: i in r <==> i < m
  {
    if m == 0 then {} else Indices(m - 1) + {m - 1}
  }

  /** Distinct names name as many things as there are positions. */
  lemma {:induction false} NamesSize<T>(names: seq<T>, s: set<nat>)
    requires Distinct(names) && forall i :: i in s ==> i < |names|
    ensures |set i | i in s :: names[i]| == |s|
  {
    if s == {} {
    } else {
      var i :| i in s;
      NamesSize(names, s - {i});
      assert (set j | j in s :: names[j]) == (set j | j in s - {i} :: names[j]) + {names[i]};
    }
  }
}
