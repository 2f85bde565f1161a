/**
  scikit-learn's `LabelEncoder.fit_transform` on one object column: the code of
  a string is its index in the sorted list of the column's distinct strings, a
  missing value sorts after every string, and a column that mixes numbers with
  strings cannot be sorted and raises.
*/
module LabelEncoder {
  import opened Results
  import opened Frame
  import opened Order

  /** The distinct strings of a column. */
  function Strings(col: seq<Cell>): set<string> {
    set i | 0 <= i < |col| && col[i].Str? :: col[i].s
  }

  /** The number of distinct values of a column. */
  function DistinctCount(col: seq<Cell>): nat {
    |set x | x in col|
  }

  /** The index of `s` in the sorted list of `strs`: how many of them sort before it. */
  function RankIn(strs: set<string>, s: string): nat {
    |set u | u in strs && StrLt(u, s)|
  }

  /** The code the fitted encoder gives to `v`. */
  function Code(col: seq<Cell>, v: Cell): Cell {
    match v
    case Str(s) => Num(RankIn(Strings(col), s))
    case Missing => Num(|Strings(col)|)
    case Num(_) => v
  }

  predicate HasNumber(col: seq<Cell>) {
    exists i :: 0 <= i < |col| && col[i].Num?
  }

  /** `LabelEncoder().fit_transform(col)`; None stands for the TypeError on a column mixing numbers and strings. */
  function FitTransform(col: seq<Cell>): (r: Option<seq<Cell>>)
    ensures r.None? <==> HasNumber(col)
    ensures r.Some? ==> |r.value| == |col| && forall i :: 0 <= i < |col| ==> r.value[i].Num? && r.value[i] == Code(col, col[i])
  {
    if HasNumber(col) then None
    else Some(seq(|col|, i requires 0 <= i < |col| => Code(col, col[i])))
  }

  lemma SubsetCardinality<T>(a: set<T>, b: set<T>)
    requires a <= b
    ensures |a| <= |b|
  {
    assert b == a + (b - a);
    assert a * (b - a) == {};
  }

  lemma StrictSubsetCardinality<T>(a: set<T>, b: set<T>, x: T)
    requires a <= b && x in b && x !in a
    ensures |a| < |b|
  {
    SubsetCardinality(a, b - {x});
  }

  /** A string of the column gets a code in 0 .. |strings|-1. */
  lemma RankBelowCount(strs: set<string>, s: string)
    requires s in strs
    ensures RankIn(strs, s) < |strs|
  {
    StrLtIrreflexive(s);
    var below := set u | u in strs && StrLt(u, s);
    StrictSubsetCardinality(below, strs, s);
  }

  /** Codes follow the sorted order of the strings: `a < b` gives a smaller code. */
  lemma RankMonotonic(strs: set<string>, a: string, b: string)
    requires a in strs && b in strs && StrLt(a, b)
    ensures RankIn(strs, a) < RankIn(strs, b)
  {
    var below := set u | u in strs && StrLt(u, a);
    var belowB := set u | u in strs && StrLt(u, b);
    forall u | u in below ensures u in belowB {
      StrLtTransitive(u, a, b);
    }
    StrLtIrreflexive(a);
    StrictSubsetCardinality(below, belowB, a);
  }

  /** Two strings of a column get the same code exactly when they are equal, and codes compare as the strings do. */
  lemma RankOrderIff(strs: set<string>, a: string, b: string)
    requires a in strs && b in strs
    ensures RankIn(strs, a) < RankIn(strs, b) <==> StrLt(a, b)
    ensures RankIn(strs, a) == RankIn(strs, b) <==> a == b
  {
    StrLtTotal(a, b);
    if StrLt(a, b) {
      RankMonotonic(strs, a, b);
    } else if StrLt(b, a) {
      RankMonotonic(strs, b, a);
    }
  }

  lemma {:induction false} StrImageCardinality(strs: set<string>)
    ensures |set s | s in strs :: Str(s)| == |strs|
    decreases |strs|
  {
    if strs != {} {
      var x :| x in strs;
      var rest := strs - {x};
      StrImageCardinality(rest);
      assert (set s | s in strs :: Str(s)) == (set s | s in rest :: Str(s)) + {Str(x)};
    }
  }

  /** Without numbers, the distinct values of a column are its distinct strings plus, possibly, the missing value. */
  lemma DistinctCountWithoutNumbers(col: seq<Cell>)
    requires !HasNumber(col)
    ensures DistinctCount(col) == |Strings(col)| + if Missing in col then 1 else 0
  {
    var strs := Strings(col);
    var image := set s | s in strs :: Str(s);
    forall x | x in col ensures x in image || x == Missing {
      var i :| 0 <= i < |col| && col[i] == x;
      if x.Str? { assert col[i].s in strs; }
    }
    forall x | x in image ensures x in col {
      var s :| s in strs && x == Str(s);
      var i :| 0 <= i < |col| && col[i].Str? && col[i].s == s;
    }
    StrImageCardinality(strs);
    if Missing in col {
      assert (set x | x in col) == image + {Missing};
    } else {
      assert (set x | x in col) == image;
    }
  }

  /** Every code of a column lies in 0 .. k-1, k being the number of the column's distinct values. */
  lemma CodeInRange(col: seq<Cell>, v: Cell)
    requires !HasNumber(col) && v in col
    ensures Code(col, v).Num? && 0 <= Code(col, v).n < DistinctCount(col)
  {
    DistinctCountWithoutNumbers(col);
    if v.Str? {
      var i :| 0 <= i < |col| && col[i] == v;
      assert v.s in Strings(col);
      RankBelowCount(Strings(col), v.s);
    }
  }

  /** Distinct values of a column get distinct codes, and strings keep their sorted order. */
  lemma CodeInjectiveAndOrdered(col: seq<Cell>, a: Cell, b: Cell)
    requires !HasNumber(col) && a in col && b in col
    ensures Code(col, a) == Code(col, b) <==> a == b
    ensures a.Str? && b.Str? ==> (Code(col, a).n < Code(col, b).n <==> StrLt(a.s, b.s))
  {
    if a.Str? {
      var i :| 0 <= i < |col| && col[i] == a;
      assert a.s in Strings(col);
      RankBelowCount(Strings(col), a.s);
    }
    if b.Str? {
      var j :| 0 <= j < |col| && col[j] == b;
      assert b.s in Strings(col);
      RankBelowCount(Strings(col), b.s);
    }
    if a.Str? && b.Str? {
      RankOrderIff(Strings(col), a.s, b.s);
    }
  }
}
