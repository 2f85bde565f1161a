/**
  The orders the pipeline sorts by: Python's comparison of strings (code point
  by code point, a proper prefix first) and the order in which the model sorts
  cells of one column (numbers by value, then strings, then the missing value).
*/
module Order {
  import opened Frame

  /** Python's `a < b` on `str`. */
  predicate StrLt(a: string, b: string)
    decreases |a|
  {
    if |a| == 0 then |b| > 0
    else if |b| == 0 then false
    else a[0] < b[0] || (a[0] == b[0] && StrLt(a[1..], b[1..]))
  }

  lemma {:induction false} StrLtIrreflexive(a: string)
    ensures !StrLt(a, a)
    decreases |a|
  {
    if |a| > 0 {
      StrLtIrreflexive(a[1..]);
    }
  }

  lemma {:induction false} StrLtTransitive(a: string, b: string, c: string)
    requires StrLt(a, b) && StrLt(b, c)
    ensures StrLt(a, c)
    decreases |a|
  {
    if |a| > 0 && a[0] == b[0] && b[0] == c[0] {
      StrLtTransitive(a[1..], b[1..], c[1..]);
    }
  }

  lemma {:induction false} StrLtTotal(a: string, b: string)
    ensures a == b || StrLt(a, b) || StrLt(b, a)
    decreases |a|
  {
    if |a| > 0 && |b| > 0 && a[0] == b[0] {
      StrLtTotal(a[1..], b[1..]);
      if a[1..] == b[1..] {
        assert a == [a[0]] + a[1..] && b == [b[0]] + b[1..];
      }
    }
  }

  lemma StrLtAsymmetric(a: string, b: string)
    requires StrLt(a, b)
    ensures !StrLt(b, a)
  {
    if StrLt(b, a) {
      StrLtTransitive(a, b, a);
      StrLtIrreflexive(a);
    }
  }

  /** Numbers sort before strings, strings before the missing value. */
  function KindOrder(c: Cell): nat {
    match c
    case Num(_) => 0
    case Str(_) => 1
    case Missing => 2
  }

  predicate CellLe(a: Cell, b: Cell) {
    if a.Num? && b.Num? then a.n <= b.n
    else if a.Str? && b.Str? then a.s == b.s || StrLt(a.s, b.s)
    else KindOrder(a) <= KindOrder(b)
  }

  lemma CellLeTotal(a: Cell, b: Cell)
    ensures CellLe(a, b) || CellLe(b, a)
  {
    if a.Str? && b.Str? {
      StrLtTotal(a.s, b.s);
    }
  }

  lemma CellLeAntisymmetric(a: Cell, b: Cell)
    requires CellLe(a, b) && CellLe(b, a)
    ensures a == b
  {
    if a.Str? && b.Str? && a.s != b.s {
      StrLtAsymmetric(a.s, b.s);
    }
  }

  lemma CellLeTransitive(a: Cell, b: Cell, c: Cell)
    requires CellLe(a, b) && CellLe(b, c)
    ensures CellLe(a, c)
  {
    if a.Str? && b.Str? && c.Str? && a.s != b.s && b.s != c.s {
      StrLtTransitive(a.s, b.s, c.s);
    }
  }
}
