/**
  The column mode that the fill step takes (`Series.mode()[0]`): among the
  non-missing values, the most frequent one, and the smallest of those when
  several are equally frequent (pandas sorts the modes).
*/
module Statistics {
  import opened Results
  import opened Frame
  import opened Order

  function Count(col: seq<Cell>, v: Cell): nat {
    multiset(col)[v]
  }

  /** The declarative mode: present, not missing, no other value more frequent or equally frequent and smaller. */
  predicate IsMode(col: seq<Cell>, m: Cell) {
    && m in col
    && !m.Missing?
    && forall x :: x in col && !x.Missing? ==>
         Count(col, x) < Count(col, m) || (Count(col, x) == Count(col, m) && CellLe(m, x))
  }

  /** `a` is at least as good a mode as `b`: more frequent, or as frequent and not larger. */
  predicate Beats(col: seq<Cell>, a: Cell, b: Cell) {
    Count(col, a) > Count(col, b) || (Count(col, a) == Count(col, b) && CellLe(a, b))
  }

  lemma BeatsTransitive(col: seq<Cell>, a: Cell, b: Cell, c: Cell)
    requires Beats(col, a, b) && Beats(col, b, c)
    ensures Beats(col, a, c)
  {
    if Count(col, a) == Count(col, b) == Count(col, c) {
      CellLeTransitive(a, b, c);
    }
  }

  lemma BeatsTotal(col: seq<Cell>, a: Cell, b: Cell)
    ensures Beats(col, a, b) || Beats(col, b, a)
  {
    CellLeTotal(a, b);
  }

  /** The best candidate of `cands` under `Beats`, counting occurrences in `col`; None when all are missing. */
  function ModeAmong(col: seq<Cell>, cands: seq<Cell>): (r: Option<Cell>)
    ensures r.None? <==> forall x :: x in cands ==> x.Missing?
    ensures r.Some? ==> r.value in cands && !r.value.Missing?
  {
    if cands == [] then None
    else
      var rest := ModeAmong(col, cands[1..]);
      if cands[0].Missing? then rest
      else if rest.None? || Beats(col, cands[0], rest.value) then Some(cands[0])
      else rest
  }

  /** `Series.mode()[0]` of a column; None stands for the empty mode of an all-missing column. */
  function Mode(col: seq<Cell>): Option<Cell> {
    ModeAmong(col, col)
  }

  lemma {:induction false} ModeAmongBeatsAll(col: seq<Cell>, cands: seq<Cell>)
    requires ModeAmong(col, cands).Some?
    ensures forall x :: x in cands && !x.Missing? ==> Beats(col, ModeAmong(col, cands).value, x)
  {
    var m := ModeAmong(col, cands).value;
    var rest := ModeAmong(col, cands[1..]);
    forall x | x in cands && !x.Missing?
      ensures Beats(col, m, x)
    {
      if x == cands[0] {
        if m != x {
          BeatsTotal(col, x, m);
        } else {
          CellLeTotal(x, x);
        }
      } else {
        assert x in cands[1..];
        ModeAmongBeatsAll(col, cands[1..]);
        if m != rest.value {
          BeatsTransitive(col, m, rest.value, x);
        }
      }
    }
  }

  /** The computed mode is exactly the declarative one: the function and `IsMode` agree on every column. */
  lemma ModeCharacterized(col: seq<Cell>, m: Cell)
    ensures Mode(col) == Some(m) <==> IsMode(col, m)
  {
    if Mode(col) == Some(m) {
      ModeAmongBeatsAll(col, col);
    }
    if IsMode(col, m) {
      var m' := Mode(col).value;
      ModeAmongBeatsAll(col, col);
      assert Beats(col, m', m);
      assert Count(col, m') == Count(col, m);
      CellLeAntisymmetric(m, m');
    }
  }

  /** A column has a mode exactly when it holds a non-missing value. */
  lemma ModeExists(col: seq<Cell>)
    ensures Mode(col).Some? <==> exists i :: 0 <= i < |col| && !col[i].Missing?
  {
  }
}
