/**
  The data frame of the pipeline, abstracted: an ordered list of column names
  and a sequence of rows, each row mapping a column name to a cell.  A cell is a
  missing value (pandas NaN), a number or a string.  The column-wise operations
  of pandas that the pipeline uses (replace, drop, boolean row selection,
  column assignment, `select_dtypes`) are defined here once.
*/
module Frame {
  import opened Results

  datatype Cell = Missing | Num(n: int) | Str(s: string)

  type Row = map<string, Cell>

  datatype Table = Table(columns: seq<string>, rows: seq<Row>)

  /** The cell of column `c` in row `r`; a label the row lacks reads as missing. */
  function Get(r: Row, c: string): Cell {
    if c in r then r[c] else Missing
  }

  function ColumnSet(t: Table): set<string> {
    set c | c in t.columns
  }

  predicate Distinct<T(==)>(s: seq<T>) {
    forall i, j :: 0 <= i < |s| && 0 <= j < |s| && i != j ==> s[i] != s[j]
  }

  /** A rectangular frame: unique column labels, every row defined on exactly those labels. */
  predicate WellFormed(t: Table) {
    && Distinct(t.columns)
    && forall i :: 0 <= i < |t.rows| ==> t.rows[i].Keys == ColumnSet(t)
  }

  /** The cells of column `c`, top to bottom (`df[c]`). */
  function Column(t: Table, c: string): (col: seq<Cell>)
    ensures |col| == |t.rows|
    ensures forall i :: 0 <= i < |col| ==> col[i] == Get(t.rows[i], c)
  {
    seq(|t.rows|, i requires 0 <= i < |t.rows| => Get(t.rows[i], c))
  }

  lemma DistinctTail<T>(s: seq<T>)
    requires Distinct(s) && s != []
    ensures Distinct(s[1..]) && s[0] !in s[1..]
  {
    forall i, j | 0 <= i < |s[1..]| && 0 <= j < |s[1..]| && i != j
      ensures s[1..][i] != s[1..][j]
    {
      assert s[1..][i] == s[i + 1] && s[1..][j] == s[j + 1];
    }
  }

  /** `a` is obtained from `b` by deleting elements, keeping the order of the rest. */
  predicate SubsequenceOf<T(==)>(a: seq<T>, b: seq<T>)
    decreases |b|
  {
    if a == [] then true
    else if b == [] then false
    else (a[0] == b[0] && SubsequenceOf(a[1..], b[1..])) || SubsequenceOf(a, b[1..])
  }

  /** The elements of `s` that satisfy `p`, in order (a list comprehension with a condition). */
  function Where<T(==, !new)>(s: seq<T>, p: T -> bool): (r: seq<T>)
    ensures |r| <= |s|
    ensures forall x :: x in r <==> x in s && p(x)
  {
    if s == [] then []
    else
      var rest := Where(s[1..], p);
      if p(s[0]) then
        [s[0]] + rest
      else rest
  }

  /** A selection keeps every copy of an element that passes and none of one that fails. */
  lemma {:induction false} WhereCounts<T(!new)>(s: seq<T>, p: T -> bool)
    ensures forall x :: multiset(Where(s, p))[x] == if p(x) then multiset(s)[x] else 0
  {
    if s != [] {
      WhereCounts(s[1..], p);
      assert s == [s[0]] + s[1..];
    }
  }

  /** A selection keeps the order of what it keeps. */
  lemma {:induction false} WhereIsSubsequence<T(!new)>(s: seq<T>, p: T -> bool)
    ensures SubsequenceOf(Where(s, p), s)
  {
    if s != [] {
      WhereIsSubsequence(s[1..], p);
    }
  }

  /** A selection from a sequence without repetitions has none either. */
  lemma {:induction false} WhereKeepsDistinct<T(!new)>(s: seq<T>, p: T -> bool)
    ensures Distinct(s) ==> Distinct(Where(s, p))
  {
    if s != [] && Distinct(s) {
      DistinctTail(s);
      WhereKeepsDistinct(s[1..], p);
      var rest := Where(s[1..], p);
      if p(s[0]) {
        var r := [s[0]] + rest;
        forall i, j | 0 <= i < |r| && 0 <= j < |r| && i != j ensures r[i] != r[j] {
          if i == 0 { assert r[j] in rest; }
          else if j == 0 { assert r[i] in rest; }
          else { assert r[i] == rest[i - 1] && r[j] == rest[j - 1]; }
        }
      }
    }
  }

  lemma {:induction false} SubsequenceTransitive<T>(a: seq<T>, b: seq<T>, c: seq<T>)
    requires SubsequenceOf(a, b) && SubsequenceOf(b, c)
    ensures SubsequenceOf(a, c)
    decreases |c|
  {
    if a != [] {
      if b[0] == c[0] && SubsequenceOf(b[1..], c[1..]) {
        if a[0] == b[0] && SubsequenceOf(a[1..], b[1..]) {
          SubsequenceTransitive(a[1..], b[1..], c[1..]);
        } else {
          SubsequenceTransitive(a, b[1..], c[1..]);
        }
      } else {
        SubsequenceTransitive(a, b, c[1..]);
      }
    }
  }

  /** A selection that every element passes is the identity. */
  lemma {:induction false} WhereKeepsAll<T(!new)>(s: seq<T>, p: T -> bool)
    requires forall x :: x in s ==> p(x)
    ensures Where(s, p) == s
  {
    if s != [] {
      WhereKeepsAll(s[1..], p);
    }
  }

  /** Selections over two equally long sequences that agree position by position have equal lengths. */
  lemma {:induction false} WherePointwise<T(!new), U(!new)>(s: seq<T>, p: T -> bool, s': seq<U>, q: U -> bool)
    requires |s| == |s'|
    requires forall i :: 0 <= i < |s| ==> (p(s[i]) <==> q(s'[i]))
    ensures |Where(s, p)| == |Where(s', q)|
  {
    if s != [] {
      assert forall i :: 0 <= i < |s[1..]| ==> s[1..][i] == s[i + 1] && s'[1..][i] == s'[i + 1];
      WherePointwise(s[1..], p, s'[1..], q);
    }
  }

  /** A selection that rejects some element is strictly shorter than its source. */
  lemma {:induction false} WhereDropsRejected<T(!new)>(s: seq<T>, p: T -> bool, k: nat)
    requires k < |s| && !p(s[k])
    ensures |Where(s, p)| < |s|
  {
    if k > 0 {
      assert s[1..][k - 1] == s[k];
      WhereDropsRejected(s[1..], p, k - 1);
    }
  }

  /** A column is categorical (pandas object dtype) when some row holds a string in it. */
  predicate IsCategorical(t: Table, c: string) {
    exists i :: 0 <= i < |t.rows| && Get(t.rows[i], c).Str?
  }

  /** `select_dtypes(np.number).columns`: the columns holding no string, in frame order. */
  function NumericColumns(t: Table): (r: seq<string>)
    ensures forall c :: c in r <==> c in t.columns && !IsCategorical(t, c)
    ensures SubsequenceOf(r, t.columns)
    ensures Distinct(t.columns) ==> Distinct(r)
  {
    WhereIsSubsequence(t.columns, c => !IsCategorical(t, c));
    WhereKeepsDistinct(t.columns, c => !IsCategorical(t, c));
    Where(t.columns, c => !IsCategorical(t, c))
  }

  /** `select_dtypes('O').columns`: the columns holding a string, in frame order. */
  function CategoricalColumns(t: Table): (r: seq<string>)
    ensures forall c :: c in r <==> c in t.columns && IsCategorical(t, c)
    ensures SubsequenceOf(r, t.columns)
    ensures Distinct(t.columns) ==> Distinct(r)
  {
    WhereIsSubsequence(t.columns, c => IsCategorical(t, c));
    WhereKeepsDistinct(t.columns, c => IsCategorical(t, c));
    Where(t.columns, c => IsCategorical(t, c))
  }

  /** `df.replace(...)` over the whole frame: every cell of every column passes through `f`. */
  function MapCells(t: Table, f: Cell -> Cell): (r: Table)
    ensures r.columns == t.columns && |r.rows| == |t.rows|
    ensures forall i :: 0 <= i < |t.rows| ==> r.rows[i].Keys == t.rows[i].Keys
    ensures f(Missing) == Missing ==>
      forall i, c :: 0 <= i < |t.rows| ==> Get(r.rows[i], c) == f(Get(t.rows[i], c))
    ensures WellFormed(t) ==> WellFormed(r)
  {
    Table(t.columns, seq(|t.rows|, i requires 0 <= i < |t.rows| => map c | c in t.rows[i] :: f(t.rows[i][c])))
  }

  /** `df[c] = df[c].replace(...)`: the cells of column `c` pass through `f`, all others stay. */
  function MapColumn(t: Table, c: string, f: Cell -> Cell): (r: Table)
    ensures r.columns == t.columns && |r.rows| == |t.rows|
    ensures forall i :: 0 <= i < |t.rows| ==> r.rows[i].Keys == t.rows[i].Keys + {c}
    ensures forall i :: 0 <= i < |t.rows| ==> Get(r.rows[i], c) == f(Get(t.rows[i], c))
    ensures forall i, d :: 0 <= i < |t.rows| && d != c ==> Get(r.rows[i], d) == Get(t.rows[i], d)
    ensures WellFormed(t) && c in t.columns ==> WellFormed(r)
  {
    Table(t.columns, seq(|t.rows|, i requires 0 <= i < |t.rows| => t.rows[i][c := f(Get(t.rows[i], c))]))
  }

  /** `df[c] = vals`: overwrite column `c`, or append it as the last column when it is new. */
  function SetColumn(t: Table, c: string, vals: seq<Cell>): (r: Table)
    requires |vals| == |t.rows|
    ensures r.columns == if c in t.columns then t.columns else t.columns + [c]
    ensures |r.rows| == |t.rows|
    ensures forall i :: 0 <= i < |t.rows| ==> r.rows[i].Keys == t.rows[i].Keys + {c}
    ensures Column(r, c) == vals
    ensures forall i, d :: 0 <= i < |t.rows| && d != c ==> Get(r.rows[i], d) == Get(t.rows[i], d)
    ensures WellFormed(t) ==> WellFormed(r)
  {
    var cols := if c in t.columns then t.columns else t.columns + [c];
    var r := Table(cols, seq(|t.rows|, i requires 0 <= i < |t.rows| => t.rows[i][c := vals[i]]));
    assert ColumnSet(r) == ColumnSet(t) + {c};
    r
  }

  /** `df.drop(names, axis=1)`: raises KeyError unless every name is a column. */
  function DropColumns(t: Table, names: seq<string>): (r: Result<Table>)
    ensures r.Ok? <==> forall n :: n in names ==> n in t.columns
    ensures r.Failure? ==> r.error.MissingColumn? && r.error.name in names && r.error.name !in t.columns
    ensures r.Ok? ==> forall c :: c in r.value.columns <==> c in t.columns && c !in names
    ensures r.Ok? ==> SubsequenceOf(r.value.columns, t.columns) && |r.value.rows| == |t.rows|
    ensures r.Ok? ==> forall i, c :: 0 <= i < |t.rows| ==>
      Get(r.value.rows[i], c) == if c in names then Missing else Get(t.rows[i], c)
    ensures r.Ok? && WellFormed(t) ==> WellFormed(r.value)
  {
    var absent := Where(names, n => n !in t.columns);
    if absent != [] then
      assert absent[0] in absent;
      Failure(MissingColumn(absent[0]))
    else
      var cols := Where(t.columns, c => c !in names);
      WhereIsSubsequence(t.columns, c => c !in names);
      WhereKeepsDistinct(t.columns, c => c !in names);
      Ok(Table(cols, seq(|t.rows|, i requires 0 <= i < |t.rows| => map k | k in t.rows[i] && k !in names :: t.rows[i][k])))
  }

  /** `df[cols]`, or `select_dtypes(...)`: the frame restricted to the columns `cols`. */
  function SelectColumns(t: Table, cols: seq<string>): (r: Table)
    ensures r.columns == cols && |r.rows| == |t.rows|
    ensures forall i, c :: 0 <= i < |t.rows| ==> Get(r.rows[i], c) == if c in cols then Get(t.rows[i], c) else Missing
    ensures WellFormed(t) && Distinct(cols) && (forall c :: c in cols ==> c in t.columns) ==> WellFormed(r)
  {
    Table(cols, seq(|t.rows|, i requires 0 <= i < |t.rows| => map k | k in t.rows[i] && k in cols :: t.rows[i][k]))
  }

  /** `pd.concat([a, b], axis=1)` of two frames with the same rows and no common column. */
  function ConcatColumns(a: Table, b: Table): (r: Table)
    requires |a.rows| == |b.rows|
    requires forall c :: c in a.columns ==> c !in b.columns
    ensures r.columns == a.columns + b.columns && |r.rows| == |a.rows|
    ensures forall i, c :: 0 <= i < |a.rows| ==>
      Get(r.rows[i], c) == if c in b.rows[i] then Get(b.rows[i], c) else Get(a.rows[i], c)
    ensures WellFormed(a) && WellFormed(b) ==> WellFormed(r)
  {
    var r := Table(a.columns + b.columns, seq(|a.rows| , i requires 0 <= i < |a.rows| => a.rows[i] + b.rows[i]));
    assert WellFormed(a) && WellFormed(b) ==> Distinct(r.columns) by {
      if WellFormed(a) && WellFormed(b) {
        forall i, j | 0 <= i < |r.columns| && 0 <= j < |r.columns| && i != j
          ensures r.columns[i] != r.columns[j]
        {
          if i < |a.columns| && j >= |a.columns| {
            assert r.columns[i] in a.columns && r.columns[j] == b.columns[j - |a.columns|];
          } else if j < |a.columns| && i >= |a.columns| {
            assert r.columns[j] in a.columns && r.columns[i] == b.columns[i - |a.columns|];
          } else if i >= |a.columns| {
            assert r.columns[i] == b.columns[i - |a.columns|] && r.columns[j] == b.columns[j - |a.columns|];
          }
        }
      }
    }
    assert ColumnSet(r) == ColumnSet(a) + ColumnSet(b);
    r
  }

  /** `df.drop(df.loc[~keep].index)`: the rows satisfying `keep`, in their original order. */
  function FilterRows(t: Table, keep: Row -> bool): (r: Table)
    ensures r.columns == t.columns
    ensures r.rows == Where(t.rows, keep)
    ensures WellFormed(t) ==> WellFormed(r)
  {
    var r := Table(t.columns, Where(t.rows, keep));
    assert forall i :: 0 <= i < |r.rows| ==> r.rows[i] in t.rows;
    r
  }
}
