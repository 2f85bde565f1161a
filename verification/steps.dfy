/**
  The steps of `clean.clean_data` as functions from one frame to the next, in
  the order the method applies them, and what the whole pipeline guarantees.
  A step that raises in pandas (a missing column, an empty mode, a column
  LabelEncoder cannot sort) yields a `Failure`.
*/
module Steps {
  import opened Results
  import opened Frame
  import opened Statistics
  import opened LabelEncoder
  import opened CodeTables

  /** Dropped right after the "?" replacement. */
  const FirstDropped: seq<string> := ["weight", "payer_code", "medical_specialty"]

  /** Dropped at the very end, after encoding. */
  const LastDropped: seq<string> := ["encounter_id", "patient_nbr"]

  const InvalidGender: Cell := Str("Unknown/Invalid")

  /** A frame in which no cell holds the placeholder "?". */
  ghost predicate NoUnknown(t: Table) {
    forall i, c :: 0 <= i < |t.rows| ==> Get(t.rows[i], c) != Str("?")
  }

  function UnknownToMissing(v: Cell): Cell {
    if v == Str("?") then Missing else v
  }

  /** `df.replace("?", np.nan)`: "?" cells become missing, every other cell is kept. */
  function ReplaceUnknown(t: Table): (r: Table)
    ensures r.columns == t.columns && |r.rows| == |t.rows|
    ensures forall i, c :: 0 <= i < |t.rows| && Get(t.rows[i], c) == Str("?") ==> Get(r.rows[i], c) == Missing
    ensures forall i, c :: 0 <= i < |t.rows| && Get(t.rows[i], c) != Str("?") ==> Get(r.rows[i], c) == Get(t.rows[i], c)
    ensures NoUnknown(r)
    ensures WellFormed(t) ==> WellFormed(r)
  {
    MapCells(t, UnknownToMissing)
  }

  /** The frame-wide replace of `collapse_readmitted`, which touches every column. */
  function ReplaceReadmittedLabels(t: Table): (r: Table)
    ensures r.columns == t.columns && |r.rows| == |t.rows|
    ensures forall i, c :: 0 <= i < |t.rows| ==> Get(r.rows[i], c) == ReadmittedCode(Get(t.rows[i], c))
    ensures WellFormed(t) ==> WellFormed(r)
  {
    MapCells(t, ReadmittedCode)
  }

  /** `collapse_readmitted`: the replace, then the `df.readmitted` access, which raises without that column. */
  function CollapseReadmitted(t: Table): (r: Result<Table>)
    ensures r.Ok? <==> "readmitted" in t.columns
    ensures r.Failure? ==> r.error == MissingColumn("readmitted")
    ensures r.Ok? ==> r.value.columns == t.columns && |r.value.rows| == |t.rows|
    ensures r.Ok? ==> forall i, c :: 0 <= i < |t.rows| ==>
      && (Get(t.rows[i], c) in {Str("NO"), Str(">30")} ==> Get(r.value.rows[i], c) == Num(0))
      && (Get(t.rows[i], c) == Str("<30") ==> Get(r.value.rows[i], c) == Num(1))
      && (Get(t.rows[i], c) !in {Str("NO"), Str(">30"), Str("<30")} ==> Get(r.value.rows[i], c) == Get(t.rows[i], c))
    ensures r.Ok? && WellFormed(t) ==> WellFormed(r.value)
  {
    var replaced := ReplaceReadmittedLabels(t);
    assert forall i, c :: 0 <= i < |t.rows| ==> Get(replaced.rows[i], c) == ReadmittedCode(Get(t.rows[i], c));
    if "readmitted" in replaced.columns then Ok(replaced) else Failure(MissingColumn("readmitted"))
  }

  predicate ValidGender(r: Row) {
    Get(r, "gender") != InvalidGender
  }

  /** Line 173: drop the rows whose gender is "Unknown/Invalid"; `df["gender"]` raises without the column. */
  function DropInvalidGender(t: Table): (r: Result<Table>)
    ensures r.Ok? <==> "gender" in t.columns
    ensures r.Failure? ==> r.error == MissingColumn("gender")
    ensures r.Ok? ==> r.value.columns == t.columns && SubsequenceOf(r.value.rows, t.rows)
    ensures r.Ok? ==> forall row :: row in r.value.rows <==> row in t.rows && Get(row, "gender") != InvalidGender
    ensures r.Ok? ==> r.value.rows == Where(t.rows, ValidGender)
    ensures r.Ok? && WellFormed(t) ==> WellFormed(r.value)
  {
    WhereIsSubsequence(t.rows, ValidGender);
    if "gender" in t.columns then Ok(FilterRows(t, ValidGender)) else Failure(MissingColumn("gender"))
  }

  /** `df.c = df.c.replace(table)`: only column `c` changes; accessing an absent column raises. */
  function CollapseColumn(t: Table, c: string, f: Cell -> Cell): (r: Result<Table>)
    ensures r.Ok? <==> c in t.columns
    ensures r.Failure? ==> r.error == MissingColumn(c)
    ensures r.Ok? ==> r.value.columns == t.columns && |r.value.rows| == |t.rows|
    ensures r.Ok? ==> forall i :: 0 <= i < |t.rows| ==> Get(r.value.rows[i], c) == f(Get(t.rows[i], c))
    ensures r.Ok? ==> forall i, d :: 0 <= i < |t.rows| && d != c ==> Get(r.value.rows[i], d) == Get(t.rows[i], d)
    ensures r.Ok? && WellFormed(t) ==> WellFormed(r.value)
  {
    if c in t.columns then Ok(MapColumn(t, c, f)) else Failure(MissingColumn(c))
  }

  function CollapseAgeGroups(t: Table): (r: Result<Table>)
    ensures r.Ok? <==> "age" in t.columns
    ensures r.Failure? ==> r.error == MissingColumn("age")
    ensures r.Ok? ==> r.value.columns == t.columns && |r.value.rows| == |t.rows|
    ensures r.Ok? ==> forall i :: 0 <= i < |t.rows| ==> Get(r.value.rows[i], "age") == AgeMidpoint(Get(t.rows[i], "age"))
    ensures r.Ok? ==> forall i, d :: 0 <= i < |t.rows| && d != "age" ==> Get(r.value.rows[i], d) == Get(t.rows[i], d)
  {
    CollapseColumn(t, "age", AgeMidpoint)
  }

  function CollapseAdmissionId(t: Table): (r: Result<Table>)
    ensures r.Ok? <==> "admission_type_id" in t.columns
    ensures r.Failure? ==> r.error == MissingColumn("admission_type_id")
    ensures r.Ok? ==> r.value.columns == t.columns && |r.value.rows| == |t.rows|
    ensures r.Ok? ==> forall i :: 0 <= i < |t.rows| ==> Get(r.value.rows[i], "admission_type_id") == AdmissionType(Get(t.rows[i], "admission_type_id"))
    ensures r.Ok? ==> forall i, d :: 0 <= i < |t.rows| && d != "admission_type_id" ==> Get(r.value.rows[i], d) == Get(t.rows[i], d)
  {
    CollapseColumn(t, "admission_type_id", AdmissionType)
  }

  function CollapseDischargeDispositionId(t: Table): (r: Result<Table>)
    ensures r.Ok? <==> "discharge_disposition_id" in t.columns
    ensures r.Failure? ==> r.error == MissingColumn("discharge_disposition_id")
    ensures r.Ok? ==> r.value.columns == t.columns && |r.value.rows| == |t.rows|
    ensures r.Ok? ==> forall i :: 0 <= i < |t.rows| ==> Get(r.value.rows[i], "discharge_disposition_id") == DischargeDisposition(Get(t.rows[i], "discharge_disposition_id"))
    ensures r.Ok? ==> forall i, d :: 0 <= i < |t.rows| && d != "discharge_disposition_id" ==> Get(r.value.rows[i], d) == Get(t.rows[i], d)
  {
    CollapseColumn(t, "discharge_disposition_id", DischargeDisposition)
  }

  function CollapseAdmissionSourceId(t: Table): (r: Result<Table>)
    ensures r.Ok? <==> "admission_source_id" in t.columns
    ensures r.Failure? ==> r.error == MissingColumn("admission_source_id")
    ensures r.Ok? ==> r.value.columns == t.columns && |r.value.rows| == |t.rows|
    ensures r.Ok? ==> forall i :: 0 <= i < |t.rows| ==> Get(r.value.rows[i], "admission_source_id") == AdmissionSource(Get(t.rows[i], "admission_source_id"))
    ensures r.Ok? ==> forall i, d :: 0 <= i < |t.rows| && d != "admission_source_id" ==> Get(r.value.rows[i], d) == Get(t.rows[i], d)
  {
    CollapseColumn(t, "admission_source_id", AdmissionSource)
  }

  predicate HasMissing(t: Table, c: string) {
    exists i :: 0 <= i < |t.rows| && Get(t.rows[i], c).Missing?
  }

  /** `df.columns[df.isnull().any()]`: the columns with a missing cell, in frame order. */
  function MissingColumns(t: Table): (r: seq<string>)
    ensures forall c :: c in r <==> c in t.columns && HasMissing(t, c)
    ensures Distinct(t.columns) ==> Distinct(r)
  {
    WhereKeepsDistinct(t.columns, c => HasMissing(t, c));
    Where(t.columns, c => HasMissing(t, c))
  }

  /** A cell after filling with an optional mode: a missing cell takes the mode when there is one. */
  function FillWith(v: Cell, mode: Option<Cell>): Cell {
    if v.Missing? && mode.Some? then mode.value else v
  }

  /** `df[c].fillna(m)`. */
  function FillColumn(t: Table, c: string, m: Cell): (r: Table)
    ensures r.columns == t.columns && |r.rows| == |t.rows|
    ensures forall i :: 0 <= i < |t.rows| ==> Get(r.rows[i], c) == FillWith(Get(t.rows[i], c), Some(m))
    ensures forall i, d :: 0 <= i < |t.rows| && d != c ==> Get(r.rows[i], d) == Get(t.rows[i], d)
    ensures WellFormed(t) && c in t.columns ==> WellFormed(r)
  {
    MapColumn(t, c, (v: Cell) => FillWith(v, Some(m)))
  }

  /** The fill loop over `cols`, front to back; an all-missing column has no mode and `mode()[0]` raises. */
  function FillMissingColumns(t: Table, cols: seq<string>): (r: Result<Table>)
    ensures r.Ok? ==> r.value.columns == t.columns && |r.value.rows| == |t.rows|
    ensures r.Failure? ==> r.error.EmptyMode? && r.error.column in cols
    ensures r.Ok? && WellFormed(t) && (forall c :: c in cols ==> c in t.columns) ==> WellFormed(r.value)
    decreases |cols|
  {
    if cols == [] then Ok(t)
    else match Mode(Column(t, cols[0]))
      case None => Failure(EmptyMode(cols[0]))
      case Some(m) => FillMissingColumns(FillColumn(t, cols[0], m), cols[1..])
  }

  /** Lines 188-193: every column holding a missing cell is filled with its mode. */
  function FillMissing(t: Table): (r: Result<Table>)
    ensures r.Ok? ==> r.value.columns == t.columns && |r.value.rows| == |t.rows|
    ensures r.Failure? ==> r.error.EmptyMode? && r.error.column in t.columns && HasMissing(t, r.error.column)
  {
    FillMissingColumns(t, MissingColumns(t))
  }

  /** The label-encoding loop over `cols`, front to back. */
  function EncodeColumns(t: Table, cols: seq<string>): (r: Result<Table>)
    ensures r.Ok? ==> |r.value.rows| == |t.rows|
    ensures r.Ok? && (forall c :: c in cols ==> c in t.columns) ==> r.value.columns == t.columns
    ensures r.Failure? ==> r.error.MixedTypes? && r.error.column in cols
    ensures r.Ok? && WellFormed(t) ==> WellFormed(r.value)
    decreases |cols|
  {
    if cols == [] then Ok(t)
    else match FitTransform(Column(t, cols[0]))
      case None => Failure(MixedTypes(cols[0]))
      case Some(codes) => EncodeColumns(SetColumn(t, cols[0], codes), cols[1..])
  }

  /** `label_encode`: encode the object columns, then put the numeric columns first and the encoded ones after. */
  function LabelEncode(t: Table): (r: Result<Table>)
    ensures r.Failure? ==> r.error.MixedTypes?
    ensures r.Ok? ==> r.value.columns == NumericColumns(t) + CategoricalColumns(t) && |r.value.rows| == |t.rows|
  {
    var cats := CategoricalColumns(t);
    var encoded :- EncodeColumns(SelectColumns(t, cats), cats);
    Ok(ConcatColumns(SelectColumns(t, NumericColumns(t)), encoded))
  }

  /** Lines 164-173: "?" becomes missing, three columns go, the target collapses, invalid genders go. */
  function PrepareRows(raw: Table): (r: Result<Table>)
    ensures r.Ok? <==>
      (forall c :: c in FirstDropped ==> c in raw.columns) && "readmitted" in raw.columns && "gender" in raw.columns
    ensures r.Failure? ==> r.error.MissingColumn?
    ensures r.Ok? ==> forall c :: c in r.value.columns <==> c in raw.columns && c !in FirstDropped
  {
    var t2 :- DropColumns(ReplaceUnknown(raw), FirstDropped);
    var t3 :- CollapseReadmitted(t2);
    DropInvalidGender(t3)
  }

  /** The four columns rewritten through a code table. */
  const CodedColumns: seq<string> := ["age", "admission_type_id", "discharge_disposition_id", "admission_source_id"]

  /** Lines 176-185: the age buckets and the three identifier code tables. */
  function CollapseCodes(t: Table): (r: Result<Table>)
    ensures r.Ok? <==> forall c :: c in CodedColumns ==> c in t.columns
    ensures r.Failure? ==> r.error.MissingColumn?
    ensures r.Ok? ==> r.value.columns == t.columns && |r.value.rows| == |t.rows|
    ensures r.Ok? ==> forall i, d :: 0 <= i < |t.rows| && d !in CodedColumns ==> Get(r.value.rows[i], d) == Get(t.rows[i], d)
    ensures r.Ok? && WellFormed(t) ==> WellFormed(r.value)
  {
    var t5 :- CollapseAgeGroups(t);
    var t6 :- CollapseAdmissionId(t5);
    var t7 :- CollapseDischargeDispositionId(t6);
    CollapseAdmissionSourceId(t7)
  }

  /** `clean_data` up to and including the fill loop (lines 164-193). */
  function Prepare(raw: Table): (r: Result<Table>)
    ensures r.Failure? ==> r.error.MissingColumn? || r.error.EmptyMode?
    ensures r.Ok? ==> forall c :: c in r.value.columns <==> c in raw.columns && c !in FirstDropped
  {
    var t4 :- PrepareRows(raw);
    var t8 :- CollapseCodes(t4);
    FillMissing(t8)
  }

  /** `clean_data`: the prepared frame, label-encoded, without the two identifier columns. */
  function CleanData(raw: Table): (r: Result<Table>)
    ensures r.Failure? ==> r.error.MissingColumn? || r.error.EmptyMode? || r.error.MixedTypes?
  {
    var filled :- Prepare(raw);
    var encoded :- LabelEncode(filled);
    DropColumns(encoded, LastDropped)
  }

  // ---------------------------------------------------------------------
  // The readmission target.

  /** On a target column holding only the three labels, the collapse yields 0/1, with 1 exactly for "<30". */
  lemma ReadmittedBecomesBinary(t: Table)
    requires "readmitted" in t.columns
    requires forall i :: 0 <= i < |t.rows| ==> Get(t.rows[i], "readmitted") in {Str("NO"), Str("<30"), Str(">30")}
    ensures var r := CollapseReadmitted(t).value;
      forall i :: 0 <= i < |r.rows| ==>
        Get(r.rows[i], "readmitted") in {Num(0), Num(1)} &&
        (Get(r.rows[i], "readmitted") == Num(1) <==> Get(t.rows[i], "readmitted") == Str("<30"))
  {
  }

  // ---------------------------------------------------------------------
  // The fill loop.

  /** The frame has a column whose cells are all missing (and at least one row). */
  predicate AllMissing(t: Table, c: string) {
    |t.rows| > 0 && forall i :: 0 <= i < |t.rows| ==> Get(t.rows[i], c).Missing?
  }

  lemma FillColumnOthers(t: Table, c: string, m: Cell, d: string)
    requires d != c
    ensures Column(FillColumn(t, c, m), d) == Column(t, d)
  {
  }

  /** `out` is `t` with the missing cells of the columns `cols` filled with their column's mode. */
  ghost predicate FilledFrom(t: Table, cols: seq<string>, out: Table) {
    |out.rows| == |t.rows| && forall i, c :: 0 <= i < |t.rows| ==> FilledFromCell(t, cols, out, i, c)
  }

  ghost predicate FilledFromCell(t: Table, cols: seq<string>, out: Table, i: nat, c: string)
    requires i < |t.rows| == |out.rows|
  {
    Get(out.rows[i], c) == if c in cols then FillWith(Get(t.rows[i], c), Mode(Column(t, c))) else Get(t.rows[i], c)
  }

  /** One cell of one turn of the fill loop. */
  lemma FillStepCell(t: Table, c0: string, m: Cell, rest: seq<string>, out: Table, i: nat, c: string)
    requires c0 !in rest && Mode(Column(t, c0)) == Some(m) && i < |t.rows| == |out.rows|
    requires FilledFromCell(FillColumn(t, c0, m), rest, out, i, c)
    ensures FilledFromCell(t, [c0] + rest, out, i, c)
  {
    if c in rest {
      FillColumnOthers(t, c0, m, c);
    }
  }

  /** One turn of the fill loop: filling `c0` first and then `rest` fills `[c0] + rest`. */
  lemma FillStep(t: Table, c0: string, m: Cell, rest: seq<string>, out: Table)
    requires c0 !in rest && Mode(Column(t, c0)) == Some(m)
    requires FilledFrom(FillColumn(t, c0, m), rest, out)
    ensures FilledFrom(t, [c0] + rest, out)
  {
    forall i, c | 0 <= i < |t.rows|
      ensures FilledFromCell(t, [c0] + rest, out, i, c)
    {
      FillStepCell(t, c0, m, rest, out, i, c);
    }
  }

  /** What the loop over `cols` computes, cell by cell. */
  lemma {:induction false} FillMissingColumnsMeaning(t: Table, cols: seq<string>)
    requires Distinct(cols)
    ensures FillMissingColumns(t, cols).Ok? <==> forall c :: c in cols ==> Mode(Column(t, c)).Some?
    ensures FillMissingColumns(t, cols).Ok? ==> FilledFrom(t, cols, FillMissingColumns(t, cols).value)
    decreases |cols|
  {
    if cols != [] {
      var c0, rest := cols[0], cols[1..];
      DistinctTail(cols);
      var mode0 := Mode(Column(t, c0));
      if mode0.Some? {
        var t' := FillColumn(t, c0, mode0.value);
        FillMissingColumnsMeaning(t', rest);
        forall c | c in rest ensures Column(t', c) == Column(t, c) {
          FillColumnOthers(t, c0, mode0.value, c);
        }
        if FillMissingColumns(t', rest).Ok? {
          FillStep(t, c0, mode0.value, rest, FillMissingColumns(t', rest).value);
          assert [c0] + rest == cols;
        }
      }
    }
  }

  /**
    `f` is `t` filled with modes: a cell that was missing in a column of the
    frame now holds that column's mode (the declarative `IsMode`), every other
    cell is kept, and no column of the frame holds a missing cell.
  */
  ghost predicate ModeFilled(t: Table, f: Table) {
    |f.rows| == |t.rows| && forall i, c :: 0 <= i < |t.rows| ==> ModeFilledCell(t, f, i, c)
  }

  ghost predicate ModeFilledCell(t: Table, f: Table, i: nat, c: string)
    requires i < |t.rows| && |f.rows| == |t.rows|
  {
    && (Get(t.rows[i], c).Missing? && c in t.columns ==> IsMode(Column(t, c), Get(f.rows[i], c)))
    && (!Get(t.rows[i], c).Missing? ==> Get(f.rows[i], c) == Get(t.rows[i], c))
    && (c in t.columns ==> !Get(f.rows[i], c).Missing?)
  }

  /** The declarative reading of one filled cell. */
  lemma FilledCell(t: Table, out: Table, i: nat, c: string)
    requires WellFormed(t) && i < |t.rows| && FilledFrom(t, MissingColumns(t), out)
    requires forall d :: d in MissingColumns(t) ==> Mode(Column(t, d)).Some?
    ensures ModeFilledCell(t, out, i, c)
  {
    assert FilledFromCell(t, MissingColumns(t), out, i, c);
    if Get(t.rows[i], c).Missing? && c in t.columns {
      assert c in MissingColumns(t);
      ModeCharacterized(Column(t, c), Mode(Column(t, c)).value);
    }
  }

  lemma FillFailsOnlyOnAllMissing(t: Table)
    ensures (forall c :: c in MissingColumns(t) ==> Mode(Column(t, c)).Some?) <==>
            (forall c :: c in t.columns ==> !AllMissing(t, c))
  {
    forall c | c in t.columns
      ensures (c in MissingColumns(t) ==> Mode(Column(t, c)).Some?) <==> !AllMissing(t, c)
    {
      ModeExists(Column(t, c));
      if AllMissing(t, c) {
        assert Get(t.rows[0], c).Missing?;
      }
    }
  }

  /** The fill step succeeds unless some column is entirely missing, and then fills every gap with its column's mode. */
  lemma FillMissingMeaning(t: Table)
    requires WellFormed(t)
    ensures FillMissing(t).Ok? <==> forall c :: c in t.columns ==> !AllMissing(t, c)
    ensures FillMissing(t).Ok? ==> ModeFilled(t, FillMissing(t).value)
  {
    var cols := MissingColumns(t);
    FillMissingColumnsMeaning(t, cols);
    FillFailsOnlyOnAllMissing(t);
    if FillMissing(t).Ok? {
      var f := FillMissing(t).value;
      forall i, c | 0 <= i < |t.rows|
        ensures ModeFilledCell(t, f, i, c)
      {
        FilledCell(t, f, i, c);
      }
      assert ModeFilled(t, f);
    }
  }

  // ---------------------------------------------------------------------
  // The label-encoding loop.

  lemma SetColumnOthers(t: Table, c: string, vals: seq<Cell>, d: string)
    requires |vals| == |t.rows| && d != c
    ensures Column(SetColumn(t, c, vals), d) == Column(t, d)
  {
  }

  /** `out` is `t` with the columns `cols` replaced by their label codes. */
  ghost predicate EncodedFrom(t: Table, cols: seq<string>, out: Table) {
    |out.rows| == |t.rows| && forall i, c :: 0 <= i < |t.rows| ==> EncodedFromCell(t, cols, out, i, c)
  }

  ghost predicate EncodedFromCell(t: Table, cols: seq<string>, out: Table, i: nat, c: string)
    requires i < |t.rows| == |out.rows|
  {
    Get(out.rows[i], c) == if c in cols then Code(Column(t, c), Get(t.rows[i], c)) else Get(t.rows[i], c)
  }

  /** One cell of one turn of the encoding loop. */
  lemma EncodeStepCell(t: Table, c0: string, codes: seq<Cell>, rest: seq<string>, out: Table, i: nat, c: string)
    requires c0 !in rest && FitTransform(Column(t, c0)) == Some(codes) && i < |t.rows| == |out.rows|
    requires EncodedFromCell(SetColumn(t, c0, codes), rest, out, i, c)
    ensures EncodedFromCell(t, [c0] + rest, out, i, c)
  {
    var t' := SetColumn(t, c0, codes);
    if c in rest {
      SetColumnOthers(t, c0, codes, c);
    } else if c == c0 {
      assert Get(t'.rows[i], c0) == Column(t', c0)[i];
    }
  }

  /** One turn of the encoding loop: encoding `c0` first and then `rest` encodes `[c0] + rest`. */
  lemma EncodeStep(t: Table, c0: string, codes: seq<Cell>, rest: seq<string>, out: Table)
    requires c0 !in rest && FitTransform(Column(t, c0)) == Some(codes)
    requires EncodedFrom(SetColumn(t, c0, codes), rest, out)
    ensures EncodedFrom(t, [c0] + rest, out)
  {
    forall i, c | 0 <= i < |t.rows|
      ensures EncodedFromCell(t, [c0] + rest, out, i, c)
    {
      EncodeStepCell(t, c0, codes, rest, out, i, c);
    }
  }

  /** What the loop over `cols` computes, cell by cell. */
  lemma {:induction false} EncodeColumnsMeaning(t: Table, cols: seq<string>)
    requires Distinct(cols)
    ensures EncodeColumns(t, cols).Ok? <==> forall c :: c in cols ==> !HasNumber(Column(t, c))
    ensures EncodeColumns(t, cols).Ok? ==> EncodedFrom(t, cols, EncodeColumns(t, cols).value)
    decreases |cols|
  {
    if cols != [] {
      var c0, rest := cols[0], cols[1..];
      DistinctTail(cols);
      var fitted := FitTransform(Column(t, c0));
      if fitted.Some? {
        var t' := SetColumn(t, c0, fitted.value);
        EncodeColumnsMeaning(t', rest);
        forall c | c in rest ensures Column(t', c) == Column(t, c) {
          SetColumnOthers(t, c0, fitted.value, c);
        }
        if EncodeColumns(t', rest).Ok? {
          EncodeStep(t, c0, fitted.value, rest, EncodeColumns(t', rest).value);
          assert [c0] + rest == cols;
        }
      }
    }
  }

  lemma SelectedColumn(t: Table, cols: seq<string>, c: string)
    requires c in cols
    ensures Column(SelectColumns(t, cols), c) == Column(t, c)
  {
  }

  /** `label_encode` fails exactly when an object column also holds a number. */
  lemma LabelEncodeSucceeds(t: Table)
    requires Distinct(t.columns)
    ensures LabelEncode(t).Ok? <==> forall c :: c in t.columns && IsCategorical(t, c) ==> !HasNumber(Column(t, c))
  {
    var cats := CategoricalColumns(t);
    var selected := SelectColumns(t, cats);
    EncodeColumnsMeaning(selected, cats);
    forall c | c in cats ensures Column(selected, c) == Column(t, c) {
      SelectedColumn(t, cats, c);
    }
  }

  /** A cell after encoding: an object column's cell becomes its code within that column, any other cell is kept. */
  ghost predicate EncodedCell(t: Table, r: Table, i: nat, c: string)
    requires i < |t.rows| && |r.rows| == |t.rows|
  {
    Get(r.rows[i], c) == if IsCategorical(t, c) then Code(Column(t, c), Get(t.rows[i], c)) else Get(t.rows[i], c)
  }

  /** `label_encode` cell by cell: string columns become their codes, numeric columns are kept, the frame stays rectangular. */
  lemma LabelEncodeCells(t: Table)
    requires WellFormed(t) && LabelEncode(t).Ok?
    ensures WellFormed(LabelEncode(t).value)
    ensures forall i, c :: 0 <= i < |t.rows| ==> EncodedCell(t, LabelEncode(t).value, i, c)
  {
    var cats := CategoricalColumns(t);
    var nums := NumericColumns(t);
    var selected := SelectColumns(t, cats);
    EncodeColumnsMeaning(selected, cats);
    var encoded := EncodeColumns(selected, cats).value;
    var numPart := SelectColumns(t, nums);
    var r := LabelEncode(t).value;
    assert r == ConcatColumns(numPart, encoded);
    assert WellFormed(encoded);
    assert WellFormed(numPart);
    forall i, c | 0 <= i < |t.rows| ensures EncodedCell(t, r, i, c) {
      assert EncodedFromCell(selected, cats, encoded, i, c);
      if c in cats {
        SelectedColumn(t, cats, c);
        assert c in encoded.rows[i];
      } else if c in t.columns {
        assert c !in encoded.rows[i];
        assert c in nums;
      } else {
        assert c !in t.rows[i];
        assert !IsCategorical(t, c) by {
          forall k | 0 <= k < |t.rows| ensures !Get(t.rows[k], c).Str? {
            assert c !in t.rows[k];
          }
        }
        assert c !in encoded.rows[i];
      }
    }
  }

  /** One encoded cell is a number or missing, never a string. */
  lemma EncodedCellNotString(t: Table, r: Table, k: nat, c: string)
    requires k < |t.rows| == |r.rows| && EncodedCell(t, r, k, c)
    ensures !Get(r.rows[k], c).Str?
  {
    if !IsCategorical(t, c) {
      assert !Get(t.rows[k], c).Str?;
    }
  }

  /** Every column `label_encode` returns is numeric. */
  lemma LabelEncodeAllNumeric(t: Table)
    requires WellFormed(t) && LabelEncode(t).Ok?
    ensures forall c :: !IsCategorical(LabelEncode(t).value, c)
  {
    LabelEncodeCells(t);
    var r := LabelEncode(t).value;
    forall c ensures !IsCategorical(r, c) {
      forall k | 0 <= k < |r.rows| ensures !Get(r.rows[k], c).Str? {
        EncodedCellNotString(t, r, k, c);
      }
    }
  }

  lemma EncodedColumnMatches(t: Table, r: Table, c: string)
    requires |r.rows| == |t.rows| && IsCategorical(t, c) && !HasNumber(Column(t, c))
    requires forall i :: 0 <= i < |t.rows| ==> EncodedCell(t, r, i, c)
    ensures FitTransform(Column(t, c)) == Some(Column(r, c))
  {
    var codes := FitTransform(Column(t, c)).value;
    var a := Column(r, c);
    forall i | 0 <= i < |a| ensures a[i] == codes[i] {
      assert EncodedCell(t, r, i, c);
    }
    assert a == codes;
  }

  /** An encoded column is exactly what the encoder, fitted on that column alone, returns for it. */
  lemma EncodedColumnIsFitTransform(t: Table, c: string)
    requires WellFormed(t) && LabelEncode(t).Ok? && IsCategorical(t, c)
    ensures FitTransform(Column(t, c)) == Some(Column(LabelEncode(t).value, c))
  {
    LabelEncodeSucceeds(t);
    LabelEncodeCells(t);
    var k :| 0 <= k < |t.rows| && Get(t.rows[k], c).Str?;
    assert c in t.rows[k];
    EncodedColumnMatches(t, LabelEncode(t).value, c);
  }

  /** Two frames whose object column `c` is the same get the same codes in `c`: a column is encoded on its own. */
  lemma CodesDependOnOwnColumn(t: Table, u: Table, c: string)
    requires WellFormed(t) && WellFormed(u)
    requires LabelEncode(t).Ok? && LabelEncode(u).Ok?
    requires Column(t, c) == Column(u, c) && IsCategorical(t, c)
    ensures Column(LabelEncode(t).value, c) == Column(LabelEncode(u).value, c)
  {
    var k :| 0 <= k < |t.rows| && Get(t.rows[k], c).Str?;
    assert Column(t, c)[k] == Column(u, c)[k];
    EncodedColumnIsFitTransform(t, c);
    EncodedColumnIsFitTransform(u, c);
  }

  /** The codes of one encoded column lie in 0 .. k-1 (k distinct values), are equal exactly for equal values and ordered as the strings. */
  lemma EncodedColumnCodes(t: Table, c: string, i: nat, j: nat)
    requires WellFormed(t) && LabelEncode(t).Ok? && IsCategorical(t, c)
    requires i < |t.rows| && j < |t.rows|
    ensures Get(LabelEncode(t).value.rows[i], c).Num? && Get(LabelEncode(t).value.rows[j], c).Num?
    ensures 0 <= Get(LabelEncode(t).value.rows[i], c).n < DistinctCount(Column(t, c))
    ensures Get(LabelEncode(t).value.rows[i], c) == Get(LabelEncode(t).value.rows[j], c) <==> Get(t.rows[i], c) == Get(t.rows[j], c)
    ensures Get(t.rows[i], c).Str? && Get(t.rows[j], c).Str? ==>
      (Get(LabelEncode(t).value.rows[i], c).n < Get(LabelEncode(t).value.rows[j], c).n <==>
       Order.StrLt(Get(t.rows[i], c).s, Get(t.rows[j], c).s))
  {
    LabelEncodeSucceeds(t);
    LabelEncodeCells(t);
    var r := LabelEncode(t).value;
    var k :| 0 <= k < |t.rows| && Get(t.rows[k], c).Str?;
    assert c in t.rows[k];
    var col := Column(t, c);
    assert !HasNumber(col);
    var a, b := col[i], col[j];
    assert a == Get(t.rows[i], c) && b == Get(t.rows[j], c);
    assert EncodedCell(t, r, i, c) && EncodedCell(t, r, j, c);
    assert Get(r.rows[i], c) == Code(col, a) && Get(r.rows[j], c) == Code(col, b);
    CodeInRange(col, a);
    CodeInRange(col, b);
    CodeInjectiveAndOrdered(col, a, b);
  }

  // ---------------------------------------------------------------------
  // The whole pipeline.

  lemma ReplaceUnknownKeepsGender(t: Table, i: nat)
    requires i < |t.rows|
    ensures ValidGender(ReplaceUnknown(t).rows[i]) <==> ValidGender(t.rows[i])
  {
  }

  lemma DropKeepsGender(t: Table, i: nat)
    requires i < |t.rows| && DropColumns(t, FirstDropped).Ok?
    ensures ValidGender(DropColumns(t, FirstDropped).value.rows[i]) <==> ValidGender(t.rows[i])
  {
  }

  lemma ReadmittedKeepsGender(t: Table, i: nat)
    requires i < |t.rows| && CollapseReadmitted(t).Ok?
    ensures ValidGender(CollapseReadmitted(t).value.rows[i]) <==> ValidGender(t.rows[i])
  {
  }

  /** The three steps before the gender filter do not change a row's gender validity. */
  lemma GenderSurvivesRowSteps(raw: Table, i: nat)
    requires i < |raw.rows| && DropColumns(ReplaceUnknown(raw), FirstDropped).Ok?
    requires CollapseReadmitted(DropColumns(ReplaceUnknown(raw), FirstDropped).value).Ok?
    ensures ValidGender(CollapseReadmitted(DropColumns(ReplaceUnknown(raw), FirstDropped).value).value.rows[i])
      <==> ValidGender(raw.rows[i])
  {
    var t1 := ReplaceUnknown(raw);
    var t2 := DropColumns(t1, FirstDropped).value;
    ReplaceUnknownKeepsGender(raw, i);
    DropKeepsGender(t1, i);
    ReadmittedKeepsGender(t2, i);
  }

  /** The row stage keeps exactly the rows of valid gender, as many as the raw frame has. */
  lemma PrepareRowsKeepsValidGender(raw: Table)
    requires PrepareRows(raw).Ok?
    ensures |PrepareRows(raw).value.rows| == |Where(raw.rows, ValidGender)|
    ensures forall i :: 0 <= i < |PrepareRows(raw).value.rows| ==> Get(PrepareRows(raw).value.rows[i], "gender") != InvalidGender
  {
    var t2 := DropColumns(ReplaceUnknown(raw), FirstDropped).value;
    var t3 := CollapseReadmitted(t2).value;
    var t4 := DropInvalidGender(t3).value;
    assert PrepareRows(raw) == Ok(t4);
    forall i | 0 <= i < |t3.rows| ensures ValidGender(t3.rows[i]) <==> ValidGender(raw.rows[i]) {
      GenderSurvivesRowSteps(raw, i);
    }
    WherePointwise(t3.rows, ValidGender, raw.rows, ValidGender);
    forall i | 0 <= i < |t4.rows| ensures Get(t4.rows[i], "gender") != InvalidGender {
      assert t4.rows[i] in t3.rows;
    }
  }

  lemma DropKeepsNoUnknown(t: Table, names: seq<string>)
    requires NoUnknown(t) && DropColumns(t, names).Ok?
    ensures NoUnknown(DropColumns(t, names).value)
  {
  }

  lemma ReadmittedKeepsNoUnknown(t: Table)
    requires NoUnknown(t) && CollapseReadmitted(t).Ok?
    ensures NoUnknown(CollapseReadmitted(t).value)
  {
  }

  lemma GenderFilterKeepsNoUnknown(t: Table)
    requires NoUnknown(t) && DropInvalidGender(t).Ok?
    ensures NoUnknown(DropInvalidGender(t).value)
  {
    var r := DropInvalidGender(t).value;
    forall i, c | 0 <= i < |r.rows| ensures Get(r.rows[i], c) != Str("?") {
      assert r.rows[i] in t.rows;
    }
  }

  /** The row stage leaves no "?" and keeps the frame rectangular. */
  lemma PrepareRowsNoUnknown(raw: Table)
    requires PrepareRows(raw).Ok?
    ensures NoUnknown(PrepareRows(raw).value)
    ensures WellFormed(raw) ==> WellFormed(PrepareRows(raw).value)
  {
    var t1 := ReplaceUnknown(raw);
    var t2 := DropColumns(t1, FirstDropped).value;
    var t3 := CollapseReadmitted(t2).value;
    var t4 := DropInvalidGender(t3).value;
    assert PrepareRows(raw) == Ok(t4);
    DropKeepsNoUnknown(t1, FirstDropped);
    ReadmittedKeepsNoUnknown(t2);
    GenderFilterKeepsNoUnknown(t3);
  }

  lemma CollapseKeepsNoUnknown(t: Table, c: string, f: Cell -> Cell)
    requires NoUnknown(t) && c in t.columns
    requires forall v :: v != Str("?") ==> f(v) != Str("?")
    ensures NoUnknown(CollapseColumn(t, c, f).value)
  {
  }

  /** The code tables bring no "?" back. */
  lemma CollapseCodesKeepsNoUnknown(t: Table)
    requires NoUnknown(t) && CollapseCodes(t).Ok?
    ensures NoUnknown(CollapseCodes(t).value)
  {
    forall v | v != Str("?")
      ensures AgeMidpoint(v) != Str("?") && AdmissionType(v) != Str("?")
      ensures DischargeDisposition(v) != Str("?") && AdmissionSource(v) != Str("?")
    {
      TablesNeverGiveUnknown(v);
    }
    var t5 := CollapseAgeGroups(t).value;
    var t6 := CollapseAdmissionId(t5).value;
    var t7 := CollapseDischargeDispositionId(t6).value;
    CollapseKeepsNoUnknown(t, "age", AgeMidpoint);
    CollapseKeepsNoUnknown(t5, "admission_type_id", AdmissionType);
    CollapseKeepsNoUnknown(t6, "discharge_disposition_id", DischargeDisposition);
    CollapseKeepsNoUnknown(t7, "admission_source_id", AdmissionSource);
  }

  /** The fill takes its values from the frame, so it brings no "?" back either. */
  lemma FillKeepsNoUnknown(t: Table)
    requires WellFormed(t) && NoUnknown(t) && FillMissing(t).Ok?
    ensures NoUnknown(FillMissing(t).value)
  {
    FillMissingMeaning(t);
    var f := FillMissing(t).value;
    assert WellFormed(f);
    forall i, c | 0 <= i < |f.rows| ensures Get(f.rows[i], c) != Str("?") {
      assert ModeFilledCell(t, f, i, c);
      if Get(t.rows[i], c).Missing? && c in t.columns {
        var col := Column(t, c);
        var k :| 0 <= k < |col| && col[k] == Get(f.rows[i], c);
        assert Get(t.rows[k], c) != Str("?");
      } else if c !in t.columns {
        assert c !in f.rows[i];
      }
    }
  }

  /**
    After the fill step of `clean_data`: the frame is rectangular, has the raw
    columns less the first three dropped, one row per raw row of valid gender,
    and no cell of any column is "?" or missing.
  */
  lemma PrepareFacts(raw: Table)
    requires WellFormed(raw) && Prepare(raw).Ok?
    ensures var f := Prepare(raw).value;
      && WellFormed(f)
      && (forall c :: c in f.columns <==> c in raw.columns && c !in FirstDropped)
      && |f.rows| == |Where(raw.rows, ValidGender)|
      && NoUnknown(f)
      && (forall i, c :: 0 <= i < |f.rows| && c in f.columns ==> !Get(f.rows[i], c).Missing?)
  {
    var t4 := PrepareRows(raw).value;
    PrepareRowsKeepsValidGender(raw);
    PrepareRowsNoUnknown(raw);
    var t8 := CollapseCodes(t4).value;
    CollapseCodesKeepsNoUnknown(t4);
    var f := FillMissing(t8).value;
    assert Prepare(raw) == Ok(f);
    FillMissingMeaning(t8);
    FillKeepsNoUnknown(t8);
    assert WellFormed(f);
    forall i, c | 0 <= i < |f.rows| && c in f.columns ensures !Get(f.rows[i], c).Missing? {
      assert ModeFilledCell(t8, f, i, c);
    }
  }

  /** The columns `clean_data` reads or drops by name, in the order it first touches them. */
  const RequiredColumns: seq<string> :=
    FirstDropped + ["readmitted", "gender"] + CodedColumns + LastDropped

  /** A column that the steps before the fill name, when absent, makes `clean_data` raise a KeyError or AttributeError. */
  lemma MissingColumnIsReported(raw: Table, c: string)
    requires c in RequiredColumns && c !in LastDropped && c !in raw.columns
    ensures Prepare(raw).Failure? && Prepare(raw).error.MissingColumn?
    ensures CleanData(raw).Failure? && CleanData(raw).error.MissingColumn?
  {
  }

  /** `clean_data` raises unless every column it names is present. */
  lemma CleanDataNeedsColumns(raw: Table)
    requires CleanData(raw).Ok?
    ensures forall c :: c in RequiredColumns ==> c in raw.columns
  {
    forall c | c in RequiredColumns && c !in LastDropped ensures c in raw.columns {
      if c !in raw.columns {
        MissingColumnIsReported(raw, c);
      }
    }
    var f := Prepare(raw).value;
    var e := LabelEncode(f).value;
    assert DropColumns(e, LastDropped).Ok?;
    assert forall c :: c in e.columns ==> c in f.columns;
    assert forall c :: c in f.columns ==> c in PrepareRows(raw).value.columns;
  }

  /** The encoded frame keeps the prepared frame's columns, as a set. */
  lemma LabelEncodeKeepsColumnSet(t: Table)
    requires LabelEncode(t).Ok?
    ensures forall c :: c in LabelEncode(t).value.columns <==> c in t.columns
  {
  }

  /**
    The frame `clean_data` returns: the raw columns less the five dropped ones,
    one row per raw row of valid gender.
  */
  lemma CleanDataShape(raw: Table)
    requires WellFormed(raw) && CleanData(raw).Ok?
    ensures forall c :: c in CleanData(raw).value.columns <==>
      c in raw.columns && c !in FirstDropped && c !in LastDropped
    ensures |CleanData(raw).value.rows| == |Where(raw.rows, ValidGender)|
  {
    PrepareFacts(raw);
    var f := Prepare(raw).value;
    LabelEncodeKeepsColumnSet(f);
  }

  lemma DropKeepsNumeric(e: Table, names: seq<string>)
    requires DropColumns(e, names).Ok? && forall c :: !IsCategorical(e, c)
    ensures forall c :: !IsCategorical(DropColumns(e, names).value, c)
  {
    var r := DropColumns(e, names).value;
    forall c ensures !IsCategorical(r, c) {
      assert !IsCategorical(e, c);
      forall i | 0 <= i < |r.rows| ensures !Get(r.rows[i], c).Str? {
        assert !Get(e.rows[i], c).Str?;
      }
    }
  }

  /** Every column of the frame `clean_data` returns is numeric, and the frame is rectangular. */
  lemma CleanDataAllNumeric(raw: Table)
    requires WellFormed(raw) && CleanData(raw).Ok?
    ensures WellFormed(CleanData(raw).value)
    ensures forall c :: !IsCategorical(CleanData(raw).value, c)
  {
    PrepareFacts(raw);
    var f := Prepare(raw).value;
    LabelEncodeCells(f);
    LabelEncodeAllNumeric(f);
    DropKeepsNumeric(LabelEncode(f).value, LastDropped);
  }

  /** The target survives cleaning: a successful `clean_data` always returns a `readmitted` column. */
  lemma CleanDataKeepsTarget(raw: Table)
    requires WellFormed(raw) && CleanData(raw).Ok?
    ensures "readmitted" in CleanData(raw).value.columns
  {
    assert PrepareRows(raw).Ok?;
    assert "readmitted" !in FirstDropped && "readmitted" !in LastDropped;
    CleanDataShape(raw);
  }
}
