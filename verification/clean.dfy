/**
  The `clean` class: a frame held in a field and rewritten in place by each
  cleaning step.  A step that raises leaves the frame as the steps before it
  left it; the methods return `Fail` (or `Failure`) for the exception.  The
  methods that run several steps (`PrepareRowsInPlace`, `CollapseCodesInPlace`,
  `FillMissingInPlace`, `PrepareInPlace`, `CleanData`) leave the frame after a
  failure deliberately unspecified beyond being rectangular: the exception
  propagates out of `clean_data`, and no caller looks at the object again.
*/
module Clean {
  import opened Results
  import opened Frame
  import opened Statistics
  import opened LabelEncoder
  import opened Steps

  class Cleaner {
    /** The frame being cleaned (`self.df`). */
    var df: Table

    /** The frame is rectangular, as `pd.read_csv` returns it. */
    ghost predicate Valid()
      reads this
    {
      WellFormed(df)
    }

    /** `clean(filename)`: the frame read from the file is passed in. */
    constructor(raw: Table)
      requires WellFormed(raw)
      ensures df == raw && Valid()
    {
      df := raw;
    }

    /** `drop_feature`: drop the named columns; pandas raises, leaving the frame, when one is absent. */
    method DropFeature(names: seq<string>) returns (o: Outcome)
      requires Valid()
      modifies this
      ensures o == OutcomeOf(DropColumns(old(df), names))
      ensures o.Pass? ==> df == DropColumns(old(df), names).value
      ensures o.Fail? ==> df == old(df)
      ensures Valid()
    {
      var r := DropColumns(df, names);
      if r.Failure? {
        return Fail(r.error);
      }
      df := r.value;
      o := Pass;
    }

    /** `collapse_readmitted`: the labels are replaced in every column first; the `readmitted` access then raises without that column. */
    method CollapseReadmitted() returns (o: Outcome)
      requires Valid()
      modifies this
      ensures df == ReplaceReadmittedLabels(old(df))
      ensures o == OutcomeOf(Steps.CollapseReadmitted(old(df)))
      ensures Valid()
    {
      df := ReplaceReadmittedLabels(df);
      if "readmitted" in df.columns {
        o := Pass;
      } else {
        o := Fail(MissingColumn("readmitted"));
      }
    }

    /** Rewrite column `c` through `f`; the attribute access raises, leaving the frame, when `c` is absent. */
    method CollapseInPlace(c: string, f: Cell -> Cell) returns (o: Outcome)
      requires Valid()
      modifies this
      ensures o == OutcomeOf(CollapseColumn(old(df), c, f))
      ensures o.Pass? ==> df == CollapseColumn(old(df), c, f).value
      ensures o.Fail? ==> df == old(df)
      ensures Valid()
    {
      var r := CollapseColumn(df, c, f);
      if r.Failure? {
        return Fail(r.error);
      }
      df := r.value;
      o := Pass;
    }

    /** `collapse_age_groups`. */
    method CollapseAgeGroups() returns (o: Outcome)
      requires Valid()
      modifies this
      ensures o == OutcomeOf(Steps.CollapseAgeGroups(old(df)))
      ensures o.Pass? ==> df == Steps.CollapseAgeGroups(old(df)).value
      ensures o.Fail? ==> df == old(df)
      ensures Valid()
    {
      o := CollapseInPlace("age", CodeTables.AgeMidpoint);
    }

    /** `collapse_admission_id`. */
    method CollapseAdmissionId() returns (o: Outcome)
      requires Valid()
      modifies this
      ensures o == OutcomeOf(Steps.CollapseAdmissionId(old(df)))
      ensures o.Pass? ==> df == Steps.CollapseAdmissionId(old(df)).value
      ensures o.Fail? ==> df == old(df)
      ensures Valid()
    {
      o := CollapseInPlace("admission_type_id", CodeTables.AdmissionType);
    }

    /** `collapse_discharge_disposition_id`. */
    method CollapseDischargeDispositionId() returns (o: Outcome)
      requires Valid()
      modifies this
      ensures o == OutcomeOf(Steps.CollapseDischargeDispositionId(old(df)))
      ensures o.Pass? ==> df == Steps.CollapseDischargeDispositionId(old(df)).value
      ensures o.Fail? ==> df == old(df)
      ensures Valid()
    {
      o := CollapseInPlace("discharge_disposition_id", CodeTables.DischargeDisposition);
    }

    /** `collapse_admission_source_id`. */
    method CollapseAdmissionSourceId() returns (o: Outcome)
      requires Valid()
      modifies this
      ensures o == OutcomeOf(Steps.CollapseAdmissionSourceId(old(df)))
      ensures o.Pass? ==> df == Steps.CollapseAdmissionSourceId(old(df)).value
      ensures o.Fail? ==> df == old(df)
      ensures Valid()
    {
      o := CollapseInPlace("admission_source_id", CodeTables.AdmissionSource);
    }

    /**
      `label_encode`: the object columns are encoded one after the other, then
      the numeric columns and the encoded ones are put side by side.  The frame
      itself is not changed.  Every column of the result is numeric.
    */
    method LabelEncode() returns (r: Result<Table>)
      requires Valid()
      ensures r == Steps.LabelEncode(df)
      ensures r.Failure? ==> r.error.MixedTypes? && IsCategorical(df, r.error.column)
      ensures r.Ok? ==> WellFormed(r.value) && forall c :: !IsCategorical(r.value, c)
    {
      var cats := CategoricalColumns(df);
      var nums := NumericColumns(df);
      var catData := SelectColumns(df, cats);
      ghost var selected := catData;
      var i := 0;
      while i < |cats|
        invariant 0 <= i <= |cats|
        invariant |catData.rows| == |df.rows|
        invariant catData.columns == cats
        invariant EncodeColumns(selected, cats) == EncodeColumns(catData, cats[i..])
      {
        var codes := FitTransform(Column(catData, cats[i]));
        if codes.None? {
          assert EncodeColumns(catData, cats[i..]) == Failure(MixedTypes(cats[i]));
          return Failure(MixedTypes(cats[i]));
        }
        assert cats[i..][1..] == cats[i + 1..];
        catData := SetColumn(catData, cats[i], codes.value);
        i := i + 1;
      }
      assert EncodeColumns(catData, cats[i..]) == Ok(catData);
      r := Ok(ConcatColumns(SelectColumns(df, nums), catData));
      LabelEncodeCells(df);
      LabelEncodeAllNumeric(df);
    }

    /** Lines 164-173: "?" becomes missing, three columns go, the target collapses, invalid genders go; after a failure the frame is unspecified. */
    method PrepareRowsInPlace() returns (o: Outcome)
      requires Valid()
      modifies this
      ensures o == OutcomeOf(PrepareRows(old(df)))
      ensures o.Pass? ==> df == PrepareRows(old(df)).value
      ensures Valid()
    {
      ghost var raw := df;
      df := ReplaceUnknown(df);
      o := DropFeature(FirstDropped);
      if o.Fail? {
        return;
      }
      o := CollapseReadmitted();
      if o.Fail? {
        return;
      }
      if "gender" !in df.columns {
        return Fail(MissingColumn("gender"));
      }
      df := FilterRows(df, ValidGender);
    }

    /** Lines 176-185: the age buckets and the three identifier code tables, in that order; after a failure the frame is unspecified. */
    method CollapseCodesInPlace() returns (o: Outcome)
      requires Valid()
      modifies this
      ensures o == OutcomeOf(CollapseCodes(old(df)))
      ensures o.Pass? ==> df == CollapseCodes(old(df)).value
      ensures Valid()
    {
      o := CollapseAgeGroups();
      if o.Fail? {
        return;
      }
      o := CollapseAdmissionId();
      if o.Fail? {
        return;
      }
      o := CollapseDischargeDispositionId();
      if o.Fail? {
        return;
      }
      o := CollapseAdmissionSourceId();
    }

    /** Lines 188-193: every column holding a missing cell, in frame order, is filled with its mode; after a failure the frame is unspecified. */
    method FillMissingInPlace() returns (o: Outcome)
      requires Valid()
      modifies this
      ensures o == OutcomeOf(FillMissing(old(df)))
      ensures o.Pass? ==> df == FillMissing(old(df)).value
      ensures Valid()
    {
      var missing := MissingColumns(df);
      ghost var before := df;
      var i := 0;
      while i < |missing|
        invariant 0 <= i <= |missing|
        invariant df.columns == before.columns && |df.rows| == |before.rows|
        invariant Valid()
        invariant FillMissingColumns(before, missing) == FillMissingColumns(df, missing[i..])
      {
        var m := Mode(Column(df, missing[i]));
        if m.None? {
          return Fail(EmptyMode(missing[i]));
        }
        assert missing[i..][1..] == missing[i + 1..];
        assert missing[i] in missing;
        df := FillColumn(df, missing[i], m.value);
        i := i + 1;
      }
      o := Pass;
    }

    /** `clean_data` up to and including the fill loop (lines 164-193); after a failure the frame is unspecified. */
    method PrepareInPlace() returns (o: Outcome)
      requires Valid()
      modifies this
      ensures o == OutcomeOf(Prepare(old(df)))
      ensures o.Pass? ==> df == Prepare(old(df)).value
      ensures Valid()
    {
      o := PrepareRowsInPlace();
      if o.Fail? {
        return;
      }
      o := CollapseCodesInPlace();
      if o.Fail? {
        return;
      }
      o := FillMissingInPlace();
    }

    /**
      `clean_data`: the whole cleaning, step by step on the frame.  It returns
      what the step functions compute from the initial frame; on success the
      frame is left holding the cleaned result, and after a failure it is
      unspecified.
    */
    method CleanData() returns (r: Result<Table>)
      requires Valid()
      modifies this
      ensures r == Steps.CleanData(old(df))
      ensures r.Ok? ==> df == r.value
      ensures Valid()
    {
      var o := PrepareInPlace();
      if o.Fail? {
        return Failure(o.error);
      }
      var encoded := LabelEncode();
      if encoded.Failure? {
        return Failure(encoded.error);
      }
      df := encoded.value;
      o := DropFeature(LastDropped);
      if o.Fail? {
        return Failure(o.error);
      }
      r := Ok(df);
    }
  }
}
