/**
  The drift-monitoring helpers of `lib/utils.py` that carry logic: the
  comparison of two frames' feature structure and the reference frame built
  from the training data.
*/
module Utils {
  import opened Results
  import opened Frame
  import opened Common
  import opened Steps
  import opened Clean

  function AsSet(s: seq<string>): (r: set<string>)
    ensures forall x :: x in r <==> x in s
  {
    set x | x in s
  }

  /**
    `compare_dataframe_features`: the two frames have the same columns, the same
    numeric columns and the same categorical columns, each compared as a set.
    Equivalently, they have the same columns and every column has the same kind
    in both.
  */
  function CompareDataframeFeatures(reference: Table, newData: Table): (r: bool)
    ensures r <==>
      && (forall c :: c in reference.columns <==> c in newData.columns)
      && (forall c :: c in reference.columns ==> (IsCategorical(reference, c) <==> IsCategorical(newData, c)))
  {
    var same := AsSet(reference.columns) == AsSet(newData.columns)
      && AsSet(GetNumericFeatures(reference, None)) == AsSet(GetNumericFeatures(newData, None))
      && AsSet(GetCategoricalFeatures(reference, None)) == AsSet(GetCategoricalFeatures(newData, None));
    if same then
      assert forall c :: c in reference.columns && IsCategorical(reference, c) ==> c in GetCategoricalFeatures(newData, None);
      assert forall c :: c in reference.columns && !IsCategorical(reference, c) ==> c in GetNumericFeatures(newData, None);
      true
    else
      false
  }

  /** Swapping the two frames does not change the verdict. */
  lemma CompareSymmetric(a: Table, b: Table)
    ensures CompareDataframeFeatures(a, b) == CompareDataframeFeatures(b, a)
  {
  }

  /** A frame always has the feature structure of itself. */
  lemma CompareReflexive(a: Table)
    ensures CompareDataframeFeatures(a, a)
  {
  }

  /** Only sets are compared: listing the same columns in another order gives the same verdict. */
  lemma CompareIgnoresColumnOrder(a: Table, a2: Table, b: Table)
    requires a2.rows == a.rows
    requires forall c :: c in a.columns <==> c in a2.columns
    ensures CompareDataframeFeatures(a, b) == CompareDataframeFeatures(a2, b)
  {
  }

  /** The same column names with one column numeric in one frame and categorical in the other give False. */
  lemma DifferentSplitFails(a: Table, b: Table, c: string)
    requires forall d :: d in a.columns <==> d in b.columns
    requires c in a.columns && IsCategorical(a, c) != IsCategorical(b, c)
    ensures !CompareDataframeFeatures(a, b)
  {
  }

  /** The column holding the model's predictions in the monitored frames. */
  const PredictedColumn := "Predicted_readmitted"

  /** Line 45: the target column copied into `Predicted_readmitted`; every other column is kept. */
  function CopyTarget(df: Table): (r: Table)
    ensures forall c :: c in r.columns <==> c in df.columns || c == PredictedColumn
    ensures |r.rows| == |df.rows|
    ensures forall i :: 0 <= i < |r.rows| ==> Get(r.rows[i], PredictedColumn) == Get(df.rows[i], "readmitted")
    ensures forall i, c :: 0 <= i < |r.rows| && c != PredictedColumn ==> Get(r.rows[i], c) == Get(df.rows[i], c)
    ensures WellFormed(df) ==> WellFormed(r)
  {
    var r := SetColumn(df, PredictedColumn, Column(df, "readmitted"));
    assert forall i :: 0 <= i < |r.rows| ==> Column(r, PredictedColumn)[i] == Get(r.rows[i], PredictedColumn);
    r
  }

  /**
    `get_reference_data`: no path (None or the empty string) gives None;
    otherwise the training frame `raw` read from that path is cleaned and the
    target is copied into `Predicted_readmitted`.  A failing cleaning raises;
    a successful one always has the target column to copy.
  */
  method GetReferenceData(trainingDataPath: Option<string>, raw: Table) returns (r: Result<Option<Table>>)
    requires WellFormed(raw)
    ensures trainingDataPath.None? || trainingDataPath == Some("") ==> r == Ok(None)
    ensures trainingDataPath.Some? && trainingDataPath.value != "" ==>
      && (r.Ok? <==> CleanData(raw).Ok?)
      && (r.Failure? ==> r == Failure(CleanData(raw).error))
      && (r.Ok? ==> "readmitted" in CleanData(raw).value.columns && r.value == Some(CopyTarget(CleanData(raw).value)))
  {
    if trainingDataPath.None? || trainingDataPath.value == "" {
      return Ok(None);
    }
    var cleanObj := new Cleaner(raw);
    var cleaned := cleanObj.CleanData();
    if cleaned.Failure? {
      return Failure(cleaned.error);
    }
    // `df['readmitted']` cannot raise here: cleaning succeeded, so the column is present.
    CleanDataKeepsTarget(raw);
    r := Ok(Some(CopyTarget(cleaned.value)));
  }
}
