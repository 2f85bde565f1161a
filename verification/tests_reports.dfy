/**
  The monitoring job (`tests_reports.py`): the column mapping handed to the
  drift report, the pass/fail summary of the test suite, the retrain decision,
  and the patient-id to prediction map that adds the prediction column to the
  new data.
*/
module TestsReports {
  import opened Results
  import opened Frame
  import opened Common
  import Predict

  /** One entry of the test suite's `tests` list; only its status is read. */
  datatype TestResult = TestResult(name: string, status: string)

  /** The status Evidently gives a passed test. */
  const Success := "SUCCESS"

  /**
    `get_test_summary`: one flag per test result, in the same order, True
    exactly for the results whose status is "SUCCESS".
  */
  method GetTestSummary(testsResults: seq<TestResult>) returns (summary: seq<bool>)
    ensures |summary| == |testsResults|
    ensures forall i :: 0 <= i < |summary| ==> (summary[i] <==> testsResults[i].status == Success)
  {
    summary := [];
    var k := 0;
    while k < |testsResults|
      invariant 0 <= k <= |testsResults|
      invariant |summary| == k
      invariant forall i :: 0 <= i < k ==> (summary[i] <==> testsResults[i].status == Success)
    {
      if testsResults[k].status == Success {
        summary := summary + [true];
      } else {
        summary := summary + [false];
      }
      k := k + 1;
    }
  }

  /** Python's `all` over a list of flags. */
  function All(flags: seq<bool>): (r: bool)
    ensures r <==> forall i :: 0 <= i < |flags| ==> flags[i]
  {
    if flags == [] then true else flags[0] && All(flags[1..])
  }

  /** Lines 160-165: retraining is triggered when not every test passed. */
  function ShouldRetrain(testSummary: seq<bool>): (r: bool)
    ensures r <==> exists i :: 0 <= i < |testSummary| && !testSummary[i]
  {
    !All(testSummary)
  }

  /** The summary followed by the decision: retrain exactly when some test's status is not "SUCCESS". */
  method RetrainDecision(testsResults: seq<TestResult>) returns (retrain: bool)
    ensures retrain <==> exists i :: 0 <= i < |testsResults| && testsResults[i].status != Success
  {
    var summary := GetTestSummary(testsResults);
    retrain := ShouldRetrain(summary);
    if retrain {
      var i :| 0 <= i < |summary| && !summary[i];
      assert testsResults[i].status != Success;
    }
  }

  /** Evidently's `ColumnMapping`, with the four fields the job sets. */
  datatype ColumnMapping = ColumnMapping(
    target: string,
    prediction: string,
    numericalFeatures: seq<string>,
    categoricalFeatures: seq<string>)

  /**
    `create_column_mapping`: the target and prediction names as given, and the
    numeric and categorical columns of the frame, in frame order, without those
    two.
  */
  function CreateColumnMapping(data: Table, targetColumn: string, predictionColumn: string): (m: ColumnMapping)
    ensures m.target == targetColumn && m.prediction == predictionColumn
    ensures forall c :: c in m.numericalFeatures <==>
      c in data.columns && !IsCategorical(data, c) && c != targetColumn && c != predictionColumn
    ensures forall c :: c in m.categoricalFeatures <==>
      c in data.columns && IsCategorical(data, c) && c != targetColumn && c != predictionColumn
    ensures SubsequenceOf(m.numericalFeatures, data.columns) && SubsequenceOf(m.categoricalFeatures, data.columns)
  {
    var exclude := Some([targetColumn, predictionColumn]);
    FeaturesAreSubsequences(data, exclude);
    ColumnMapping(targetColumn, predictionColumn, GetNumericFeatures(data, exclude), GetCategoricalFeatures(data, exclude))
  }

  /** A prediction record with both keys the map reads. */
  predicate HasKeys(item: Row) {
    "patient_id" in item && "predicted_readmitted" in item
  }

  /** The patient ids of the records. */
  function Ids(records: seq<Row>): set<Cell> {
    set j | 0 <= j < |records| :: Get(records[j], "patient_id")
  }

  /**
    Line 89: `{item['patient_id']: item['predicted_readmitted'] for item in predictions}`.
    A record without either key raises; otherwise the keys are the records'
    patient ids (see `PredictionMapLastWins` for the values).
  */
  function PredictionMap(records: seq<Row>): (r: Result<map<Cell, Cell>>)
    ensures r.Ok? <==> forall j :: 0 <= j < |records| ==> HasKeys(records[j])
    ensures r.Failure? ==> r.error.MissingColumn?
    ensures r.Ok? ==> r.value.Keys == Ids(records)
    decreases |records|
  {
    if records == [] then Ok(map[])
    else
      var n := |records| - 1;
      var item := records[n];
      assert forall j :: 0 <= j < n ==> records[..n][j] == records[j];
      var front :- PredictionMap(records[..n]);
      if "patient_id" !in item then Failure(MissingColumn("patient_id"))
      else if "predicted_readmitted" !in item then Failure(MissingColumn("predicted_readmitted"))
      else
        assert Ids(records) == Ids(records[..n]) + {item["patient_id"]};
        Ok(front[item["patient_id"] := item["predicted_readmitted"]])
  }

  /** Record `j` is the last one with its patient id. */
  predicate LastWith(records: seq<Row>, j: nat)
    requires j < |records|
  {
    forall k :: j < k < |records| ==> Get(records[k], "patient_id") != Get(records[j], "patient_id")
  }

  /** A repeated patient id keeps the prediction of its last record: later entries overwrite earlier ones. */
  lemma {:induction false} PredictionMapLastWins(records: seq<Row>, j: nat)
    requires PredictionMap(records).Ok? && j < |records| && LastWith(records, j)
    ensures Get(records[j], "patient_id") in PredictionMap(records).value
    ensures PredictionMap(records).value[Get(records[j], "patient_id")] == Get(records[j], "predicted_readmitted")
    decreases |records|
  {
    var n := |records| - 1;
    var front := records[..n];
    assert forall k :: 0 <= k < n ==> front[k] == records[k];
    if j < n {
      PredictionMapLastWins(front, j);
    }
  }

  /**
    The records the prediction job returns always give a map, and a patient id
    whose last record is record `i` is mapped to the prediction of row `i`.
  */
  lemma RecordsMapToPredictions(patientId: seq<Cell>, yActual: seq<Cell>, yPred: seq<Cell>, i: nat)
    requires |yActual| == |yPred| && Predict.AssembleRecords(patientId, yActual, yPred).Ok?
    requires i < |patientId| && forall k :: i < k < |patientId| ==> patientId[k] != patientId[i]
    ensures var records := Predict.AssembleRecords(patientId, yActual, yPred).value;
      PredictionMap(records).Ok? && patientId[i] in PredictionMap(records).value &&
      PredictionMap(records).value[patientId[i]] == yPred[i]
  {
    var records := Predict.AssembleRecords(patientId, yActual, yPred).value;
    assert forall j :: 0 <= j < |records| ==> HasKeys(records[j]);
    assert LastWith(records, i);
    PredictionMapLastWins(records, i);
  }

  /** A patient id's prediction: the mapped value, or missing for an id with no record (`Series.map`). */
  function Lookup(predictionDict: map<Cell, Cell>, id: Cell): (r: Cell)
    ensures id in predictionDict ==> r == predictionDict[id]
    ensures id !in predictionDict ==> r == Missing
  {
    if id in predictionDict then predictionDict[id] else Missing
  }

  /**
    Line 92: `new_data['Predicted_readmitted'] = new_data['patient_nbr'].map(prediction_dict)`.
    Each row gets the prediction of its patient, or missing; the other columns
    are kept; a frame without `patient_nbr` raises.
  */
  function AddPredictions(newData: Table, predictionDict: map<Cell, Cell>): (r: Result<Table>)
    ensures r.Ok? <==> "patient_nbr" in newData.columns
    ensures r.Failure? ==> r.error == MissingColumn("patient_nbr")
    ensures r.Ok? ==> forall c :: c in r.value.columns <==> c in newData.columns || c == "Predicted_readmitted"
    ensures r.Ok? ==> |r.value.rows| == |newData.rows|
    ensures r.Ok? ==> forall i :: 0 <= i < |newData.rows| ==>
      Get(r.value.rows[i], "Predicted_readmitted") == Lookup(predictionDict, Get(newData.rows[i], "patient_nbr"))
    ensures r.Ok? ==> forall i, c :: 0 <= i < |newData.rows| && c != "Predicted_readmitted" ==>
      Get(r.value.rows[i], c) == Get(newData.rows[i], c)
    ensures r.Ok? && WellFormed(newData) ==> WellFormed(r.value)
  {
    if "patient_nbr" !in newData.columns then Failure(MissingColumn("patient_nbr"))
    else
      var ids := Column(newData, "patient_nbr");
      var predicted := seq(|ids|, i requires 0 <= i < |ids| => Lookup(predictionDict, ids[i]));
      var t := SetColumn(newData, "Predicted_readmitted", predicted);
      assert forall i :: 0 <= i < |t.rows| ==> Column(t, "Predicted_readmitted")[i] == Get(t.rows[i], "Predicted_readmitted");
      Ok(t)
  }
}
