/**
  The prediction job (`model_inference/predict.py`): the stored new-data file
  that every batch is merged into, and the prediction records that pair each
  raw patient id with its actual and predicted readmission.  Files are a map
  from path to frame; the scaler and the model are an opaque function from the
  feature frame to one prediction per row.
*/
module Predict {
  import opened Results
  import opened Frame
  import opened Paths
  import opened Steps
  import opened Clean

  // ---------------------------------------------------------------------
  // Where the merged new data is stored.

  /** Lines 19-20: `<dirname(dirname(model_dir))>/new_data/new_data.csv`. */
  function NewDataPath(modelDir: string): (r: string)
    ensures IsPrefix(Dirname(Dirname(modelDir)), r)
  {
    Join(Join(Dirname(Dirname(modelDir)), "new_data"), "new_data.csv")
  }

  /**
    The stored file sits in `new_data/` under the grandparent directory of the
    model directory; when that grandparent is empty (a relative model path of
    one or two components) the path is relative, and when it is the root no
    separator is doubled.
  */
  lemma NewDataPathShape(modelDir: string)
    ensures var d := Dirname(Dirname(modelDir));
      NewDataPath(modelDir) == (if d == "" || d[|d| - 1] == '/' then d else d + "/") + "new_data" + "/" + "new_data.csv"
  {
  }

  /** The directory the stored file is placed in is a parent of the model directory, two levels up. */
  lemma NewDataDirIsGrandparent(modelDir: string)
    ensures IsPrefix(Dirname(Dirname(modelDir)), modelDir)
    ensures Dirname(Dirname(modelDir)) != "" && Dirname(Dirname(modelDir))[|Dirname(Dirname(modelDir))| - 1] != '/' ==>
      Dirname(Join(Dirname(Dirname(modelDir)), "new_data")) == Dirname(Dirname(modelDir))
  {
    var d1 := Dirname(modelDir);
    var d := Dirname(d1);
    PrefixTransitive(d, d1, modelDir);
    if d != "" && d[|d| - 1] != '/' {
      DirnameOfJoin(d, "new_data");
    }
  }

  // ---------------------------------------------------------------------
  // Row concatenation and duplicate removal.

  lemma AppendDistinct(a: seq<string>, b: seq<string>)
    ensures Distinct(a) && Distinct(b) && (forall c :: c in b ==> c !in a) ==> Distinct(a + b)
  {
    if Distinct(a) && Distinct(b) && (forall c :: c in b ==> c !in a) {
      forall i, j | 0 <= i < |a + b| && 0 <= j < |a + b| && i != j
        ensures (a + b)[i] != (a + b)[j]
      {
        if i < |a| && j >= |a| {
          assert (a + b)[j] in b;
        } else if i >= |a| && j < |a| {
          assert (a + b)[i] in b;
        }
      }
    }
  }

  /** `pd.concat` column order: the first frame's columns, then the second's new ones. */
  function UnionColumns(a: seq<string>, b: seq<string>): (r: seq<string>)
    ensures forall c :: c in r <==> c in a || c in b
    ensures Distinct(a) && Distinct(b) ==> Distinct(r)
    ensures a <= r
    ensures (forall c :: c in b ==> c in a) ==> r == a
  {
    var extra := Where(b, c => c !in a);
    WhereKeepsDistinct(b, c => c !in a);
    AppendDistinct(a, extra);
    assert |extra| > 0 ==> extra[0] in extra;
    a + extra
  }

  /** A row stretched over `cols`: columns it lacks are missing. */
  function Pad(row: Row, cols: seq<string>): (r: Row)
    ensures r.Keys == set c | c in cols
    ensures forall c :: c in cols ==> Get(r, c) == Get(row, c)
  {
    map c | c in cols :: Get(row, c)
  }

  function PadAll(rows: seq<Row>, cols: seq<string>): (r: seq<Row>)
    ensures |r| == |rows|
    ensures forall i :: 0 <= i < |rows| ==> r[i] == Pad(rows[i], cols)
  {
    seq(|rows|, i requires 0 <= i < |rows| => Pad(rows[i], cols))
  }

  /** `pd.concat([a, b], axis=0, ignore_index=True)`: the rows of `a`, then those of `b`, over the union of the columns. */
  function ConcatRows(a: Table, b: Table): (r: Table)
    ensures r.columns == UnionColumns(a.columns, b.columns)
    ensures |r.rows| == |a.rows| + |b.rows|
    ensures Distinct(a.columns) && Distinct(b.columns) ==> WellFormed(r)
  {
    var cols := UnionColumns(a.columns, b.columns);
    Table(cols, PadAll(a.rows, cols) + PadAll(b.rows, cols))
  }

  /** `drop_duplicates` on a sequence: the first occurrence of each value, in order. */
  function Dedup<T(==, !new)>(s: seq<T>): (r: seq<T>)
    ensures forall x :: x in r <==> x in s
    ensures Distinct(r)
    decreases |s|
  {
    if s == [] then []
    else
      var d := Dedup(s[..|s| - 1]);
      var x := s[|s| - 1];
      assert forall y :: y in s <==> y in s[..|s| - 1] || y == x;
      if x in d then d
      else
        assert forall i :: 0 <= i < |d| ==> (d + [x])[i] == d[i] && d[i] != x;
        d + [x]
  }

  /** Lines 28-39: the stored rows (when the file exists) followed by the incoming ones, without exact duplicates. */
  function MergedContent(existing: Option<Table>, incoming: Table): (r: Table)
    ensures Distinct(r.rows)
    ensures existing.None? ==> r.columns == incoming.columns && forall x :: x in r.rows <==> x in incoming.rows
    ensures existing.Some? ==> r.columns == UnionColumns(existing.value.columns, incoming.columns)
    ensures existing.Some? ==> forall x :: x in r.rows <==>
      x in PadAll(existing.value.rows, r.columns) || x in PadAll(incoming.rows, r.columns)
    ensures existing.Some? && WellFormed(existing.value) && WellFormed(incoming) ==> WellFormed(r)
    ensures r.rows == Dedup(if existing.Some? then PadAll(existing.value.rows, r.columns) + PadAll(incoming.rows, r.columns)
                            else incoming.rows)
  {
    var combined := if existing.Some? then ConcatRows(existing.value, incoming) else incoming;
    var r := Table(combined.columns, Dedup(combined.rows));
    assert forall i :: 0 <= i < |r.rows| ==> r.rows[i] in combined.rows;
    r
  }

  lemma {:induction false} DedupPrefix<T(!new)>(a: seq<T>, b: seq<T>)
    ensures Dedup(a) <= Dedup(a + b)
    decreases |b|
  {
    if b == [] {
      assert a + b == a;
    } else {
      var b' := b[..|b| - 1];
      assert (a + b)[..|a + b| - 1] == a + b';
      DedupPrefix(a, b');
    }
  }

  lemma {:induction false} DedupOfDistinct<T(!new)>(s: seq<T>)
    requires Distinct(s)
    ensures Dedup(s) == s
    decreases |s|
  {
    if s != [] {
      var front := s[..|s| - 1];
      assert Distinct(front);
      DedupOfDistinct(front);
      assert s[|s| - 1] !in front;
      assert s == front + [s[|s| - 1]];
    }
  }

  lemma {:induction false} DedupAppendKnown<T(!new)>(s: seq<T>, t: seq<T>)
    requires forall x :: x in t ==> x in s
    ensures Dedup(s + t) == Dedup(s)
    decreases |t|
  {
    if t == [] {
      assert s + t == s;
    } else {
      var t' := t[..|t| - 1];
      assert (s + t)[..|s + t| - 1] == s + t';
      assert (s + t)[|s + t| - 1] == t[|t| - 1];
      DedupAppendKnown(s, t');
    }
  }

  /** The stored rows keep their place: the merged content starts with the existing rows, deduplicated. */
  lemma MergedStartsWithExisting(existing: Table, incoming: Table)
    ensures var r := MergedContent(Some(existing), incoming);
      Dedup(PadAll(existing.rows, r.columns)) <= r.rows
  {
    var cols := UnionColumns(existing.columns, incoming.columns);
    DedupPrefix(PadAll(existing.rows, cols), PadAll(incoming.rows, cols));
  }

  /** A file saved for the first time from incoming rows without duplicates holds exactly those rows. */
  lemma FirstSaveIsIncoming(incoming: Table)
    requires Distinct(incoming.rows)
    ensures MergedContent(None, incoming) == incoming
  {
    DedupOfDistinct(incoming.rows);
  }

  lemma PadRectangular(row: Row, cols: seq<string>)
    requires row.Keys == set c | c in cols
    ensures Pad(row, cols) == row
  {
  }

  lemma PadAllFixed(rows: seq<Row>, cols: seq<string>)
    requires forall x :: x in rows ==> Pad(x, cols) == x
    ensures PadAll(rows, cols) == rows
  {
  }

  /** Merging the same incoming rows a second time leaves the stored content as the first merge left it. */
  lemma MergeIdempotent(existing: Option<Table>, incoming: Table)
    requires existing.None? ==> WellFormed(incoming)
    ensures MergedContent(Some(MergedContent(existing, incoming)), incoming) == MergedContent(existing, incoming)
  {
    var s := MergedContent(existing, incoming);
    if existing.Some? {
      RemergeAfterConcat(existing.value, incoming);
    } else {
      RemergeAfterFirstSave(incoming);
    }
    DedupOfDistinct(s.rows);
  }

  lemma RemergeAfterConcat(existing: Table, incoming: Table)
    ensures var s := MergedContent(Some(existing), incoming);
      MergedContent(Some(s), incoming) == Table(s.columns, Dedup(s.rows))
  {
    var s := MergedContent(Some(existing), incoming);
    var u := s.columns;
    var combined := ConcatRows(existing, incoming);
    assert forall c :: c in incoming.columns ==> c in u;
    assert UnionColumns(u, incoming.columns) == u;
    MergedRowsArePadded(existing, incoming);
    PadAllFixed(s.rows, u);
    forall x | x in PadAll(incoming.rows, u) ensures x in s.rows {
      var i :| 0 <= i < |incoming.rows| && PadAll(incoming.rows, u)[i] == x;
      assert combined.rows[|existing.rows| + i] == x;
    }
    DedupAppendKnown(s.rows, PadAll(incoming.rows, u));
    assert ConcatRows(s, incoming).rows == s.rows + PadAll(incoming.rows, u);
  }

  lemma MergedRowsArePadded(existing: Table, incoming: Table)
    ensures var s := MergedContent(Some(existing), incoming);
      forall x :: x in s.rows ==> Pad(x, s.columns) == x
  {
  }

  lemma RemergeAfterFirstSave(incoming: Table)
    requires WellFormed(incoming)
    ensures var s := MergedContent(None, incoming);
      MergedContent(Some(s), incoming) == Table(s.columns, Dedup(s.rows))
  {
    var s := MergedContent(None, incoming);
    var u := s.columns;
    assert forall c :: c in incoming.columns ==> c in u;
    forall x | x in s.rows ensures Pad(x, u) == x {
      var i :| 0 <= i < |incoming.rows| && incoming.rows[i] == x;
      PadRectangular(x, u);
    }
    PadAllFixed(s.rows, u);
    PadAllFixed(incoming.rows, u);
    DedupAppendKnown(s.rows, incoming.rows);
  }

  // ---------------------------------------------------------------------
  // The file system the job reads and writes.

  /** Files on disk, each read as a frame. */
  class FileStore {
    var files: map<string, Table>

    constructor(initial: map<string, Table>)
      ensures files == initial
    {
      files := initial;
    }
  }

  /** The stored frame at `path`, if the file exists. */
  function StoredAt(files: map<string, Table>, path: string): Option<Table> {
    if path in files then Some(files[path]) else None
  }

  /** The files after `merge_or_save_new_data`: the stored file at `path` replaced by the merged content. */
  function MergeInto(files: map<string, Table>, filename: string, path: string): (r: map<string, Table>)
    requires filename in files
    ensures r.Keys == files.Keys + {path}
    ensures forall p :: p in files && p != path ==> r[p] == files[p]
    ensures r[path] == MergedContent(StoredAt(files, path), files[filename])
  {
    files[path := MergedContent(StoredAt(files, path), files[filename])]
  }

  /** Running the merge twice on the same input file leaves the store as the first run left it. */
  lemma MergeIntoTwice(files: map<string, Table>, filename: string, path: string)
    requires filename in files && filename != path
    requires path !in files ==> WellFormed(files[filename])
    ensures MergeInto(MergeInto(files, filename, path), filename, path) == MergeInto(files, filename, path)
  {
    MergeIdempotent(StoredAt(files, path), files[filename]);
  }

  // ---------------------------------------------------------------------
  // Prediction records.

  /** The keys of one prediction record. */
  const RecordKeys: set<string> := {"patient_id", "readmitted", "predicted_readmitted"}

  /**
    Lines 88-95: one record per row from the raw patient ids and the cleaned
    frame's actual and predicted values.  The ids index the raw rows and the
    other two the cleaned rows, so the frame cannot be built (pandas raises a
    length mismatch) unless both have as many rows.
  */
  function AssembleRecords(patientId: seq<Cell>, yActual: seq<Cell>, yPred: seq<Cell>): (r: Result<seq<Row>>)
    requires |yActual| == |yPred|
    ensures r.Ok? <==> |patientId| == |yActual|
    ensures r.Failure? ==> r.error == LengthMismatch
    ensures r.Ok? ==> |r.value| == |patientId| && forall i :: 0 <= i < |r.value| ==>
      && r.value[i].Keys == RecordKeys
      && r.value[i]["patient_id"] == patientId[i]
      && r.value[i]["readmitted"] == yActual[i]
      && r.value[i]["predicted_readmitted"] == yPred[i]
  {
    if |patientId| != |yActual| then Failure(LengthMismatch)
    else Ok(seq(|patientId|, i requires 0 <= i < |patientId| =>
      map["patient_id" := patientId[i], "readmitted" := yActual[i], "predicted_readmitted" := yPred[i]]))
  }

  /** Records can be assembled exactly when cleaning dropped no row, that is when no raw row has an invalid gender. */
  lemma AssemblyNeedsEveryRow(raw: Table, yPred: seq<Cell>)
    requires WellFormed(raw) && CleanData(raw).Ok?
    requires |yPred| == |CleanData(raw).value.rows|
    ensures AssembleRecords(Column(raw, "patient_nbr"), Column(CleanData(raw).value, "readmitted"), yPred).Ok?
      <==> forall i :: 0 <= i < |raw.rows| ==> ValidGender(raw.rows[i])
  {
    CleanDataShape(raw);
    if forall i :: 0 <= i < |raw.rows| ==> ValidGender(raw.rows[i]) {
      WhereKeepsAll(raw.rows, ValidGender);
    } else {
      var k :| 0 <= k < |raw.rows| && !ValidGender(raw.rows[k]);
      WhereDropsRejected(raw.rows, ValidGender, k);
    }
  }

  /** `DiabetesReadmissionPredictor`: the input file and the model directory. */
  class Predictor {
    const filename: string
    const modelDir: string

    constructor(filename: string, modelDir: string)
      ensures this.filename == filename && this.modelDir == modelDir
    {
      this.filename := filename;
      this.modelDir := modelDir;
    }

    /**
      `merge_or_save_new_data`: read the input file (raising when it does not
      exist), merge it into the stored new-data file or start that file, and
      write the result back.
    */
    method MergeOrSaveNewData(fs: FileStore) returns (o: Outcome)
      modifies fs
      ensures o.Pass? <==> filename in old(fs.files)
      ensures o.Fail? ==> o.error == FileNotFound(filename) && fs.files == old(fs.files)
      ensures o.Pass? ==> fs.files == MergeInto(old(fs.files), filename, NewDataPath(modelDir))
    {
      var newDataPath := Join(Join(Dirname(Dirname(modelDir)), "new_data"), "new_data.csv");
      if filename !in fs.files {
        return Fail(FileNotFound(filename));
      }
      var newDataDf := fs.files[filename];
      var combinedDf: Table;
      if newDataPath in fs.files {
        combinedDf := ConcatRows(fs.files[newDataPath], newDataDf);
      } else {
        combinedDf := newDataDf;
      }
      combinedDf := Table(combinedDf.columns, Dedup(combinedDf.rows));
      fs.files := fs.files[newDataPath := combinedDf];
      o := Pass;
    }

    /**
      `prediction_diabetes_readmission`: the raw ids, the cleaned frame, the
      merge of the input into the stored file, the predictions of the model on
      the cleaned features, and one record per row.
    */
    method PredictionDiabetesReadmission(fs: FileStore, predict: Table -> seq<Cell>) returns (r: Result<seq<Row>>)
      requires filename in fs.files ==> WellFormed(fs.files[filename])
      requires forall t :: |predict(t)| == |t.rows|
      modifies fs
      ensures filename !in old(fs.files) ==> r == Failure(FileNotFound(filename)) && fs.files == old(fs.files)
      ensures filename in old(fs.files) && "patient_nbr" !in old(fs.files)[filename].columns ==>
        r == Failure(MissingColumn("patient_nbr")) && fs.files == old(fs.files)
      ensures filename in old(fs.files) && "patient_nbr" in old(fs.files)[filename].columns ==>
        var raw := old(fs.files)[filename];
        && (CleanData(raw).Failure? ==> r == Failure(CleanData(raw).error) && fs.files == old(fs.files))
        && (CleanData(raw).Ok? ==>
              && "readmitted" in CleanData(raw).value.columns
              && fs.files == MergeInto(old(fs.files), filename, NewDataPath(modelDir))
              && r == AssembleRecords(Column(raw, "patient_nbr"), Column(CleanData(raw).value, "readmitted"),
                                      predict(DropColumns(CleanData(raw).value, ["readmitted"]).value)))
    {
      if filename !in fs.files {
        return Failure(FileNotFound(filename));
      }
      var originalDf := fs.files[filename];
      if "patient_nbr" !in originalDf.columns {
        return Failure(MissingColumn("patient_nbr"));
      }
      var patientId := Column(originalDf, "patient_nbr");
      var cleanObj := new Cleaner(originalDf);
      var cleaned := cleanObj.CleanData();
      if cleaned.Failure? {
        return Failure(cleaned.error);
      }
      var cleanDf := cleaned.value;
      var o := MergeOrSaveNewData(fs);
      CleanDataKeepsTarget(originalDf);
      var yActual := Column(cleanDf, "readmitted");
      var xNew := DropColumns(cleanDf, ["readmitted"]).value;
      var yPred := predict(xNew);
      r := AssembleRecords(patientId, yActual, yPred);
    }
  }
}
