# Hospital readmission pipeline: cleaning, feature selection, monitoring and prediction

This project models the core of the MediWatch diabetes-readmission pipeline and proves properties of it in Dafny:

- **Cleaning** (`clean.py`): the `clean` class holds a data frame and rewrites it in place. It replaces "?" with a missing value and drops three sparse columns. It collapses the readmission target to 0/1 and drops rows whose gender is "Unknown/Invalid". It maps age buckets and three identifier columns through code tables, fills every column that has a missing cell with that column's mode, and label-encodes the object columns. Finally it drops the two identifier columns.
- **Feature selection** (`common.py`): the numeric and the categorical columns of a frame, minus an exclusion list.
- **Monitoring helpers** (`utils.py`, `tests_reports.py`):
  - the comparison of two frames' feature structure;
  - the reference frame, which is the cleaned training data with the target copied into `Predicted_readmitted`;
  - the column mapping, the per-test pass/fail summary and the retrain decision;
  - the patient-id-to-prediction map that adds a prediction column to the new data.
- **Prediction** (`predict.py`): the stored new-data file that every input batch is merged into, with the rows concatenated and exact duplicates removed. Also the prediction records, each pairing a raw patient id with its actual and predicted readmission.

How the model is built:

- A data frame is a `Table`: an ordered list of column labels and a list of rows, each row a map from label to `Cell`. A cell is `Missing` (NaN), `Num` or `Str`.
- A column is categorical (object dtype) when some row holds a string in it. Otherwise it is numeric.
- pandas, scikit-learn and file-system exceptions become `Failure` values of a `Result`, or `Fail` values of an `Outcome` for methods that return nothing in the source. The ones modelled are a missing column label, an empty mode, a column LabelEncoder cannot sort, a length mismatch and a missing file.
- The files the prediction job reads and writes are a `FileStore` object: a map from path to frame, updated in place.
- The model and scaler loaded with joblib are an opaque function parameter that returns one prediction per row.
- `clean` is a class (`Clean.Cleaner`) whose methods reassign its `df` field. Each method is proved equal to the step function of module `Steps`, and the properties of the pipeline are proved about those functions. The fill loop and the label-encoding loop are `while` loops with invariants, as in the source.
- `get_test_summary` is a loop as well. `merge_or_save_new_data` updates the file store in place.

The prediction job can only assemble its records when cleaning dropped no row. The patient ids come from the raw frame, but the actual and predicted values come from the cleaned frame. pandas aligns the Series on their index labels and then finds the prediction array shorter than that index. `Predict.AssemblyNeedsEveryRow` proves this: records can be assembled exactly when no raw row has an invalid gender.

## Model

| member | source | states |
|---|---|---|
| Frame.Column | continuous_training/airflow_local/src/data_cleaning/clean.py:193 | `df[c]` has one cell per row, and cell i is row i's value in column c |
| Frame.Where | continuous_training/airflow_local/src/data_cleaning/common.py:49 | a filtered list keeps exactly the elements that are in the input and pass the test, and is no longer than the input |
| Frame.WhereCounts | continuous_training/airflow_local/src/data_cleaning/common.py:49 | a filtered list keeps every copy of an element that passes the test and no copy of one that fails |
| Frame.WhereIsSubsequence | continuous_training/airflow_local/src/data_cleaning/common.py:49 | a list comprehension with a condition keeps the order of what it keeps |
| Frame.NumericColumns | continuous_training/airflow_local/src/data_cleaning/clean.py:145 | `select_dtypes(np.number)` gives exactly the columns holding no string, in frame order and without repeats |
| Frame.CategoricalColumns | continuous_training/airflow_local/src/data_cleaning/clean.py:144 | `select_dtypes('O')` gives exactly the columns holding a string, in frame order and without repeats |
| Frame.MapCells | continuous_training/airflow_local/src/data_cleaning/clean.py:164 | a frame-wide `replace` keeps the columns and the row count, and passes every cell through the replacement |
| Frame.MapColumn | continuous_training/airflow_local/src/data_cleaning/clean.py:68 | replacing in one column changes only that column's cells; every other cell is kept |
| Frame.SetColumn | continuous_training/airflow_local/src/lib/utils.py:45 | column assignment overwrites an existing column or appends a new last one, leaves every other cell as it was, and keeps the frame rectangular |
| Frame.DropColumns | continuous_training/airflow_local/src/data_cleaning/clean.py:50-51 | `drop(axis=1)` raises for a label that is not a column; otherwise it keeps exactly the other columns, in order, with their cells |
| Frame.SelectColumns | continuous_training/airflow_local/src/data_cleaning/clean.py:144-145 | selecting columns keeps their cells and reads every other label as absent |
| Frame.ConcatColumns | continuous_training/airflow_local/src/data_cleaning/clean.py:150 | `concat(axis=1)` of two frames with the same rows puts the first frame's columns before the second's and takes each cell from the frame holding it |
| Frame.FilterRows | continuous_training/airflow_local/src/data_cleaning/clean.py:173 | dropping rows by a condition keeps the columns and exactly the rows that pass, in order and with every duplicate (the rows are the filtered list, see Frame.WhereCounts) |
| Statistics.ModeCharacterized | continuous_training/airflow_local/src/data_cleaning/clean.py:193 | `mode()[0]` is the most frequent non-missing value, and the smallest of the equally frequent ones: the computed mode agrees with that definition on every column |
| Statistics.ModeExists | continuous_training/airflow_local/src/data_cleaning/clean.py:193 | a column has a mode exactly when it holds a non-missing value |
| LabelEncoder.FitTransform | continuous_training/airflow_local/src/data_cleaning/clean.py:149 | `fit_transform` raises on a column that mixes numbers with strings; otherwise it gives one numeric code per cell |
| LabelEncoder.CodeInRange | continuous_training/airflow_local/src/data_cleaning/clean.py:149 | every code lies between 0 and the number of distinct values minus one |
| LabelEncoder.CodeInjectiveAndOrdered | continuous_training/airflow_local/src/data_cleaning/clean.py:149 | two values get the same code exactly when they are equal, and strings get codes in their sorted order |
| CodeTables.ReadmittedCollapses | continuous_training/airflow_local/src/data_cleaning/clean.py:61-63 | "NO" and ">30" become 0, "<30" becomes 1, every other cell is unchanged |
| CodeTables.AgeTableIsBucketMidpoints | continuous_training/airflow_local/src/data_cleaning/clean.py:68-77 | the age table maps each of the ten buckets "[10k-10k+10)" to its midpoint 10k+5 |
| CodeTables.AgeMidpointOfBucket | continuous_training/airflow_local/src/data_cleaning/clean.py:68-77 | a cell the age table changes is one of the ten buckets and becomes that bucket's midpoint |
| CodeTables.AdmissionTypeCodes | continuous_training/airflow_local/src/data_cleaning/clean.py:93-102 | codes 1 and 2 become Emergency, 3 Elective, 4 New Born and 7 Trauma Center; 5, 6 and 8 become missing; everything else is unchanged |
| CodeTables.DischargeCodesCovered | continuous_training/airflow_local/src/data_cleaning/clean.py:106-120 | every discharge code from 1 to 30 becomes "Discharged to Home", "Other" or missing; any other cell is unchanged |
| CodeTables.AdmissionSourceCodes | continuous_training/airflow_local/src/data_cleaning/clean.py:124-129 | source codes 12, 16, 18, 19, 23, 24 and 26 have no entry and stay numeric; the other codes from 1 to 25 become Referral, Other, Emergency or missing |
| CodeTables.TablesNeverGiveUnknown | continuous_training/airflow_local/src/data_cleaning/clean.py:61-129 | no code table turns a cell into the placeholder "?" |
| Common.GetNumericFeatures | continuous_training/airflow_local/src/data_cleaning/common.py:46-50 | the result is exactly the numeric columns whose names are not excluded |
| Common.GetCategoricalFeatures | continuous_training/airflow_local/src/data_cleaning/common.py:52-56 | the result is exactly the categorical columns whose names are not excluded |
| Common.FeaturesAreSubsequences | continuous_training/airflow_local/src/data_cleaning/common.py:46-56 | both selections keep the frame's column order |
| Common.NoExclusionGivesAll | continuous_training/airflow_local/src/data_cleaning/common.py:48 | an exclusion list that is None or empty gives the full list of each kind |
| Common.ExcludingOtherNamesChangesNothing | continuous_training/airflow_local/src/data_cleaning/common.py:48-49 | excluding names that are not columns of that kind changes nothing |
| Common.KindsAreDisjoint | continuous_training/airflow_local/src/data_cleaning/common.py:47-53 | no column is both numeric and categorical |
| Common.KindsCoverColumns | continuous_training/airflow_local/src/data_cleaning/common.py:47-53 | every column that is not excluded is numeric or categorical |
| Steps.ReplaceUnknown | continuous_training/airflow_local/src/data_cleaning/clean.py:164 | "?" cells become missing and every other cell is kept, so no "?" is left |
| Steps.CollapseReadmitted | continuous_training/airflow_local/src/data_cleaning/clean.py:54-64 | the labels are recoded in every column; the step raises exactly when there is no `readmitted` column |
| Steps.DropInvalidGender | continuous_training/airflow_local/src/data_cleaning/clean.py:173 | raises without a `gender` column; otherwise its rows are the filtered list of the rows whose gender is not "Unknown/Invalid": in order, every copy of such a row kept |
| Steps.CollapseColumn | continuous_training/airflow_local/src/data_cleaning/clean.py:66-129 | a per-column replace raises exactly when the column is absent, and changes only that column |
| Steps.MissingColumns | continuous_training/airflow_local/src/data_cleaning/clean.py:188 | the listed columns are exactly those holding a missing cell, without repeats |
| Steps.FillColumn | continuous_training/airflow_local/src/data_cleaning/clean.py:193 | `fillna(m)` on one column fills its missing cells with m and changes nothing else |
| Steps.FillMissingColumns | continuous_training/airflow_local/src/data_cleaning/clean.py:190-193 | the fill loop keeps the columns and row count, and fails only with an empty mode of a listed column |
| Steps.EncodeColumns | continuous_training/airflow_local/src/data_cleaning/clean.py:148-149 | the encoding loop keeps the row count and the columns, and fails only on a listed column mixing numbers and strings |
| Steps.LabelEncode | continuous_training/airflow_local/src/data_cleaning/clean.py:131-151 | the result has the numeric columns first and then the encoded object columns; it fails only with mixed types |
| Steps.PrepareRows | continuous_training/airflow_local/src/data_cleaning/clean.py:164-173 | the row stage succeeds exactly when the three dropped columns, `readmitted` and `gender` exist, and keeps exactly the other columns |
| Steps.CollapseCodes | continuous_training/airflow_local/src/data_cleaning/clean.py:176-185 | the four code tables succeed exactly when the four columns exist, and change no other column |
| Steps.ReplaceReadmittedLabels | continuous_training/airflow_local/src/data_cleaning/clean.py:61-63 | the frame-wide replace keeps the columns and row count and passes every cell of every column through the readmission table, whose meaning CodeTables.ReadmittedCollapses states |
| Steps.CollapseAgeGroups | continuous_training/airflow_local/src/data_cleaning/clean.py:66-77 | raises exactly when there is no `age` column; otherwise maps only that column through the age table (CodeTables.AgeMidpointOfBucket) |
| Steps.CollapseAdmissionId | continuous_training/airflow_local/src/data_cleaning/clean.py:79-102 | raises exactly when there is no `admission_type_id` column; otherwise maps only that column through its table (CodeTables.AdmissionTypeCodes) |
| Steps.CollapseDischargeDispositionId | continuous_training/airflow_local/src/data_cleaning/clean.py:104-120 | raises exactly when there is no `discharge_disposition_id` column; otherwise maps only that column through its table (CodeTables.DischargeCodesCovered) |
| Steps.CollapseAdmissionSourceId | continuous_training/airflow_local/src/data_cleaning/clean.py:122-129 | raises exactly when there is no `admission_source_id` column; otherwise maps only that column through its table (CodeTables.AdmissionSourceCodes) |
| Steps.FillMissing | continuous_training/airflow_local/src/data_cleaning/clean.py:188-193 | the fill keeps the columns and row count, and raises only an empty mode of a column that has a missing cell; Steps.FillMissingMeaning gives its full meaning |
| Steps.Prepare | continuous_training/airflow_local/src/data_cleaning/clean.py:164-193 | the stages up to the fill raise only a missing column or an empty mode, and keep exactly the raw columns less the first three dropped; Steps.PrepareFacts gives the rest |
| Steps.CleanData | continuous_training/airflow_local/src/data_cleaning/clean.py:154-207 | the reference definition of `clean_data`: it raises only a missing column, an empty mode or a label-encoding type error; its shape, types and target are stated by the Steps.CleanData* lemmas |
| Steps.ReadmittedBecomesBinary | continuous_training/airflow_local/src/data_cleaning/clean.py:54-63 | a target holding only the three labels becomes 0/1, with 1 exactly for "<30" |
| Steps.FillMissingColumnsMeaning | continuous_training/airflow_local/src/data_cleaning/clean.py:192-193 | the fill loop succeeds exactly when every listed column has a mode; then every listed column has its gaps filled with its own mode |
| Steps.FillFailsOnlyOnAllMissing | continuous_training/airflow_local/src/data_cleaning/clean.py:188-193 | every column with a gap has a mode exactly when no column is entirely missing |
| Steps.FillMissingMeaning | continuous_training/airflow_local/src/data_cleaning/clean.py:188-193 | the fill succeeds unless a column is entirely missing; then each gap holds its column's mode, other cells are kept, and no gap remains |
| Steps.EncodeColumnsMeaning | continuous_training/airflow_local/src/data_cleaning/clean.py:148-149 | the loop succeeds exactly when no listed column holds a number; then each listed column is replaced by its codes |
| Steps.LabelEncodeSucceeds | continuous_training/airflow_local/src/data_cleaning/clean.py:144-150 | `label_encode` fails exactly when an object column also holds a number |
| Steps.LabelEncodeCells | continuous_training/airflow_local/src/data_cleaning/clean.py:144-151 | object-column cells become their codes, numeric columns are kept, and the frame stays rectangular |
| Steps.LabelEncodeAllNumeric | continuous_training/airflow_local/src/data_cleaning/clean.py:131-151 | every column `label_encode` returns is numeric |
| Steps.EncodedColumnIsFitTransform | continuous_training/airflow_local/src/data_cleaning/clean.py:147-149 | each encoded column is what an encoder fitted on that column alone returns, even though one encoder is reused |
| Steps.CodesDependOnOwnColumn | continuous_training/airflow_local/src/data_cleaning/clean.py:148-149 | two frames with the same object column get the same codes for it |
| Steps.EncodedColumnCodes | continuous_training/airflow_local/src/data_cleaning/clean.py:149 | encoded cells are numbers between 0 and the number of distinct values minus one, equal exactly for equal values, ordered as the strings |
| Steps.GenderSurvivesRowSteps | continuous_training/airflow_local/src/data_cleaning/clean.py:164-170 | the replace, the drop and the target collapse do not change whether a row's gender is valid |
| Steps.PrepareRowsKeepsValidGender | continuous_training/airflow_local/src/data_cleaning/clean.py:164-173 | the row stage keeps one row per raw row of valid gender, and none of invalid gender |
| Steps.PrepareRowsNoUnknown | continuous_training/airflow_local/src/data_cleaning/clean.py:164-173 | after the row stage no cell is "?" and the frame is rectangular |
| Steps.CollapseCodesKeepsNoUnknown | continuous_training/airflow_local/src/data_cleaning/clean.py:176-185 | the code tables bring no "?" back |
| Steps.FillKeepsNoUnknown | continuous_training/airflow_local/src/data_cleaning/clean.py:188-193 | filling with modes brings no "?" back |
| Steps.PrepareFacts | continuous_training/airflow_local/src/data_cleaning/clean.py:164-193 | after the fill: rectangular, the raw columns less the first three dropped, one row per valid-gender raw row, no "?" and no missing cell |
| Steps.MissingColumnIsReported | continuous_training/airflow_local/src/data_cleaning/clean.py:164-185 | an absent column that the steps before the fill name makes cleaning raise a missing-column error |
| Steps.CleanDataNeedsColumns | continuous_training/airflow_local/src/data_cleaning/clean.py:154-199 | cleaning succeeds only when every column it names is present |
| Steps.CleanDataShape | continuous_training/airflow_local/src/data_cleaning/clean.py:154-207 | the cleaned frame has the raw columns less the five dropped ones, and one row per raw row of valid gender |
| Steps.CleanDataAllNumeric | continuous_training/airflow_local/src/data_cleaning/clean.py:196-199 | the cleaned frame is rectangular and every column is numeric |
| Steps.CleanDataKeepsTarget | continuous_training/airflow_local/src/data_cleaning/clean.py:154-207 | a successful cleaning always keeps the `readmitted` column |
| Clean.Cleaner.constructor | continuous_training/airflow_local/src/data_cleaning/clean.py:45-47 | the object holds the frame read from the file |
| Clean.Cleaner.DropFeature | continuous_training/airflow_local/src/data_cleaning/clean.py:50-51 | the frame becomes the frame without the named columns, or stays as it was when the drop raises |
| Clean.Cleaner.CollapseReadmitted | continuous_training/airflow_local/src/data_cleaning/clean.py:54-64 | the frame is recoded first, then the method raises exactly when `readmitted` is absent |
| Clean.Cleaner.CollapseAgeGroups | continuous_training/airflow_local/src/data_cleaning/clean.py:66-77 | the age column is replaced through the age table, or the frame is kept when the column is absent |
| Clean.Cleaner.CollapseAdmissionId | continuous_training/airflow_local/src/data_cleaning/clean.py:79-102 | the admission type column is replaced through its table, or the frame is kept when the column is absent |
| Clean.Cleaner.CollapseDischargeDispositionId | continuous_training/airflow_local/src/data_cleaning/clean.py:104-120 | the discharge column is replaced through its table, or the frame is kept when the column is absent |
| Clean.Cleaner.CollapseAdmissionSourceId | continuous_training/airflow_local/src/data_cleaning/clean.py:122-129 | the admission source column is replaced through its table, or the frame is kept when the column is absent |
| Clean.Cleaner.LabelEncode | continuous_training/airflow_local/src/data_cleaning/clean.py:131-151 | the loop over the object columns computes the encoding without changing the frame; it fails only on an object column with mixed types, and otherwise every result column is numeric |
| Clean.Cleaner.PrepareRowsInPlace | continuous_training/airflow_local/src/data_cleaning/clean.py:164-173 | the frame goes through the replace, the first drop, the target collapse and the gender filter, and stays rectangular |
| Clean.Cleaner.CollapseCodesInPlace | continuous_training/airflow_local/src/data_cleaning/clean.py:176-185 | the frame goes through the four code tables in order |
| Clean.Cleaner.FillMissingInPlace | continuous_training/airflow_local/src/data_cleaning/clean.py:188-193 | the loop fills each column with a gap with its current mode, and fails on an empty mode |
| Clean.Cleaner.PrepareInPlace | continuous_training/airflow_local/src/data_cleaning/clean.py:164-193 | the frame goes through every step up to and including the fill |
| Clean.Cleaner.CleanData | continuous_training/airflow_local/src/data_cleaning/clean.py:154-207 | the method returns the pipeline's result for the initial frame, and on success leaves the frame holding it |
| Utils.CompareDataframeFeatures | continuous_training/airflow_local/src/lib/utils.py:85-128 | the result is True exactly when both frames have the same columns and every column has the same kind in both |
| Utils.CompareSymmetric | continuous_training/airflow_local/src/lib/utils.py:85-128 | swapping the two frames does not change the verdict |
| Utils.CompareReflexive | continuous_training/airflow_local/src/lib/utils.py:85-128 | a frame always matches its own feature structure |
| Utils.CompareIgnoresColumnOrder | continuous_training/airflow_local/src/lib/utils.py:87-96 | only sets are compared, so reordering the columns changes nothing |
| Utils.DifferentSplitFails | continuous_training/airflow_local/src/lib/utils.py:107-128 | the same columns with one column numeric in one frame and categorical in the other give False |
| Utils.CopyTarget | continuous_training/airflow_local/src/lib/utils.py:45 | `Predicted_readmitted` holds each row's target, and every other cell is kept |
| Utils.GetReferenceData | continuous_training/airflow_local/src/lib/utils.py:34-49 | no path or an empty path gives None; otherwise the cleaned frame with the target copied, or the cleaning error |
| TestsReports.GetTestSummary | monitoring-dashboard/mediwatch/tests_reports.py:58-69 | one flag per test result, in order, True exactly for status "SUCCESS" |
| TestsReports.All | monitoring-dashboard/mediwatch/tests_reports.py:160 | `all` is True exactly when every flag is True |
| TestsReports.ShouldRetrain | monitoring-dashboard/mediwatch/tests_reports.py:160-165 | retraining is triggered exactly when some flag is False |
| TestsReports.RetrainDecision | monitoring-dashboard/mediwatch/tests_reports.py:155-165 | retraining is triggered exactly when some test's status is not "SUCCESS" |
| TestsReports.CreateColumnMapping | monitoring-dashboard/mediwatch/tests_reports.py:45-56 | target and prediction are the given names; the feature lists are the numeric and the categorical columns without those two, in frame order |
| TestsReports.PredictionMap | monitoring-dashboard/mediwatch/tests_reports.py:89 | the comprehension raises exactly when a record lacks a key; otherwise its keys are exactly the records' patient ids |
| TestsReports.PredictionMapLastWins | monitoring-dashboard/mediwatch/tests_reports.py:89 | a repeated patient id keeps the prediction of its last record |
| TestsReports.RecordsMapToPredictions | monitoring-dashboard/mediwatch/tests_reports.py:89 | the prediction records always give a map, and each patient id maps to the prediction of its last row |
| TestsReports.Lookup | monitoring-dashboard/mediwatch/tests_reports.py:92 | `Series.map` with a dict gives the mapped prediction for a known patient id and NaN for an unknown one |
| TestsReports.AddPredictions | monitoring-dashboard/mediwatch/tests_reports.py:92 | each row gets its patient's prediction, or missing when the patient has none; other cells are kept; there is an error without `patient_nbr` |
| Paths.LastSep | continuous_training/airflow_local/src/model_inference/predict.py:19 | the split point lies just after a '/', and no '/' follows it |
| Paths.RStripSlashes | continuous_training/airflow_local/src/model_inference/predict.py:19 | stripping trailing slashes leaves a prefix that does not end in '/', and removes only slashes |
| Paths.Dirname | continuous_training/airflow_local/src/model_inference/predict.py:19 | `dirname` gives a prefix of the path that is empty exactly when the path has no '/'; a head before the last '/' made only of slashes is returned whole; otherwise the result ends in a non-slash and only slashes lie between it and the last '/' |
| Paths.Join | continuous_training/airflow_local/src/model_inference/predict.py:19-20 | `join` returns an absolute second part unchanged, and otherwise extends the first part |
| Paths.DirnameOfJoin | continuous_training/airflow_local/src/model_inference/predict.py:19-20 | `dirname` of a directory joined with a plain name gives the directory back |
| Paths.JoinPlain | continuous_training/airflow_local/src/model_inference/predict.py:19-20 | joining a relative name adds one '/' unless the first part is empty or already ends with '/' |
| Predict.NewDataPath | continuous_training/airflow_local/src/model_inference/predict.py:19-20 | the stored file's path starts with the model directory's grandparent; Predict.NewDataPathShape gives its exact form |
| Predict.NewDataPathShape | continuous_training/airflow_local/src/model_inference/predict.py:19-20 | the stored file is `new_data/new_data.csv` under the model directory's grandparent, with no doubled separator |
| Predict.NewDataDirIsGrandparent | continuous_training/airflow_local/src/model_inference/predict.py:19 | that grandparent is a prefix of the model directory, and it is the `dirname` of the new-data directory |
| Predict.UnionColumns | continuous_training/airflow_local/src/model_inference/predict.py:31 | `concat` column order: the first frame's columns come first; the result has every column of either frame, without repeats; it is the first list itself when it already has all columns |
| Predict.Pad | continuous_training/airflow_local/src/model_inference/predict.py:31 | a concatenated row is defined on the union of the columns; the columns it lacked read as missing |
| Predict.ConcatRows | continuous_training/airflow_local/src/model_inference/predict.py:31 | row `concat` puts the first frame's rows before the second's over the union of the columns, and the result is rectangular |
| Predict.Dedup | continuous_training/airflow_local/src/model_inference/predict.py:39 | `drop_duplicates` keeps every distinct row once, and nothing else |
| Predict.DedupPrefix | continuous_training/airflow_local/src/model_inference/predict.py:39 | rows appended later do not disturb the deduplicated earlier rows, so the first occurrence is kept |
| Predict.DedupOfDistinct | continuous_training/airflow_local/src/model_inference/predict.py:39 | a list without duplicates is unchanged |
| Predict.DedupAppendKnown | continuous_training/airflow_local/src/model_inference/predict.py:31-39 | appending rows that are already present changes nothing after deduplication |
| Predict.MergedContent | continuous_training/airflow_local/src/model_inference/predict.py:28-39 | the stored content has no duplicates and holds exactly the existing and the incoming rows over the union of the columns; its rows are the first occurrences of the existing rows followed by the incoming rows, in that order; it is rectangular |
| Predict.MergedStartsWithExisting | continuous_training/airflow_local/src/model_inference/predict.py:31-39 | the stored rows come first, deduplicated, then the new ones |
| Predict.FirstSaveIsIncoming | continuous_training/airflow_local/src/model_inference/predict.py:33-39 | a first save of incoming rows without duplicates stores exactly those rows |
| Predict.MergeIdempotent | continuous_training/airflow_local/src/model_inference/predict.py:28-42 | merging the same input again leaves the stored content unchanged |
| Predict.MergeInto | continuous_training/airflow_local/src/model_inference/predict.py:42 | the stored file becomes the merged content of what was stored there and the input file; every other file is kept |
| Predict.MergeIntoTwice | continuous_training/airflow_local/src/model_inference/predict.py:17-43 | running the merge twice on the same input leaves the files as after the first run |
| Predict.AssembleRecords | continuous_training/airflow_local/src/model_inference/predict.py:88-95 | the records are built exactly when ids and values have equal lengths, otherwise pandas raises; record i has exactly the three keys, holding the i-th id, actual value and prediction |
| Predict.AssemblyNeedsEveryRow | continuous_training/airflow_local/src/model_inference/predict.py:64-95 | records can be assembled exactly when cleaning dropped no raw row, that is when no row has an invalid gender |
| Predict.Predictor.constructor | continuous_training/airflow_local/src/model_inference/predict.py:12-14 | the predictor holds the input file and the model directory |
| Predict.Predictor.MergeOrSaveNewData | continuous_training/airflow_local/src/model_inference/predict.py:17-43 | fails with file-not-found, changing nothing, when the input is absent; otherwise the stored file becomes the merged content and no other file changes |
| Predict.Predictor.PredictionDiabetesReadmission | continuous_training/airflow_local/src/model_inference/predict.py:45-97 | file-not-found, a missing `patient_nbr` or a cleaning error is reported in that order; none of these three writes a file; otherwise the store is merged and the records pair raw ids with the cleaned target and the predictions |

## Left out

- CSV reading and writing (`read_csv`, `to_csv`) and pandas' dtype inference: frames and files are given as typed tables.
- Logging and `print` output, and `os.makedirs`: these have no effect on the data.
- Floating point: numbers are integers. The float keys 1.0 to 8.0 of the admission-type table are read as the integer codes they match.
- The Evidently report, the test suite and the workspace (`get_report`, `get_test_suite`, `Workspace`) are not modelled. Neither is the HTTP call that triggers retraining (`trigger_dag`), the JSON/CSV helpers of `utils.py`, nor `main`'s file handling. These are external services. The retrain decision is modelled as the boolean `main` acts on.
- The joblib model and scaler: an opaque function that returns one prediction per row.
- Predict.Predictor.PredictionDiabetesReadmission: it returns the list of records rather than the wrapper `[{"Hospital Readmission Prediction": records}]`. The `if` at line 85 of tests_reports.py always finds that key, so it is not modelled.
- Predict.AssembleRecords: pandas aligns the three columns on their row index. The model compares lengths instead. This agrees with pandas here because cleaning only removes rows and never renumbers them.
- TestsReports.PredictionMap: a missing patient id is one dictionary key. In Python each NaN is its own key.
- Statistics.Mode: on a column mixing numbers and strings, the order of tied modes depends on the pandas version. Older versions warn that the values cannot be sorted and leave them unsorted; newer ones put numbers before strings. The model always breaks ties with numbers before strings.
- Clean.Cleaner.PrepareRowsInPlace: after a failing step the frame is only promised to stay rectangular, not its contents. The exception leaves `clean_data`, and no caller uses the object afterwards.
- Clean.Cleaner.CollapseCodesInPlace: after a failing step the frame is only promised to stay rectangular, not its contents. The exception leaves `clean_data`, and no caller uses the object afterwards.
- Clean.Cleaner.FillMissingInPlace: after a failing step the frame is only promised to stay rectangular, not its contents. The exception leaves `clean_data`, and no caller uses the object afterwards.
- Clean.Cleaner.PrepareInPlace: after a failing step the frame is only promised to stay rectangular, not its contents. The exception leaves `clean_data`, and no caller uses the object afterwards.
- Clean.Cleaner.CleanData: after a failing step the frame is only promised to stay rectangular, not its contents. The exception leaves `clean_data`, and no caller uses the object afterwards.
- TestsReports.GetTestSummary: a test result always has a status, as Evidently's result dictionaries always carry the `status` key; the KeyError of a result without one is not modelled.
- Column kinds follow pandas 2.x (up to 2.2), where `replace` turns an object column whose strings all became integers into an integer column. So `age` and `readmitted` become numeric after their code tables. Under pandas 3, which no longer downcasts, `age` would stay an object column and be label-encoded to 0..9 instead of 5..95; the model does not follow that version.
- Frame.IsCategorical: a column with no rows counts as numeric. pandas keeps the dtype the CSV header gave it.
- Utils.GetReferenceData: the training frame is a parameter. Reading it from the path is CSV input.
- The `src/` copies of the prediction and utility modules, `train.py`, `clientApp.py`, the DAG and the Streamlit test are not part of this model.
