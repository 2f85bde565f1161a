/**
  Column selection by kind (common.py): the numeric or the categorical columns
  of a frame, in frame order, without the names listed in `col_exclude`.  A
  `col_exclude` of None or an empty list excludes nothing.
*/
module Common {
  import opened Results
  import opened Frame

  /** The names a `col_exclude` argument removes; None and the empty list remove nothing. */
  predicate Excluded(colExclude: Option<seq<string>>, c: string) {
    colExclude.Some? && c in colExclude.value
  }

  function ExcludeNames(cols: seq<string>, colExclude: Option<seq<string>>): seq<string> {
    if colExclude.Some? && colExclude.value != [] then Where(cols, c => c !in colExclude.value) else cols
  }

  /** `get_numeric_features`: the numeric columns of the frame, in order, minus the excluded names. */
  function GetNumericFeatures(data: Table, colExclude: Option<seq<string>>): (r: seq<string>)
    ensures forall c :: c in r <==> c in data.columns && !IsCategorical(data, c) && !Excluded(colExclude, c)
  {
    ExcludeNames(NumericColumns(data), colExclude)
  }

  /** `get_categorical_features`: the categorical columns of the frame, in order, minus the excluded names. */
  function GetCategoricalFeatures(data: Table, colExclude: Option<seq<string>>): (r: seq<string>)
    ensures forall c :: c in r <==> c in data.columns && IsCategorical(data, c) && !Excluded(colExclude, c)
  {
    ExcludeNames(CategoricalColumns(data), colExclude)
  }

  /** Both selections keep the frame's column order: each is a subsequence of the columns. */
  lemma FeaturesAreSubsequences(data: Table, colExclude: Option<seq<string>>)
    ensures SubsequenceOf(GetNumericFeatures(data, colExclude), data.columns)
    ensures SubsequenceOf(GetCategoricalFeatures(data, colExclude), data.columns)
  {
    var num, cat := NumericColumns(data), CategoricalColumns(data);
    if colExclude.Some? && colExclude.value != [] {
      WhereIsSubsequence(num, c => c !in colExclude.value);
      WhereIsSubsequence(cat, c => c !in colExclude.value);
      SubsequenceTransitive(GetNumericFeatures(data, colExclude), num, data.columns);
      SubsequenceTransitive(GetCategoricalFeatures(data, colExclude), cat, data.columns);
    }
  }

  /** Without an exclusion list, the full list of each kind comes back. */
  lemma NoExclusionGivesAll(data: Table, colExclude: Option<seq<string>>)
    requires colExclude.None? || colExclude == Some([])
    ensures GetNumericFeatures(data, colExclude) == NumericColumns(data)
    ensures GetCategoricalFeatures(data, colExclude) == CategoricalColumns(data)
  {
  }

  /** Excluding names that are not columns of that kind changes nothing. */
  lemma ExcludingOtherNamesChangesNothing(data: Table, names: seq<string>)
    ensures (forall n :: n in names ==> n !in NumericColumns(data)) ==>
      GetNumericFeatures(data, Some(names)) == NumericColumns(data)
    ensures (forall n :: n in names ==> n !in CategoricalColumns(data)) ==>
      GetCategoricalFeatures(data, Some(names)) == CategoricalColumns(data)
  {
    if names != [] {
      if forall n :: n in names ==> n !in NumericColumns(data) {
        WhereKeepsAll(NumericColumns(data), c => c !in names);
      }
      if forall n :: n in names ==> n !in CategoricalColumns(data) {
        WhereKeepsAll(CategoricalColumns(data), c => c !in names);
      }
    }
  }

  /** For one frame, no column is both numeric and categorical. */
  lemma KindsAreDisjoint(data: Table, ex1: Option<seq<string>>, ex2: Option<seq<string>>)
    ensures forall c :: !(c in GetNumericFeatures(data, ex1) && c in GetCategoricalFeatures(data, ex2))
  {
  }

  /** Together the two kinds cover every column that is not excluded. */
  lemma KindsCoverColumns(data: Table, colExclude: Option<seq<string>>)
    ensures forall c :: c in data.columns && !Excluded(colExclude, c) ==>
      c in GetNumericFeatures(data, colExclude) || c in GetCategoricalFeatures(data, colExclude)
  {
  }
}
