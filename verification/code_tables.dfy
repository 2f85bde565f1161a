/**
  The lookup tables of the cleaning step, written out as in the source, and
  what each table does to a single cell.  A cell whose value is not a key of a
  table is left as it is, as `replace` does.
*/
module CodeTables {
  import opened Frame

  /** Readmission labels (clean.py, collapse_readmitted). */
  const ReadmittedCodes: map<string, int> := map["NO" := 0, "<30" := 1, ">30" := 0]

  /** Age buckets to their midpoints (clean.py, collapse_age_groups). */
  const AgeMidpoints: map<string, int> := map[
    "[70-80)" := 75, "[60-70)" := 65, "[50-60)" := 55, "[80-90)" := 85, "[40-50)" := 45,
    "[30-40)" := 35, "[90-100)" := 95, "[20-30)" := 25, "[10-20)" := 15, "[0-10)" := 5]

  /** Admission type codes (clean.py, collapse_admission_id); the float keys 1.0 .. 8.0 match integer codes. */
  const AdmissionTypes: map<int, Cell> := map[
    1 := Str("Emergency"), 2 := Str("Emergency"), 3 := Str("Elective"), 4 := Str("New Born"),
    5 := Missing, 6 := Missing, 7 := Str("Trauma Center"), 8 := Missing]

  /** Discharge disposition codes (clean.py, collapse_discharge_disposition_id). */
  const DischargeDispositions: map<int, Cell> := map[
    1 := Str("Discharged to Home"), 6 := Str("Discharged to Home"), 8 := Str("Discharged to Home"),
    13 := Str("Discharged to Home"), 19 := Str("Discharged to Home"),
    18 := Missing, 25 := Missing, 26 := Missing,
    2 := Str("Other"), 3 := Str("Other"), 4 := Str("Other"), 5 := Str("Other"), 7 := Str("Other"),
    9 := Str("Other"), 10 := Str("Other"), 11 := Str("Other"), 12 := Str("Other"), 14 := Str("Other"),
    15 := Str("Other"), 16 := Str("Other"), 17 := Str("Other"), 20 := Str("Other"), 21 := Str("Other"),
    22 := Str("Other"), 23 := Str("Other"), 24 := Str("Other"), 27 := Str("Other"), 28 := Str("Other"),
    29 := Str("Other"), 30 := Str("Other")]

  /** Admission source codes (clean.py, collapse_admission_source_id). */
  const AdmissionSources: map<int, Cell> := map[
    1 := Str("Referral"), 2 := Str("Referral"), 3 := Str("Referral"),
    4 := Str("Other"), 5 := Str("Other"), 6 := Str("Other"), 10 := Str("Other"), 22 := Str("Other"),
    25 := Str("Other"), 9 := Str("Other"), 8 := Str("Other"), 14 := Str("Other"), 13 := Str("Other"),
    11 := Str("Other"),
    15 := Missing, 17 := Missing, 20 := Missing, 21 := Missing,
    7 := Str("Emergency")]

  function ReplaceString(table: map<string, int>, v: Cell): Cell {
    if v.Str? && v.s in table then Num(table[v.s]) else v
  }

  function ReplaceCode(table: map<int, Cell>, v: Cell): Cell {
    if v.Num? && v.n in table then table[v.n] else v
  }

  function ReadmittedCode(v: Cell): Cell { ReplaceString(ReadmittedCodes, v) }
  function AgeMidpoint(v: Cell): Cell { ReplaceString(AgeMidpoints, v) }
  function AdmissionType(v: Cell): Cell { ReplaceCode(AdmissionTypes, v) }
  function DischargeDisposition(v: Cell): Cell { ReplaceCode(DischargeDispositions, v) }
  function AdmissionSource(v: Cell): Cell { ReplaceCode(AdmissionSources, v) }

  /** "NO" and ">30" become 0, "<30" becomes 1, every other cell is kept. */
  lemma ReadmittedCollapses(v: Cell)
    ensures v == Str("NO") || v == Str(">30") ==> ReadmittedCode(v) == Num(0)
    ensures v == Str("<30") ==> ReadmittedCode(v) == Num(1)
    ensures v != Str("NO") && v != Str(">30") && v != Str("<30") ==> ReadmittedCode(v) == v
  {
  }

  /** Decimal rendering of a natural number, as Python's `str` of an int. */
  function DigitChar(d: nat): char
    requires d < 10
  {
    "0123456789"[d]
  }

  function NatToString(n: nat): string
    decreases n
  {
    if n < 10 then [DigitChar(n)] else NatToString(n / 10) + [DigitChar(n % 10)]
  }

  /** The k-th ten-year age bucket "[10k-10k+10)". */
  function AgeBucket(k: nat): string {
    "[" + NatToString(10 * k) + "-" + NatToString(10 * k + 10) + ")"
  }

  /** The ten buckets [0-10) .. [90-100), as the keys of the age table spell them. */
  const AgeBuckets: seq<string> :=
    ["[0-10)", "[10-20)", "[20-30)", "[30-40)", "[40-50)", "[50-60)", "[60-70)", "[70-80)", "[80-90)", "[90-100)"]

  lemma AgeBucketSpellingLow(k: nat)
    requires k < 5
    ensures AgeBucket(k) == AgeBuckets[k]
  {
    if k == 0 { assert AgeBucket(0) == "[0-10)"; }
    else if k == 1 { assert AgeBucket(1) == "[10-20)"; }
    else if k == 2 { assert AgeBucket(2) == "[20-30)"; }
    else if k == 3 { assert AgeBucket(3) == "[30-40)"; }
    else { assert AgeBucket(4) == "[40-50)"; }
  }

  lemma AgeBucketSpellingHigh(k: nat)
    requires 5 <= k < 10
    ensures AgeBucket(k) == AgeBuckets[k]
  {
    if k == 5 { assert AgeBucket(5) == "[50-60)"; }
    else if k == 6 { assert AgeBucket(6) == "[60-70)"; }
    else if k == 7 { assert AgeBucket(7) == "[70-80)"; }
    else if k == 8 { assert AgeBucket(8) == "[80-90)"; }
    else { assert AgeBucket(9) == "[90-100)"; }
  }

  /** The age table is exactly the ten buckets [0-10) .. [90-100), each sent to its midpoint 10k+5. */
  lemma AgeTableIsBucketMidpoints(k: nat)
    requires k < 10
    ensures AgeBucket(k) in AgeMidpoints && AgeMidpoints[AgeBucket(k)] == 10 * k + 5
  {
    if k < 5 { AgeBucketSpellingLow(k); } else { AgeBucketSpellingHigh(k); }
  }

  /** A cell the age table changes is a bucket, and becomes its midpoint, one of 5, 15, .., 95. */
  lemma AgeMidpointOfBucket(v: Cell)
    ensures AgeMidpoint(v) != v ==>
      v.Str? && exists k :: 0 <= k < 10 && v.s == AgeBucket(k) && AgeMidpoint(v) == Num(10 * k + 5)
  {
    if AgeMidpoint(v) != v {
      var s := v.s;
      var k: nat :=
        if s == "[0-10)" then 0 else if s == "[10-20)" then 1 else if s == "[20-30)" then 2
        else if s == "[30-40)" then 3 else if s == "[40-50)" then 4 else if s == "[50-60)" then 5
        else if s == "[60-70)" then 6 else if s == "[70-80)" then 7 else if s == "[80-90)" then 8
        else 9;
      AgeTableIsBucketMidpoints(k);
    }
  }

  /** Codes 1 and 2 are emergencies, 3 elective, 4 new born, 7 trauma center; 5, 6 and 8 become missing; other cells stay. */
  lemma AdmissionTypeCodes(v: Cell)
    ensures v == Num(1) || v == Num(2) ==> AdmissionType(v) == Str("Emergency")
    ensures v == Num(3) ==> AdmissionType(v) == Str("Elective")
    ensures v == Num(4) ==> AdmissionType(v) == Str("New Born")
    ensures v == Num(7) ==> AdmissionType(v) == Str("Trauma Center")
    ensures v == Num(5) || v == Num(6) || v == Num(8) ==> AdmissionType(v) == Missing
    ensures !(v.Num? && 1 <= v.n <= 8) ==> AdmissionType(v) == v
  {
  }

  /** Every discharge code 1 .. 30 is sent home, to "Other" or to missing; nothing else changes. */
  lemma DischargeCodesCovered(v: Cell)
    ensures v.Num? && 1 <= v.n <= 30 ==>
      DischargeDisposition(v) in {Str("Discharged to Home"), Str("Other"), Missing}
    ensures !(v.Num? && 1 <= v.n <= 30) ==> DischargeDisposition(v) == v
  {
  }

  /** Admission-source codes 12, 16, 18, 19, 23, 24 and 26 have no entry and are left unchanged; the other codes 1 .. 25 are mapped. */
  lemma AdmissionSourceCodes(v: Cell)
    ensures v.Num? && v.n in {12, 16, 18, 19, 23, 24, 26} ==> AdmissionSource(v) == v
    ensures v.Num? && 1 <= v.n <= 25 && v.n !in {12, 16, 18, 19, 23, 24} ==>
      AdmissionSource(v) in {Str("Referral"), Str("Other"), Str("Emergency"), Missing}
    ensures !(v.Num? && 1 <= v.n <= 25) ==> AdmissionSource(v) == v
  {
  }

  /** No table produces the placeholder "?": a cell that is not "?" never becomes one. */
  lemma TablesNeverGiveUnknown(v: Cell)
    requires v != Str("?")
    ensures ReadmittedCode(v) != Str("?") && AgeMidpoint(v) != Str("?")
    ensures AdmissionType(v) != Str("?") && DischargeDisposition(v) != Str("?") && AdmissionSource(v) != Str("?")
  {
    AdmissionTypeCodes(v);
    DischargeCodesCovered(v);
    AdmissionSourceCodes(v);
  }
}
