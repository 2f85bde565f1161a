/** Option, Result and Outcome values for the exceptions the pipeline can raise. */
module Results {

  /** The exceptions of the pipeline that the model keeps. */
  datatype Error =
    | MissingColumn(name: string)   // pandas KeyError / AttributeError on a column label
    | EmptyMode(column: string)     // `mode()[0]` on a column with no non-missing value
    | MixedTypes(column: string)    // LabelEncoder on a column mixing numbers and strings
    | LengthMismatch                // DataFrame construction from columns of different lengths
    | FileNotFound(path: string)    // `pd.read_csv` on a path that does not exist

  datatype Option<+T> = None | Some(value: T)

  datatype Result<+T> = Ok(value: T) | Failure(error: Error) {
    predicate IsFailure() { Failure? }

    function PropagateFailure<U>(): Result<U>
      requires Failure?
    {
      Failure(error)
    }

    function Extract(): T
      requires Ok?
    {
      value
    }
  }

  /** The outcome of a method that returns nothing or raises. */
  datatype Outcome = Pass | Fail(error: Error)

  function OutcomeOf<T>(r: Result<T>): Outcome {
    match r
    case Ok(_) => Pass
    case Failure(e) => Fail(e)
  }
}
