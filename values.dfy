/** Values shared by both stages: how a JSON key lookup looks from Python,
    optional values, results, and the faults that abort a run. */
module Values {

  /** The outcome of looking a key up in a decoded JSON object.
      `d.get(k)` yields None for both Missing and Null; `d[k]` raises
      KeyError only for Missing. */
  datatype Field<+T> = Missing | Null | Value(value: T) {

    /** `d.get(k) is not None` */
    predicate IsPresent() {
      Value?
    }

    /** `d.get(k)` with Python's None as None: what a DataFrame cell holds
        (None / NaN / NaT) after the dictionary is flattened. */
    function AsOption(): Option<T> {
      if Value? then Some(value) else None
    }
  }

  datatype Option<+T> = None | Some(value: T)

  datatype Result<+T, +E> = Ok(value: T) | Err(error: E)

  /** The exceptions that end a run of the feature extraction stage. */
  datatype Fault =
    | MissingKey(key: string)   // `d[key]` on an object without that key (KeyError)
    | UnreadableInt(key: string) // `int(d[key])` on null or on a non-integer value
    | NullCompared(key: string)  // a null metric used in `>` or `/` (TypeError)
    | NotAnObject                // a decoded tweet line that is not a JSON object
    | NoMatchedTweets            // the empty tweet table has no `created_at` column
    | NoProfileRows              // the empty user table has no `user_id` column to merge on

  /** Prefixes `rows` to the rows of a result that has not failed. */
  function Prepend<T, E>(rows: seq<T>, r: Result<seq<T>, E>): (p: Result<seq<T>, E>)
    ensures p.Ok? <==> r.Ok?
    ensures p.Ok? ==> p.value == rows + r.value
    ensures p.Err? ==> p == r
  {
    match r
    case Ok(rest) => Ok(rows + rest)
    case Err(e) => Err(e)
  }

  /** Prepending nothing changes nothing; prepending twice is prepending
      the concatenation. */
  lemma PrependLaws<T, E>(a: seq<T>, b: seq<T>, r: Result<seq<T>, E>)
    ensures Prepend([], r) == r
    ensures Prepend(a, Prepend(b, r)) == Prepend(a + b, r)
  {
    match r
    case Ok(rest) =>
      assert [] + rest == rest;
      assert a + (b + rest) == (a + b) + rest;
    case Err(_) =>
  }

  /** An optional row as a sequence of zero or one rows. */
  function OptionRows<T>(o: Option<T>): (s: seq<T>)
    ensures o.None? ==> s == []
    ensures o.Some? ==> s == [o.value]
  {
    match o
    case Some(x) => [x]
    case None => []
  }
}
