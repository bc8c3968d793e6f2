/** Turning the fetched question file into the question list. */
module Loader {
  import opened QuizTypes
  import opened Wrappers

  /** The parsed body of the question file, by shape: a bare array, an
      object whose `questions` field is an array or is missing/null, null,
      or any other value. */
  datatype Payload =
    | PArray(items: seq<Question>)
    | PObject(questions: Option<seq<Question>>)
    | PNull
    | PScalar

  /** A bare array is used as it is; otherwise the `questions` field, or the
      empty list when there is none. */
  function Normalize(d: Payload): (qs: seq<Question>)
    ensures d.PArray? ==> qs == d.items
    ensures d.PObject? ==> qs == d.questions.GetOr([])
    ensures d.PNull? || d.PScalar? ==> qs == []
  {
    match d
    case PArray(items) => items
    case PObject(questions) => questions.GetOr([])
    case _ => []
  }

  const LoadErrorMessage := "Could not load questions.json"

  /** The outcome of loading: a failed request or an unreadable body
      (None) is the load error, otherwise the normalised list. */
  function Load(response: Option<Payload>): (r: Result<seq<Question>>)
    ensures response.None? <==> r == Err(LoadErrorMessage)
    ensures response.Some? ==> r == Ok(Normalize(response.value))
  {
    match response
    case None => Err(LoadErrorMessage)
    case Some(d) => Ok(Normalize(d))
  }

  /** Both accepted shapes of the file give the same list. */
  lemma ShapesAgree(xs: seq<Question>)
    ensures Normalize(PArray(xs)) == Normalize(PObject(Some(xs))) == xs
  {
  }

  /** An object without a `questions` field loads as the empty pool. */
  lemma EmptyObjectIsEmptyPool()
    ensures Load(Some(PObject(None))) == Ok([])
  {
  }
}
