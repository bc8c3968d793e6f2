/** The records the quiz application works on: questions, modes, pages,
    history snapshots and palette statuses. */
module QuizTypes {
  import opened Wrappers

  /** One multiple-choice question as it comes from the question file.
      `chapter` and `source` may be missing (None). */
  datatype Question = Question(
    chapter: Option<string>,
    question: string,
    options: seq<string>,
    answer: string,
    source: Option<string>,
    explanation: Option<string>)

  datatype Mode = Practice | Test

  /** The screens of the application. */
  datatype Page = Home | Quiz | Result | HistoryPage | AnalyticsPage

  /** The copy of a question kept inside a history entry (the explanation is not kept). */
  datatype Snapshot = Snapshot(
    chapter: Option<string>,
    question: string,
    options: seq<string>,
    answer: string,
    source: Option<string>)

  /** One stored history entry. `id` and `timestamp` both come from the clock
      reading at submission, in milliseconds. */
  datatype Attempt = Attempt(
    id: int,
    timestamp: int,
    mode: Mode,
    chapter: string,
    total: nat,
    score: nat,
    percent: nat,
    durationSec: Option<nat>,
    answers: seq<Option<string>>,
    questions: seq<Snapshot>)

  /** The colour class of a question in the palette. */
  datatype Status = AttemptedMarked | MarkedOnly | Skipped | Attempted | Unattempted

  /** The label a question's chapter is grouped under: an absent or empty
      chapter is falsy and goes to "Unknown". */
  function Label(chapter: Option<string>): (r: string)
    ensures r != ""
    ensures chapter.Some? && chapter.value != "" ==> r == chapter.value
    ensures chapter.None? || chapter.value == "" ==> r == "Unknown"
  {
    if chapter.Some? && chapter.value != "" then chapter.value else "Unknown"
  }

  /** The snapshot stored for a question. */
  function SnapshotOf(q: Question): (s: Snapshot)
    ensures s.chapter == q.chapter && s.question == q.question && s.options == q.options
    ensures s.answer == q.answer && s.source == q.source
  {
    Snapshot(q.chapter, q.question, q.options, q.answer, q.source)
  }
}
