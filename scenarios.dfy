/** Whole runs through the session: a practice run with the palette states
    it leaves, a test that runs out of time, a submit racing a timer that
    has already been cleared, and a test over an empty question file. */
module Scenarios {
  import opened Wrappers
  import opened QuizTypes
  import opened Scoring
  import opened History
  import opened Loader
  import opened Quiz

  /** A two-option question without a chapter whose key is the given option. */
  function Ask(key: string): (q: Question)
    ensures q.answer == key && q.options == ["a", "b"] && q.chapter == None
  {
    Question(None, "?", ["a", "b"], key, None, None)
  }

  /** Three questions: the first answered right, the second passed over with
      Next, the third marked and submitted. */
  method PracticeRun() returns (score: nat, first: Status, second: Status, third: Status, entries: seq<Attempt>)
    ensures score == 1
    ensures first == Attempted && second == Skipped && third == MarkedOnly
    ensures |entries| == 1 && entries[0].total == 3 && entries[0].score == 1 && entries[0].percent == 33
    ensures entries[0].mode == Practice && entries[0].durationSec == None
  {
    var store := new HistoryStore(None, true);
    var app := new Session([Ask("a"), Ask("a"), Ask("b")], store);
    app.StartPractice("All");
    app.Select("a");
    app.Next();
    app.Next();
    app.ToggleMark();
    app.Submit(1000);
    var run := app.activeSet;
    assert run[..2][..1] == run[..1] && run[..1][..0] == [];
    assert Score(run[..1], app.answers) == 1;
    assert Score(run[..2], app.answers) == 1;
    score := Score(run, app.answers);
    first := StatusOf(app.answers, app.marked, app.skipped, 0);
    second := StatusOf(app.answers, app.marked, app.skipped, 1);
    third := StatusOf(app.answers, app.marked, app.skipped, 2);
    entries := store.Get();
  }

  /** A ten-question test left to run out: the countdown starts on 720
      seconds and the 720th firing ends the run with one history entry. */
  method TimedOut(draw: nat -> nat) returns (start: int, entries: seq<Attempt>, final: Page)
    ensures start == 720 && final == Result
    ensures |entries| == 1 && entries[0].mode == Test && entries[0].total == 10
    ensures entries[0].durationSec == Some(720)
  {
    var store := new HistoryStore(None, true);
    var app := new Session(seq(10, i => Ask("a")), store);
    app.StartTest("All", 10, draw);
    start := app.remaining;
    var k := 0;
    while k < 720
      invariant 0 <= k <= 720
      invariant app.Valid() && app.store == store && store.writable
      invariant |app.activeSet| == 10 && app.mode == Test
      invariant k < 720 ==> app.ticking && app.page == Quiz && app.remaining == 720 - k && store.saved == None
      invariant k == 720 ==> app.page == Result && |store.Get()| == 1 && store.Get()[0].mode == Test
      invariant k == 720 ==> store.Get()[0].total == 10 && store.Get()[0].durationSec == Some(720)
    {
      app.Tick(k + 1);
      k := k + 1;
    }
    entries := store.Get();
    final := app.page;
  }

  /** Submitting clears the countdown, so a firing already due afterwards
      changes nothing and the run is recorded once. */
  method SubmitThenTick(draw: nat -> nat) returns (entries: seq<Attempt>, final: Page)
    ensures final == Result
    ensures |entries| == 1 && entries[0].total == 1 && entries[0].score == 1 && entries[0].percent == 100
    ensures entries[0].durationSec == Some(72)
  {
    var store := new HistoryStore(None, true);
    var app := new Session([Ask("a")], store);
    app.StartTest("All", 1, draw);
    app.Select("a");
    app.Submit(5);
    app.Tick(6);
    assert app.activeSet[..0] == [];
    entries := store.Get();
    final := app.page;
  }

  /** An object without a question list loads as an empty bank; a test over
      it is not refused: the run is empty, the countdown still starts on
      one question's 72 seconds, and at expiry nothing is recorded. */
  method EmptyBankTest(draw: nat -> nat) returns (loaded: Result<seq<Question>>, size: nat, start: int, entries: seq<Attempt>, final: Page)
    ensures loaded == Ok([]) && size == 0 && start == 72
    ensures entries == [] && final == Result
  {
    loaded := Load(Some(PObject(None)));
    var store := new HistoryStore(None, true);
    var app := new Session(loaded.value, store);
    app.StartTest("All", 10, draw);
    size, start := |app.activeSet|, app.remaining;
    var k := 0;
    while k < 72
      invariant 0 <= k <= 72
      invariant app.Valid() && app.store == store && app.activeSet == []
      invariant store.saved == None
      invariant k < 72 ==> app.ticking && app.page == Quiz && app.remaining == 72 - k
      invariant k == 72 ==> app.page == Result
    {
      app.Tick(k + 1);
      k := k + 1;
    }
    entries := store.Get();
    final := app.page;
  }
}
