/** The quiz session of the application component: the page shown, the run's
    questions, the per-question answer, mark and skip state, the countdown,
    and the history write when a run reaches the result page. */
module Quiz {
  import opened Wrappers
  import opened QuizTypes
  import opened Basics
  import opened Rounding
  import opened Timing
  import opened Sampler
  import opened Scoring
  import opened History
  import Analytics

  class Session {
    var page: Page
    var mode: Mode
    var chapter: string
    const questions: seq<Question>
    var activeSet: seq<Question>
    var current: nat
    var answers: map<nat, string>
    var marked: set<nat>
    var skipped: set<nat>
    var remaining: int
    /** A countdown interval is scheduled. */
    var ticking: bool
    const store: HistoryStore

    /** The state the handlers keep: `current` points into the run (or is 0
        for an empty run), the three maps speak only of the run's questions,
        and a countdown runs only on the quiz page of a test. */
    ghost predicate Valid()
      reads this
    {
      && (current < |activeSet| || current == 0)
      && KeysBelow(answers.Keys, |activeSet|)
      && KeysBelow(marked, |activeSet|)
      && KeysBelow(skipped, |activeSet|)
      && (ticking ==> page == Quiz && mode == Test)
    }

    /** The quiz page shows a question, so its buttons exist. */
    ghost predicate OnQuestion()
      reads this
    {
      page == Quiz && current < |activeSet|
    }

    /** Everything but the per-question state is as it was. */
    twostate predicate SameScreen()
      reads this
    {
      && page == old(page) && mode == old(mode) && chapter == old(chapter)
      && activeSet == old(activeSet) && remaining == old(remaining) && ticking == old(ticking)
    }

    /** The application after the question file has loaded. */
    constructor (questions: seq<Question>, store: HistoryStore)
      ensures Valid()
      ensures this.questions == questions && this.store == store
      ensures page == Home && mode == Practice && chapter == "All"
      ensures activeSet == [] && current == 0 && answers == map[] && marked == {} && skipped == {}
      ensures remaining == 0 && !ticking
    {
      this.questions := questions;
      this.store := store;
      page, mode, chapter := Home, Practice, "All";
      activeSet, current, answers, marked, skipped := [], 0, map[], {}, {};
      remaining, ticking := 0, false;
    }

    /** Back to the first question with no answers, marks or skips. */
    method ResetRun()
      modifies this
      ensures current == 0 && answers == map[] && marked == {} && skipped == {}
      ensures SameScreen()
    {
      current, answers, marked, skipped := 0, map[], {}, {};
    }

    /** Starts a practice run over the chosen chapter's questions, untimed.
        An empty pool is not refused. */
    method StartPractice(ch: string)
      requires Valid() && page == Home
      modifies this
      ensures Valid()
      ensures page == Quiz && mode == Practice && chapter == ch && !ticking
      ensures activeSet == Pool(questions, ch)
      ensures current == 0 && answers == map[] && marked == {} && skipped == {}
      ensures remaining == old(remaining)
    {
      chapter, mode := ch, Practice;
      activeSet := Pool(questions, ch);
      ResetRun();
      ticking := false;
      page := Quiz;
    }

    /** Starts a timed test: TestSize(parsed, |pool|) questions are drawn,
        and the countdown is started on 72 seconds per question. An empty
        pool is not refused: the run is empty and the countdown still
        starts on 72 seconds. */
    method StartTest(ch: string, parsed: int, draw: nat -> nat)
      requires Valid() && page == Home
      modifies this
      ensures Valid()
      ensures page == Quiz && mode == Test && chapter == ch && ticking
      ensures |activeSet| == Min(RequestedCount(parsed), |Pool(questions, ch)|)
      ensures multiset(activeSet) <= multiset(Pool(questions, ch))
      ensures Distinct(Pool(questions, ch)) ==> Distinct(activeSet)
      ensures remaining == 72 * TestSize(parsed, |Pool(questions, ch)|)
      ensures current == 0 && answers == map[] && marked == {} && skipped == {}
    {
      chapter, mode := ch, Test;
      var pool := Pool(questions, ch);
      var s, n := DrawTest(pool, parsed, draw);
      activeSet := s;
      ResetRun();
      ticking, remaining := true, TimeForN(n);
      page := Quiz;
    }

    /** Choosing an option answers the current question and withdraws its skip. */
    method Select(opt: string)
      requires Valid() && OnQuestion()
      requires opt in activeSet[current].options
      modifies this
      ensures Valid() && SameScreen() && current == old(current)
      ensures answers == old(answers)[current := opt]
      ensures skipped == old(skipped) - {current}
      ensures marked == old(marked)
    {
      answers := answers[current := opt];
      skipped := skipped - {current};
    }

    /** Clear Response removes the current answer only. */
    method ClearResponse()
      requires Valid() && OnQuestion()
      modifies this
      ensures Valid() && SameScreen() && current == old(current)
      ensures answers == old(answers) - {current}
      ensures marked == old(marked) && skipped == old(skipped)
    {
      answers := answers - {current};
    }

    /** Mark for Review / Unmark Review flips the current question's mark only. */
    method ToggleMark()
      requires Valid() && OnQuestion()
      modifies this
      ensures Valid() && SameScreen() && current == old(current)
      ensures marked == if current in old(marked) then old(marked) - {current} else old(marked) + {current}
      ensures answers == old(answers) && skipped == old(skipped)
    {
      marked := if current in marked then marked - {current} else marked + {current};
    }

    /** Leaving the current question records a skip when it has no answer
        and no mark. */
    method MarkLeft()
      requires Valid() && OnQuestion()
      modifies this
      ensures Valid() && SameScreen() && current == old(current)
      ensures skipped == SkipOnLeave(old(answers), old(marked), old(skipped), old(current))
      ensures answers == old(answers) && marked == old(marked)
    {
      skipped := SkipOnLeave(answers, marked, skipped, current);
    }

    /** Previous: the skip rule, then one question back (not below the first). */
    method Previous()
      requires Valid() && OnQuestion()
      modifies this
      ensures Valid() && SameScreen() && OnQuestion()
      ensures skipped == SkipOnLeave(old(answers), old(marked), old(skipped), old(current))
      ensures current == Max(0, old(current) - 1)
      ensures answers == old(answers) && marked == old(marked)
    {
      MarkLeft();
      current := Max(0, current - 1);
    }

    /** Next, offered before the last question: the skip rule, then one forward. */
    method Next()
      requires Valid() && OnQuestion() && current < |activeSet| - 1
      modifies this
      ensures Valid() && SameScreen() && OnQuestion()
      ensures skipped == SkipOnLeave(old(answers), old(marked), old(skipped), old(current))
      ensures current == old(current) + 1
      ensures answers == old(answers) && marked == old(marked)
    {
      MarkLeft();
      current := current + 1;
    }

    /** A palette button: the skip rule, then straight to question i. */
    method Jump(i: nat)
      requires Valid() && OnQuestion() && i < |activeSet|
      modifies this
      ensures Valid() && SameScreen() && OnQuestion()
      ensures skipped == SkipOnLeave(old(answers), old(marked), old(skipped), old(current))
      ensures current == i
      ensures answers == old(answers) && marked == old(marked)
    {
      MarkLeft();
      current := i;
    }

    /** The entry this run writes when it ends at clock reading now. */
    function CurrentEntry(now: int): Attempt
      reads this
    {
      Entry(now, mode, chapter, activeSet, answers)
    }

    /** Showing the result page. The history write is tied to the change of
        page: it happens when the page becomes the result page of a
        non-empty run, and a run already on the result page writes nothing. */
    method EnterResult(now: int)
      requires Valid() && !ticking
      modifies this, store
      ensures Valid() && page == Result && !ticking
      ensures mode == old(mode) && chapter == old(chapter) && activeSet == old(activeSet)
      ensures current == old(current) && answers == old(answers) && marked == old(marked)
      ensures skipped == old(skipped) && remaining == old(remaining)
      ensures store.writable == old(store.writable)
      ensures old(page) != Result && |activeSet| > 0 ==>
        store.saved == if store.writable then Some(Push(old(store.Get()), CurrentEntry(now))) else old(store.saved)
      ensures old(page) == Result || |activeSet| == 0 ==> store.saved == old(store.saved)
    {
      var was := page;
      page := Result;
      if was != Result && |activeSet| > 0 {
        store.Append(Entry(now, mode, chapter, activeSet, answers));
      }
    }

    /** Submit on the last question: the skip rule, the timer stopped, the
        result page. */
    method Submit(now: int)
      requires Valid() && OnQuestion() && current == |activeSet| - 1
      modifies this, store
      ensures Valid() && page == Result && !ticking
      ensures skipped == SkipOnLeave(old(answers), old(marked), old(skipped), old(current))
      ensures current == old(current) && answers == old(answers) && marked == old(marked)
      ensures activeSet == old(activeSet) && mode == old(mode) && chapter == old(chapter)
      ensures remaining == old(remaining)
      ensures store.writable == old(store.writable)
      ensures store.saved == if store.writable then Some(Push(old(store.Get()), CurrentEntry(now))) else old(store.saved)
    {
      MarkLeft();
      ticking := false;
      EnterResult(now);
    }

    /** Submit Test on the palette: the timer stopped and the result page,
        without the skip rule. */
    method PaletteSubmit(now: int)
      requires Valid() && OnQuestion()
      modifies this, store
      ensures Valid() && page == Result && !ticking
      ensures skipped == old(skipped) && current == old(current) && answers == old(answers) && marked == old(marked)
      ensures activeSet == old(activeSet) && mode == old(mode) && chapter == old(chapter)
      ensures remaining == old(remaining)
      ensures store.writable == old(store.writable)
      ensures store.saved == if store.writable then Some(Push(old(store.Get()), CurrentEntry(now))) else old(store.saved)
    {
      ticking := false;
      EnterResult(now);
    }

    /** One firing of the countdown interval. While it runs, the remaining
        time follows TickStep; on expiry the interval is cleared and the
        run goes to the result page. A cleared interval does nothing. */
    method Tick(now: int)
      requires Valid()
      modifies this, store
      ensures Valid()
      ensures current == old(current) && answers == old(answers) && marked == old(marked) && skipped == old(skipped)
      ensures activeSet == old(activeSet) && mode == old(mode) && chapter == old(chapter)
      ensures store.writable == old(store.writable)
      ensures !old(ticking) ==> page == old(page) && remaining == old(remaining) && !ticking && store.saved == old(store.saved)
      ensures old(ticking) ==> remaining == TickStep(old(remaining)).0 && ticking == !TickStep(old(remaining)).1
      ensures old(ticking) && !TickStep(old(remaining)).1 ==> page == Quiz && store.saved == old(store.saved)
      ensures old(ticking) && TickStep(old(remaining)).1 ==> page == Result
      ensures old(ticking) && TickStep(old(remaining)).1 ==>
        store.saved == if |activeSet| > 0 && store.writable then Some(Push(old(store.Get()), CurrentEntry(now))) else old(store.saved)
    {
      if ticking {
        var (p, expired) := TickStep(remaining);
        remaining := p;
        if expired {
          ticking := false;
          EnterResult(now);
        }
      }
    }

    /** Home: the timer is stopped on the way out. */
    method GoHome()
      requires Valid()
      modifies this
      ensures Valid() && page == Home && !ticking
      ensures activeSet == old(activeSet) && answers == old(answers) && remaining == old(remaining)
      ensures mode == old(mode) && chapter == old(chapter) && current == old(current)
      ensures marked == old(marked) && skipped == old(skipped)
    {
      ticking := false;
      page := Home;
    }

    /** Review Past Results, offered on the home page. */
    method OpenHistory()
      requires Valid() && page == Home
      modifies this
      ensures Valid() && page == HistoryPage && !ticking
      ensures activeSet == old(activeSet) && answers == old(answers) && remaining == old(remaining)
      ensures mode == old(mode) && chapter == old(chapter) && current == old(current)
      ensures marked == old(marked) && skipped == old(skipped)
    {
      page := HistoryPage;
    }

    /** Analytics, offered on the home page. */
    method OpenAnalytics()
      requires Valid() && page == Home
      modifies this
      ensures Valid() && page == AnalyticsPage && !ticking
      ensures activeSet == old(activeSet) && answers == old(answers) && remaining == old(remaining)
      ensures mode == old(mode) && chapter == old(chapter) && current == old(current)
      ensures marked == old(marked) && skipped == old(skipped)
    {
      page := AnalyticsPage;
    }

    /** The attempted and unattempted counts shown above the question. */
    method Counts() returns (attempted: nat, unattempted: nat)
      requires Valid()
      ensures attempted + unattempted == |activeSet|
      ensures attempted == AnsweredBelow(answers, |activeSet|)
    {
      attempted := AttemptedCount(answers);
      unattempted := UnattemptedCount(|activeSet|, answers);
      AttemptedIsAnsweredQuestions(answers, |activeSet|);
    }

    /** The history page's list: the stored list, sorted, the store untouched. */
    method HistoryView(order: SortOrder) returns (view: seq<Attempt>)
      ensures multiset(view) == multiset(store.Get())
      ensures order == NewestFirst ==> forall i, j :: 0 <= i < j < |view| ==> view[i].timestamp >= view[j].timestamp
      ensures order == OldestFirst ==> forall i, j :: 0 <= i < j < |view| ==> view[i].timestamp <= view[j].timestamp
      ensures order == ScoreHighToLow ==> forall i, j :: 0 <= i < j < |view| ==> view[i].percent >= view[j].percent
      ensures order == ScoreLowToHigh ==> forall i, j :: 0 <= i < j < |view| ==> view[i].percent <= view[j].percent
      ensures forall k :: Tied(view, order, k) == Tied(store.Get(), order, k)
    {
      view := SortHistory(store.Get(), order);
    }

    /** The analytics page's rows over the stored list: one row per chapter
        label, sorted by label, with its counts and rounded share, adding up
        to every stored question and every right answer. */
    method AnalyticsView() returns (rows: seq<Analytics.Row>)
      ensures forall i, j :: 0 <= i < j < |rows| ==>
        Analytics.LabelLe(rows[i].chapter, rows[j].chapter) && rows[i].chapter != rows[j].chapter
      ensures forall i :: 0 <= i < |rows| ==> rows[i].chapter in Analytics.LabelSet(Analytics.Outcomes(store.Get()))
      ensures forall o :: o in Analytics.Outcomes(store.Get()) ==> exists i :: 0 <= i < |rows| && rows[i].chapter == o.group
      ensures forall i :: 0 <= i < |rows| ==>
        rows[i].total == Analytics.CountLabel(Analytics.Outcomes(store.Get()), rows[i].chapter) > 0 &&
        rows[i].correct == Analytics.CountCorrectLabel(Analytics.Outcomes(store.Get()), rows[i].chapter) <= rows[i].total &&
        rows[i].pct == Percent(rows[i].correct, rows[i].total)
      ensures Analytics.SumTotals(rows) == Analytics.QuestionCount(store.Get())
      ensures Analytics.SumCorrect(rows) == Analytics.RightCount(store.Get())
    {
      rows := Analytics.ChapterRows(store.Get());
      Analytics.OutcomesCountAttempts(store.Get());
    }
  }
}
