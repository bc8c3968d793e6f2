/** Chapter-wise analytics over the stored history: every snapshot question
    of every attempt is counted in the bucket of its chapter label, and the
    buckets are listed in chapter order. */
module Analytics {
  import opened Wrappers
  import opened QuizTypes
  import opened Rounding
  import opened Scoring
  import opened History
  import opened Basics

  // ---------- The order on chapter labels ----------

  /** The order rows are listed in: lexicographic on character codes, a
      total order standing in for localeCompare. */
  predicate LabelLe(a: string, b: string)
    decreases |a|
  {
    if a == [] then true
    else if b == [] then false
    else if a[0] != b[0] then a[0] < b[0]
    else LabelLe(a[1..], b[1..])
  }

  lemma {:induction false} LabelLeTotal(a: string, b: string)
    ensures LabelLe(a, b) || LabelLe(b, a)
    decreases |a|
  {
    if a != [] && b != [] && a[0] == b[0] {
      LabelLeTotal(a[1..], b[1..]);
    }
  }

  lemma {:induction false} LabelLeTransitive(a: string, b: string, c: string)
    requires LabelLe(a, b) && LabelLe(b, c)
    ensures LabelLe(a, c)
    decreases |a|
  {
    if a != [] && b != [] && c != [] && a[0] == b[0] && b[0] == c[0] {
      LabelLeTransitive(a[1..], b[1..], c[1..]);
    }
  }

  ghost predicate LabelsSorted(s: seq<string>) {
    forall i, j :: 0 <= i < j < |s| ==> LabelLe(s[i], s[j])
  }

  lemma {:induction false} LabelLeReflexive(a: string)
    ensures LabelLe(a, a)
    decreases |a|
  {
    if a != [] {
      LabelLeReflexive(a[1..]);
    }
  }

  /** A label at or below every label of a sorted list can go in front. */
  lemma SortedCons(x: string, s: seq<string>)
    requires LabelsSorted(s)
    requires forall y :: y in s ==> LabelLe(x, y)
    ensures LabelsSorted([x] + s)
  {
    var r := [x] + s;
    forall i, j | 0 <= i < j < |r| ensures LabelLe(r[i], r[j]) {
      if i == 0 {
        assert r[j] == s[j - 1];
      } else {
        assert r[i] == s[i - 1] && r[j] == s[j - 1];
      }
    }
  }

  lemma HeadIsLeast(s: seq<string>)
    requires LabelsSorted(s) && s != []
    ensures forall y :: y in s ==> LabelLe(s[0], y)
  {
    forall y | y in s ensures LabelLe(s[0], y) {
      var k :| 0 <= k < |s| && s[k] == y;
      if k == 0 { LabelLeReflexive(y); }
    }
  }

  function InsertLabel(x: string, s: seq<string>): (r: seq<string>)
    requires LabelsSorted(s)
    ensures LabelsSorted(r)
    ensures multiset(r) == multiset(s) + multiset{x}
    ensures forall y :: y in r ==> y == x || y in s
    decreases |s|
  {
    if s == [] then [x]
    else if LabelLe(x, s[0]) then
      HeadIsLeast(s);
      assert forall y :: y in s ==> LabelLe(x, y) by {
        forall y | y in s ensures LabelLe(x, y) {
          LabelLeTransitive(x, s[0], y);
        }
      }
      SortedCons(x, s);
      [x] + s
    else
      LabelLeTotal(x, s[0]);
      HeadIsLeast(s);
      assert s == [s[0]] + s[1..];
      assert LabelsSorted(s[1..]) by {
        forall i, j | 0 <= i < j < |s[1..]| ensures LabelLe(s[1..][i], s[1..][j]) {
          assert s[1..][i] == s[i + 1] && s[1..][j] == s[j + 1];
        }
      }
      var rest := InsertLabel(x, s[1..]);
      assert forall y :: y in rest ==> LabelLe(s[0], y);
      SortedCons(s[0], rest);
      [s[0]] + rest
  }

  /** The labels in chapter order. */
  function SortLabels(s: seq<string>): (r: seq<string>)
    ensures LabelsSorted(r)
    ensures multiset(r) == multiset(s)
  {
    if s == [] then []
    else
      assert s == [s[0]] + s[1..];
      InsertLabel(s[0], SortLabels(s[1..]))
  }

  // ---------- What is counted ----------

  /** One snapshot question seen by the analytics: its bucket and whether the
      stored answer was its key. */
  datatype Outcome = Outcome(group: string, correct: bool)

  function AttemptOutcomes(a: Attempt): (os: seq<Outcome>)
    ensures |os| == |a.questions|
    ensures forall i :: 0 <= i < |os| ==> os[i] == Outcome(Label(a.questions[i].chapter), SlotCorrect(a, i))
  {
    seq(|a.questions|, i requires 0 <= i < |a.questions| => Outcome(Label(a.questions[i].chapter), SlotCorrect(a, i)))
  }

  /** Every snapshot question of every attempt, attempt by attempt. */
  function Outcomes(hist: seq<Attempt>): seq<Outcome> {
    if hist == [] then [] else Outcomes(hist[..|hist| - 1]) + AttemptOutcomes(hist[|hist| - 1])
  }

  function CountLabel(os: seq<Outcome>, ch: string): (n: nat)
    ensures n <= |os|
  {
    if os == [] then 0
    else CountLabel(os[..|os| - 1], ch) + (if os[|os| - 1].group == ch then 1 else 0)
  }

  function CountCorrectLabel(os: seq<Outcome>, ch: string): (n: nat)
    ensures n <= CountLabel(os, ch)
  {
    if os == [] then 0
    else CountCorrectLabel(os[..|os| - 1], ch) + (if os[|os| - 1].group == ch && os[|os| - 1].correct then 1 else 0)
  }

  function CorrectCount(os: seq<Outcome>): nat {
    if os == [] then 0 else CorrectCount(os[..|os| - 1]) + (if os[|os| - 1].correct then 1 else 0)
  }

  ghost function LabelSet(os: seq<Outcome>): set<string> {
    set o | o in os :: o.group
  }

  /** The tally of one chapter. */
  datatype Bucket = Bucket(correct: nat, total: nat)

  /** Counting one question: create the bucket if needed, add 1 to its
      total, and 1 to its correct count when the answer was right. */
  function Bump(agg: map<string, Bucket>, o: Outcome): map<string, Bucket> {
    var b := if o.group in agg then agg[o.group] else Bucket(0, 0);
    agg[o.group := Bucket(b.correct + (if o.correct then 1 else 0), b.total + 1)]
  }

  /** The buckets after counting os in order. */
  function Tally(os: seq<Outcome>): map<string, Bucket> {
    TallyOnto(map[], os)
  }

  /** The buckets are exactly the labels that occur, and each holds the
      number of questions of its label and how many of them were right. */
  lemma {:induction false} TallyCounts(os: seq<Outcome>)
    ensures forall ch :: ch in Tally(os) <==> ch in LabelSet(os)
    ensures forall ch :: ch in Tally(os) ==> Tally(os)[ch] == Bucket(CountCorrectLabel(os, ch), CountLabel(os, ch))
    ensures forall ch :: ch !in LabelSet(os) ==> CountLabel(os, ch) == 0
  {
    if os != [] {
      var init, o := os[..|os| - 1], os[|os| - 1];
      TallyCounts(init);
      assert os == init + [o];
      assert LabelSet(os) == LabelSet(init) + {o.group};
    }
  }

  // ---------- The aggregation loop ----------

  lemma OutcomesSnoc(hist: seq<Attempt>, k: nat)
    requires k < |hist|
    ensures Outcomes(hist[..k + 1]) == Outcomes(hist[..k]) + AttemptOutcomes(hist[k])
  {
    assert hist[..k + 1][..k] == hist[..k];
  }

  /** Counting os on top of the buckets agg. */
  function TallyOnto(agg: map<string, Bucket>, os: seq<Outcome>): map<string, Bucket> {
    if os == [] then agg else Bump(TallyOnto(agg, os[..|os| - 1]), os[|os| - 1])
  }

  lemma {:induction false} TallyOntoTally(a: seq<Outcome>, b: seq<Outcome>)
    ensures TallyOnto(Tally(a), b) == Tally(a + b)
    decreases |b|
  {
    if b == [] {
      assert a + b == a;
    } else {
      TallyOntoTally(a, b[..|b| - 1]);
      assert (a + b)[..|a + b| - 1] == a + b[..|b| - 1];
    }
  }

  lemma DistinctSnoc(order: seq<string>, ch: string)
    requires Distinct(order) && ch !in order
    ensures Distinct(order + [ch])
  {
    var r := order + [ch];
    forall i, j | 0 <= i < j < |r| ensures r[i] != r[j] {
      if j == |order| {
        assert r[i] == order[i];
      } else {
        assert r[i] == order[i] && r[j] == order[j];
      }
    }
  }

  /** One question: the bucket of ch is created when missing, its total
      goes up by one, and its correct count too when the answer was right. */
  method CountQuestion(agg0: map<string, Bucket>, order0: seq<string>, ch: string, right: bool)
    returns (agg: map<string, Bucket>, order: seq<string>)
    requires Distinct(order0)
    requires forall c :: c in order0 <==> c in agg0
    ensures agg == Bump(agg0, Outcome(ch, right))
    ensures Distinct(order)
    ensures forall c :: c in order <==> c in agg
  {
    agg, order := agg0, order0;
    if ch !in agg {
      DistinctSnoc(order, ch);
      agg := agg[ch := Bucket(0, 0)];
      order := order + [ch];
    }
    var b := agg[ch];
    agg := agg[ch := Bucket(b.correct + (if right then 1 else 0), b.total + 1)];
  }

  /** The inner loop: counting the questions of one attempt. */
  method CountAttempt(agg0: map<string, Bucket>, order0: seq<string>, at: Attempt)
    returns (agg: map<string, Bucket>, order: seq<string>)
    requires Distinct(order0)
    requires forall ch :: ch in order0 <==> ch in agg0
    ensures agg == TallyOnto(agg0, AttemptOutcomes(at))
    ensures Distinct(order)
    ensures forall ch :: ch in order <==> ch in agg
  {
    agg, order := agg0, order0;
    ghost var os := AttemptOutcomes(at);
    var i := 0;
    while i < |at.questions|
      invariant 0 <= i <= |at.questions|
      invariant agg == TallyOnto(agg0, os[..i])
      invariant Distinct(order)
      invariant forall ch :: ch in order <==> ch in agg
    {
      var q := at.questions[i];
      var ch := Label(q.chapter);
      var right := i < |at.answers| && at.answers[i] == Some(q.answer);
      assert os[i] == Outcome(ch, right);
      agg, order := CountQuestion(agg, order, ch, right);
      assert os[..i + 1][..i] == os[..i];
      i := i + 1;
    }
    assert os[..i] == os;
  }

  /** The outer loop: the buckets of the whole history, with their labels in
      the order they were first met. */
  method Aggregate(hist: seq<Attempt>) returns (agg: map<string, Bucket>, order: seq<string>)
    ensures agg == Tally(Outcomes(hist))
    ensures Distinct(order)
    ensures forall ch :: ch in order <==> ch in agg
  {
    agg, order := map[], [];
    var k := 0;
    while k < |hist|
      invariant 0 <= k <= |hist|
      invariant agg == Tally(Outcomes(hist[..k]))
      invariant Distinct(order)
      invariant forall ch :: ch in order <==> ch in agg
    {
      ghost var before := Outcomes(hist[..k]);
      agg, order := CountAttempt(agg, order, hist[k]);
      TallyOntoTally(before, AttemptOutcomes(hist[k]));
      OutcomesSnoc(hist, k);
      k := k + 1;
    }
    assert hist[..k] == hist;
  }

  // ---------- Rows ----------

  /** One line of the analytics page. */
  datatype Row = Row(chapter: string, correct: nat, total: nat, pct: nat)

  function SumTotals(rows: seq<Row>): nat {
    if rows == [] then 0 else SumTotals(rows[..|rows| - 1]) + rows[|rows| - 1].total
  }

  function SumCorrect(rows: seq<Row>): nat {
    if rows == [] then 0 else SumCorrect(rows[..|rows| - 1]) + rows[|rows| - 1].correct
  }

  /** The rows of the analytics page: one per chapter label that occurs in
      the history, in chapter order, each with the number of questions of
      that chapter, how many were answered right, and the rounded share. */
  method ChapterRows(hist: seq<Attempt>) returns (rows: seq<Row>)
    ensures forall i, j :: 0 <= i < j < |rows| ==> LabelLe(rows[i].chapter, rows[j].chapter) && rows[i].chapter != rows[j].chapter
    ensures forall i :: 0 <= i < |rows| ==> rows[i].chapter in LabelSet(Outcomes(hist))
    ensures forall o :: o in Outcomes(hist) ==> exists i :: 0 <= i < |rows| && rows[i].chapter == o.group
    ensures forall i :: 0 <= i < |rows| ==>
      rows[i].total == CountLabel(Outcomes(hist), rows[i].chapter) > 0 &&
      rows[i].correct == CountCorrectLabel(Outcomes(hist), rows[i].chapter) <= rows[i].total &&
      rows[i].pct == Percent(rows[i].correct, rows[i].total)
    ensures SumTotals(rows) == |Outcomes(hist)|
    ensures SumCorrect(rows) == CorrectCount(Outcomes(hist))
  {
    var agg, order := Aggregate(hist);
    ghost var os := Outcomes(hist);
    TallyCounts(os);
    var labels := SortLabels(order);
    SelectionDistinct(order, labels);
    LabelsAreKeys(order, labels, agg);
    rows := seq(|labels|, i requires 0 <= i < |labels| => RowOf(labels[i], agg[labels[i]]));
    CoverLabels(os, order, labels, agg, rows);
    RowsPositive(os, rows);
    RowSums(rows, os);
    SumOverLabels(rows, os);
  }

  /** The row of one bucket. */
  function RowOf(ch: string, b: Bucket): (r: Row)
    ensures r.chapter == ch && r.correct == b.correct && r.total == b.total
    ensures r.pct == Percent(b.correct, b.total)
  {
    Row(ch, b.correct, b.total, Percent(b.correct, b.total))
  }

  lemma LabelsAreKeys(order: seq<string>, labels: seq<string>, agg: map<string, Bucket>)
    requires multiset(labels) == multiset(order)
    requires forall ch :: ch in order <==> ch in agg
    ensures forall i :: 0 <= i < |labels| ==> labels[i] in agg
  {
    forall i | 0 <= i < |labels| ensures labels[i] in agg {
      assert labels[i] in multiset(labels);
    }
  }

  lemma CoverLabels(os: seq<Outcome>, order: seq<string>, labels: seq<string>, agg: map<string, Bucket>, rows: seq<Row>)
    requires multiset(labels) == multiset(order)
    requires forall ch :: ch in order <==> ch in agg
    requires forall ch :: ch in agg <==> ch in LabelSet(os)
    requires |rows| == |labels| && forall i :: 0 <= i < |rows| ==> rows[i].chapter == labels[i]
    ensures forall o :: o in os ==> exists i :: 0 <= i < |rows| && rows[i].chapter == o.group
  {
    forall o | o in os ensures exists i :: 0 <= i < |rows| && rows[i].chapter == o.group {
      assert o.group in LabelSet(os);
      assert o.group in multiset(order);
      assert o.group in multiset(labels);
      var i :| 0 <= i < |labels| && labels[i] == o.group;
      assert rows[i].chapter == o.group;
    }
  }

  lemma RowsPositive(os: seq<Outcome>, rows: seq<Row>)
    requires forall i :: 0 <= i < |rows| ==> rows[i].chapter in LabelSet(os)
    ensures forall i :: 0 <= i < |rows| ==> CountLabel(os, rows[i].chapter) > 0
  {
    forall i | 0 <= i < |rows| ensures CountLabel(os, rows[i].chapter) > 0 {
      assert exists o :: o in os && o.group == rows[i].chapter;
      var o :| o in os && o.group == rows[i].chapter;
      CountLabelPositive(os, o);
    }
  }

  lemma {:induction false} CountLabelPositive(os: seq<Outcome>, o: Outcome)
    requires o in os
    ensures CountLabel(os, o.group) > 0
  {
    var init := os[..|os| - 1];
    if os[|os| - 1] != o {
      assert o in init by {
        var k :| 0 <= k < |os| && os[k] == o;
        assert init[k] == o;
      }
      CountLabelPositive(init, o);
    }
  }

  // ---------- Sums over the rows ----------

  /** The sums of the counts of the rows' labels. */
  function LabelCounts(rows: seq<Row>, os: seq<Outcome>): nat {
    if rows == [] then 0 else LabelCounts(rows[..|rows| - 1], os) + CountLabel(os, rows[|rows| - 1].chapter)
  }

  function LabelCorrects(rows: seq<Row>, os: seq<Outcome>): nat {
    if rows == [] then 0 else LabelCorrects(rows[..|rows| - 1], os) + CountCorrectLabel(os, rows[|rows| - 1].chapter)
  }

  lemma {:induction false} RowSums(rows: seq<Row>, os: seq<Outcome>)
    requires forall i :: 0 <= i < |rows| ==>
      rows[i].total == CountLabel(os, rows[i].chapter) && rows[i].correct == CountCorrectLabel(os, rows[i].chapter)
    ensures SumTotals(rows) == LabelCounts(rows, os)
    ensures SumCorrect(rows) == LabelCorrects(rows, os)
  {
    if rows != [] {
      RowSums(rows[..|rows| - 1], os);
    }
  }

  /** How many rows carry label ch. */
  function Occurrences(rows: seq<Row>, ch: string): nat {
    if rows == [] then 0 else Occurrences(rows[..|rows| - 1], ch) + (if rows[|rows| - 1].chapter == ch then 1 else 0)
  }

  lemma {:induction false} LabelCountsSnoc(rows: seq<Row>, os: seq<Outcome>, o: Outcome)
    ensures LabelCounts(rows, os + [o]) == LabelCounts(rows, os) + Occurrences(rows, o.group)
    ensures LabelCorrects(rows, os + [o]) == LabelCorrects(rows, os) + (if o.correct then Occurrences(rows, o.group) else 0)
  {
    assert (os + [o])[..|os|] == os;
    if rows != [] {
      LabelCountsSnoc(rows[..|rows| - 1], os, o);
    }
  }

  ghost predicate DistinctChapters(rows: seq<Row>) {
    forall i, j :: 0 <= i < j < |rows| ==> rows[i].chapter != rows[j].chapter
  }

  lemma {:induction false} OccursOnce(rows: seq<Row>, ch: string)
    requires DistinctChapters(rows)
    requires exists i :: 0 <= i < |rows| && rows[i].chapter == ch
    ensures Occurrences(rows, ch) == 1
  {
    var init := rows[..|rows| - 1];
    if rows[|rows| - 1].chapter == ch {
      OccursNever(init, ch);
    } else {
      var i :| 0 <= i < |rows| && rows[i].chapter == ch;
      assert init[i].chapter == ch;
      OccursOnce(init, ch);
    }
  }

  lemma {:induction false} OccursNever(rows: seq<Row>, ch: string)
    requires forall i :: 0 <= i < |rows| ==> rows[i].chapter != ch
    ensures Occurrences(rows, ch) == 0
  {
    if rows != [] {
      OccursNever(rows[..|rows| - 1], ch);
    }
  }

  /** Rows with distinct labels that cover every label of os account for
      every question of os once, and for every right answer once. */
  lemma {:induction false} SumOverLabels(rows: seq<Row>, os: seq<Outcome>)
    requires DistinctChapters(rows)
    requires forall o :: o in os ==> exists i :: 0 <= i < |rows| && rows[i].chapter == o.group
    ensures LabelCounts(rows, os) == |os|
    ensures LabelCorrects(rows, os) == CorrectCount(os)
  {
    if os == [] {
      LabelsOfNothing(rows);
    } else {
      var init, o := os[..|os| - 1], os[|os| - 1];
      assert os == init + [o];
      assert forall p :: p in init ==> p in os;
      SumOverLabels(rows, init);
      LabelCountsSnoc(rows, init, o);
      OccursOnce(rows, o.group);
    }
  }

  lemma {:induction false} LabelsOfNothing(rows: seq<Row>)
    ensures LabelCounts(rows, []) == 0 && LabelCorrects(rows, []) == 0
  {
    if rows != [] {
      LabelsOfNothing(rows[..|rows| - 1]);
    }
  }

  // ---------- Totals in terms of the attempts ----------

  /** The number of snapshot questions over all attempts. */
  function QuestionCount(hist: seq<Attempt>): nat {
    if hist == [] then 0 else QuestionCount(hist[..|hist| - 1]) + |hist[|hist| - 1].questions|
  }

  /** The number of right answers over all attempts. */
  function RightCount(hist: seq<Attempt>): nat {
    if hist == [] then 0 else RightCount(hist[..|hist| - 1]) + CorrectSlots(hist[|hist| - 1], |hist[|hist| - 1].questions|)
  }

  lemma {:induction false} CorrectCountAppend(a: seq<Outcome>, b: seq<Outcome>)
    ensures CorrectCount(a + b) == CorrectCount(a) + CorrectCount(b)
    decreases |b|
  {
    if b == [] {
      assert a + b == a;
    } else {
      assert (a + b)[..|a + b| - 1] == a + b[..|b| - 1];
      CorrectCountAppend(a, b[..|b| - 1]);
    }
  }

  lemma {:induction false} AttemptOutcomesCorrect(a: Attempt, n: nat)
    requires n <= |a.questions|
    ensures CorrectCount(AttemptOutcomes(a)[..n]) == CorrectSlots(a, n)
  {
    if n > 0 {
      AttemptOutcomesCorrect(a, n - 1);
      assert AttemptOutcomes(a)[..n][..n - 1] == AttemptOutcomes(a)[..n - 1];
    }
  }

  /** The outcomes are the attempts' questions: as many, and as many right. */
  lemma {:induction false} OutcomesCountAttempts(hist: seq<Attempt>)
    ensures |Outcomes(hist)| == QuestionCount(hist)
    ensures CorrectCount(Outcomes(hist)) == RightCount(hist)
  {
    if hist != [] {
      var init, a := hist[..|hist| - 1], hist[|hist| - 1];
      OutcomesCountAttempts(init);
      CorrectCountAppend(Outcomes(init), AttemptOutcomes(a));
      AttemptOutcomesCorrect(a, |a.questions|);
      assert AttemptOutcomes(a)[..|a.questions|] == AttemptOutcomes(a);
    }
  }

  /** Over the whole history the rows' totals add up to the number of
      snapshot questions and their right answers to the attempts' right
      answers. */
  method HistoryTotals(hist: seq<Attempt>) returns (rows: seq<Row>)
    ensures SumTotals(rows) == QuestionCount(hist)
    ensures SumCorrect(rows) == RightCount(hist)
  {
    rows := ChapterRows(hist);
    OutcomesCountAttempts(hist);
  }

  /** The analytics of one freshly written entry add up to its total and its
      score. */
  method EntryTotals(now: int, mode: Mode, chapter: string, activeSet: seq<Question>, answers: map<nat, string>)
    returns (rows: seq<Row>)
    ensures SumTotals(rows) == |activeSet|
    ensures SumCorrect(rows) == Score(activeSet, answers)
  {
    var e := Entry(now, mode, chapter, activeSet, answers);
    rows := HistoryTotals([e]);
    assert [e][..0] == [];
    EntryScoreIsCorrectSlots(now, mode, chapter, activeSet, answers);
  }
}
