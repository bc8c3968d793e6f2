/** The attempt history: the entry written when a run ends, the stored list
    with its 50-entry cap, and the sorted views of the history page. */
module History {
  import opened Wrappers
  import opened QuizTypes
  import opened Basics
  import opened Rounding
  import opened Timing
  import opened Scoring

  /** The stored list keeps at most this many entries. */
  const MaxEntries: nat := 50

  /** Slot i of a stored attempt was answered with the key of its snapshot.
      A slot with no stored answer (or missing) is never correct. */
  predicate SlotCorrect(a: Attempt, i: nat)
    requires i < |a.questions|
  {
    i < |a.answers| && a.answers[i] == Some(a.questions[i].answer)
  }

  /** The number of correct slots among the first n. */
  function CorrectSlots(a: Attempt, n: nat): (r: nat)
    requires n <= |a.questions|
    ensures r <= n
  {
    if n == 0 then 0 else CorrectSlots(a, n - 1) + (if SlotCorrect(a, n - 1) then 1 else 0)
  }

  /** The stored answer of question i: the selected option, or null. */
  function StoredAnswer(answers: map<nat, string>, i: nat): (r: Option<string>)
    ensures r.Some? <==> i in answers
    ensures r.Some? ==> r.value == answers[i]
  {
    if i in answers then Some(answers[i]) else None
  }

  /** The entry written when a run over activeSet ends at clock reading now. */
  function Entry(now: int, mode: Mode, chapter: string, activeSet: seq<Question>, answers: map<nat, string>): (e: Attempt)
    ensures e.id == now && e.timestamp == now && e.mode == mode && e.chapter == chapter
    ensures e.total == |activeSet| == |e.answers| == |e.questions|
    ensures forall i :: 0 <= i < |activeSet| ==> e.questions[i] == SnapshotOf(activeSet[i])
    ensures forall i :: 0 <= i < |activeSet| ==> (e.answers[i].Some? <==> i in answers)
    ensures forall i :: 0 <= i < |activeSet| ==> e.answers[i] == StoredAnswer(answers, i)
    ensures e.score == Score(activeSet, answers) <= e.total
    ensures e.percent == Percent(e.score, e.total) <= 100
    ensures mode == Test ==> e.durationSec == Some(72 * e.total)
    ensures mode == Practice ==> e.durationSec == None
  {
    var total := |activeSet|;
    var score := Score(activeSet, answers);
    Attempt(
      now, now, mode, chapter, total, score, Percent(score, total),
      if mode == Test then Some(TimeForN(total)) else None,
      seq(total, i requires 0 <= i < total => StoredAnswer(answers, i)),
      seq(total, i requires 0 <= i < total => SnapshotOf(activeSet[i])))
  }

  lemma {:induction false} PrefixScoreIsSlots(now: int, mode: Mode, chapter: string,
                                              activeSet: seq<Question>, answers: map<nat, string>, k: nat)
    requires k <= |activeSet|
    ensures CorrectSlots(Entry(now, mode, chapter, activeSet, answers), k) == Score(activeSet[..k], answers)
  {
    if k > 0 {
      PrefixScoreIsSlots(now, mode, chapter, activeSet, answers, k - 1);
      assert activeSet[..k][..k - 1] == activeSet[..k - 1];
      var e := Entry(now, mode, chapter, activeSet, answers);
      assert SlotCorrect(e, k - 1) <==> IsCorrect(activeSet[..k], answers, k - 1);
    }
  }

  /** A written entry agrees with itself: its score is the number of slots
      whose stored answer is the snapshot's key, so a later reader that only
      has the entry finds the same score. */
  lemma EntryScoreIsCorrectSlots(now: int, mode: Mode, chapter: string, activeSet: seq<Question>, answers: map<nat, string>)
    ensures var e := Entry(now, mode, chapter, activeSet, answers);
      CorrectSlots(e, |e.questions|) == e.score
  {
    PrefixScoreIsSlots(now, mode, chapter, activeSet, answers, |activeSet|);
    assert activeSet[..|activeSet|] == activeSet;
  }

  /** The stored list after writing entry e: e in front, cut to 50 entries. */
  function Push(h: seq<Attempt>, e: Attempt): (r: seq<Attempt>)
    ensures |r| == Min(MaxEntries, |h| + 1)
    ensures r[0] == e && r[1..] == h[..|r| - 1]
  {
    ([e] + h)[..Min(MaxEntries, |h| + 1)]
  }

  /** The list after writing the entries of es one after another. */
  function PushAll(h: seq<Attempt>, es: seq<Attempt>): seq<Attempt>
  {
    if es == [] then h else Push(PushAll(h, es[..|es| - 1]), es[|es| - 1])
  }

  function Reversed(s: seq<Attempt>): (r: seq<Attempt>)
    ensures |r| == |s|
  {
    if s == [] then [] else [s[|s| - 1]] + Reversed(s[..|s| - 1])
  }

  /** Writing es in turn leaves the newest entries first, followed by the
      list there was, cut to 50. (With nothing written the list is left as
      it was, so then it must already be within the cap.) */
  lemma {:induction false} PushAllKeepsNewest(h: seq<Attempt>, es: seq<Attempt>)
    requires |h| <= MaxEntries || es != []
    ensures PushAll(h, es) == (Reversed(es) + h)[..Min(MaxEntries, |es| + |h|)]
  {
    if es == [] {
      assert Reversed(es) + h == h;
    } else {
      var init, x := es[..|es| - 1], es[|es| - 1];
      var whole := [x] + (Reversed(init) + h);
      assert Reversed(es) + h == whole;
      if init == [] {
        assert Reversed(init) + h == h;
      } else {
        PushAllKeepsNewest(h, init);
        var p := PushAll(h, init);
        assert [x] + p == whole[..1 + Min(MaxEntries, |init| + |h|)];
      }
    }
  }

  /** After 50 or more writes the list holds exactly the 50 most recent
      entries, newest first, and nothing older. */
  lemma CapKeepsFiftyMostRecent(h: seq<Attempt>, es: seq<Attempt>)
    requires |es| >= MaxEntries
    ensures |PushAll(h, es)| == MaxEntries
    ensures PushAll(h, es) == Reversed(es)[..MaxEntries]
  {
    PushAllKeepsNewest(h, es);
    assert (Reversed(es) + h)[..MaxEntries] == Reversed(es)[..MaxEntries];
  }

  /** The stored history. `saved` is the parsed content of the storage key;
      None when the key is missing or its content cannot be parsed.
      `writable` says whether writing to storage succeeds. */
  class HistoryStore {
    var saved: Option<seq<Attempt>>
    var writable: bool

    constructor (saved: Option<seq<Attempt>>, writable: bool)
      ensures this.saved == saved && this.writable == writable
    {
      this.saved := saved;
      this.writable := writable;
    }

    /** Reading the list: a missing or unreadable list reads as empty. */
    function Get(): (h: seq<Attempt>)
      reads this
      ensures saved.Some? ==> h == saved.value
      ensures saved.None? ==> h == []
    {
      saved.GetOr([])
    }

    /** Writing the list; a failed write is ignored. */
    method Set(v: seq<Attempt>)
      modifies this
      ensures writable == old(writable)
      ensures saved == if writable then Some(v) else old(saved)
    {
      if writable {
        saved := Some(v);
      }
    }

    /** Reading the list, putting e in front and writing the first 50 back. */
    method Append(e: Attempt)
      modifies this
      ensures writable == old(writable)
      ensures saved == if writable then Some(Push(old(Get()), e)) else old(saved)
      ensures writable ==> Get()[0] == e && |Get()| <= MaxEntries
    {
      var h := Get();
      h := [e] + h;
      Set(h[..Min(MaxEntries, |h|)]);
    }
  }

  /** The orders offered by the history page. */
  datatype SortOrder = NewestFirst | OldestFirst | ScoreHighToLow | ScoreLowToHigh

  /** The comparator of the history page is rank(a) - rank(b). */
  function Rank(a: Attempt, order: SortOrder): int {
    match order
    case NewestFirst => -a.timestamp
    case OldestFirst => a.timestamp
    case ScoreHighToLow => -(a.percent as int)
    case ScoreLowToHigh => a.percent
  }

  ghost predicate SortedBy(s: seq<Attempt>, order: SortOrder) {
    forall i, j :: 0 <= i < j < |s| ==> Rank(s[i], order) <= Rank(s[j], order)
  }

  /** A sorted list stays sorted with an entry in front that ranks no higher
      than its head. */
  lemma ConsSorted(x: Attempt, s: seq<Attempt>, order: SortOrder)
    requires SortedBy(s, order)
    requires s != [] ==> Rank(x, order) <= Rank(s[0], order)
    ensures SortedBy([x] + s, order)
  {
    var r := [x] + s;
    forall i, j | 0 <= i < j < |r| ensures Rank(r[i], order) <= Rank(r[j], order) {
      assert r[j] == s[j - 1];
      if 0 < i {
        assert r[i] == s[i - 1];
      } else if 1 < j {
        assert Rank(s[0], order) <= Rank(s[j - 1], order);
      }
    }
  }

  /** Puts a into the sorted list s, after the entries that rank lower. */
  function Insert(a: Attempt, s: seq<Attempt>, order: SortOrder): (r: seq<Attempt>)
    requires SortedBy(s, order)
    ensures SortedBy(r, order)
    ensures multiset(r) == multiset(s) + multiset{a}
    ensures |r| == |s| + 1 && (r[0] == a || (s != [] && r[0] == s[0]))
  {
    if s == [] then [a]
    else if Rank(a, order) <= Rank(s[0], order) then
      ConsSorted(a, s, order);
      [a] + s
    else
      var rest := Insert(a, s[1..], order);
      assert s == [s[0]] + s[1..];
      ConsSorted(s[0], rest, order);
      [s[0]] + rest
  }

  /** The entries of s that rank k, in the order of s: the entries the
      comparator finds equal to each other. */
  function Tied(s: seq<Attempt>, order: SortOrder, k: int): seq<Attempt> {
    if s == [] then [] else (if Rank(s[0], order) == k then [s[0]] else []) + Tied(s[1..], order, k)
  }

  lemma TiedCons(x: Attempt, s: seq<Attempt>, order: SortOrder, k: int)
    ensures Tied([x] + s, order, k) == (if Rank(x, order) == k then [x] else []) + Tied(s, order, k)
  {
    assert ([x] + s)[1..] == s;
  }

  lemma SortedTail(s: seq<Attempt>, order: SortOrder)
    requires SortedBy(s, order) && s != []
    ensures SortedBy(s[1..], order)
  {
    forall i, j | 0 <= i < j < |s[1..]| ensures Rank(s[1..][i], order) <= Rank(s[1..][j], order) {
      assert s[1..][i] == s[i + 1] && s[1..][j] == s[j + 1];
    }
  }

  /** Past an entry that ranks lower, insertion goes on in the rest. */
  lemma InsertPast(a: Attempt, s: seq<Attempt>, order: SortOrder)
    requires SortedBy(s, order) && s != [] && Rank(a, order) > Rank(s[0], order)
    ensures SortedBy(s[1..], order)
    ensures Insert(a, s, order) == [s[0]] + Insert(a, s[1..], order)
  {
    SortedTail(s, order);
  }

  /** Lists with the same ties keep them with the same entry in front. */
  lemma TiedLift(x: Attempt, u: seq<Attempt>, v: seq<Attempt>, order: SortOrder, k: int)
    requires Tied(u, order, k) == Tied(v, order, k)
    ensures Tied([x] + u, order, k) == Tied([x] + v, order, k)
  {
    TiedCons(x, u, order, k);
    TiedCons(x, v, order, k);
  }

  /** Two neighbours of different rank can change places without changing any ties. */
  lemma TiedSwap(x: Attempt, y: Attempt, t: seq<Attempt>, order: SortOrder, k: int)
    requires Rank(x, order) != Rank(y, order)
    ensures Tied([x] + ([y] + t), order, k) == Tied([y] + ([x] + t), order, k)
  {
    TiedCons(x, [y] + t, order, k);
    TiedCons(y, t, order, k);
    TiedCons(y, [x] + t, order, k);
    TiedCons(x, t, order, k);
  }

  /** Inserting puts a in front of the entries that tie with it. */
  lemma {:induction false} InsertKeepsTies(a: Attempt, s: seq<Attempt>, order: SortOrder, k: int)
    requires SortedBy(s, order)
    ensures Tied(Insert(a, s, order), order, k) == Tied([a] + s, order, k)
    decreases |s|
  {
    if s != [] && Rank(a, order) > Rank(s[0], order) {
      var rest := s[1..];
      InsertPast(a, s, order);
      InsertKeepsTies(a, rest, order, k);
      TiedLift(s[0], Insert(a, rest, order), [a] + rest, order, k);
      TiedSwap(s[0], a, rest, order, k);
      assert [s[0]] + rest == s;
    }
  }

  lemma {:induction false} SortKeepsTiesAt(h: seq<Attempt>, order: SortOrder, k: int)
    ensures Tied(SortByRank(h, order), order, k) == Tied(h, order, k)
  {
    if h != [] {
      assert h == [h[0]] + h[1..];
      SortKeepsTiesAt(h[1..], order, k);
      InsertKeepsTies(h[0], SortByRank(h[1..], order), order, k);
      TiedCons(h[0], SortByRank(h[1..], order), order, k);
      TiedCons(h[0], h[1..], order, k);
    }
  }

  /** The sort is stable: entries the comparator finds equal keep the order
      they have in the stored list. */
  lemma SortKeepsTies(h: seq<Attempt>, order: SortOrder)
    ensures forall k :: Tied(SortByRank(h, order), order, k) == Tied(h, order, k)
  {
    forall k ensures Tied(SortByRank(h, order), order, k) == Tied(h, order, k) {
      SortKeepsTiesAt(h, order, k);
    }
  }

  /** The history page's view: a sorted copy; the stored list is not changed.
      Ties keep their stored order, as the stable Array.prototype.sort does. */
  function SortHistory(h: seq<Attempt>, order: SortOrder): (r: seq<Attempt>)
    ensures multiset(r) == multiset(h)
    ensures order == NewestFirst ==> forall i, j :: 0 <= i < j < |r| ==> r[i].timestamp >= r[j].timestamp
    ensures order == OldestFirst ==> forall i, j :: 0 <= i < j < |r| ==> r[i].timestamp <= r[j].timestamp
    ensures order == ScoreHighToLow ==> forall i, j :: 0 <= i < j < |r| ==> r[i].percent >= r[j].percent
    ensures order == ScoreLowToHigh ==> forall i, j :: 0 <= i < j < |r| ==> r[i].percent <= r[j].percent
    ensures forall k :: Tied(r, order, k) == Tied(h, order, k)
  {
    var r := SortByRank(h, order);
    assert forall i, j :: 0 <= i < j < |r| ==> Rank(r[i], order) <= Rank(r[j], order);
    SortKeepsTies(h, order);
    r
  }

  /** Insertion sort by rank. */
  function SortByRank(h: seq<Attempt>, order: SortOrder): (r: seq<Attempt>)
    ensures SortedBy(r, order)
    ensures multiset(r) == multiset(h)
  {
    if h == [] then []
    else
      assert h == [h[0]] + h[1..];
      Insert(h[0], SortByRank(h[1..], order), order)
  }
}
