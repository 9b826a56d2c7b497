/** Practice mode: one subject's panel (`SubjectPanel`, lines 337-404). It
    keeps the index of the exercise on screen and the subject's answer map,
    which a submission overwrites one key of and the reset button empties,
    and it shows the share of exercises attempted as a rounded percentage. */
module Practice {
  import opened Common
  import opened Questions
  import opened Evaluator

  // ---------------------------------------------------------------------------
  // Progress percentage

  /** `Math.round((k / n) * 100)` for a count `k` out of `n > 0`, computed
      exactly: the integer nearest to 100k/n, a half rounded up. */
  function Percent(k: nat, n: nat): (r: int)
    requires n > 0
    ensures 2 * n * r <= 200 * k + n < 2 * n * r + 2 * n
  {
    (200 * k + n) / (2 * n)
  }

  lemma MulLeft(n: nat, a: int, b: int)
    requires a <= b
    ensures n * a <= n * b
  {
  }

  /** A count between 0 and `n` gives a percentage between 0 and 100. */
  lemma PercentBounds(k: nat, n: nat)
    requires 0 < n && k <= n
    ensures 0 <= Percent(k, n) <= 100
  {
    var r := Percent(k, n);
    if r < 0 {
      MulLeft(2 * n, r, -1);
    }
    if r > 100 {
      MulLeft(2 * n, 101, r);
    }
  }

  lemma PercentZero(n: nat)
    requires 0 < n
    ensures Percent(0, n) == 0
  {
    var r := Percent(0, n);
    if r < 0 {
      MulLeft(2 * n, r, -1);
    }
    if r > 0 {
      MulLeft(2 * n, 1, r);
    }
  }

  lemma PercentAll(n: nat)
    requires 0 < n
    ensures Percent(n, n) == 100
  {
    var r := Percent(n, n);
    if r < 100 {
      MulLeft(2 * n, r, 99);
    }
    if r > 100 {
      MulLeft(2 * n, 101, r);
    }
  }

  /** More exercises attempted never lowers the percentage. */
  lemma PercentMonotone(k: nat, k': nat, n: nat)
    requires 0 < n && k <= k'
    ensures Percent(k, n) <= Percent(k', n)
  {
    var r, r' := Percent(k, n), Percent(k', n);
    if r > r' {
      MulLeft(2 * n, r' + 1, r);
    }
  }

  // ---------------------------------------------------------------------------
  // The ids of a subject's list

  function IdSet(list: seq<Exercise>): (ids: set<string>)
    ensures forall id :: id in ids <==> exists i :: 0 <= i < |list| && list[i].id == id
  {
    var ids := ExerciseIds(list);
    assert forall id :: id in ids <==> exists i :: 0 <= i < |list| && list[i].id == id by {
      forall id ensures id in ids <==> exists i :: 0 <= i < |list| && list[i].id == id {
        if id in ids {
          var i :| 0 <= i < |ids| && ids[i] == id;
        }
        if exists i :: 0 <= i < |list| && list[i].id == id {
          var i :| 0 <= i < |list| && list[i].id == id;
          assert ids[i] == id;
        }
      }
    }
    Elements(ids)
  }

  ghost predicate DistinctIds(list: seq<Exercise>) {
    NoDuplicates(ExerciseIds(list))
  }

  /** One more exercise adds its id to the ids of the list before it. */
  lemma IdSetSnoc(list: seq<Exercise>)
    requires list != []
    ensures IdSet(list) == IdSet(list[..|list| - 1]) + {list[|list| - 1].id}
  {
    assert ExerciseIds(list) == ExerciseIds(list[..|list| - 1]) + [list[|list| - 1].id];
  }

  /** Without repeated ids, the last id is new and the rest are distinct. */
  lemma DistinctSnoc(list: seq<Exercise>)
    requires list != [] && DistinctIds(list)
    ensures DistinctIds(list[..|list| - 1])
    ensures list[|list| - 1].id !in IdSet(list[..|list| - 1])
  {
    var prev := list[..|list| - 1];
    var ids := ExerciseIds(list);
    MapPrefix(IdOf, list, |prev|);
    PrefixSubMultiset(ids, |prev|);
    NoDuplicatesSub(ExerciseIds(prev), ids);
    forall i | 0 <= i < |prev| ensures prev[i].id != list[|list| - 1].id {
      NoDuplicatesDistinct(ids, i, |list| - 1);
      assert prev[i] == list[i];
    }
  }

  lemma {:induction false} IdSetSize(list: seq<Exercise>)
    ensures |IdSet(list)| <= |list|
    ensures DistinctIds(list) ==> |IdSet(list)| == |list|
    decreases |list|
  {
    if list != [] {
      var prev := list[..|list| - 1];
      IdSetSize(prev);
      IdSetSnoc(list);
      if DistinctIds(list) {
        DistinctSnoc(list);
      }
    } else {
      assert IdSet(list) == {};
    }
  }

  /** `progress` for an answer map and a subject's list. */
  function ProgressOf(answers: map<string, Answer>, list: seq<Exercise>): int
    requires |list| > 0
  {
    Percent(|answers.Keys|, |list|)
  }

  /** While every recorded key is an id of the list, progress stays in [0, 100]. */
  lemma ProgressBounded(answers: map<string, Answer>, list: seq<Exercise>)
    requires |list| > 0
    requires answers.Keys <= IdSet(list)
    ensures 0 <= ProgressOf(answers, list) <= 100
  {
    IdSetSize(list);
    SubsetSize(answers.Keys, IdSet(list));
    PercentBounds(|answers.Keys|, |list|);
  }

  /** No answers, no progress. */
  lemma ProgressEmpty(list: seq<Exercise>)
    requires |list| > 0
    ensures ProgressOf(map[], list) == 0
  {
    var none: map<string, Answer> := map[];
    assert none.Keys == {};
    PercentZero(|list|);
  }

  /** Once every exercise of the list has an answer, right or wrong, the
      progress is 100%. */
  lemma ProgressComplete(answers: map<string, Answer>, list: seq<Exercise>)
    requires |list| > 0 && DistinctIds(list)
    requires answers.Keys == IdSet(list)
    ensures ProgressOf(answers, list) == 100
  {
    IdSetSize(list);
    PercentAll(|list|);
  }

  // ---------------------------------------------------------------------------
  // Recording an answer

  /** `{ ...answers, [id]: val }` overwrites one key: that key now holds
      `val`, every other key reads as before, and the number of answered
      exercises grows by one only when the key was new. */
  lemma RecordAnswer(answers: map<string, Answer>, id: string, val: Answer)
    ensures Lookup(answers[id := val], id) == Some(val)
    ensures forall other :: other != id ==> Lookup(answers[id := val], other) == Lookup(answers, other)
    ensures |answers[id := val].Keys| == |answers.Keys| + if id in answers then 0 else 1
  {
    assert answers[id := val].Keys == answers.Keys + {id};
  }

  // ---------------------------------------------------------------------------
  // Navigation

  /** "Précédent": `Math.max(0, idx - 1)` */
  function Previous(idx: int): int { Max(0, idx - 1) }

  /** "Suivant": `Math.min(list.length - 1, idx + 1)` */
  function Next(idx: int, len: nat): int { Min(len - 1, idx + 1) }

  /** Both buttons keep the index on an exercise of the list and move it by
      at most one. */
  lemma NavigationInBounds(idx: int, len: nat)
    requires 0 <= idx < len
    ensures 0 <= Previous(idx) <= idx && idx - Previous(idx) <= 1
    ensures idx <= Next(idx, len) < len && Next(idx, len) - idx <= 1
  {
  }

  /** Away from the ends, each button undoes the other. */
  lemma NavigationRoundTrip(idx: int, len: nat)
    requires 0 <= idx < len
    ensures idx < len - 1 ==> Previous(Next(idx, len)) == idx
    ensures 0 < idx ==> Next(Previous(idx), len) == idx
  {
  }

  // ---------------------------------------------------------------------------
  // The panel

  class SubjectPanel {
    const subject: Subject
    const list: seq<Exercise>
    var idx: int
    var answers: map<string, Answer>

    /** The subject has exercises and the index points at one of them. */
    ghost predicate Valid()
      reads this
    {
      |list| > 0 && 0 <= idx < |list|
    }

    /** `useState(0)` and `useState(load("answers:" + subjectKey, {}))`; the
        panel reads `BANK[subjectKey]` and indexes it at once, so the
        subject's list must not be empty. */
    constructor (bank: Bank, subject: Subject, stored: Option<map<string, Answer>>)
      requires Complete(bank) && |bank[subject]| > 0
      ensures Valid()
      ensures this.subject == subject && list == bank[subject] && idx == 0
      ensures answers == Load(stored, map[])
    {
      this.subject := subject;
      list := bank[subject];
      idx := 0;
      answers := Load(stored, map[]);
    }

    /** `ex`, the exercise on screen. */
    function Current(): Exercise
      reads this
      requires Valid()
    {
      list[idx]
    }

    /** `checked`: the exercise on screen has a recorded answer. */
    predicate Checked()
      reads this
      requires Valid()
    {
      Current().id in answers
    }

    /** The card's verdict for the exercise on screen. */
    function Verdict(): Option<bool>
      reads this
      requires Valid()
    {
      CardVerdict(Current(), Lookup(answers, Current().id))
    }

    /** `progress` */
    function Progress(): int
      reads this
      requires Valid()
    {
      ProgressOf(answers, list)
    }

    /** `onValidate(val)`: records `val` for the exercise on screen. */
    method Validate(val: Answer)
      requires Valid()
      modifies this`answers
      ensures Valid()
      ensures answers == old(answers)[list[idx].id := val]
      ensures Checked() && Verdict() == CardVerdict(Current(), Some(val))
      ensures old(Progress()) <= Progress()
      ensures old(answers).Keys <= IdSet(list) ==> answers.Keys <= IdSet(list)
    {
      RecordAnswer(answers, list[idx].id, val);
      PercentMonotone(|answers.Keys|, |answers[list[idx].id := val].Keys|, |list|);
      answers := answers[list[idx].id := val];
    }

    /** "Réinitialiser": forgets every answer of the subject. */
    method Reset()
      requires Valid()
      modifies this`answers
      ensures Valid() && answers == map[]
      ensures Progress() == 0
    {
      answers := map[];
      ProgressEmpty(list);
    }

    method GoPrevious()
      requires Valid()
      modifies this`idx
      ensures Valid() && idx == Previous(old(idx))
    {
      idx := Previous(idx);
    }

    method GoNext()
      requires Valid()
      modifies this`idx
      ensures Valid() && idx == Next(old(idx), |list|)
    {
      idx := Next(idx, |list|);
    }
  }
}
