/** The mock exam (`ExamBlanc`, lines 416-555): a three-phase session
    (idle, running, done) that draws a paper of three questions per subject,
    counts a 25-minute timer down once a second, records answers, scores
    them and shows the corrected paper until "Refaire un examen" brings it
    back to idle. */
module Exam {
  import opened Common
  import opened JsText
  import opened Questions
  import opened Evaluator
  import opened Sampler

  datatype Phase = Idle | Running | Done

  /** `25 * 60` seconds. */
  const Duration: int := 25 * 60

  /** `pickRandomQuestions(3)` */
  const CountPerSubject: nat := 3

  // ---------------------------------------------------------------------------
  // The timer

  /** One interval callback: `s > 0 ? s - 1 : 0`. */
  function Countdown(s: int): (r: int)
    ensures r >= 0
    ensures s > 0 ==> r == s - 1
    ensures s <= 0 ==> r == 0
  {
    if s > 0 then s - 1 else 0
  }

  /** The timer after `k` callbacks. */
  function Ticks(s: int, k: nat): (r: int)
    ensures k > 0 ==> r >= 0
  {
    if k == 0 then s else Countdown(Ticks(s, k - 1))
  }

  /** After `k > 0` seconds the timer reads `s - k`, or 0 once that would be
      negative: it stops at zero instead of going below. */
  lemma {:induction false} TicksFloor(s: int, k: nat)
    ensures Ticks(s, k) == if k == 0 then s else Max(0, s - k)
  {
    if k > 0 {
      TicksFloor(s, k - 1);
    }
  }

  /** `timerSec % 60`: JavaScript's remainder takes the sign of the dividend. */
  function JsRem(a: int, b: int): (r: int)
    requires b > 0
    ensures a >= 0 ==> r == a % b
    ensures a < 0 ==> -b < r <= 0 && a == r - b * ((-a) / b)
  {
    if a >= 0 then a % b else -((-a) % b)
  }

  /** Two-digit field of the clock: `String(n).padStart(2, "0")`. */
  function Field(n: int): string {
    PadStart(Decimal(n), 2, '0')
  }

  /** The clock text `mm:ss`. `Math.floor(t / 60)` is Dafny's division by a
      positive divisor. */
  function Clock(t: int): string {
    Field(t / 60) + ":" + Field(JsRem(t, 60))
  }

  lemma DigitsShort(n: nat)
    requires n < 100
    ensures |Digits(n)| <= 2
  {
    if n >= 10 {
      assert Digits(n / 10) == [DigitChar(n / 10)];
    }
  }

  /** A number below 100 fills its field exactly, as its digits read back. */
  lemma FieldValue(n: int)
    requires 0 <= n < 100
    ensures |Field(n)| == 2 && AllDigits(Field(n))
    ensures DigitsValue(Field(n)) == n
  {
    var d := Digits(n);
    var p := Field(n);
    DigitsShort(n);
    var z := p[..|p| - |d|];
    assert p == z + d;
    LeadingZeros(z, d);
    DigitsRoundTrip(n);
  }

  /** While the timer is within its hundred-minute range, the clock text is
      five characters, `mm:ss`, and reading its two fields back gives the
      number of seconds left. */
  lemma ClockRoundTrip(t: int)
    requires 0 <= t < 6000
    ensures var c := Clock(t);
            |c| == 5 && c[2] == ':' && AllDigits(c[..2]) && AllDigits(c[3..]) &&
            DigitsValue(c[..2]) == t / 60 && DigitsValue(c[3..]) < 60 &&
            DigitsValue(c[..2]) * 60 + DigitsValue(c[3..]) == t
  {
    var mm, ss := t / 60, JsRem(t, 60);
    assert mm * 60 + ss == t && 0 <= mm < 100 && 0 <= ss < 60;
    FieldValue(mm);
    FieldValue(ss);
    FieldsRead(Field(mm), Field(ss));
  }

  lemma FieldsRead(f: string, g: string)
    requires |f| == 2 && |g| == 2
    ensures var c := f + ":" + g;
            |c| == 5 && c[2] == ':' && c[..2] == f && c[3..] == g
  {
    var c := f + ":" + g;
    assert c[..2] == f;
    assert c[3..] == g;
  }

  lemma ClockAtStart()
    ensures Clock(Duration) == "25:00"
  {
    assert Duration / 60 == 25 && JsRem(Duration, 60) == 0;
    assert Digits(25) == Digits(2) + "5" == "25";
    assert Field(25) == "25";
    assert Field(0) == "00";
  }

  // ---------------------------------------------------------------------------
  // The score

  /** One question's contribution to the score. */
  function Point(q: PaperItem, answers: map<string, Answer>): nat {
    if ScoresPoint(q.ex, Lookup(answers, q.ex.id)) then 1 else 0
  }

  /** The `score` memo: the questions of the paper that earn their point. */
  function ScoreOf(paper: seq<PaperItem>, answers: map<string, Answer>): (s: nat)
    ensures s <= |paper|
  {
    if paper == [] then 0
    else ScoreOf(paper[..|paper| - 1], answers) + Point(paper[|paper| - 1], answers)
  }

  /** The number of cards the review colours green, as written. */
  function GoodCount(paper: seq<PaperItem>, answers: map<string, Answer>): (g: nat)
    ensures g <= |paper|
  {
    if paper == [] then 0
    else
      var q := paper[|paper| - 1];
      GoodCount(paper[..|paper| - 1], answers) + if ReviewGood(q.ex, Lookup(answers, q.ex.id)) then 1 else 0
  }

  /** The review's colour for each card of the paper, green exactly for the
      questions the score counts. */
  function ReviewColours(paper: seq<PaperItem>, answers: map<string, Answer>): (green: seq<bool>)
    ensures |green| == |paper|
    ensures forall i {:trigger green[i]} :: 0 <= i < |paper| ==> green[i] == ScoresPoint(paper[i].ex, Lookup(answers, paper[i].ex.id))
  {
    seq(|paper|, i requires 0 <= i < |paper| => ReviewMark(paper[i].ex, Lookup(answers, paper[i].ex.id)))
  }

  /** A paper none of whose questions has an answer scores zero. */
  lemma {:induction false} ScoreUnanswered(paper: seq<PaperItem>, answers: map<string, Answer>)
    requires forall i :: 0 <= i < |paper| ==> paper[i].ex.id !in answers
    ensures ScoreOf(paper, answers) == 0
  {
    if paper != [] {
      ScoreUnanswered(paper[..|paper| - 1], answers);
    }
  }

  /** A paper whose every question is answered correctly scores its length. */
  lemma {:induction false} ScoreAllCorrect(paper: seq<PaperItem>, answers: map<string, Answer>)
    requires ScoredUpTo(paper, |paper|, answers)
    ensures ScoreOf(paper, answers) == |paper|
  {
    if paper != [] {
      ScoreAllCorrect(paper[..|paper| - 1], answers);
    }
  }

  /** The review never shows fewer green cards than the score counts, and
      once every question has an answer the two agree. */
  lemma {:induction false} ScoreVersusReview(paper: seq<PaperItem>, answers: map<string, Answer>)
    ensures ScoreOf(paper, answers) <= GoodCount(paper, answers)
    ensures (forall i :: 0 <= i < |paper| ==> paper[i].ex.id in answers) ==>
            ScoreOf(paper, answers) == GoodCount(paper, answers)
  {
    if paper != [] {
      var q := paper[|paper| - 1];
      ScoreVersusReview(paper[..|paper| - 1], answers);
      if q.ex.id in answers {
        ReviewAgreesWhenAnswered(q.ex, answers[q.ex.id]);
      }
    }
  }

  /** Answering a question whose id no question of the paper has leaves the
      score unchanged. */
  lemma {:induction false} ScoreIgnoresOthers(paper: seq<PaperItem>, answers: map<string, Answer>, id: string, val: Answer)
    requires forall j :: 0 <= j < |paper| ==> paper[j].ex.id != id
    ensures ScoreOf(paper, answers[id := val]) == ScoreOf(paper, answers)
  {
    if paper != [] {
      ScoreIgnoresOthers(paper[..|paper| - 1], answers, id, val);
    }
  }

  /** Dropping the last question of a paper without repeated ids leaves a
      paper without repeated ids. */
  lemma UniqueDropLast(paper: seq<PaperItem>)
    requires UniquePaperIds(paper) && paper != []
    ensures UniquePaperIds(paper[..|paper| - 1])
  {
    var k := |paper| - 1;
    MapPrefix(ItemId, paper, k);
    PrefixSubMultiset(ItemIds(paper), k);
    NoDuplicatesSub(ItemIds(paper[..k]), ItemIds(paper));
  }

  /** On a paper without repeated ids, answering question `i` changes the
      score by that question's change of point and by nothing else. */
  lemma {:induction false} ScoreAfterAnswer(paper: seq<PaperItem>, answers: map<string, Answer>, i: nat, val: Answer)
    requires UniquePaperIds(paper) && i < |paper|
    ensures var after := answers[paper[i].ex.id := val];
            ScoreOf(paper, after) + Point(paper[i], answers) == ScoreOf(paper, answers) + Point(paper[i], after)
  {
    var id := paper[i].ex.id;
    var after := answers[id := val];
    var prev := paper[..|paper| - 1];
    var last := paper[|paper| - 1];
    UniqueDropLast(paper);
    assert ScoreOf(paper, answers) == ScoreOf(prev, answers) + Point(last, answers);
    assert ScoreOf(paper, after) == ScoreOf(prev, after) + Point(last, after);
    if i == |paper| - 1 {
      forall j | 0 <= j < |prev| ensures prev[j].ex.id != id {
        UniqueIdsDistinct(paper, j, i);
        assert prev[j] == paper[j];
      }
      ScoreIgnoresOthers(prev, answers, id, val);
    } else {
      assert prev[i] == paper[i];
      ScoreAfterAnswer(prev, answers, i, val);
      UniqueIdsDistinct(paper, i, |paper| - 1);
      assert Point(last, after) == Point(last, answers);
    }
  }

  // ---------------------------------------------------------------------------
  // Answered questions

  /** While only the paper's questions receive answers, `answeredCount`
      never exceeds `total`. */
  lemma AnsweredAtMostTotal(paper: seq<PaperItem>, answers: map<string, Answer>)
    requires forall id | id in answers :: id in ItemIds(paper)
    ensures |answers.Keys| <= |paper|
  {
    ElementsSize(ItemIds(paper));
    SubsetSize(answers.Keys, Elements(ItemIds(paper)));
  }

  // ---------------------------------------------------------------------------
  // The session

  class ExamSession {
    const bank: Bank
    var state: Phase
    var timerSec: int
    var paper: seq<PaperItem>
    var answers: map<string, Answer>

    /** Outside the idle view the paper has the drawn size and repeats no id
        when the bank does not; the timer lies between 0 and 25 minutes; and only the
        paper's questions have answers. */
    ghost predicate Valid()
      reads this
    {
      && Complete(bank)
      && (state != Idle ==>
            && 0 <= timerSec <= Duration
            && |paper| == Picked(bank, CountPerSubject, Subjects)
            && (UniqueBank(bank) ==> UniquePaperIds(paper))
            && (forall id | id in answers :: id in ItemIds(paper)))
    }

    /** The three `useState` hooks that restore the timer, the paper and the
        answers from storage; the phase always starts idle. */
    constructor (bank: Bank, storedTimer: Option<int>, storedPaper: Option<seq<PaperItem>>,
                 storedAnswers: Option<map<string, Answer>>)
      requires Complete(bank)
      ensures Valid() && this.bank == bank && state == Idle
      ensures timerSec == Load(storedTimer, Duration)
      ensures paper == Load(storedPaper, [])
      ensures answers == Load(storedAnswers, map[])
    {
      this.bank := bank;
      state := Idle;
      timerSec := Load(storedTimer, Duration);
      paper := Load(storedPaper, []);
      answers := Load(storedAnswers, map[]);
    }

    /** `total` */
    function Total(): nat
      reads this
    {
      |paper|
    }

    /** `answeredCount`, shown as "answered / total" while running. */
    function AnsweredCount(): (n: nat)
      reads this
      requires Valid()
      ensures state != Idle ==> n <= Total()
    {
      if state != Idle then AnsweredAtMostTotal(paper, answers); |answers.Keys| else |answers.Keys|
    }

    /** "Démarrer": a fresh paper, no answers, a full timer, running. */
    method Start(rand: nat -> int)
      requires Valid() && state == Idle
      modifies this
      ensures Valid() && state == Running
      ensures paper == Paper(bank, CountPerSubject, rand)
      ensures answers == map[] && timerSec == Duration
    {
      paper := PickRandomQuestions(bank, CountPerSubject, rand);
      answers := map[];
      timerSec := Duration;
      state := Running;
      PaperSize(bank, CountPerSubject, rand);
      if UniqueBank(bank) {
        PaperUniqueIds(bank, CountPerSubject, rand);
      }
    }

    /** One second of the running interval. */
    method Tick()
      requires Valid() && state == Running
      modifies this`timerSec
      ensures Valid() && timerSec == Countdown(old(timerSec))
    {
      timerSec := Countdown(timerSec);
    }

    /** Validating the card of question `i` while running. */
    method Submit(i: nat, val: Answer)
      requires Valid() && state == Running && i < |paper|
      modifies this`answers
      ensures Valid() && answers == old(answers)[paper[i].ex.id := val]
    {
      assert ItemIds(paper)[i] == paper[i].ex.id;
      answers := answers[paper[i].ex.id := val];
    }

    /** "Terminer" */
    method Stop()
      requires Valid() && state == Running
      modifies this`state
      ensures Valid() && state == Done
    {
      state := Done;
    }

    /** "Refaire un examen": back to the idle view; the last paper, answers
        and timer stay in storage. */
    method Redo()
      requires Valid() && state == Done
      modifies this`state
      ensures Valid() && state == Idle
    {
      state := Idle;
    }

    /** The `score` memo's loop. */
    method Score() returns (s: nat)
      ensures s == ScoreOf(paper, answers)
    {
      s := 0;
      for i := 0 to |paper|
        invariant s == ScoreOf(paper[..i], answers)
      {
        assert paper[..i + 1][..i] == paper[..i];
        var q := paper[i];
        if q.ex.id in answers {
          var a := answers[q.ex.id];
          match q.ex.kind {
            case Qcm(_, answer) =>
              if a == Choice(answer) {
                s := s + 1;
              }
            case Rc(acceptable, _) =>
              if Accepts(acceptable, JsString(a)) {
                s := s + 1;
              }
          }
        }
      }
      assert paper[..|paper|] == paper;
    }
  }

  // ---------------------------------------------------------------------------
  // Whole sessions

  /** An exercise some answer can score on: any multiple-choice question, or
      a short-answer question with at least one acceptable answer. */
  predicate Answerable(ex: Exercise) {
    ex.kind.Qcm? || |ex.kind.acceptable| > 0
  }

  function CorrectAnswer(ex: Exercise): (a: Answer)
    requires Answerable(ex)
    ensures ScoresPoint(ex, Some(a))
  {
    match ex.kind
    case Qcm(_, answer) => Choice(answer)
    case Rc(acceptable, _) => Text(acceptable[0])
  }

  /** The first `i` questions of `paper` hold answers that earn their point. */
  ghost predicate ScoredUpTo(paper: seq<PaperItem>, i: nat, answers: map<string, Answer>)
    requires i <= |paper|
  {
    forall j :: 0 <= j < i ==> ScoresPoint(paper[j].ex, Lookup(answers, paper[j].ex.id))
  }

  /** Recording a scoring answer for question `i` extends the run of scored
      questions before it by one. */
  lemma ScoredStep(paper: seq<PaperItem>, answers: map<string, Answer>, i: nat, val: Answer)
    requires UniquePaperIds(paper) && i < |paper|
    requires ScoredUpTo(paper, i, answers)
    requires ScoresPoint(paper[i].ex, Some(val))
    ensures ScoredUpTo(paper, i + 1, answers[paper[i].ex.id := val])
  {
    var id := paper[i].ex.id;
    var after := answers[id := val];
    forall j | 0 <= j < i + 1 ensures ScoresPoint(paper[j].ex, Lookup(after, paper[j].ex.id)) {
      var other := paper[j].ex.id;
      if j < i {
        UniqueIdsDistinct(paper, j, i);
        assert Lookup(after, other) == Lookup(answers, other);
      } else {
        assert Lookup(after, other) == Some(val);
      }
    }
  }

  /** Answers every question of a running exam correctly. */
  method AnswerAll(exam: ExamSession)
    requires exam.Valid() && exam.state == Running
    requires UniquePaperIds(exam.paper)
    requires forall j :: 0 <= j < |exam.paper| ==> Answerable(exam.paper[j].ex)
    modifies exam
    ensures exam.Valid() && exam.state == Running
    ensures exam.paper == old(exam.paper)
    ensures ScoredUpTo(exam.paper, |exam.paper|, exam.answers)
  {
    ghost var paper := exam.paper;
    for i := 0 to |exam.paper|
      invariant exam.Valid() && exam.state == Running
      invariant exam.paper == paper
      invariant ScoredUpTo(paper, i, exam.answers)
    {
      var val := CorrectAnswer(exam.paper[i].ex);
      ghost var before := exam.answers;
      exam.Submit(i, val);
      ScoredStep(paper, before, i, val);
    }
  }

  /** Lets a running exam's timer tick `k` times. */
  method Wait(exam: ExamSession, k: nat)
    requires exam.Valid() && exam.state == Running
    modifies exam
    ensures exam.Valid() && exam.state == Running
    ensures exam.timerSec == Ticks(old(exam.timerSec), k)
  {
    for j := 0 to k
      invariant exam.Valid() && exam.state == Running
      invariant exam.timerSec == Ticks(old(exam.timerSec), j)
    {
      exam.Tick();
    }
  }

  /** Starting, answering every question correctly and finishing scores the
      full paper, three questions per subject (fewer where a subject has
      fewer exercises), provided ids are unique in the bank. */
  method PerfectRun(bank: Bank, rand: nat -> int) returns (score: nat, total: nat)
    requires UniqueBank(bank)
    requires forall s: Subject, q | q in bank[s] :: Answerable(q)
    ensures total == Picked(bank, CountPerSubject, Subjects) && score == total
  {
    var exam := new ExamSession(bank, None, None, None);
    exam.Start(rand);
    PaperFromBank(bank, CountPerSubject, rand);
    assert forall j :: 0 <= j < |exam.paper| ==> exam.paper[j] in exam.paper;
    AnswerAll(exam);
    exam.Stop();
    ScoreAllCorrect(exam.paper, exam.answers);
    score := exam.Score();
    total := exam.Total();
  }

  /** Starting and finishing at once scores zero out of the full paper. */
  method BlankRun(bank: Bank, rand: nat -> int) returns (score: nat, total: nat)
    requires Complete(bank)
    ensures total == Picked(bank, CountPerSubject, Subjects) && score == 0
  {
    var exam := new ExamSession(bank, None, None, None);
    exam.Start(rand);
    exam.Stop();
    ScoreUnanswered(exam.paper, exam.answers);
    score := exam.Score();
    total := exam.Total();
  }

  /** Left running for `k` seconds, the exam's timer reads 25 minutes minus
      `k` seconds, and stays at zero once the time is up. */
  method LeftRunning(bank: Bank, rand: nat -> int, k: nat) returns (timer: int)
    requires Complete(bank)
    ensures timer == Max(0, Duration - k)
  {
    var exam := new ExamSession(bank, None, None, None);
    exam.Start(rand);
    Wait(exam, k);
    TicksFloor(Duration, k);
    timer := exam.timerSec;
  }
}
