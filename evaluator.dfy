/** The correctness rule for a submitted answer. The source writes it out
    three times, with small differences in how a missing or numeric answer
    reaches the short-answer comparison:
    - the exercise card (line 273), whose verdict colours the feedback box;
    - the exam score (lines 445-448), which skips unanswered questions;
    - the exam review (lines 521-523), which colours each corrected card. */
module Evaluator {
  import opened Common
  import opened JsText
  import opened Questions

  /** `acceptable.some((a) => a.toLowerCase().trim() === s.toLowerCase().trim())` */
  function Accepts(acceptable: seq<string>, s: string): bool {
    exists k :: 0 <= k < |acceptable| && Normalize(acceptable[k]) == Normalize(s)
  }

  /** `String(a)` for a recorded answer. */
  function JsString(a: Answer): string {
    match a
    case Text(s) => s
    case Choice(i) => Decimal(i)
  }

  /** Whether a question earns its point in the exam score (lines 445-448):
      an unanswered question never does; a multiple-choice answer must be
      the very index `q.answer` (strict equality, so text never matches); a
      short answer is compared as text after `String(...)`. */
  function ScoresPoint(q: Exercise, got: Option<Answer>): bool {
    match got
    case None => false
    case Some(a) =>
      match q.kind
      case Qcm(_, answer) => a == Choice(answer)
      case Rc(acceptable, _) => Accepts(acceptable, JsString(a))
  }

  /** The exercise card's `correct` (line 273). `None` stands for the
      TypeError that `(userAnswer ?? "").toLowerCase()` raises when a number
      is recorded for a short-answer question; `some` only evaluates it when
      there is at least one acceptable answer. */
  function CardVerdict(ex: Exercise, userAnswer: Option<Answer>): Option<bool> {
    match ex.kind
    case Qcm(_, answer) => Some(userAnswer == Some(Choice(answer)))
    case Rc(acceptable, _) =>
      match userAnswer
      case None => Some(Accepts(acceptable, ""))
      case Some(Text(s)) => Some(Accepts(acceptable, s))
      case Some(Choice(_)) => if |acceptable| == 0 then Some(false) else None
  }

  /** The review's `good` as written (line 523): `String(got)` turns a
      missing answer into the text "undefined". */
  function ReviewGood(q: Exercise, got: Option<Answer>): bool {
    match q.kind
    case Qcm(_, answer) => got == Some(Choice(answer))
    case Rc(acceptable, _) =>
      Accepts(acceptable, match got case None => "undefined" case Some(a) => JsString(a))
  }

  /** The review's colouring as evidently intended: an unanswered question is
      never marked good. */
  function ReviewMark(q: Exercise, got: Option<Answer>): (good: bool)
    ensures good == ScoresPoint(q, got)
  {
    got.Some? && ReviewGood(q, got)
  }

  // ---------------------------------------------------------------------------
  // Multiple choice

  /** A multiple-choice question is answered correctly exactly when the
      recorded answer is its answer index, at all three places; every other
      index, any text and a missing answer are incorrect. */
  lemma QcmCorrectIff(ex: Exercise, got: Option<Answer>)
    requires ex.kind.Qcm?
    ensures ScoresPoint(ex, got) <==> got == Some(Choice(ex.kind.answer))
    ensures CardVerdict(ex, got) == Some(ScoresPoint(ex, got))
    ensures ReviewGood(ex, got) == ScoresPoint(ex, got)
  {
  }

  /** For every answer the user interface can record (an index for a
      multiple-choice question, text for a short-answer one) the card and
      the score agree. */
  lemma SitesAgree(ex: Exercise, a: Answer)
    requires ex.kind.Qcm? ==> a.Choice?
    requires ex.kind.Rc? ==> a.Text?
    ensures CardVerdict(ex, Some(a)) == Some(ScoresPoint(ex, Some(a)))
  {
  }

  /** The review and the score agree on every answered question, whatever
      was recorded; they differ only on unanswered ones. */
  lemma ReviewAgreesWhenAnswered(ex: Exercise, a: Answer)
    ensures ReviewGood(ex, Some(a)) == ScoresPoint(ex, Some(a))
  {
  }

  // ---------------------------------------------------------------------------
  // Short answer

  /** Two strings that differ at most in the case of their letters. */
  ghost predicate SameUpToCase(x: string, y: string) {
    |x| == |y| && forall i :: 0 <= i < |x| ==> LowerChar(x[i]) == LowerChar(y[i])
  }

  lemma SameUpToCaseIsSameLower(x: string, y: string)
    ensures SameUpToCase(x, y) <==> Lower(x) == Lower(y)
  {
    if Lower(x) == Lower(y) {
      assert |x| == |Lower(x)| == |Lower(y)| == |y|;
      forall i | 0 <= i < |x| ensures LowerChar(x[i]) == LowerChar(y[i]) {
        assert Lower(x)[i] == Lower(y)[i];
      }
    }
  }

  lemma SameNormalForm(x: string, y: string)
    ensures Normalize(x) == Normalize(y) <==> SameUpToCase(Trim(x), Trim(y))
  {
    NormalizeIsLowerOfTrim(x);
    NormalizeIsLowerOfTrim(y);
    SameUpToCaseIsSameLower(Trim(x), Trim(y));
  }

  /** The short-answer rule, restated: a submission is accepted exactly when,
      with its surrounding white space removed, it equals some acceptable
      answer (likewise stripped) up to the case of its letters. */
  lemma AcceptsIff(acceptable: seq<string>, s: string)
    ensures Accepts(acceptable, s) <==>
            exists k :: 0 <= k < |acceptable| && SameUpToCase(Trim(s), Trim(acceptable[k]))
  {
    forall k | 0 <= k < |acceptable|
      ensures Normalize(acceptable[k]) == Normalize(s) <==> SameUpToCase(Trim(s), Trim(acceptable[k]))
    {
      SameNormalForm(s, acceptable[k]);
    }
  }

  /** Any variant of an acceptable answer that differs in letter case and in
      surrounding white space earns the point. */
  lemma VariantScores(q: Exercise, k: nat, before: string, v: string, after: string)
    requires q.kind.Rc? && k < |q.kind.acceptable|
    requires AllSpace(before) && AllSpace(after)
    requires Lower(v) == Lower(q.kind.acceptable[k])
    ensures ScoresPoint(q, Some(Text(before + v + after)))
  {
    var t := q.kind.acceptable[k];
    LowerConcat(before + v, after);
    LowerConcat(before, v);
    assert AllSpace(Lower(before)) && AllSpace(Lower(after));
    TrimIgnoresPadding(Lower(before), Lower(v), Lower(after));
  }

  /** A numeric answer recorded for a short-answer question is scored as its
      decimal text. */
  lemma NumberScoredAsText(q: Exercise, i: int)
    requires q.kind.Rc?
    ensures ScoresPoint(q, Some(Choice(i))) <==>
            exists k :: 0 <= k < |q.kind.acceptable| && Normalize(q.kind.acceptable[k]) == Decimal(i)
  {
    DecimalIsNormal(i);
  }

  /** The worked example: a short-answer question accepting "8", "x=8" and
      "x = 8". A padded " 8 " and an upper-case "X=8" score; "7" does not. */
  ghost predicate IsExample(q: Exercise) {
    q.kind.Rc? && q.kind.acceptable == ["8", "x=8", "x = 8"]
  }

  lemma ExamplePaddedScores(q: Exercise)
    requires IsExample(q)
    ensures ScoresPoint(q, Some(Text(" 8 ")))
  {
    var padded: string := " 8 ";
    assert padded == " " + "8" + " ";
    assert Lower(padded) == padded;
    assert Lower("8") == "8";
    assert AllSpace(" ");
    TrimIgnoresPadding(" ", "8", " ");
    assert Normalize(padded) == Trim("8") == Normalize(q.kind.acceptable[0]);
  }

  lemma ExampleUpperCaseScores(q: Exercise)
    requires IsExample(q)
    ensures ScoresPoint(q, Some(Text("X=8")))
  {
    assert Lower("X=8") == Lower(q.kind.acceptable[1]);
  }

  /** A text no acceptable answer normalises to is refused. */
  lemma RefusedByAll(acceptable: seq<string>, s: string)
    requires forall k :: 0 <= k < |acceptable| ==> Normalize(acceptable[k]) != Normalize(s)
    ensures !Accepts(acceptable, s)
  {
  }

  /** None of the example's acceptable answers normalises to "7". */
  lemma SevenMatchesNone()
    ensures Normalize("8") != Normalize("7")
    ensures Normalize("x=8") != Normalize("7")
    ensures Normalize("x = 8") != Normalize("7")
  {
    NormalizeFixed("7");
    NormalizeFixed("8");
    NormalizeFixed("x=8");
    NormalizeFixed("x = 8");
    assert Normalize("8") != Normalize("7") by {
      assert "8"[0] != "7"[0];
    }
    assert Normalize("x=8") != Normalize("7") by {
      assert |"x=8"| != |"7"|;
    }
    assert Normalize("x = 8") != Normalize("7") by {
      assert |"x = 8"| != |"7"|;
    }
  }

  lemma ExampleWrongValueFails(q: Exercise)
    requires IsExample(q)
    ensures !ScoresPoint(q, Some(Text("7")))
  {
    SevenMatchesNone();
    var acc := q.kind.acceptable;
    forall k | 0 <= k < |acc| ensures Normalize(acc[k]) != Normalize("7") {
      if k == 0 {
        assert acc[k] == "8";
      } else if k == 1 {
        assert acc[k] == "x=8";
      } else {
        assert acc[k] == "x = 8";
      }
    }
    RefusedByAll(acc, "7");
  }

  // ---------------------------------------------------------------------------
  // The review colours an unanswered question green

  /** As written, the review marks an unanswered short-answer question as
      good when one of its acceptable answers reads "undefined" in any case,
      although the score gives it no point. */
  lemma ReviewShowsUnansweredAsGood()
    ensures var q := Exercise("x", "", Rc(["Undefined"], None), "");
            ReviewGood(q, None) && !ScoresPoint(q, None) && !ReviewMark(q, None)
  {
    var acc: seq<string> := ["Undefined"];
    assert Lower(acc[0]) == Lower("undefined");
    assert Normalize(acc[0]) == Normalize("undefined");
  }
}
