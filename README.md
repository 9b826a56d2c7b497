# Brevet Fun Lab: the exercise and exam engine, in Dafny

Brevet Fun Lab is a single-page practice site for the French *diplôme
national du brevet*. It has four subjects: Français, Maths,
Histoire-Géo-EMC and Sciences. This project models the engine behind the
page and proves properties of it:

- **Answer evaluator** (`Evaluator`). A multiple-choice answer must be the
  exercise's answer index. A short answer must equal one of the acceptable
  answers once both sides go through `toLowerCase().trim()`. The page states
  this rule three times, and the three copies differ on missing and numeric
  answers:
  - the exercise card's feedback;
  - the exam score;
  - the exam review.
- **JavaScript string built-ins** (`JsText`) that the rule and the clock
  use: `toLowerCase`, `trim`, `String(n)` for an integer and `padStart`.
- **Practice panel** (`Practice.SubjectPanel`). It holds one subject's
  answer map, which "Valider" overwrites one key of and "Réinitialiser"
  empties. It also holds the rounded progress percentage and the clamped
  "Précédent"/"Suivant" navigation.
- **Paper sampler** (`Sampler`):
  - `shuffle` sorts the entries by a random key.
  - `pickRandomQuestions` takes the first `min(n, len)` exercises of each
    shuffled subject and tags them with their subject. It then shuffles the
    whole pack.
- **Mock exam** (`Exam.ExamSession`). Its phases are idle, running and
  done:
  - "Démarrer" draws a paper, clears the answers and sets the timer to 25
    minutes.
  - The timer ticks once a second and stops at zero. The session stays
    running until "Terminer".
  - The `score` memo counts the correct answers.
  - The clock shows `mm:ss`.
  - "Refaire un examen" returns to idle.

`Questions` holds the data model: subjects, exercises of the two kinds
(`qcm` and `rc`), recorded answers, paper items and the bank.
`Common` holds the generic sequence, multiset and set lemmas.

Randomness is a parameter. `rand: nat -> int` is a stream of sort keys,
and a shuffle that starts at draw `from` gives its i-th entry the key
`rand(from + i)`. `pickRandomQuestions` consumes the draws in program order:
the four subject shuffles in `SUBJECTS` order, then the final shuffle.
Storage reads arrive as `Option` values. `None` stands for a missing key,
a stored `null` or unparsable text.

The session's last step is explicit: "Refaire un examen" (line 550),
modelled as `Redo`, brings a finished exam back to idle, and "Démarrer" is
only offered in the idle view.

## Model

All source paths refer to `brevet_fun_lab_a_playful_dnb_practice_site_react_tailwind-1.jsx`.

`Exam.AnswerAll` and `Exam.Wait` drive a session through user actions (answering every card, letting seconds pass) for PerfectRun and LeftRunning; they model no function of the page and have no row.

| member | source | states |
|---|---|---|
| Questions.Lookup | brevet_fun_lab_a_playful_dnb_practice_site_react_tailwind-1.jsx:343 | `answers[id]`, where a missing key reads as `undefined` (`None`); RecordAnswer states how it changes under `{ ...answers, [id]: val }` |
| Questions.Load | brevet_fun_lab_a_playful_dnb_practice_site_react_tailwind-1.jsx:222-229 | `load(k, fallback)`: the stored value, or the fallback when the key is missing, holds `null` or does not parse; the constructors use it for their initial state |
| JsText.IsSpace | brevet_fun_lab_a_playful_dnb_practice_site_react_tailwind-1.jsx:273 | the code units `trim` removes: JavaScript's WhiteSpace (tab, vertical tab, form feed, space, no-break space, the byte-order mark and every space separator) and LineTerminator (LF, CR, U+2028, U+2029); TrimStart and TrimEnd state what is removed in its terms |
| JsText.LowerChar | brevet_fun_lab_a_playful_dnb_practice_site_react_tailwind-1.jsx:273 | `toLowerCase` on one code unit moves an upper-case Latin-1 letter down by 0x20 and returns every other character unchanged; the result is never upper-case and is white space exactly when the input is |
| JsText.Lower | brevet_fun_lab_a_playful_dnb_practice_site_react_tailwind-1.jsx:273 | `s.toLowerCase()` has the length of `s` and lowers it character by character |
| JsText.TrimStart | brevet_fun_lab_a_playful_dnb_practice_site_react_tailwind-1.jsx:273 | `trimStart` never lengthens its input, removes only white space and returns a result that does not start with white space |
| JsText.TrimStartSuffix | brevet_fun_lab_a_playful_dnb_practice_site_react_tailwind-1.jsx:273 | what `trimStart` keeps is a suffix of its input |
| JsText.TrimEnd | brevet_fun_lab_a_playful_dnb_practice_site_react_tailwind-1.jsx:273 | `trimEnd` never lengthens its input, removes only white space and returns a result that does not end with white space |
| JsText.TrimEndPrefix | brevet_fun_lab_a_playful_dnb_practice_site_react_tailwind-1.jsx:273 | what `trimEnd` keeps is a prefix of its input |
| JsText.Trim | brevet_fun_lab_a_playful_dnb_practice_site_react_tailwind-1.jsx:273 | `s.trim()` is `trimEnd` after `trimStart`; its behaviour is stated by TrimIgnoresPadding and TrimIdempotent |
| JsText.Normalize | brevet_fun_lab_a_playful_dnb_practice_site_react_tailwind-1.jsx:273 | `s.toLowerCase().trim()`, the normal form both sides of a short-answer comparison are brought to; stated by NormalizeIsLowerOfTrim, NormalizeIdempotent and NormalizeFixed |
| JsText.TrimIgnoresPadding | brevet_fun_lab_a_playful_dnb_practice_site_react_tailwind-1.jsx:273 | white space added around a string does not change its trimmed form |
| JsText.TrimIdempotent | brevet_fun_lab_a_playful_dnb_practice_site_react_tailwind-1.jsx:273 | trimming twice is trimming once |
| JsText.LowerTrimStart | brevet_fun_lab_a_playful_dnb_practice_site_react_tailwind-1.jsx:273 | lower-casing commutes with `trimStart` |
| JsText.LowerTrimEnd | brevet_fun_lab_a_playful_dnb_practice_site_react_tailwind-1.jsx:273 | lower-casing commutes with `trimEnd` |
| JsText.NormalizeIsLowerOfTrim | brevet_fun_lab_a_playful_dnb_practice_site_react_tailwind-1.jsx:273 | `s.toLowerCase().trim()` equals trimming first and then lower-casing |
| JsText.NormalizeIdempotent | brevet_fun_lab_a_playful_dnb_practice_site_react_tailwind-1.jsx:273 | the comparison's normal form is a fixed point |
| JsText.NormalizeFixed | brevet_fun_lab_a_playful_dnb_practice_site_react_tailwind-1.jsx:273 | a string with no upper-case letter and no white space at its ends is its own normal form |
| JsText.Digits | brevet_fun_lab_a_playful_dnb_practice_site_react_tailwind-1.jsx:448 | `String(n)` for a natural number is a non-empty digit string with no leading zero |
| JsText.Decimal | brevet_fun_lab_a_playful_dnb_practice_site_react_tailwind-1.jsx:448 | `String(n)` for an integer: a minus sign for a negative number, then the digits of its magnitude; DigitsRoundTrip and DecimalIsNormal state what it yields |
| JsText.DigitsRoundTrip | brevet_fun_lab_a_playful_dnb_practice_site_react_tailwind-1.jsx:448 | reading the digits of `String(n)` back gives `n` |
| JsText.LeadingZeros | brevet_fun_lab_a_playful_dnb_practice_site_react_tailwind-1.jsx:454-455 | zeros added in front of a digit string do not change its value |
| JsText.DecimalIsNormal | brevet_fun_lab_a_playful_dnb_practice_site_react_tailwind-1.jsx:448 | the text of an integer is unchanged by `toLowerCase().trim()` |
| JsText.PadStart | brevet_fun_lab_a_playful_dnb_practice_site_react_tailwind-1.jsx:454-455 | `padStart(len, fill)` has length `max(len, \|s\|)`, ends with `s` and is `fill` before it |
| Evaluator.QcmCorrectIff | brevet_fun_lab_a_playful_dnb_practice_site_react_tailwind-1.jsx:273 | (line 273, and likewise at lines 447 and 523) a multiple-choice question is answered correctly exactly when the recorded answer is its answer index, at all three places; every other index, any text and a missing answer are incorrect |
| Evaluator.Accepts | brevet_fun_lab_a_playful_dnb_practice_site_react_tailwind-1.jsx:273 | `acceptable.some((a) => a.toLowerCase().trim() === s.toLowerCase().trim())`; AcceptsIff characterises it in both directions |
| Evaluator.JsString | brevet_fun_lab_a_playful_dnb_practice_site_react_tailwind-1.jsx:448 | `String(a)` for a recorded answer: the text itself, or the decimal text of a choice index; NumberScoredAsText states its effect on the score |
| Evaluator.ScoresPoint | brevet_fun_lab_a_playful_dnb_practice_site_react_tailwind-1.jsx:445-448 | whether a question earns its point in the score: never when unanswered, by strict equality with the answer index for `qcm`, and by Accepts on `String(a)` for `rc`; its partners are QcmCorrectIff, AcceptsIff and ReviewMark |
| Evaluator.CardVerdict | brevet_fun_lab_a_playful_dnb_practice_site_react_tailwind-1.jsx:273 | the card's `correct`, with the `TypeError` on a number for `rc` as `None`; SitesAgree ties it to the score |
| Evaluator.ReviewGood | brevet_fun_lab_a_playful_dnb_practice_site_react_tailwind-1.jsx:521-523 | the review's `good` as written, with `String(undefined)` for a missing answer; ReviewAgreesWhenAnswered and ReviewShowsUnansweredAsGood tie it to the score |
| Evaluator.SitesAgree | brevet_fun_lab_a_playful_dnb_practice_site_react_tailwind-1.jsx:445-448 | (line 273 against lines 445-448) for the answers the page can record (an index for `qcm`, text for `rc`) the card's verdict is the score's |
| Evaluator.ReviewAgreesWhenAnswered | brevet_fun_lab_a_playful_dnb_practice_site_react_tailwind-1.jsx:521-523 | (lines 521-523 against lines 445-448) on an answered question the review's colour and the score's point agree, whatever was recorded |
| Evaluator.SameUpToCaseIsSameLower | brevet_fun_lab_a_playful_dnb_practice_site_react_tailwind-1.jsx:273 | two strings have the same lower-case form exactly when they differ only in the case of their letters |
| Evaluator.SameNormalForm | brevet_fun_lab_a_playful_dnb_practice_site_react_tailwind-1.jsx:273 | two strings have the same normal form exactly when their trimmed forms differ only in case |
| Evaluator.AcceptsIff | brevet_fun_lab_a_playful_dnb_practice_site_react_tailwind-1.jsx:273 | (line 273, and the score at line 448) a short answer is accepted exactly when its trimmed form equals some trimmed acceptable answer up to case; nothing looser is accepted |
| Evaluator.VariantScores | brevet_fun_lab_a_playful_dnb_practice_site_react_tailwind-1.jsx:448 | any variant of an acceptable answer in another case and with added surrounding white space earns the point |
| Evaluator.NumberScoredAsText | brevet_fun_lab_a_playful_dnb_practice_site_react_tailwind-1.jsx:448 | a number recorded for a short-answer question scores exactly when its decimal text is the normal form of an acceptable answer |
| Evaluator.RefusedByAll | brevet_fun_lab_a_playful_dnb_practice_site_react_tailwind-1.jsx:448 | helper of ExampleWrongValueFails: a text whose normal form is that of no acceptable answer is refused |
| Evaluator.ExamplePaddedScores | brevet_fun_lab_a_playful_dnb_practice_site_react_tailwind-1.jsx:125 | for the exercise accepting "8", "x=8" and "x = 8", the answer " 8 " scores |
| Evaluator.ExampleUpperCaseScores | brevet_fun_lab_a_playful_dnb_practice_site_react_tailwind-1.jsx:125 | for the same exercise, "X=8" scores |
| Evaluator.ExampleWrongValueFails | brevet_fun_lab_a_playful_dnb_practice_site_react_tailwind-1.jsx:125 | for the same exercise, "7" does not score |
| Evaluator.ReviewShowsUnansweredAsGood | brevet_fun_lab_a_playful_dnb_practice_site_react_tailwind-1.jsx:521-523 | the review as written colours an unanswered question green when an acceptable answer reads "undefined", although it scores no point |
| Evaluator.ReviewMark | brevet_fun_lab_a_playful_dnb_practice_site_react_tailwind-1.jsx:521-523 | the corrected review colour is green exactly when the score counts the question |
| Sampler.Draw | brevet_fun_lab_a_playful_dnb_practice_site_react_tailwind-1.jsx:220 | `arr.map((v) => [key, v])` keeps the length, and dropping the keys gives back `arr` |
| Sampler.Insert | brevet_fun_lab_a_playful_dnb_practice_site_react_tailwind-1.jsx:220 | one insertion step of the sort adds exactly the inserted entry |
| Sampler.InsertSorted | brevet_fun_lab_a_playful_dnb_practice_site_react_tailwind-1.jsx:220 | inserting into a key-sorted list keeps it sorted |
| Sampler.Sort | brevet_fun_lab_a_playful_dnb_practice_site_react_tailwind-1.jsx:220 | `sort((a, b) => a[0] - b[0])` returns a permutation sorted by key |
| Sampler.Shuffle | brevet_fun_lab_a_playful_dnb_practice_site_react_tailwind-1.jsx:220 | `shuffle` returns a permutation of its input |
| Sampler.Chosen | brevet_fun_lab_a_playful_dnb_practice_site_react_tailwind-1.jsx:409-410 | one subject's pick has `min(n, len)` exercises, all from that subject, and repeats no id more often than the subject does |
| Sampler.Tag | brevet_fun_lab_a_playful_dnb_practice_site_react_tailwind-1.jsx:411 | `{ ...q, subject: s.key }` keeps each exercise and attaches the subject |
| Sampler.Pack | brevet_fun_lab_a_playful_dnb_practice_site_react_tailwind-1.jsx:407-412 | `pack` after the outer loop has visited some subjects; PackSize, PackFromBank, PackIds and PackPerSubject state its contents |
| Sampler.Paper | brevet_fun_lab_a_playful_dnb_practice_site_react_tailwind-1.jsx:413 | `shuffle(pack)`, the paper; PaperSize, PaperFromBank, PaperUniqueIds and PaperPerSubject state its contents, and PickRandomQuestions computes it |
| Sampler.PushTagged | brevet_fun_lab_a_playful_dnb_practice_site_react_tailwind-1.jsx:411 | the inner loop appends the chosen exercises, in order and tagged with the subject, to the pack |
| Sampler.PackStep | brevet_fun_lab_a_playful_dnb_practice_site_react_tailwind-1.jsx:408-411 | one pass of the outer loop extends the pack by the tagged pick of its subject and advances the draw position by that subject's list length |
| Sampler.PickRandomQuestions | brevet_fun_lab_a_playful_dnb_practice_site_react_tailwind-1.jsx:406-414 | the nested loops build the pack subject by subject and return its shuffle, `Paper(bank, n, rand)` |
| Sampler.PackSize | brevet_fun_lab_a_playful_dnb_practice_site_react_tailwind-1.jsx:407-412 | the pack holds the sum over the visited subjects of `min(n, len)` items |
| Sampler.PaperSize | brevet_fun_lab_a_playful_dnb_practice_site_react_tailwind-1.jsx:406-414 | the paper holds the sum over all subjects of `min(n, len)` items |
| Sampler.PackFromBank | brevet_fun_lab_a_playful_dnb_practice_site_react_tailwind-1.jsx:407-412 | every pack item is an exercise of the subject it is tagged with, and that subject was visited |
| Sampler.PaperFromBank | brevet_fun_lab_a_playful_dnb_practice_site_react_tailwind-1.jsx:406-414 | every paper item is an exercise of the bank under its own subject |
| Sampler.PackIds | brevet_fun_lab_a_playful_dnb_practice_site_react_tailwind-1.jsx:407-412 | the pack's ids are a sub-multiset of the visited subjects' ids |
| Sampler.PaperUniqueIds | brevet_fun_lab_a_playful_dnb_practice_site_react_tailwind-1.jsx:406-414 | when ids are unique across the bank, no two paper items share an id |
| Sampler.PackPerSubject | brevet_fun_lab_a_playful_dnb_practice_site_react_tailwind-1.jsx:407-412 | when the visited subjects are distinct, the pack holds `min(n, len)` items of each visited subject and none of the others |
| Sampler.PaperPerSubject | brevet_fun_lab_a_playful_dnb_practice_site_react_tailwind-1.jsx:406-414 | the paper holds exactly `min(n, len)` items of each subject |
| Practice.Percent | brevet_fun_lab_a_playful_dnb_practice_site_react_tailwind-1.jsx:351 | `Math.round(k / n * 100)` is the integer nearest to 100k/n, with a half rounded up |
| Practice.PercentBounds | brevet_fun_lab_a_playful_dnb_practice_site_react_tailwind-1.jsx:351 | a count between 0 and n gives a percentage between 0 and 100 |
| Practice.PercentZero | brevet_fun_lab_a_playful_dnb_practice_site_react_tailwind-1.jsx:351 | a count of 0 gives 0% |
| Practice.PercentAll | brevet_fun_lab_a_playful_dnb_practice_site_react_tailwind-1.jsx:351 | a count of n gives 100% |
| Practice.PercentMonotone | brevet_fun_lab_a_playful_dnb_practice_site_react_tailwind-1.jsx:351 | a larger count never gives a lower percentage |
| Practice.IdSet | brevet_fun_lab_a_playful_dnb_practice_site_react_tailwind-1.jsx:340 | the ids of a subject's list are exactly the ids of its exercises |
| Practice.IdSetSize | brevet_fun_lab_a_playful_dnb_practice_site_react_tailwind-1.jsx:351 | a list has at most as many ids as exercises, and exactly as many when no id repeats |
| Practice.ProgressOf | brevet_fun_lab_a_playful_dnb_practice_site_react_tailwind-1.jsx:351 | `progress` for an answer map and a list; ProgressBounded, ProgressEmpty and ProgressComplete state its values |
| Practice.ProgressBounded | brevet_fun_lab_a_playful_dnb_practice_site_react_tailwind-1.jsx:351 | while the recorded keys are ids of the list, progress lies in [0, 100] |
| Practice.ProgressEmpty | brevet_fun_lab_a_playful_dnb_practice_site_react_tailwind-1.jsx:351 | with no answers, progress is 0 |
| Practice.ProgressComplete | brevet_fun_lab_a_playful_dnb_practice_site_react_tailwind-1.jsx:351 | once every exercise of a list without repeated ids has an answer, right or wrong, progress is 100 |
| Practice.RecordAnswer | brevet_fun_lab_a_playful_dnb_practice_site_react_tailwind-1.jsx:345-346 | `{ ...answers, [id]: val }` makes `id` read `val`, leaves every other key as it was, and adds one answered exercise only when `id` was new |
| Practice.Previous | brevet_fun_lab_a_playful_dnb_practice_site_react_tailwind-1.jsx:363 | "Précédent": `Math.max(0, idx - 1)`; NavigationInBounds and NavigationRoundTrip state its effect |
| Practice.Next | brevet_fun_lab_a_playful_dnb_practice_site_react_tailwind-1.jsx:369 | "Suivant": `Math.min(list.length - 1, idx + 1)`; NavigationInBounds and NavigationRoundTrip state its effect |
| Practice.NavigationInBounds | brevet_fun_lab_a_playful_dnb_practice_site_react_tailwind-1.jsx:363-369 | (lines 363 and 369) both buttons keep the index in [0, len - 1] and move it by at most one |
| Practice.NavigationRoundTrip | brevet_fun_lab_a_playful_dnb_practice_site_react_tailwind-1.jsx:363-369 | (lines 363 and 369) away from the ends, "Suivant" then "Précédent", or the reverse, returns to the same exercise |
| Practice.SubjectPanel.constructor | brevet_fun_lab_a_playful_dnb_practice_site_react_tailwind-1.jsx:337-341 | the panel opens on the first exercise of its subject, with the stored answers or an empty map |
| Practice.SubjectPanel.Current | brevet_fun_lab_a_playful_dnb_practice_site_react_tailwind-1.jsx:341 | `ex`, the exercise at the panel's index; Valid keeps the index on the list |
| Practice.SubjectPanel.Checked | brevet_fun_lab_a_playful_dnb_practice_site_react_tailwind-1.jsx:343 | `checked`: the exercise on screen has a recorded answer; Validate establishes it |
| Practice.SubjectPanel.Verdict | brevet_fun_lab_a_playful_dnb_practice_site_react_tailwind-1.jsx:354-360 | the card's `correct` (line 273) for `answers[ex.id]`, the answer the panel hands the card; Validate states it after a submission |
| Practice.SubjectPanel.Progress | brevet_fun_lab_a_playful_dnb_practice_site_react_tailwind-1.jsx:351 | the panel's `progress`; Validate never lowers it and Reset brings it to 0 |
| Practice.SubjectPanel.Validate | brevet_fun_lab_a_playful_dnb_practice_site_react_tailwind-1.jsx:343-349 | validating overwrites the answer of the exercise on screen and nothing else; `checked` then holds, the card's verdict is the one for the new answer, progress does not drop, and the recorded keys stay ids of the list |
| Practice.SubjectPanel.Reset | brevet_fun_lab_a_playful_dnb_practice_site_react_tailwind-1.jsx:392-395 | "Réinitialiser" empties the answer map and brings progress to 0 |
| Practice.SubjectPanel.GoPrevious | brevet_fun_lab_a_playful_dnb_practice_site_react_tailwind-1.jsx:363 | "Précédent" moves the index to `max(0, idx - 1)`, keeping it on an exercise |
| Practice.SubjectPanel.GoNext | brevet_fun_lab_a_playful_dnb_practice_site_react_tailwind-1.jsx:369 | "Suivant" moves the index to `min(len - 1, idx + 1)`, keeping it on an exercise |
| Exam.Countdown | brevet_fun_lab_a_playful_dnb_practice_site_react_tailwind-1.jsx:424 | a tick lowers a positive timer by one and sets any other to 0, so the result is never negative |
| Exam.Ticks | brevet_fun_lab_a_playful_dnb_practice_site_react_tailwind-1.jsx:424 | after at least one tick the timer is never negative; TicksFloor gives its value |
| Exam.TicksFloor | brevet_fun_lab_a_playful_dnb_practice_site_react_tailwind-1.jsx:424 | after k > 0 ticks the timer reads `max(0, s - k)`: it stops at zero |
| Exam.JsRem | brevet_fun_lab_a_playful_dnb_practice_site_react_tailwind-1.jsx:455 | `timerSec % 60` is the usual remainder for a non-negative timer; for a negative one it lies in (-60, 0] and is what is left after the quotient truncated toward zero |
| Exam.FieldValue | brevet_fun_lab_a_playful_dnb_practice_site_react_tailwind-1.jsx:454-455 | a number below 100 is written as exactly two digits that read back as the number |
| Exam.Field | brevet_fun_lab_a_playful_dnb_practice_site_react_tailwind-1.jsx:454-455 | `String(n).padStart(2, "0")`; FieldValue states its text for n in [0, 100) |
| Exam.Clock | brevet_fun_lab_a_playful_dnb_practice_site_react_tailwind-1.jsx:454-455 | the `mm:ss` text for a timer; ClockRoundTrip and ClockAtStart state its content |
| Exam.ClockRoundTrip | brevet_fun_lab_a_playful_dnb_practice_site_react_tailwind-1.jsx:454-455 | (shown at line 480) for a timer in [0, 6000) the clock is `mm:ss`, `mm` reads back as the whole minutes, `ss` reads back as a number below 60, and `mm * 60 + ss` is the timer |
| Exam.ClockAtStart | brevet_fun_lab_a_playful_dnb_practice_site_react_tailwind-1.jsx:454-455 | (the timer starts at 1500, line 418) a full timer shows "25:00" |
| Exam.ScoreOf | brevet_fun_lab_a_playful_dnb_practice_site_react_tailwind-1.jsx:442-451 | the score is at most the number of questions |
| Exam.Point | brevet_fun_lab_a_playful_dnb_practice_site_react_tailwind-1.jsx:444-448 | one question's contribution to the score, 1 exactly when ScoresPoint holds; ScoreAllCorrect, ScoreUnanswered and ScoreAfterAnswer state its sum |
| Exam.GoodCount | brevet_fun_lab_a_playful_dnb_practice_site_react_tailwind-1.jsx:521-523 | the number of cards the review as written colours green is at most the number of questions; ScoreVersusReview compares it with the score |
| Exam.ReviewColours | brevet_fun_lab_a_playful_dnb_practice_site_react_tailwind-1.jsx:520-525 | the corrected review colours a card green exactly when the score counts its question |
| Exam.ScoreUnanswered | brevet_fun_lab_a_playful_dnb_practice_site_react_tailwind-1.jsx:442-451 | a paper with no recorded answer for any of its questions, in particular with an empty answer map, scores 0 |
| Exam.ScoreAllCorrect | brevet_fun_lab_a_playful_dnb_practice_site_react_tailwind-1.jsx:442-451 | a paper whose every question holds a correct answer scores its length |
| Exam.ScoreVersusReview | brevet_fun_lab_a_playful_dnb_practice_site_react_tailwind-1.jsx:442-451 | (against the review, lines 520-525) the review as written never shows fewer green cards than the score, and shows exactly as many once every question is answered |
| Exam.ScoreIgnoresOthers | brevet_fun_lab_a_playful_dnb_practice_site_react_tailwind-1.jsx:442-451 | an answer under an id that no paper question has leaves the score unchanged |
| Exam.ScoreAfterAnswer | brevet_fun_lab_a_playful_dnb_practice_site_react_tailwind-1.jsx:442-451 | (answers come from line 495) on a paper without repeated ids, answering one question changes the score by that question's change of point and nothing else |
| Exam.AnsweredAtMostTotal | brevet_fun_lab_a_playful_dnb_practice_site_react_tailwind-1.jsx:441-453 | (shown at line 483) while only paper questions have answers, `answeredCount` is at most `total` |
| Exam.ExamSession.constructor | brevet_fun_lab_a_playful_dnb_practice_site_react_tailwind-1.jsx:416-420 | a session opens idle, with the stored timer (25 minutes by default), paper and answers |
| Exam.ExamSession.Total | brevet_fun_lab_a_playful_dnb_practice_site_react_tailwind-1.jsx:453 | `total`, the paper's length, shown at lines 483 and 514; AnsweredCount and PerfectRun compare with it |
| Exam.ExamSession.AnsweredCount | brevet_fun_lab_a_playful_dnb_practice_site_react_tailwind-1.jsx:441 | (shown at line 483) outside the idle view the answered count never exceeds the paper's length |
| Exam.ExamSession.Start | brevet_fun_lab_a_playful_dnb_practice_site_react_tailwind-1.jsx:432-437 | "Démarrer", offered only when idle, draws `pickRandomQuestions(3)`, clears the answers, sets the timer to 1500 and runs |
| Exam.ExamSession.Tick | brevet_fun_lab_a_playful_dnb_practice_site_react_tailwind-1.jsx:422-426 | while running, a second applies the countdown and keeps the timer in [0, 1500]; the session stays running at 0 |
| Exam.ExamSession.Submit | brevet_fun_lab_a_playful_dnb_practice_site_react_tailwind-1.jsx:495 | validating a card of the running paper overwrites that question's answer and nothing else |
| Exam.ExamSession.Stop | brevet_fun_lab_a_playful_dnb_practice_site_react_tailwind-1.jsx:439 | "Terminer" moves running to done |
| Exam.ExamSession.Redo | brevet_fun_lab_a_playful_dnb_practice_site_react_tailwind-1.jsx:550 | "Refaire un examen" moves done to idle |
| Exam.ExamSession.Score | brevet_fun_lab_a_playful_dnb_practice_site_react_tailwind-1.jsx:442-451 | the memo's loop, which skips unanswered questions and adds one per correct answer, computes `ScoreOf(paper, answers)` |
| Exam.ScoredStep | brevet_fun_lab_a_playful_dnb_practice_site_react_tailwind-1.jsx:442-451 | (answers come from line 495) on a paper without repeated ids, recording a scoring answer for the next question keeps every earlier question scoring |
| Exam.CorrectAnswer | brevet_fun_lab_a_playful_dnb_practice_site_react_tailwind-1.jsx:445-448 | every multiple-choice question, and every short-answer question with an acceptable answer, has an answer that scores |
| Exam.PerfectRun | brevet_fun_lab_a_playful_dnb_practice_site_react_tailwind-1.jsx:432-451 | starting, answering every question correctly and finishing scores the full paper, the sum over subjects of `min(3, len)`, when ids are unique in the bank |
| Exam.BlankRun | brevet_fun_lab_a_playful_dnb_practice_site_react_tailwind-1.jsx:432-451 | starting and finishing straight away scores 0 out of the full paper |
| Exam.LeftRunning | brevet_fun_lab_a_playful_dnb_practice_site_react_tailwind-1.jsx:422-437 | an exam left running for k seconds shows `max(0, 1500 - k)` seconds |

## Left out

- Rendering is left out because it is presentation, not engine logic. This covers the JSX markup, `Header`, `SubjectPill`, the UI component library, the icons and the animations. So are the badge that turns red in the last minute, the subject label above each exam card and the review's display of the answers (lines 531-542).
- The `ExerciseCard` local `value` state is left out. It holds the text being typed (line 302) and is re-synced to the recorded answer only when that answer changes (line 270). The panel's card is not keyed by exercise (line 356), so after "Précédent" or "Suivant" a draft typed for one exercise can stay in the field and be submitted for another. A short answer reaches the model as the text submitted, whatever its origin.
- Writing to `localStorage` (`save`, and the `useEffect`s that call it) is left out because it is browser I/O. A read from storage is an `Option` argument to the constructors.
- The `setInterval` and `clearInterval` wiring is left out because it is runtime scheduling. A second is the `Tick` method, callable only while running.
- `Math.random` returns floating-point keys, which the model replaces with an integer key stream. No claim is made about the distribution of the shuffle.
- The literal `BANK` content is left out because it is data. Its `sciences` list has a stray `];` before a comma at lines 187-188, which does not parse. The model takes any bank that has all four subjects. It assumes unique ids only where a property needs them. The one example it uses is the exercise at line 125.
- Practice.Percent: uses exact rational arithmetic. `Math.round` on a floating-point quotient can differ from it in the last place, and that difference is not modelled.
- Questions.Lookup: reads every id missing from the map as `undefined`. A JavaScript object literal instead reads an inherited `Object.prototype` property for an id such as "constructor" or "toString", which would make `checked` true and the short-answer card throw. The model assumes no exercise id names such a property; the bank's ids (`fr1` to `sc3`) do not.
- JsText.LowerChar: lowers only Basic Latin and Latin-1 letters. `toLowerCase` also lowers letters of other scripts. The JavaScript white-space set of `trim` is modelled exactly.
- JsText.Decimal: covers only integers, written in positional notation. `String` of a non-integer number cannot be recorded through the page, whose buttons record an integer index. `String(n)` switches to exponent notation once `|n|` reaches 1e21, and `Decimal` does not; the page's choice indexes never come near that.
- Strings are sequences of Unicode code points (Dafny's `char`), not of UTF-16 code units as in JavaScript. A character outside the Basic Multilingual Plane is one element here but two code units there, and a lone surrogate cannot be represented. The acceptable answers are all Latin-1. User input is compared code point by code point, which for well-formed text gives the same equalities as a comparison of UTF-16 code units.
- Practice.SubjectPanel.constructor: requires a non-empty exercise list. The panel reads `list[idx].id` as soon as it renders (lines 341-343), so an empty subject list throws before progress is computed.
- Evaluator.CardVerdict: a numeric answer recorded for a short-answer question makes the card throw a `TypeError` when it calls `toLowerCase` on a number. The model represents that throw as `None`. The page itself always records text for such a question, so only a stored answer can reach this case.
- Exam.ExamSession.Valid: the paper is recorded by its size and its unique ids rather than by the draws that produced it. `Start` states the exact paper in its own contract.

## Findings

| source | as written | input that shows it | evidently intended | confidence | as-written member | corrected member |
|---|---|---|---|---|---|---|
| brevet_fun_lab_a_playful_dnb_practice_site_react_tailwind-1.jsx:523 | for a short-answer question the review compares `String(got)` with the acceptable answers, and for an unanswered question `String(undefined)` is the text "undefined" | an unanswered short-answer question whose acceptable answers include "Undefined" is coloured green, though the score gives it no point | an unanswered question is never coloured green, matching the score, which skips it (line 446) | not executed | Evaluator.ReviewShowsUnansweredAsGood | Evaluator.ReviewMark |
