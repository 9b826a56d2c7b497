/** The data model of the question bank: subjects, exercises of the two
    kinds, submitted answers, exam-paper items and the bank itself
    (brevet_fun_lab_a_playful_dnb_practice_site_react_tailwind-1.jsx, lines 37-217). */
module Questions {
  import opened Common

  /** The keys of `SUBJECTS`: francais, maths, hgeo, sciences. */
  datatype Subject = Francais | Maths | HistoireGeo | Sciences

  /** `SUBJECTS` in declaration order; the sampler visits subjects in this order. */
  const Subjects: seq<Subject> := [Francais, Maths, HistoireGeo, Sciences]

  /** The variant part of an exercise, its `type` field. */
  datatype Kind =
    | Qcm(choices: seq<string>, answer: int)                    // "qcm": multiple choice, `answer` indexes `choices`
    | Rc(acceptable: seq<string>, placeholder: Option<string>)  // "rc": short answer

  datatype Exercise = Exercise(id: string, question: string, kind: Kind, explain: string)

  /** A recorded answer: a choice index from a multiple-choice button, or the
      text typed into a short-answer field. */
  datatype Answer = Choice(index: int) | Text(text: string)

  /** An exam-paper entry, `{ ...q, subject: s.key }`. */
  datatype PaperItem = PaperItem(ex: Exercise, subject: Subject)

  /** `BANK`: the exercises of each subject, in navigation order. */
  type Bank = map<Subject, seq<Exercise>>

  /** Every subject of `SUBJECTS` has an exercise list in the bank. */
  ghost predicate Complete(bank: Bank) {
    forall s: Subject :: s in bank
  }

  function IdOf(e: Exercise): string { e.id }

  function ItemId(q: PaperItem): string { q.ex.id }

  /** `exs.map((e) => e.id)` */
  function ExerciseIds(exs: seq<Exercise>): (r: seq<string>)
    ensures |r| == |exs| && forall i {:trigger r[i]} :: 0 <= i < |exs| ==> r[i] == exs[i].id
  {
    Map(IdOf, exs)
  }

  /** `items.map((q) => q.id)` */
  function ItemIds(items: seq<PaperItem>): (r: seq<string>)
    ensures |r| == |items| && forall i {:trigger r[i]} :: 0 <= i < |items| ==> r[i] == items[i].ex.id
  {
    Map(ItemId, items)
  }

  /** The ids of the given subjects' exercises, subject after subject. */
  function AllIds(bank: Bank, subs: seq<Subject>): seq<string>
    requires Complete(bank)
  {
    if subs == [] then [] else AllIds(bank, subs[..|subs| - 1]) + ExerciseIds(bank[subs[|subs| - 1]])
  }

  /** The bank's invariant: ids are unique across the whole bank. */
  ghost predicate UniqueBank(bank: Bank) {
    Complete(bank) && NoDuplicates(AllIds(bank, Subjects))
  }

  /** No two entries of a paper share an id. */
  ghost predicate UniquePaperIds(paper: seq<PaperItem>) {
    NoDuplicates(ItemIds(paper))
  }

  /** The index form of `UniquePaperIds`. */
  lemma UniqueIdsDistinct(paper: seq<PaperItem>, i: nat, j: nat)
    requires UniquePaperIds(paper) && i < j < |paper|
    ensures paper[i].ex.id != paper[j].ex.id
  {
    NoDuplicatesDistinct(ItemIds(paper), i, j);
  }

  /** `answers[id]`, where a missing key reads as `undefined`. */
  function Lookup(answers: map<string, Answer>, id: string): Option<Answer> {
    if id in answers then Some(answers[id]) else None
  }

  /** `load(k, fallback)`: the stored value, or the fallback when the key is
      missing, holds `null` or does not parse (all three arrive as `None`). */
  function Load<T>(stored: Option<T>, fallback: T): T {
    stored.GetOr(fallback)
  }
}
