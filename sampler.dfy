/** The exam-paper sampler: `shuffle` (line 220) and `pickRandomQuestions`
    (lines 406-414). `Math.random()` is replaced by a caller-supplied stream
    `rand` of integer sort keys; the i-th call of the run reads `rand(i)`, so
    a shuffle of `arr` that starts at draw `from` tags `arr[i]` with
    `rand(from + i)`. */
module Sampler {
  import opened Common
  import opened Questions

  /** A value paired with the random key it is sorted by, `[Math.random(), v]`. */
  datatype Keyed<T> = Keyed(key: int, value: T)

  function ValueOf<T>(p: Keyed<T>): T { p.value }

  /** `arr.map((v) => [Math.random(), v])` */
  function Draw<T>(arr: seq<T>, rand: nat -> int, from: nat): (r: seq<Keyed<T>>)
    ensures |r| == |arr|
    ensures Map(ValueOf, r) == arr
  {
    seq(|arr|, i requires 0 <= i < |arr| => Keyed(rand(from + i), arr[i]))
  }

  ghost predicate SortedByKey<T>(ps: seq<Keyed<T>>) {
    forall i, j :: 0 <= i < j < |ps| ==> ps[i].key <= ps[j].key
  }

  /** Inserts `p` after every entry whose key is not larger than its own. */
  function Insert<T>(p: Keyed<T>, ps: seq<Keyed<T>>): (r: seq<Keyed<T>>)
    ensures multiset(r) == multiset(ps) + multiset{p}
  {
    if ps == [] || p.key < ps[0].key then [p] + ps
    else
      assert ps == [ps[0]] + ps[1..];
      [ps[0]] + Insert(p, ps[1..])
  }

  /** An entry whose key is at most every key of a sorted list can go in front. */
  lemma PrependSorted<T>(q: Keyed<T>, ps: seq<Keyed<T>>)
    requires SortedByKey(ps)
    requires forall k :: 0 <= k < |ps| ==> q.key <= ps[k].key
    ensures SortedByKey([q] + ps)
  {
    var r := [q] + ps;
    forall i, j | 0 <= i < j < |r| ensures r[i].key <= r[j].key {
      assert r[j] == ps[j - 1];
      if i > 0 {
        assert r[i] == ps[i - 1];
      }
    }
  }

  /** Insertion keeps a lower bound that the list and the entry respect. */
  lemma InsertLowerBound<T>(p: Keyed<T>, ps: seq<Keyed<T>>, lo: int)
    requires lo <= p.key
    requires forall k :: 0 <= k < |ps| ==> lo <= ps[k].key
    ensures forall k :: 0 <= k < |Insert(p, ps)| ==> lo <= Insert(p, ps)[k].key
  {
    var r := Insert(p, ps);
    forall k | 0 <= k < |r| ensures lo <= r[k].key {
      var x := r[k];
      assert x in multiset(r);
      if x != p {
        assert x in multiset(ps);
        var m :| 0 <= m < |ps| && ps[m] == x;
      }
    }
  }

  lemma {:induction false} InsertSorted<T>(p: Keyed<T>, ps: seq<Keyed<T>>)
    requires SortedByKey(ps)
    ensures SortedByKey(Insert(p, ps))
    decreases |ps|
  {
    if ps == [] {
    } else if p.key < ps[0].key {
      PrependSorted(p, ps);
    } else {
      var tail := ps[1..];
      assert SortedByKey(tail);
      InsertSorted(p, tail);
      InsertLowerBound(p, tail, ps[0].key);
      PrependSorted(ps[0], Insert(p, tail));
    }
  }

  /** `.sort((a, b) => a[0] - b[0])`: ascending by key; the sort is stable,
      as `Array.prototype.sort` is, because each entry is inserted after the
      entries before it that have the same key. */
  function Sort<T>(ps: seq<Keyed<T>>): (r: seq<Keyed<T>>)
    ensures multiset(r) == multiset(ps)
    ensures SortedByKey(r)
  {
    if ps == [] then []
    else
      assert ps == ps[..|ps| - 1] + [ps[|ps| - 1]];
      InsertSorted(ps[|ps| - 1], Sort(ps[..|ps| - 1]));
      Insert(ps[|ps| - 1], Sort(ps[..|ps| - 1]))
  }

  /** `shuffle(arr)`: the elements of `arr` reordered by the keys drawn for
      them; a permutation of `arr`. */
  function Shuffle<T>(arr: seq<T>, rand: nat -> int, from: nat): (r: seq<T>)
    ensures |r| == |arr|
    ensures multiset(r) == multiset(arr)
  {
    var drawn := Draw(arr, rand, from);
    var sorted := Sort(drawn);
    assert |sorted| == |multiset(sorted)| == |multiset(drawn)| == |drawn|;
    MapPermutation(ValueOf, sorted, drawn);
    Map(ValueOf, sorted)
  }

  /** `shuffle(src).slice(0, Math.min(n, src.length))` */
  function Chosen(src: seq<Exercise>, n: nat, rand: nat -> int, from: nat): (r: seq<Exercise>)
    ensures |r| == Min(n, |src|)
    ensures multiset(ExerciseIds(r)) <= multiset(ExerciseIds(src))
    ensures forall q | q in r :: q in src
  {
    var sh := Shuffle(src, rand, from);
    var r := sh[..Min(n, |src|)];
    assert forall q | q in r :: q in multiset(sh);
    MapPermutation(IdOf, sh, src);
    assert ExerciseIds(r) == ExerciseIds(sh)[..|r|];
    PrefixSubMultiset(ExerciseIds(sh), |r|);
    r
  }

  /** `chosen.map((q) => ({ ...q, subject: s }))` */
  function Tag(chosen: seq<Exercise>, s: Subject): (r: seq<PaperItem>)
    ensures |r| == |chosen|
    ensures forall i {:trigger r[i]} :: 0 <= i < |r| ==> r[i] == PaperItem(chosen[i], s)
  {
    seq(|chosen|, i requires 0 <= i < |chosen| => PaperItem(chosen[i], s))
  }

  /** How many random keys the subject shuffles of `subs` consume. */
  function Drawn(bank: Bank, subs: seq<Subject>): nat
    requires Complete(bank)
  {
    if subs == [] then 0 else Drawn(bank, subs[..|subs| - 1]) + |bank[subs[|subs| - 1]]|
  }

  /** `pack` after the outer loop has visited `subs`. */
  function Pack(bank: Bank, n: nat, subs: seq<Subject>, rand: nat -> int): seq<PaperItem>
    requires Complete(bank)
  {
    if subs == [] then []
    else
      var prev := subs[..|subs| - 1];
      var s := subs[|subs| - 1];
      Pack(bank, n, prev, rand) + Tag(Chosen(bank[s], n, rand, Drawn(bank, prev)), s)
  }

  /** `pickRandomQuestions(n)`: the pack, shuffled once more. */
  function Paper(bank: Bank, n: nat, rand: nat -> int): seq<PaperItem>
    requires Complete(bank)
  {
    Shuffle(Pack(bank, n, Subjects, rand), rand, Drawn(bank, Subjects))
  }

  /** `sum over subs of min(n, |bank[s]|)`, the size the paper should have. */
  function Picked(bank: Bank, n: nat, subs: seq<Subject>): nat
    requires Complete(bank)
  {
    if subs == [] then 0 else Picked(bank, n, subs[..|subs| - 1]) + Min(n, |bank[subs[|subs| - 1]]|)
  }

  /** One more subject visited: its tagged pick goes after the pack so far,
      and its list's draws after the draws so far. */
  lemma PackStep(bank: Bank, n: nat, subs: seq<Subject>, i: nat, rand: nat -> int)
    requires Complete(bank) && i < |subs|
    ensures Pack(bank, n, subs[..i + 1], rand)
            == Pack(bank, n, subs[..i], rand) + Tag(Chosen(bank[subs[i]], n, rand, Drawn(bank, subs[..i])), subs[i])
    ensures Drawn(bank, subs[..i + 1]) == Drawn(bank, subs[..i]) + |bank[subs[i]]|
  {
    assert subs[..i + 1][..i] == subs[..i];
  }

  /** `for (const q of chosen) pack.push({ ...q, subject: s })` */
  method PushTagged(pack: seq<PaperItem>, chosen: seq<Exercise>, s: Subject) returns (r: seq<PaperItem>)
    ensures r == pack + Tag(chosen, s)
  {
    r := pack;
    for j := 0 to |chosen|
      invariant r == pack + Tag(chosen[..j], s)
    {
      assert Tag(chosen[..j + 1], s) == Tag(chosen[..j], s) + [PaperItem(chosen[j], s)];
      r := r + [PaperItem(chosen[j], s)];
    }
    assert chosen[..|chosen|] == chosen;
  }

  /** `pickRandomQuestions` as the source runs it: an outer loop over the
      subjects and an inner loop pushing each chosen exercise onto `pack`. */
  method PickRandomQuestions(bank: Bank, countPerSubject: nat, rand: nat -> int) returns (paper: seq<PaperItem>)
    requires Complete(bank)
    ensures paper == Paper(bank, countPerSubject, rand)
  {
    var pack: seq<PaperItem> := [];
    var drawn: nat := 0;
    for i := 0 to |Subjects|
      invariant pack == Pack(bank, countPerSubject, Subjects[..i], rand)
      invariant drawn == Drawn(bank, Subjects[..i])
    {
      var s := Subjects[i];
      var src := bank[s];
      var chosen := Shuffle(src, rand, drawn)[..Min(countPerSubject, |src|)];
      assert chosen == Chosen(src, countPerSubject, rand, drawn);
      pack := PushTagged(pack, chosen, s);
      PackStep(bank, countPerSubject, Subjects, i, rand);
      drawn := drawn + |src|;
    }
    assert Subjects[..|Subjects|] == Subjects;
    paper := Shuffle(pack, rand, drawn);
  }

  // ---------------------------------------------------------------------------
  // What the paper holds

  lemma {:induction false} PackSize(bank: Bank, n: nat, subs: seq<Subject>, rand: nat -> int)
    requires Complete(bank)
    ensures |Pack(bank, n, subs, rand)| == Picked(bank, n, subs)
    decreases |subs|
  {
    if subs != [] {
      PackSize(bank, n, subs[..|subs| - 1], rand);
    }
  }

  /** The paper holds min(n, size) exercises of every subject, nothing more. */
  lemma PaperSize(bank: Bank, n: nat, rand: nat -> int)
    requires Complete(bank)
    ensures |Paper(bank, n, rand)| == Picked(bank, n, Subjects)
  {
    PackSize(bank, n, Subjects, rand);
  }

  lemma {:induction false} PackFromBank(bank: Bank, n: nat, subs: seq<Subject>, rand: nat -> int)
    requires Complete(bank)
    ensures forall q | q in Pack(bank, n, subs, rand) :: q.subject in subs && q.ex in bank[q.subject]
    decreases |subs|
  {
    if subs != [] {
      var prev := subs[..|subs| - 1];
      PackFromBank(bank, n, prev, rand);
      assert forall s | s in prev :: s in subs;
    }
  }

  /** Every paper entry is an exercise of the bank, tagged with the subject
      whose list it comes from. */
  lemma PaperFromBank(bank: Bank, n: nat, rand: nat -> int)
    requires Complete(bank)
    ensures forall q | q in Paper(bank, n, rand) :: q.ex in bank[q.subject]
  {
    var pack := Pack(bank, n, Subjects, rand);
    PackFromBank(bank, n, Subjects, rand);
    forall q | q in Paper(bank, n, rand) ensures q.ex in bank[q.subject] {
      assert q in multiset(pack);
    }
  }

  lemma ItemIdsConcat(a: seq<PaperItem>, b: seq<PaperItem>)
    ensures ItemIds(a + b) == ItemIds(a) + ItemIds(b)
  {
  }

  lemma ItemIdsTag(chosen: seq<Exercise>, s: Subject)
    ensures ItemIds(Tag(chosen, s)) == ExerciseIds(chosen)
  {
  }

  lemma {:induction false} PackIds(bank: Bank, n: nat, subs: seq<Subject>, rand: nat -> int)
    requires Complete(bank)
    ensures multiset(ItemIds(Pack(bank, n, subs, rand))) <= multiset(AllIds(bank, subs))
    decreases |subs|
  {
    if subs != [] {
      var prev := subs[..|subs| - 1];
      var s := subs[|subs| - 1];
      var chosen := Chosen(bank[s], n, rand, Drawn(bank, prev));
      var left := Pack(bank, n, prev, rand);
      PackIds(bank, n, prev, rand);
      ItemIdsConcat(left, Tag(chosen, s));
      ItemIdsTag(chosen, s);
      var x, y := ItemIds(left), ExerciseIds(chosen);
      var x', y' := AllIds(bank, prev), ExerciseIds(bank[s]);
      assert multiset(x) <= multiset(x') && multiset(y) <= multiset(y');
      assert multiset(x + y) == multiset(x) + multiset(y);
      assert multiset(x' + y') == multiset(x') + multiset(y');
    }
  }

  /** With unique ids in the bank, no id appears twice on the paper. */
  lemma PaperUniqueIds(bank: Bank, n: nat, rand: nat -> int)
    requires UniqueBank(bank)
    ensures UniquePaperIds(Paper(bank, n, rand))
  {
    var pack := Pack(bank, n, Subjects, rand);
    var paper := Paper(bank, n, rand);
    PackIds(bank, n, Subjects, rand);
    MapPermutation(ItemId, paper, pack);
    NoDuplicatesSub(ItemIds(paper), AllIds(bank, Subjects));
  }

  function SubjectOf(q: PaperItem): Subject { q.subject }

  /** The subject tag of each item. */
  function SubjectsOf(items: seq<PaperItem>): (r: seq<Subject>)
    ensures |r| == |items| && forall i {:trigger r[i]} :: 0 <= i < |items| ==> r[i] == items[i].subject
  {
    Map(SubjectOf, items)
  }

  lemma {:induction false} ConstantCount<T>(xs: seq<T>, c: T, d: T)
    requires forall i :: 0 <= i < |xs| ==> xs[i] == c
    ensures multiset(xs)[d] == if d == c then |xs| else 0
    decreases |xs|
  {
    if xs != [] {
      assert xs == xs[..|xs| - 1] + [xs[|xs| - 1]];
      ConstantCount(xs[..|xs| - 1], c, d);
    }
  }

  lemma SubjectsOfConcat(a: seq<PaperItem>, b: seq<PaperItem>)
    ensures SubjectsOf(a + b) == SubjectsOf(a) + SubjectsOf(b)
  {
  }

  /** The last subject visited adds min(n, size) entries tagged with it. */
  lemma PackStepPerSubject(bank: Bank, n: nat, subs: seq<Subject>, rand: nat -> int, s: Subject)
    requires Complete(bank) && subs != []
    ensures var t := subs[|subs| - 1];
            multiset(SubjectsOf(Pack(bank, n, subs, rand)))[s]
            == multiset(SubjectsOf(Pack(bank, n, subs[..|subs| - 1], rand)))[s]
               + if s == t then Min(n, |bank[t]|) else 0
  {
    var prev := subs[..|subs| - 1];
    var t := subs[|subs| - 1];
    var left := Pack(bank, n, prev, rand);
    var tagged := Tag(Chosen(bank[t], n, rand, Drawn(bank, prev)), t);
    assert Pack(bank, n, subs, rand) == left + tagged;
    SubjectsOfConcat(left, tagged);
    var x, y := SubjectsOf(left), SubjectsOf(tagged);
    assert multiset(x + y)[s] == multiset(x)[s] + multiset(y)[s];
    ConstantCount(y, t, s);
  }

  /** Adding the entries of the last subject visited, which no earlier
      visit had, to the count of the earlier visits. */
  lemma CountStep(subs: seq<Subject>, s: Subject, m: int, before: int, after: int)
    requires subs != [] && forall i, j :: 0 <= i < j < |subs| ==> subs[i] != subs[j]
    requires before == if s in subs[..|subs| - 1] then m else 0
    requires after == before + if s == subs[|subs| - 1] then m else 0
    ensures after == if s in subs then m else 0
  {
    var prev, t := subs[..|subs| - 1], subs[|subs| - 1];
    assert subs == prev + [t];
    assert t !in prev;
  }

  lemma {:induction false} PackPerSubject(bank: Bank, n: nat, subs: seq<Subject>, rand: nat -> int, s: Subject)
    requires Complete(bank)
    requires forall i, j :: 0 <= i < j < |subs| ==> subs[i] != subs[j]
    ensures multiset(SubjectsOf(Pack(bank, n, subs, rand)))[s] == if s in subs then Min(n, |bank[s]|) else 0
    decreases |subs|
  {
    if subs != [] {
      var prev := subs[..|subs| - 1];
      var t := subs[|subs| - 1];
      assert forall i :: 0 <= i < |prev| ==> prev[i] == subs[i];
      PackPerSubject(bank, n, prev, rand, s);
      PackStepPerSubject(bank, n, subs, rand, s);
      CountStep(subs, s, Min(n, |bank[s]|),
        multiset(SubjectsOf(Pack(bank, n, prev, rand)))[s],
        multiset(SubjectsOf(Pack(bank, n, subs, rand)))[s]);
    }
  }

  /** Each subject contributes exactly min(n, size of its list) entries. */
  lemma PaperPerSubject(bank: Bank, n: nat, rand: nat -> int, s: Subject)
    requires Complete(bank)
    ensures multiset(SubjectsOf(Paper(bank, n, rand)))[s] == Min(n, |bank[s]|)
  {
    var pack := Pack(bank, n, Subjects, rand);
    PackPerSubject(bank, n, Subjects, rand, s);
    assert s in Subjects;
    MapPermutation(SubjectOf, Paper(bank, n, rand), pack);
  }
}
