/** Small generic vocabulary shared by the other modules: an optional value,
    integer min/max, element-wise mapping of a sequence and the facts about
    multisets that the sampler's permutation proofs rest on. */
module Common {

  /** A value that may be absent (JavaScript's `undefined`/`null`). */
  datatype Option<T> = None | Some(value: T) {
    /** `v ?? fallback` */
    function GetOr(fallback: T): T {
      match this
      case Some(v) => v
      case None => fallback
    }
  }

  function Min(a: int, b: int): int { if a <= b then a else b }

  function Max(a: int, b: int): int { if a >= b then a else b }

  /** `s.map(f)` */
  function Map<A, B>(f: A -> B, s: seq<A>): (r: seq<B>)
    ensures |r| == |s| && forall i {:trigger r[i]} :: 0 <= i < |s| ==> r[i] == f(s[i])
  {
    seq(|s|, i requires 0 <= i < |s| => f(s[i]))
  }

  lemma MapConcat<A, B>(f: A -> B, s: seq<A>, t: seq<A>)
    ensures Map(f, s + t) == Map(f, s) + Map(f, t)
  {
    assert forall i :: 0 <= i < |s + t| ==> Map(f, s + t)[i] == (Map(f, s) + Map(f, t))[i];
  }

  lemma MapPrefix<A, B>(f: A -> B, s: seq<A>, k: nat)
    requires k <= |s|
    ensures Map(f, s[..k]) == Map(f, s)[..k]
  {
  }

  /** Taking out entry `k` takes one `s[k]` out of the multiset. */
  lemma RemoveAt<T>(s: seq<T>, k: nat)
    requires k < |s|
    ensures multiset(s) == multiset(s[..k] + s[k + 1..]) + multiset{s[k]}
  {
    assert s == s[..k] + [s[k]] + s[k + 1..];
  }

  lemma MapRemoveAt<A, B>(f: A -> B, s: seq<A>, k: nat)
    requires k < |s|
    ensures multiset(Map(f, s)) == multiset(Map(f, s[..k] + s[k + 1..])) + multiset{f(s[k])}
  {
    var m := Map(f, s);
    assert Map(f, s[..k] + s[k + 1..]) == m[..k] + m[k + 1..];
    RemoveAt(m, k);
  }

  /** An index of `x` in a sequence whose multiset holds it. */
  function IndexOf<T(==)>(s: seq<T>, x: T): (k: nat)
    requires x in multiset(s)
    ensures k < |s| && s[k] == x
  {
    if s[0] == x then 0 else IndexOf(s[1..], x) + 1
  }

  lemma Cancel<T>(m: multiset<T>, n: multiset<T>, x: T)
    requires m + multiset{x} == n + multiset{x}
    ensures m == n
  {
    forall y ensures m[y] == n[y] {
      assert (m + multiset{x})[y] == m[y] + multiset{x}[y];
      assert (n + multiset{x})[y] == n[y] + multiset{x}[y];
    }
  }

  lemma MapPermutationStep<A, B>(f: A -> B, a: seq<A>, b: seq<A>, k: nat)
    requires a != [] && k < |b| && b[k] == a[0]
    requires multiset(Map(f, a[1..])) == multiset(Map(f, b[..k] + b[k + 1..]))
    ensures multiset(Map(f, a)) == multiset(Map(f, b))
  {
    assert a[..0] + a[1..] == a[1..];
    MapRemoveAt(f, a, 0);
    MapRemoveAt(f, b, k);
  }

  /** Mapping a permutation of a sequence gives a permutation of the mapped sequence. */
  lemma {:induction false} MapPermutation<A, B>(f: A -> B, a: seq<A>, b: seq<A>)
    requires multiset(a) == multiset(b)
    ensures multiset(Map(f, a)) == multiset(Map(f, b))
    decreases |a|
  {
    if a == [] {
      assert |multiset(b)| == 0;
      assert b == [];
    } else {
      var x := a[0];
      var k := IndexOf(b, x);
      var rest := b[..k] + b[k + 1..];
      assert a[..0] + a[1..] == a[1..];
      RemoveAt(a, 0);
      RemoveAt(b, k);
      Cancel(multiset(a[1..]), multiset(rest), x);
      MapPermutation(f, a[1..], rest);
      MapPermutationStep(f, a, b, k);
    }
  }

  /** No value occurs twice in `s`. */
  ghost predicate NoDuplicates<T>(s: seq<T>) {
    forall x | x in s :: multiset(s)[x] <= 1
  }

  /** The index form of `NoDuplicates`: distinct positions hold distinct values. */
  lemma NoDuplicatesDistinct<T>(s: seq<T>, i: nat, j: nat)
    requires NoDuplicates(s)
    requires i < j < |s|
    ensures s[i] != s[j]
  {
    assert s == s[..j] + [s[j]] + s[j + 1..];
    assert multiset(s)[s[j]] >= multiset(s[..j])[s[j]] + 1;
    assert s[j] !in multiset(s[..j]);
    assert s[i] in s[..j];
  }

  /** A sub-multiset of a duplicate-free sequence is duplicate-free. */
  lemma NoDuplicatesSub<T>(s: seq<T>, t: seq<T>)
    requires multiset(s) <= multiset(t)
    requires NoDuplicates(t)
    ensures NoDuplicates(s)
  {
    forall x | x in s ensures multiset(s)[x] <= 1 {
      assert multiset(s)[x] <= multiset(t)[x];
    }
  }

  lemma PrefixSubMultiset<T>(s: seq<T>, k: nat)
    requires k <= |s|
    ensures multiset(s[..k]) <= multiset(s)
  {
    assert s == s[..k] + s[k..];
  }

  /** A subset is no larger than its superset. */
  lemma {:induction false} SubsetSize<T>(a: set<T>, b: set<T>)
    requires a <= b
    ensures |a| <= |b|
    decreases |b|
  {
    if a != {} {
      var x :| x in a;
      SubsetSize(a - {x}, b - {x});
    }
  }

  /** The values a sequence holds. */
  function Elements<T>(s: seq<T>): (r: set<T>)
    ensures (forall x | x in s :: x in r) && (forall x | x in r :: x in s)
  {
    set x | x in s
  }

  /** A sequence has no more distinct elements than entries. */
  lemma {:induction false} ElementsSize<T>(s: seq<T>)
    ensures |Elements(s)| <= |s|
  {
    if s != [] {
      var prev := s[..|s| - 1];
      ElementsSize(prev);
      assert Elements(s) == Elements(prev) + {s[|s| - 1]} by {
        assert s == prev + [s[|s| - 1]];
      }
    }
  }
}
