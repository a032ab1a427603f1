/** Sequence helpers: duplicate-free sequences and the "first occurrence" order of Python dicts. */
module Seqs {

  predicate Distinct<T(==,!new)>(s: seq<T>)
  {
    forall i, j :: 0 <= i < j < |s| ==> s[i] != s[j]
  }

  function Elements<T(==,!new)>(s: seq<T>): set<T>
  {
    set x | x in s
  }

  /**
   * The elements of `s` in order of first occurrence, each once: the key order of a Python
   * dict filled from `s`, or `pd.Series.unique()`.
   */
  function Dedup<T(==,!new)>(s: seq<T>): (r: seq<T>)
    ensures Distinct(r)
    ensures forall x :: x in r <==> x in s
    ensures |r| <= |s|
  {
    if s == [] then []
    else
      var d := Dedup(s[..|s| - 1]);
      assert forall x :: x in s <==> x in s[..|s| - 1] || x == s[|s| - 1] by {
        assert s == s[..|s| - 1] + [s[|s| - 1]];
      }
      if s[|s| - 1] in d then d else d + [s[|s| - 1]]
  }

  /** The elements of a non-empty sequence: those before the last, and the last. */
  lemma ElementsSnoc<T(!new)>(s: seq<T>)
    requires s != []
    ensures Elements(s) == Elements(s[..|s| - 1]) + {s[|s| - 1]}
  {
    assert s == s[..|s| - 1] + [s[|s| - 1]];
  }

  lemma {:induction false} DistinctCard<T(!new)>(s: seq<T>)
    requires Distinct(s)
    ensures |Elements(s)| == |s|
  {
    if s != [] {
      var init := s[..|s| - 1];
      var last := s[|s| - 1];
      assert Distinct(init);
      DistinctCard(init);
      assert s == init + [last];
      assert last !in init;
      assert Elements(s) == Elements(init) + {last};
    }
  }

  lemma {:induction false} ElementsCard<T(!new)>(s: seq<T>)
    ensures |Elements(s)| <= |s|
  {
    if s != [] {
      var init := s[..|s| - 1];
      ElementsCard(init);
      assert s == init + [s[|s| - 1]];
      assert Elements(s) == Elements(init) + {s[|s| - 1]};
    }
  }

  /** A sequence whose element set is as large as the sequence has no repeated element. */
  lemma {:induction false} CardDistinct<T(!new)>(s: seq<T>)
    requires |Elements(s)| == |s|
    ensures Distinct(s)
  {
    if s != [] {
      var init := s[..|s| - 1];
      var last := s[|s| - 1];
      assert s == init + [last];
      assert Elements(s) == Elements(init) + {last};
      ElementsCard(init);
      assert last !in init;
      assert |Elements(init)| == |init|;
      CardDistinct(init);
      forall i, j | 0 <= i < j < |s|
        ensures s[i] != s[j]
      {
        if j == |s| - 1 {
          assert s[i] in init;
        } else {
          assert s[i] == init[i] && s[j] == init[j];
        }
      }
    }
  }

  /** Dedup keeps exactly one copy of each element, so its length is the number of distinct elements. */
  lemma DedupCard<T(!new)>(s: seq<T>)
    ensures |Dedup(s)| == |Elements(s)|
  {
    DistinctCard(Dedup(s));
    assert Elements(Dedup(s)) == Elements(s);
  }

  lemma {:induction false} DedupOfDistinct<T(!new)>(s: seq<T>)
    requires Distinct(s)
    ensures Dedup(s) == s
  {
    if s != [] {
      var init := s[..|s| - 1];
      assert Distinct(init);
      DedupOfDistinct(init);
      assert s == init + [s[|s| - 1]];
    }
  }

  /** Appending an element extends the first-occurrence order only when the element is new. */
  lemma DedupSnoc<T(!new)>(s: seq<T>, x: T)
    ensures Dedup(s + [x]) == if x in Dedup(s) then Dedup(s) else Dedup(s) + [x]
  {
    assert (s + [x])[..|s|] == s;
  }

  lemma {:induction false} SubsetCard<T>(a: set<T>, b: set<T>)
    requires a <= b
    ensures |a| <= |b|
    decreases |b|
  {
    if b != {} {
      var x :| x in b;
      SubsetCard(a - {x}, b - {x});
    }
  }

  /** A strict subset is strictly smaller. */
  lemma StrictSubsetCard<T>(a: set<T>, b: set<T>)
    requires a < b
    ensures |a| < |b|
  {
    assert exists x :: x in b && x !in a;
    var x :| x in b && x !in a;
    SubsetCard(a, b - {x});
  }

  /** `[{x} for x in xs if keep(x)]`. */
  function Singletons<T>(xs: seq<T>, keep: T -> bool): seq<set<T>>
  {
    if xs == [] then []
    else
      var init := Singletons(xs[..|xs| - 1], keep);
      var x := xs[|xs| - 1];
      if keep(x) then init + [{x}] else init
  }

  /** Each entry is the singleton of a kept element, and there is none exactly when no element is kept. */
  lemma {:induction false} SingletonsShape<T(!new)>(xs: seq<T>, keep: T -> bool)
    ensures forall k :: k in Singletons(xs, keep) ==> exists x :: x in xs && k == {x} && keep(x)
    ensures Singletons(xs, keep) == [] <==> forall x :: x in xs ==> !keep(x)
  {
    if xs != [] {
      var init := xs[..|xs| - 1];
      SingletonsShape(init, keep);
      assert xs == init + [xs[|xs| - 1]];
    }
  }

  /** Extending the input by one element appends its singleton when it is kept. */
  lemma SingletonsSnoc<T>(xs: seq<T>, x: T, keep: T -> bool)
    ensures Singletons(xs + [x], keep) == if keep(x) then Singletons(xs, keep) + [{x}] else Singletons(xs, keep)
  {
    assert (xs + [x])[..|xs|] == xs;
  }

  /** A sequence whose entries are fixed by those of another, position by position, has no more distinct entries. */
  lemma {:induction false} FixedByFewer<A(!new), B(!new)>(ks: seq<A>, cs: seq<B>)
    requires |ks| == |cs|
    requires forall i, j :: 0 <= i < |ks| && 0 <= j < |ks| && ks[i] == ks[j] ==> cs[i] == cs[j]
    ensures |Elements(cs)| <= |Elements(ks)|
  {
    if ks == [] {
      assert Elements(cs) == {};
    } else {
      var n := |ks| - 1;
      var ks', cs' := ks[..n], cs[..n];
      assert forall i, j :: 0 <= i < n && 0 <= j < n && ks'[i] == ks'[j] ==> cs'[i] == cs'[j] by {
        assert forall i :: 0 <= i < n ==> ks'[i] == ks[i] && cs'[i] == cs[i];
      }
      FixedByFewer(ks', cs');
      ElementsSnoc(ks);
      ElementsSnoc(cs);
      if ks[n] in ks' {
        var j :| 0 <= j < n && ks'[j] == ks[n];
        assert cs[n] == cs'[j];
        assert Elements(cs) == Elements(cs');
      } else {
        assert ks[n] !in Elements(ks');
      }
    }
  }

  /** `[set(c) for c in xs if keep(c)]`. */
  function SetsOf<T(!new)>(xs: seq<seq<T>>, keep: seq<T> -> bool): seq<set<T>>
  {
    if xs == [] then []
    else
      var init := SetsOf(xs[..|xs| - 1], keep);
      var c := xs[|xs| - 1];
      if keep(c) then init + [Elements(c)] else init
  }

  /** Each entry is the element set of a kept sequence, and there is none exactly when none is kept. */
  lemma {:induction false} SetsOfShape<T(!new)>(xs: seq<seq<T>>, keep: seq<T> -> bool)
    ensures forall k :: k in SetsOf(xs, keep) ==> exists c :: c in xs && k == Elements(c) && keep(c)
    ensures SetsOf(xs, keep) == [] <==> forall c :: c in xs ==> !keep(c)
  {
    if xs != [] {
      var init := xs[..|xs| - 1];
      SetsOfShape(init, keep);
      assert xs == init + [xs[|xs| - 1]];
    }
  }

  /** Extending the input by one sequence appends its elements when it is kept. */
  lemma SetsOfSnoc<T(!new)>(xs: seq<seq<T>>, c: seq<T>, keep: seq<T> -> bool)
    ensures SetsOf(xs + [c], keep) == if keep(c) then SetsOf(xs, keep) + [Elements(c)] else SetsOf(xs, keep)
  {
    assert (xs + [c])[..|xs|] == xs;
  }

  /** `[f(x) for x in xs]`. */
  function MapSeq<A, B>(xs: seq<A>, f: A -> B): (r: seq<B>)
    ensures |r| == |xs|
    ensures forall i :: 0 <= i < |xs| ==> r[i] == f(xs[i])
  {
    if xs == [] then [] else MapSeq(xs[..|xs| - 1], f) + [f(xs[|xs| - 1])]
  }

  /** Mapping one more element appends its image. */
  lemma MapSeqNext<A, B>(xs: seq<A>, n: nat, f: A -> B)
    requires n < |xs|
    ensures MapSeq(xs[..n + 1], f) == MapSeq(xs[..n], f) + [f(xs[n])]
  {
    assert xs[..n + 1][..n] == xs[..n];
  }

  /** The first non-empty `f(size)`, `f(size + 1)`, ..., `f(maxSize)`; empty when there is none. */
  function FirstNonEmpty<X>(f: nat -> seq<X>, size: nat, maxSize: nat): seq<X>
    decreases maxSize - size
  {
    if size > maxSize then []
    else if f(size) != [] then f(size) else FirstNonEmpty(f, size + 1, maxSize)
  }

  /** A non-empty search result is `f(s)` for one `s` in the range, and `f` is empty below `s`. */
  lemma {:induction false} FirstNonEmptyAt<X>(f: nat -> seq<X>, size: nat, maxSize: nat) returns (s: nat)
    ensures FirstNonEmpty(f, size, maxSize) != [] ==>
              size <= s <= maxSize && FirstNonEmpty(f, size, maxSize) == f(s)
              && forall t :: size <= t < s ==> f(t) == []
    decreases maxSize - size
  {
    s := size;
    if size <= maxSize && f(size) == [] {
      s := FirstNonEmptyAt(f, size + 1, maxSize);
    }
  }
}
