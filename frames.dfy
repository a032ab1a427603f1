/**
 * The small part of DataFrame behaviour both detectors depend on: the frame's columns, a
 * column's values, `astype(str)` rendering, the `'_'.join` row keys, `nunique`, and
 * `itertools.combinations`.
 */
module Frames {
  import opened Strings
  import opened Seqs
  import opened TableModel

  /** The value a row dictionary holds for `col`; a missing key reads as NaN. */
  function CellOf(row: Row, col: string): Value
  {
    if row == [] then Null
    else if row[0].column == col then row[0].value
    else CellOf(row[1..], col)
  }

  /** The keys of one row, in the row's order. */
  function RowKeys(row: Row): (keys: seq<string>)
    ensures |keys| == |row|
    ensures forall i :: 0 <= i < |row| ==> keys[i] == row[i].column
  {
    seq(|row|, i requires 0 <= i < |row| => row[i].column)
  }

  /** All keys of all rows, row after row. */
  function AllKeys(rows: seq<Row>): seq<string>
  {
    if rows == [] then [] else AllKeys(rows[..|rows| - 1]) + RowKeys(rows[|rows| - 1])
  }

  /** `list(pd.DataFrame(rows).columns)`: every key of every row, once, in order of first appearance. */
  function FrameColumns(rows: seq<Row>): (cols: seq<string>)
    ensures Distinct(cols)
  {
    Dedup(AllKeys(rows))
  }

  /** `str(v)` as `astype(str)` gives it: NaN renders as "nan". */
  function Render(v: Value): string
  {
    match v
    case Null => "nan"
    case Str(s) => s
    case Scalar(shown) => shown
    case Collection(shown) => shown
  }

  /** The row restricted to `cols`, in that order: a row of `df[cols]`. */
  function Tuple(row: Row, cols: seq<string>): (t: seq<Value>)
    ensures |t| == |cols|
    ensures forall i :: 0 <= i < |cols| ==> t[i] == CellOf(row, cols[i])
  {
    seq(|cols|, i requires 0 <= i < |cols| => CellOf(row, cols[i]))
  }

  /** `'_'.join` of the rendered values of a tuple. */
  function TupleKey(t: seq<Value>): string
  {
    Join(seq(|t|, i requires 0 <= i < |t| => Render(t[i])), "_")
  }

  /** `df[cols].astype(str).agg('_'.join, axis=1)` for one row. */
  function JoinedKey(row: Row, cols: seq<string>): string
  {
    TupleKey(Tuple(row, cols))
  }

  /** The joined key of every row: the Series the detectors build. */
  function JoinedKeys(rows: seq<Row>, cols: seq<string>): (keys: seq<string>)
    ensures |keys| == |rows|
    ensures forall i :: 0 <= i < |rows| ==> keys[i] == JoinedKey(rows[i], cols)
  {
    seq(|rows|, i requires 0 <= i < |rows| => JoinedKey(rows[i], cols))
  }

  /** The distinct joined keys; `nunique()` of the joined Series is its size (rendered keys are never NaN). */
  function KeySet(rows: seq<Row>, cols: seq<string>): set<string>
  {
    Elements(JoinedKeys(rows, cols))
  }

  /** The distinct row tuples over `cols`. */
  function TupleSet(rows: seq<Row>, cols: seq<string>): set<seq<Value>>
  {
    set r | r in rows :: Tuple(r, cols)
  }

  /** `df[col]` as a list. */
  function ColumnValues(rows: seq<Row>, col: string): (vs: seq<Value>)
    ensures |vs| == |rows|
    ensures forall i :: 0 <= i < |rows| ==> vs[i] == CellOf(rows[i], col)
  {
    seq(|rows|, i requires 0 <= i < |rows| => CellOf(rows[i], col))
  }

  /** `df[col].nunique()`: distinct values, NaN not counted. */
  function NUnique(rows: seq<Row>, col: string): nat
  {
    |Elements(ColumnValues(rows, col)) - {Null}|
  }

  /** `df[col].isnull().any()`. */
  predicate HasNull(rows: seq<Row>, col: string)
  {
    Null in ColumnValues(rows, col)
  }

  /** Equal tuples give equal joined keys: the key is a function of the tuple. */
  lemma JoinedKeyOfTuple(a: Row, b: Row, cols: seq<string>)
    ensures Tuple(a, cols) == Tuple(b, cols) ==> JoinedKey(a, cols) == JoinedKey(b, cols)
  {
  }

  /** Rendering then joining can merge different tuples: ("a_b", "c") and ("a", "b_c") share the key "a_b_c". */
  lemma JoinCollision()
    ensures TupleKey([Str("a_b"), Str("c")]) == TupleKey([Str("a"), Str("b_c")]) == "a_b_c"
  {
    var r1 := seq(2, i requires 0 <= i < 2 => Render([Str("a_b"), Str("c")][i]));
    var r2 := seq(2, i requires 0 <= i < 2 => Render([Str("a"), Str("b_c")][i]));
    assert r1 == ["a_b", "c"];
    assert r2 == ["a", "b_c"];
    assert Join(["c"], "_") == "c";
    assert Join(["b_c"], "_") == "b_c";
  }

  /** A set whose every element is the image of an element of `s` is no larger than `s`. */
  lemma {:induction false} ImageCard<A, B>(s: set<A>, image: set<B>, f: A -> B)
    requires forall y :: y in image ==> exists x :: x in s && f(x) == y
    ensures |image| <= |s|
    decreases |s|
  {
    if s != {} {
      var x :| x in s;
      var rest := image - {f(x)};
      forall y | y in rest
        ensures exists x' :: x' in s - {x} && f(x') == y
      {
        var x' :| x' in s && f(x') == y;
        assert x' != x;
      }
      ImageCard(s - {x}, rest, f);
    }
  }

  /** Joining can only merge tuples, so the joined keys never outnumber the distinct tuples. */
  lemma KeysAtMostTuples(rows: seq<Row>, cols: seq<string>)
    ensures |KeySet(rows, cols)| <= |TupleSet(rows, cols)|
  {
    var ts := TupleSet(rows, cols);
    var f := TupleKey;
    forall k | k in KeySet(rows, cols)
      ensures exists t :: t in ts && f(t) == k
    {
      var i :| 0 <= i < |rows| && JoinedKeys(rows, cols)[i] == k;
      assert rows[i] in rows;
      assert Tuple(rows[i], cols) in ts;
    }
    ImageCard(ts, KeySet(rows, cols), f);
  }

  /** A combination accepted as unique on its joined keys is unique on its tuples too. */
  lemma UniqueKeysUniqueTuples(rows: seq<Row>, cols: seq<string>)
    requires |KeySet(rows, cols)| == |rows|
    ensures forall i, j :: 0 <= i < j < |rows| ==> Tuple(rows[i], cols) != Tuple(rows[j], cols)
  {
    CardDistinct(JoinedKeys(rows, cols));
    forall i, j | 0 <= i < j < |rows|
      ensures Tuple(rows[i], cols) != Tuple(rows[j], cols)
    {
      assert JoinedKeys(rows, cols)[i] != JoinedKeys(rows, cols)[j];
      JoinedKeyOfTuple(rows[i], rows[j], cols);
    }
  }

  /** `[[x] + c for c in cs]`. */
  function Prepend<T>(x: T, cs: seq<seq<T>>): (r: seq<seq<T>>)
    ensures |r| == |cs|
  {
    seq(|cs|, i requires 0 <= i < |cs| => [x] + cs[i])
  }

  /** `list(itertools.combinations(s, k))`, in itertools' (lexicographic by position) order. */
  function Combinations<T>(s: seq<T>, k: nat): (r: seq<seq<T>>)
    decreases |s|
  {
    if k == 0 then [[]]
    else if |s| < k then []
    else Prepend(s[0], Combinations(s[1..], k - 1)) + Combinations(s[1..], k)
  }

  /** Dropping the head of a repeat-free sequence leaves one without it and without repeats. */
  lemma TailDistinct<T(!new)>(s: seq<T>)
    requires Distinct(s) && s != []
    ensures Distinct(s[1..]) && s[0] !in s[1..]
  {
    assert forall i :: 0 <= i < |s| - 1 ==> s[1..][i] == s[i + 1];
  }

  lemma ConsDistinct<T(!new)>(x: T, d: seq<T>)
    requires Distinct(d) && x !in d
    ensures Distinct([x] + d)
  {
    var c := [x] + d;
    forall p, q | 0 <= p < q < |c|
      ensures c[p] != c[q]
    {
      assert c[q] == d[q - 1];
      if p > 0 {
        assert c[p] == d[p - 1];
      }
    }
  }

  /** Each combination has k elements, all drawn from `s`. */
  lemma {:induction false} CombinationMembers<T>(s: seq<T>, k: nat)
    ensures forall c :: c in Combinations(s, k) ==> |c| == k && (forall x :: x in c ==> x in s)
    decreases |s|
  {
    if k > 0 && |s| >= k {
      var tail := s[1..];
      CombinationMembers(tail, k - 1);
      CombinationMembers(tail, k);
      var front := Prepend(s[0], Combinations(tail, k - 1));
      var back := Combinations(tail, k);
      assert Combinations(s, k) == front + back;
      assert forall x :: x in tail ==> x in s;
      PrependMembers(s[0], Combinations(tail, k - 1), k - 1, s);
    }
  }

  /** Putting an entry of `s` in front of sequences of length `n` over `s` gives sequences of length `n + 1` over `s`. */
  lemma PrependMembers<T>(x: T, cs: seq<seq<T>>, n: nat, s: seq<T>)
    requires x in s
    requires forall c :: c in cs ==> |c| == n && (forall y :: y in c ==> y in s)
    ensures forall c :: c in Prepend(x, cs) ==> |c| == n + 1 && (forall y :: y in c ==> y in s)
  {
    forall c | c in Prepend(x, cs)
      ensures |c| == n + 1 && (forall y :: y in c ==> y in s)
    {
      var i :| 0 <= i < |cs| && Prepend(x, cs)[i] == c;
      assert cs[i] in cs;
      assert c == [x] + cs[i];
    }
  }

  /** Prefixing repeat-free sequences over `tail` with an element outside `tail` keeps them repeat-free. */
  lemma PrependDistinct<T(!new)>(x: T, shorter: seq<seq<T>>, tail: seq<T>)
    requires x !in tail
    requires forall d :: d in shorter ==> Distinct(d) && forall y :: y in d ==> y in tail
    ensures forall c :: c in Prepend(x, shorter) ==> Distinct(c)
  {
    forall i | 0 <= i < |shorter|
      ensures Distinct(Prepend(x, shorter)[i])
    {
      assert shorter[i] in shorter;
      ConsDistinct(x, shorter[i]);
    }
  }

  /** Over a repeat-free `s`, no combination has repeats. */
  lemma {:induction false} CombinationsDistinct<T(!new)>(s: seq<T>, k: nat)
    requires Distinct(s)
    ensures forall c :: c in Combinations(s, k) ==> Distinct(c)
    decreases |s|
  {
    if k > 0 && |s| >= k {
      var tail := s[1..];
      TailDistinct(s);
      CombinationsDistinct(tail, k - 1);
      CombinationsDistinct(tail, k);
      CombinationMembers(tail, k - 1);
      PrependDistinct(s[0], Combinations(tail, k - 1), tail);
      assert Combinations(s, k) == Prepend(s[0], Combinations(tail, k - 1)) + Combinations(tail, k);
    }
  }

  /** Each combination has k elements, all drawn from `s`, and no repeats when `s` has none. */
  lemma CombinationShape<T(!new)>(s: seq<T>, k: nat)
    ensures forall c :: c in Combinations(s, k) ==> |c| == k && (forall x :: x in c ==> x in s)
    ensures Distinct(s) ==> forall c :: c in Combinations(s, k) ==> Distinct(c)
  {
    CombinationMembers(s, k);
    if Distinct(s) {
      CombinationsDistinct(s, k);
    }
  }

  /** `combinations([x, y, z], 2)` is `[x, y], [x, z], [y, z]`. */
  lemma ThreePairs<T>(x: T, y: T, z: T)
    ensures Combinations([x, y, z], 2) == [[x, y], [x, z], [y, z]]
  {
    var none: seq<T> := [];
    assert Combinations(none, 0) == [none];
    assert Combinations([z], 1) == [[z]] by {
      assert [z][1..] == none;
      assert Combinations(none, 1) == [];
      PrependOne(z, none);
      assert [z] + none == [z];
      assert Combinations([z], 1) == Prepend(z, [none]) + [];
    }
    assert Combinations([y, z], 1) == [[y], [z]] by {
      assert [y, z][1..] == [z];
      PrependOne(y, none);
      assert [y] + none == [y];
      assert Combinations([y, z], 1) == Prepend(y, [none]) + [[z]];
    }
    assert Combinations([y, z], 2) == [[y, z]] by {
      assert [y, z][1..] == [z];
      assert Combinations([z], 2) == [];
      PrependOne(y, [z]);
      assert [y] + [z] == [y, z];
      assert Combinations([y, z], 2) == Prepend(y, [[z]]) + [];
    }
    assert [x, y, z][1..] == [y, z];
    var front := Prepend(x, [[y], [z]]);
    assert front[0] == [x] + [y] == [x, y];
    assert front[1] == [x] + [z] == [x, z];
    assert front == [[x, y], [x, z]];
  }

  lemma PrependOne<T>(x: T, c: seq<T>)
    ensures Prepend(x, [c]) == [[x] + c]
  {
  }

  /** A member of `combinations(s, 1)` is one entry of `s`. */
  lemma {:induction false} SingletonPosition<T>(s: seq<T>, d: seq<T>) returns (q: nat)
    requires d in Combinations(s, 1)
    ensures q < |s| && d == [s[q]]
    decreases |s|
  {
    assert |s| >= 1;
    var tail := s[1..];
    var front := Prepend(s[0], Combinations(tail, 0));
    assert Combinations(s, 1) == front + Combinations(tail, 1);
    if d in front {
      assert front == [[s[0]] + []];
      q := 0;
    } else {
      var q' := SingletonPosition(tail, d);
      q := q' + 1;
    }
  }

  /** A pair of `combinations(s, 2)` is two entries of `s`, the first strictly before the second. */
  lemma PairPositions<T>(s: seq<T>, p: seq<T>) returns (i: nat, j: nat)
    requires p in Combinations(s, 2)
    ensures i < j < |s| && p == [s[i], s[j]]
  {
    assert s[0..] == s;
    i, j := PairPositionsFrom(s, 0, p);
  }

  /** The same for a pair of `combinations(s[o:], 2)`, in positions of `s`. */
  lemma {:induction false} PairPositionsFrom<T>(s: seq<T>, o: nat, p: seq<T>) returns (i: nat, j: nat)
    requires o <= |s| && p in Combinations(s[o..], 2)
    ensures o <= i < j < |s| && p == [s[i], s[j]]
    decreases |s| - o
  {
    var first := PairSplit(s, o, p);
    if first {
      i := o;
      j := FirstPairPosition(s, o, p);
    } else {
      i, j := PairPositionsFrom(s, o + 1, p);
    }
  }

  /** A pair of `combinations(s[o:], 2)` either starts with `s[o]` or is a pair of `s[o + 1:]`. */
  lemma PairSplit<T>(s: seq<T>, o: nat, p: seq<T>) returns (first: bool)
    requires o <= |s| && p in Combinations(s[o..], 2)
    ensures o + 2 <= |s|
    ensures if first then p in Prepend(s[o], Combinations(s[o + 1..], 1)) else p in Combinations(s[o + 1..], 2)
  {
    var t := s[o..];
    assert |t| >= 2;
    assert t[0] == s[o] && t[1..] == s[o + 1..];
    assert Combinations(t, 2) == Prepend(t[0], Combinations(t[1..], 1)) + Combinations(t[1..], 2);
    first := p in Prepend(s[o], Combinations(s[o + 1..], 1));
  }

  /** A pair that starts with `s[o]` pairs it with a later entry. */
  lemma FirstPairPosition<T>(s: seq<T>, o: nat, p: seq<T>) returns (j: nat)
    requires o < |s| && p in Prepend(s[o], Combinations(s[o + 1..], 1))
    ensures o < j < |s| && p == [s[o], s[j]]
  {
    var tail := s[o + 1..];
    var front := Prepend(s[o], Combinations(tail, 1));
    var m :| 0 <= m < |front| && front[m] == p;
    var q := SingletonPosition(tail, Combinations(tail, 1)[m]);
    assert p == [s[o]] + [tail[q]];
    j := o + 1 + q;
  }
}
