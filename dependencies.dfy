/**
 * Post-processing both detectors share: dropping trivial and weaker functional dependencies
 * (`_remove_redundant_fds`) and dropping candidate keys that contain another key.
 */
module Dependencies {
  import opened Seqs
  import opened TableModel

  /** `fd.dependent.issubset(fd.determinant)`. */
  predicate Trivial(fd: FunctionalDependency)
  {
    fd.dependent <= fd.determinant
  }

  /** `[fd for fd in fds if not fd.dependent.issubset(fd.determinant)]`. */
  function NonTrivial(fds: seq<FunctionalDependency>): (r: seq<FunctionalDependency>)
    ensures |r| <= |fds|
    ensures forall fd :: fd in r <==> fd in fds && !Trivial(fd)
  {
    if fds == [] then []
    else
      var init := NonTrivial(fds[..|fds| - 1]);
      var fd := fds[|fds| - 1];
      assert fds == fds[..|fds| - 1] + [fd];
      if Trivial(fd) then init else init + [fd]
  }

  /** The dictionary key `(frozenset(determinant), frozenset(dependent))`. */
  type Pair = (set<string>, set<string>)

  function PairOf(fd: FunctionalDependency): Pair
  {
    (fd.determinant, fd.dependent)
  }

  function PairsOf(fds: seq<FunctionalDependency>): (ps: seq<Pair>)
    ensures |ps| == |fds|
    ensures forall i :: 0 <= i < |fds| ==> ps[i] == PairOf(fds[i])
  {
    seq(|fds|, i requires 0 <= i < |fds| => PairOf(fds[i]))
  }

  /**
   * The entry `unique_fds[p]` holds after scanning `fds`: the dependency for `p` replaced
   * only by a later one of strictly greater confidence.
   */
  function Best(fds: seq<FunctionalDependency>, p: Pair): Option<FunctionalDependency>
  {
    if fds == [] then None
    else
      var b := Best(fds[..|fds| - 1], p);
      var fd := fds[|fds| - 1];
      if PairOf(fd) != p then b
      else if b.None? || fd.confidence > b.value.confidence then Some(fd)
      else b
  }

  /** One more scanned dependency changes only its own pair's entry. */
  lemma BestSnoc(fds: seq<FunctionalDependency>, fd: FunctionalDependency, p: Pair)
    ensures Best(fds + [fd], p) ==
      if PairOf(fd) != p then Best(fds, p)
      else if Best(fds, p).None? || fd.confidence > Best(fds, p).value.confidence then Some(fd)
      else Best(fds, p)
  {
    assert (fds + [fd])[..|fds|] == fds;
  }

  /** There is an entry for `p` exactly when some scanned dependency has that pair. */
  lemma {:induction false} BestDefined(fds: seq<FunctionalDependency>, p: Pair)
    ensures Best(fds, p).None? <==> p !in PairsOf(fds)
  {
    if fds != [] {
      var init := fds[..|fds| - 1];
      BestDefined(init, p);
      assert PairsOf(fds) == PairsOf(init) + [PairOf(fds[|fds| - 1])];
    }
  }

  /**
   * The kept dependency for `p` is, among the scanned dependencies with that pair, one of
   * greatest confidence, and the first of them: every earlier one with the pair is weaker.
   */
  lemma {:induction false} BestIsFirstStrongest(fds: seq<FunctionalDependency>, p: Pair) returns (i: nat)
    requires Best(fds, p).Some?
    ensures i < |fds| && fds[i] == Best(fds, p).value && PairOf(fds[i]) == p
    ensures forall j :: 0 <= j < i && PairOf(fds[j]) == p ==> fds[j].confidence < fds[i].confidence
    ensures forall j :: 0 <= j < |fds| && PairOf(fds[j]) == p ==> fds[j].confidence <= fds[i].confidence
  {
    var init := fds[..|fds| - 1];
    var fd := fds[|fds| - 1];
    assert fds == init + [fd];
    BestSnoc(init, fd, p);
    var b := Best(init, p);
    if PairOf(fd) == p && (b.None? || fd.confidence > b.value.confidence) {
      i := |fds| - 1;
      BestDefined(init, p);
      if b.Some? {
        var i' := BestIsFirstStrongest(init, p);
        forall j | 0 <= j < |fds| && PairOf(fds[j]) == p
          ensures fds[j].confidence <= fds[i].confidence
        {
          if j < i {
            assert fds[j] == init[j];
          }
        }
      } else {
        forall j | 0 <= j < i
          ensures PairOf(fds[j]) != p
        {
          assert fds[j] == init[j];
          assert PairsOf(init)[j] == PairOf(init[j]);
        }
      }
    } else {
      i := BestIsFirstStrongest(init, p);
    }
  }

  /**
   * What `_remove_redundant_fds` keeps before any sorting: for each (determinant, dependent)
   * pair of a non-trivial dependency, in order of the pair's first appearance, the best one.
   */
  function KeepStrongest(fds: seq<FunctionalDependency>): (r: seq<FunctionalDependency>)
  {
    var filtered := NonTrivial(fds);
    var pairs := Dedup(PairsOf(filtered));
    seq(|pairs|, k requires 0 <= k < |pairs| =>
      BestDefined(filtered, pairs[k]);
      Best(filtered, pairs[k]).value)
  }

  /**
   * The kept list has no trivial dependency, at most one dependency per pair, only members
   * of the input, and one for every pair a non-trivial input dependency has.
   */
  lemma KeepStrongestShape(fds: seq<FunctionalDependency>)
    ensures forall fd :: fd in KeepStrongest(fds) ==> fd in fds && !Trivial(fd)
    ensures Distinct(PairsOf(KeepStrongest(fds)))
    ensures forall fd :: fd in fds && !Trivial(fd) ==> PairOf(fd) in PairsOf(KeepStrongest(fds))
    ensures PairsOf(KeepStrongest(fds)) == Dedup(PairsOf(NonTrivial(fds)))
  {
    var filtered := NonTrivial(fds);
    var pairs := Dedup(PairsOf(filtered));
    var r := KeepStrongest(fds);
    forall k | 0 <= k < |pairs|
      ensures r[k] in filtered && PairOf(r[k]) == pairs[k]
    {
      BestDefined(filtered, pairs[k]);
      var i := BestIsFirstStrongest(filtered, pairs[k]);
    }
    assert PairsOf(r) == pairs;
    forall fd | fd in fds && !Trivial(fd)
      ensures PairOf(fd) in PairsOf(r)
    {
      var i :| 0 <= i < |filtered| && filtered[i] == fd;
      assert PairsOf(filtered)[i] == PairOf(fd);
    }
  }

  /**
   * Each kept dependency beats every other input dependency with its pair: none is stronger,
   * and every one scanned before it is strictly weaker.
   */
  lemma KeepStrongestIsStrongest(fds: seq<FunctionalDependency>, k: nat)
    requires k < |KeepStrongest(fds)|
    ensures forall g :: g in fds && !Trivial(g) && PairOf(g) == PairOf(KeepStrongest(fds)[k]) ==>
              g.confidence <= KeepStrongest(fds)[k].confidence
    ensures exists i :: 0 <= i < |NonTrivial(fds)| && NonTrivial(fds)[i] == KeepStrongest(fds)[k]
              && forall j :: 0 <= j < i && PairOf(NonTrivial(fds)[j]) == PairOf(KeepStrongest(fds)[k]) ==>
                   NonTrivial(fds)[j].confidence < KeepStrongest(fds)[k].confidence
  {
    var filtered := NonTrivial(fds);
    var pairs := Dedup(PairsOf(filtered));
    BestDefined(filtered, pairs[k]);
    var i := BestIsFirstStrongest(filtered, pairs[k]);
    forall g | g in fds && !Trivial(g) && PairOf(g) == PairOf(KeepStrongest(fds)[k])
      ensures g.confidence <= KeepStrongest(fds)[k].confidence
    {
      var j :| 0 <= j < |filtered| && filtered[j] == g;
    }
  }

  /** `[unique_fds[p] for p in keys]`: the dictionary's values in key order. */
  function Values(keys: seq<Pair>, m: map<Pair, FunctionalDependency>): (vs: seq<FunctionalDependency>)
    requires forall p :: p in keys ==> p in m
    ensures |vs| == |keys|
    ensures forall i :: 0 <= i < |keys| ==> vs[i] == m[keys[i]]
  {
    seq(|keys|, i requires 0 <= i < |keys| => m[keys[i]])
  }

  /** The dictionary state after scanning `s`: its keys in insertion order, and its entries. */
  predicate Tracks(s: seq<FunctionalDependency>, keys: seq<Pair>, unique: map<Pair, FunctionalDependency>)
  {
    keys == Dedup(PairsOf(s))
    && unique.Keys == Elements(keys)
    && forall p :: p in keys ==> Best(s, p) == Some(unique[p])
  }

  /** One iteration of the dictionary loop keeps the state in step with one more scanned dependency. */
  lemma TracksSnoc(s: seq<FunctionalDependency>, fd: FunctionalDependency,
                   keys: seq<Pair>, unique: map<Pair, FunctionalDependency>,
                   keys': seq<Pair>, unique': map<Pair, FunctionalDependency>)
    requires Tracks(s, keys, unique)
    requires keys' == if PairOf(fd) in keys then keys else keys + [PairOf(fd)]
    requires unique' == if PairOf(fd) !in unique || fd.confidence > unique[PairOf(fd)].confidence
                        then unique[PairOf(fd) := fd] else unique
    ensures Tracks(s + [fd], keys', unique')
  {
    var key := PairOf(fd);
    assert keys' == Dedup(PairsOf(s + [fd])) by {
      assert PairsOf(s + [fd]) == PairsOf(s) + [key];
      DedupSnoc(PairsOf(s), key);
    }
    assert unique'.Keys == Elements(keys') by {
      assert Elements(keys') == Elements(keys) + {key};
    }
    EntriesSnoc(s, fd, keys, unique, keys', unique');
  }

  lemma EntriesSnoc(s: seq<FunctionalDependency>, fd: FunctionalDependency,
                    keys: seq<Pair>, unique: map<Pair, FunctionalDependency>,
                    keys': seq<Pair>, unique': map<Pair, FunctionalDependency>)
    requires Tracks(s, keys, unique)
    requires keys' == if PairOf(fd) in keys then keys else keys + [PairOf(fd)]
    requires unique' == if PairOf(fd) !in unique || fd.confidence > unique[PairOf(fd)].confidence
                        then unique[PairOf(fd) := fd] else unique
    ensures forall p :: p in keys' ==> p in unique' && Best(s + [fd], p) == Some(unique'[p])
  {
    var key := PairOf(fd);
    BestDefined(s, key);
    assert key !in keys ==> Best(s, key).None?;
    forall p | p in keys'
      ensures p in unique' && Best(s + [fd], p) == Some(unique'[p])
    {
      BestSnoc(s, fd, p);
    }
  }

  /** A dictionary state that tracks the whole filtered list lists exactly the kept dependencies. */
  lemma TracksKeepStrongest(fds: seq<FunctionalDependency>, keys: seq<Pair>, unique: map<Pair, FunctionalDependency>)
    requires Tracks(NonTrivial(fds), keys, unique)
    ensures forall p :: p in keys ==> p in unique
    ensures Values(keys, unique) == KeepStrongest(fds)
  {
  }

  /**
   * `_remove_redundant_fds` up to its final list: the comprehension, then the dictionary
   * that keeps the strongest dependency per pair in insertion order.
   */
  method RemoveRedundantFds(fds: seq<FunctionalDependency>) returns (r: seq<FunctionalDependency>)
    ensures r == KeepStrongest(fds)
  {
    var filtered := NonTrivial(fds);
    var unique: map<Pair, FunctionalDependency> := map[];
    var keys: seq<Pair> := [];
    var i := 0;
    while i < |filtered|
      invariant 0 <= i <= |filtered|
      invariant Tracks(filtered[..i], keys, unique)
    {
      var fd := filtered[i];
      var key := PairOf(fd);
      ghost var (keys0, unique0) := (keys, unique);
      if key !in unique || fd.confidence > unique[key].confidence {
        unique := unique[key := fd];
      }
      if key !in keys {
        keys := keys + [key];
      }
      assert filtered[..i + 1] == filtered[..i] + [fd];
      TracksSnoc(filtered[..i], fd, keys0, unique0, keys, unique);
      i := i + 1;
    }
    assert filtered[..i] == filtered;
    TracksKeepStrongest(fds, keys, unique);
    r := Values(keys, unique);
  }

  /** `other_key != key and other_key.issubset(key)`: a strict subset. */
  predicate HasStrictSubset(key: set<string>, keys: seq<set<string>>)
  {
    exists m :: 0 <= m < |keys| && keys[m] < key
  }

  /** The keys of `cands`, in order, that contain no other key of `keys`. */
  function MinimalAmong(cands: seq<set<string>>, keys: seq<set<string>>): (r: seq<set<string>>)
    ensures forall k :: k in r <==> k in cands && !HasStrictSubset(k, keys)
  {
    if cands == [] then []
    else
      var init := MinimalAmong(cands[..|cands| - 1], keys);
      var k := cands[|cands| - 1];
      assert cands == cands[..|cands| - 1] + [k];
      if HasStrictSubset(k, keys) then init else init + [k]
  }

  /** The superkey filter: the minimal keys, or all keys when none is minimal. */
  function MinimalKeys(keys: seq<set<string>>): seq<set<string>>
  {
    var minimal := MinimalAmong(keys, keys);
    if minimal != [] then minimal else keys
  }

  /** The superkey filter's two nested loops. */
  method FilterMinimalKeys(keys: seq<set<string>>) returns (r: seq<set<string>>)
    ensures r == MinimalKeys(keys)
  {
    var minimal: seq<set<string>> := [];
    var i := 0;
    while i < |keys|
      invariant 0 <= i <= |keys|
      invariant minimal == MinimalAmong(keys[..i], keys)
    {
      var key := keys[i];
      var isMinimal := true;
      var j := 0;
      while j < |keys| && isMinimal
        invariant 0 <= j <= |keys|
        invariant isMinimal <==> forall m :: 0 <= m < j ==> !(keys[m] < key)
      {
        if keys[j] != key && keys[j] <= key {
          isMinimal := false;
        }
        j := j + 1;
      }
      assert keys[..i + 1][..i] == keys[..i];
      if isMinimal {
        minimal := minimal + [key];
      }
      i := i + 1;
    }
    assert keys[..i] == keys;
    r := if minimal != [] then minimal else keys;
  }

  /** A key of least size among a non-empty list. */
  lemma {:induction false} SmallestKey(keys: seq<set<string>>) returns (i: nat)
    requires keys != []
    ensures i < |keys| && forall j :: 0 <= j < |keys| ==> |keys[i]| <= |keys[j]|
  {
    if |keys| == 1 {
      i := 0;
    } else {
      var init := keys[..|keys| - 1];
      var i' := SmallestKey(init);
      i := if |keys[|keys| - 1]| < |keys[i']| then |keys| - 1 else i';
    }
  }

  /**
   * The filter keeps the list non-empty exactly when it was, and no returned key strictly
   * contains another returned key.
   */
  lemma MinimalKeysSound(keys: seq<set<string>>)
    ensures MinimalKeys(keys) != [] <==> keys != []
    ensures forall a, b :: a in MinimalKeys(keys) && b in MinimalKeys(keys) ==> !(a < b)
    ensures forall k :: k in MinimalKeys(keys) ==> k in keys
  {
    if keys != [] {
      var i := SmallestKey(keys);
      forall m | 0 <= m < |keys|
        ensures !(keys[m] < keys[i])
      {
        if keys[m] < keys[i] {
          StrictSubsetCard(keys[m], keys[i]);
        }
      }
      assert keys[i] in MinimalAmong(keys, keys);
    }
    forall a, b | a in MinimalKeys(keys) && b in MinimalKeys(keys)
      ensures !(a < b)
    {
      var m :| 0 <= m < |keys| && keys[m] == a;
    }
  }

  /** When all keys have one size, none strictly contains another, and the filter changes nothing. */
  lemma {:induction false} MinimalKeysSameSize(keys: seq<set<string>>, size: nat)
    requires forall k :: k in keys ==> |k| == size
    ensures MinimalKeys(keys) == keys
  {
    forall k | k in keys
      ensures !HasStrictSubset(k, keys)
    {
      forall m | 0 <= m < |keys|
        ensures !(keys[m] < k)
      {
        if keys[m] < k {
          StrictSubsetCard(keys[m], k);
        }
      }
    }
    MinimalAmongAll(keys, keys);
  }

  lemma {:induction false} MinimalAmongAll(cands: seq<set<string>>, keys: seq<set<string>>)
    requires forall k :: k in cands ==> !HasStrictSubset(k, keys)
    ensures MinimalAmong(cands, keys) == cands
  {
    if cands != [] {
      var init := cands[..|cands| - 1];
      MinimalAmongAll(init, keys);
      assert cands == init + [cands[|cands| - 1]];
    }
  }
}
