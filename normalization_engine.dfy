/**
 * The normal-form classifier and the decomposition engine
 * (backend/app/services/normalization_engine.py): the `_is_1nf` ... `_is_5nf` checks on the
 * engine's first table, the classification that walks them from the bottom, the engine
 * object whose steps replace its list of current tables, and `analyze`, whose step guards
 * compare the value strings of the normal forms.
 */
module Engine {
  import opened Strings
  import opened Seqs
  import opened TableModel
  import opened Analysis
  import opened AiDetector
  import opened Frames

  // ---------------------------------------------------------------------------------------
  // Column-name bases and atomic values
  // ---------------------------------------------------------------------------------------

  /** The characters `rstrip('0123456789_')` removes. */
  predicate Strippable(c: char)
  {
    IsDigit(c) || c == '_'
  }

  /** The length of `name[..k]` once its trailing digits and underscores are gone. */
  function KeptLength(name: string, k: nat): (n: nat)
    requires k <= |name|
    ensures n <= k
  {
    if k > 0 && Strippable(name[k - 1]) then KeptLength(name, k - 1) else k
  }

  /** `name.rstrip('0123456789_')`: the name without its trailing digits and underscores. */
  function Base(name: string): string
  {
    name[..KeptLength(name, |name|)]
  }

  /** The name ends in a digit or an underscore, so stripping changes it. */
  predicate Suffixed(name: string)
  {
    KeptLength(name, |name|) < |name|
  }

  /** Everything `KeptLength` drops is strippable, and what it keeps does not end in a strippable character. */
  lemma {:induction false} KeptLengthShape(name: string, k: nat)
    requires k <= |name|
    ensures forall i :: KeptLength(name, k) <= i < k ==> Strippable(name[i])
    ensures KeptLength(name, k) > 0 ==> !Strippable(name[KeptLength(name, k) - 1])
  {
    if k > 0 && Strippable(name[k - 1]) {
      KeptLengthShape(name, k - 1);
    }
  }

  /**
   * The base is a prefix of the name, everything after it is a digit or an underscore, it
   * does not itself end in one, and it differs from the name exactly when the name is suffixed.
   */
  lemma BaseShape(name: string)
    ensures Base(name) == name[..|Base(name)|]
    ensures forall i :: |Base(name)| <= i < |name| ==> Strippable(name[i])
    ensures Base(name) != [] ==> !Strippable(Base(name)[|Base(name)| - 1])
    ensures Base(name) != name <==> Suffixed(name)
  {
    KeptLengthShape(name, |name|);
  }

  /** A list, dict or set, or a string that splits into more than two parts at commas. */
  predicate NonAtomic(v: Value)
  {
    v.Collection? || (v.Str? && ',' in v.s && Count(v.s, ',') + 1 > 2)
  }

  /** Two of the names share a base. */
  predicate HasRepeatedBase(names: seq<string>)
  {
    exists i, j :: 0 <= i < j < |names| && Base(names[i]) == Base(names[j])
  }

  /** Some cell of the rows holds a non-atomic value. */
  predicate HasNonAtomic(rows: seq<Row>)
  {
    exists r, c :: r in rows && c in r && NonAtomic(c.value)
  }

  /** `rows[:n]`. */
  function Take(rows: seq<Row>, n: nat): (r: seq<Row>)
    ensures |r| <= n && |r| <= |rows| && r == rows[..|r|]
    ensures |rows| <= n ==> r == rows
  {
    if |rows| <= n then rows else rows[..n]
  }

  // ---------------------------------------------------------------------------------------
  // The normal-form checks on one table
  // ---------------------------------------------------------------------------------------

  /** `_is_1nf`: no two column names share a base, and no value in the first 10 rows is non-atomic. */
  predicate Is1NF(t: Table)
  {
    !HasRepeatedBase(ColumnNames(t)) && !HasNonAtomic(Take(t.data, 10))
  }

  /** Some candidate key contains all of `cols`. */
  predicate InSomeKey(t: Table, cols: set<string>)
  {
    exists key :: key in t.candidateKeys && cols <= key
  }

  /** Some candidate key lies inside `cols`: `cols` is a superkey. */
  predicate HasKeyInside(t: Table, cols: set<string>)
  {
    exists key :: key in t.candidateKeys && key <= cols
  }

  /** Some column of `cols` belongs to some candidate key. */
  predicate TouchesKey(t: Table, cols: set<string>)
  {
    exists key, c :: key in t.candidateKeys && c in cols && c in key
  }

  /** A partial dependency: the determinant is a proper part of the primary key, the dependent inside no key. */
  predicate PartialFd(t: Table, fd: FunctionalDependency)
  {
    fd.determinant < t.primaryKey && !InSomeKey(t, fd.dependent)
  }

  /** A transitive dependency: the determinant is no superkey and no dependent column is in a key. */
  predicate TransitiveFd(t: Table, fd: FunctionalDependency)
  {
    !HasKeyInside(t, fd.determinant) && !TouchesKey(t, fd.dependent)
  }

  /** `_is_2nf`: 1NF, and with a composite primary key no partial dependency. */
  predicate Is2NF(t: Table)
  {
    Is1NF(t) && (|t.primaryKey| <= 1 || forall fd :: fd in t.functionalDependencies ==> !PartialFd(t, fd))
  }

  /** `_is_3nf`: 2NF and no transitive dependency. */
  predicate Is3NF(t: Table)
  {
    Is2NF(t) && forall fd :: fd in t.functionalDependencies ==> !TransitiveFd(t, fd)
  }

  /** `_is_bcnf`: 3NF and every determinant a superkey. */
  predicate IsBCNF(t: Table)
  {
    Is3NF(t) && forall fd :: fd in t.functionalDependencies ==> HasKeyInside(t, fd.determinant)
  }

  /** An MVD is trivial when its dependent lies in its determinant or together they are every column. */
  predicate TrivialMvd(t: Table, mvd: MultiValuedDependency)
  {
    mvd.dependent <= mvd.determinant || mvd.determinant + mvd.dependent == Elements(ColumnNames(t))
  }

  /** `_is_4nf`: BCNF and only trivial MVDs. */
  predicate Is4NF(t: Table)
  {
    IsBCNF(t) && forall mvd :: mvd in t.multiValuedDependencies ==> TrivialMvd(t, mvd)
  }

  /** `_is_5nf`: 4NF and no MVD at all. */
  predicate Is5NF(t: Table)
  {
    Is4NF(t) && |t.multiValuedDependencies| == 0
  }

  /** The check for each level; every table is at least unnormalized. */
  predicate Holds(t: Table, nf: NormalForm)
  {
    match nf
    case Unnormalized => true
    case FirstNF => Is1NF(t)
    case SecondNF => Is2NF(t)
    case ThirdNF => Is3NF(t)
    case BCNF => IsBCNF(t)
    case FourthNF => Is4NF(t)
    case FifthNF => Is5NF(t)
  }

  /** The level after `nf` in declaration order. */
  function Next(nf: NormalForm): NormalForm
    requires nf != FifthNF
  {
    match nf
    case Unnormalized => FirstNF
    case FirstNF => SecondNF
    case SecondNF => ThirdNF
    case ThirdNF => BCNF
    case BCNF => FourthNF
    case FourthNF => FifthNF
  }

  /** `_determine_current_nf`: the level just below the first check that fails. */
  function CurrentNF(t: Table): NormalForm
  {
    if !Is1NF(t) then Unnormalized
    else if !Is2NF(t) then FirstNF
    else if !Is3NF(t) then SecondNF
    else if !IsBCNF(t) then ThirdNF
    else if !Is4NF(t) then BCNF
    else if !Is5NF(t) then FourthNF
    else FifthNF
  }

  /** Each check includes the one below it: holding at a level means holding at every lower one. */
  lemma HoldsDownward(t: Table, a: NormalForm, b: NormalForm)
    requires Ordinal(a) <= Ordinal(b) && Holds(t, b)
    ensures Holds(t, a)
  {
  }

  /** The classification is exact: every level up to the result holds, and the next one does not. */
  lemma CurrentNFExact(t: Table)
    ensures forall nf :: Ordinal(nf) <= Ordinal(CurrentNF(t)) ==> Holds(t, nf)
    ensures CurrentNF(t) != FifthNF ==> !Holds(t, Next(CurrentNF(t)))
  {
    forall nf | Ordinal(nf) <= Ordinal(CurrentNF(t))
      ensures Holds(t, nf)
    {
      HoldsDownward(t, nf, CurrentNF(t));
    }
  }

  /** With at most one primary-key column, 2NF is 1NF. */
  lemma SimpleKeySecondIsFirst(t: Table)
    requires |t.primaryKey| <= 1
    ensures Is2NF(t) <==> Is1NF(t)
  {
  }

  /** Without candidate keys every FD is transitive, so any FD at all rules out 3NF and BCNF. */
  lemma NoKeysNoThirdNF(t: Table)
    requires t.candidateKeys == [] && t.functionalDependencies != []
    ensures !Is3NF(t) && !IsBCNF(t)
  {
    var fd := t.functionalDependencies[0];
    assert fd in t.functionalDependencies && TransitiveFd(t, fd);
  }

  // ---------------------------------------------------------------------------------------
  // Repeating groups of columns
  // ---------------------------------------------------------------------------------------

  /** The bases of the names that lose a suffix when stripped, in name order. */
  function StrippedBases(names: seq<string>): seq<string>
  {
    if names == [] then []
    else
      var n := names[|names| - 1];
      StrippedBases(names[..|names| - 1]) + if Suffixed(n) then [Base(n)] else []
  }

  /** The names that lose a suffix and strip to `b`, in name order. */
  function Members(names: seq<string>, b: string): seq<string>
  {
    if names == [] then []
    else
      var n := names[|names| - 1];
      Members(names[..|names| - 1], b) + if Suffixed(n) && Base(n) == b then [n] else []
  }

  /** The groups of the listed bases that have more than one member, as sets. */
  function GroupsOf(bases: seq<string>, names: seq<string>): seq<set<string>>
  {
    if bases == [] then []
    else
      var b := bases[|bases| - 1];
      GroupsOf(bases[..|bases| - 1], names) + if |Members(names, b)| > 1 then [Elements(Members(names, b))] else []
  }

  /** `_find_repeating_groups`: per base, in first-seen order, the suffixed names sharing it, when there are several. */
  function RepeatingGroups(names: seq<string>): seq<set<string>>
  {
    GroupsOf(Dedup(StrippedBases(names)), names)
  }

  /** A base has members only when some name was stripped to it. */
  lemma {:induction false} MembersListed(names: seq<string>, b: string)
    ensures Members(names, b) != [] ==> b in StrippedBases(names)
  {
    if names != [] {
      MembersListed(names[..|names| - 1], b);
    }
  }

  /** One more name extends the stripped bases by its base when it had a suffix. */
  lemma StrippedBasesSnoc(names: seq<string>, n: string)
    ensures StrippedBases(names + [n]) == StrippedBases(names) + if Suffixed(n) then [Base(n)] else []
  {
    assert (names + [n])[..|names|] == names;
  }

  /** One more name extends the members of its base, when it had a suffix, and no other list. */
  lemma MembersSnoc(names: seq<string>, n: string, b: string)
    ensures Members(names + [n], b) == Members(names, b) + if Suffixed(n) && Base(n) == b then [n] else []
  {
    assert (names + [n])[..|names|] == names;
  }

  /** One more name leaves the members of every other base alone. */
  lemma MembersSnocOthers(names: seq<string>, n: string)
    ensures forall b :: b != Base(n) || !Suffixed(n) ==> Members(names + [n], b) == Members(names, b)
  {
    forall b | b != Base(n) || !Suffixed(n)
      ensures Members(names + [n], b) == Members(names, b)
    {
      MembersSnoc(names, n, b);
    }
  }

  /** The groups of a prefix of the bases, extended by one more base. */
  lemma GroupsOfSnoc(bases: seq<string>, b: string, names: seq<string>)
    ensures GroupsOf(bases + [b], names)
            == GroupsOf(bases, names) + if |Members(names, b)| > 1 then [Elements(Members(names, b))] else []
  {
    assert (bases + [b])[..|bases|] == bases;
  }

  /** The first `k + 1` bases give the groups of the first `k` and that of base `k`. */
  lemma GroupsOfNext(bases: seq<string>, k: nat, names: seq<string>)
    requires k < |bases|
    ensures GroupsOf(bases[..k + 1], names) == GroupsOf(bases[..k], names)
              + if |Members(names, bases[k])| > 1 then [Elements(Members(names, bases[k]))] else []
  {
    assert bases[..k + 1] == bases[..k] + [bases[k]];
    GroupsOfSnoc(bases[..k], bases[k], names);
  }

  /** The dict of `_find_repeating_groups` after the names: each base that some name was stripped to, with its names. */
  function MemberMap(names: seq<string>): map<string, seq<string>>
  {
    if names == [] then map[]
    else
      var m := MemberMap(names[..|names| - 1]);
      var n := names[|names| - 1];
      if !Suffixed(n) then m
      else if Base(n) in m then m[Base(n) := m[Base(n)] + [n]]
      else m[Base(n) := [n]]
  }

  /** The dict holds exactly the stripped bases, each with the names stripped to it. */
  lemma {:induction false} MemberMapExact(names: seq<string>)
    ensures forall b :: b in MemberMap(names) <==> b in StrippedBases(names)
    ensures forall b :: b in MemberMap(names) ==> MemberMap(names)[b] == Members(names, b)
  {
    if names != [] {
      var init := names[..|names| - 1];
      var n := names[|names| - 1];
      assert names == init + [n];
      MemberMapExact(init);
      StrippedBasesSnoc(init, n);
      MembersSnocOthers(init, n);
      if Suffixed(n) {
        MembersSnoc(init, n, Base(n));
        MembersListed(init, Base(n));
      }
    }
  }

  /** A stripped base has an entry in the dict: its member list. */
  lemma MemberEntry(names: seq<string>, b: string)
    requires b in StrippedBases(names)
    ensures b in MemberMap(names) && MemberMap(names)[b] == Members(names, b)
  {
    MemberMapExact(names);
  }

  /** One more name adds itself to its base's entry, when it is suffixed. */
  lemma MemberMapSnoc(names: seq<string>, n: string)
    ensures MemberMap(names + [n])
            == if !Suffixed(n) then MemberMap(names)
               else if Base(n) in MemberMap(names) then MemberMap(names)[Base(n) := MemberMap(names)[Base(n)] + [n]]
               else MemberMap(names)[Base(n) := [n]]
  {
    assert (names + [n])[..|names|] == names;
  }

  /** One base is a key of the dict exactly when some name was stripped to it. */
  lemma MemberMapKeys(names: seq<string>, b: string)
    ensures b in MemberMap(names) <==> b in StrippedBases(names)
  {
    MemberMapExact(names);
  }

  /** The first loop of `_find_repeating_groups`: the dict's keys in insertion order and the dict itself. */
  method CollectBases(names: seq<string>) returns (bases: seq<string>, members: map<string, seq<string>>)
    ensures bases == Dedup(StrippedBases(names))
    ensures members == MemberMap(names)
  {
    bases := [];
    members := map[];
    var i := 0;
    while i < |names|
      invariant 0 <= i <= |names|
      invariant bases == Dedup(StrippedBases(names[..i]))
      invariant members == MemberMap(names[..i])
    {
      var name := names[i];
      var base := Base(name);
      ghost var pre := names[..i];
      BaseShape(name);
      assert names[..i + 1] == pre + [name];
      StrippedBasesSnoc(pre, name);
      MemberMapSnoc(pre, name);
      MemberMapKeys(pre, base);
      if base != name {
        assert StrippedBases(pre + [name]) == StrippedBases(pre) + [base];
        DedupSnoc(StrippedBases(pre), base);
        if base !in members {
          bases := bases + [base];
          members := members[base := [name]];
        } else {
          members := members[base := members[base] + [name]];
        }
      } else {
        assert StrippedBases(pre + [name]) == StrippedBases(pre);
      }
      assert bases == Dedup(StrippedBases(pre + [name]));
      i := i + 1;
    }
    assert names[..i] == names;
  }

  /** `_find_repeating_groups`: fills the dict in name order, then keeps each base's names when there are several. */
  method FindRepeatingGroups(names: seq<string>) returns (groups: seq<set<string>>)
    ensures groups == RepeatingGroups(names)
  {
    var bases, members := CollectBases(names);
    groups := [];
    var k := 0;
    while k < |bases|
      invariant 0 <= k <= |bases|
      invariant groups == GroupsOf(bases[..k], names)
    {
      assert bases[k] in bases;
      MemberEntry(names, bases[k]);
      var cols := members[bases[k]];
      GroupsOfNext(bases, k, names);
      if |cols| > 1 {
        groups := groups + [Elements(cols)];
      }
      k := k + 1;
    }
    assert bases[..k] == bases;
  }

  /** Every member of a base's list is one of the names, stripped to that base. */
  lemma {:induction false} MembersShape(names: seq<string>, b: string)
    ensures forall n :: n in Members(names, b) ==> n in names && Suffixed(n) && Base(n) == b
  {
    if names != [] {
      MembersShape(names[..|names| - 1], b);
    }
  }

  /** `g` is the name set of a base with several members. */
  ghost predicate IsGroup(g: set<string>, names: seq<string>)
  {
    exists b :: |Members(names, b)| > 1 && g == Elements(Members(names, b))
  }

  /** Every produced group is the name set of a base with several members. */
  lemma {:induction false} GroupsOfShape(bases: seq<string>, names: seq<string>)
    ensures forall g :: g in GroupsOf(bases, names) ==> IsGroup(g, names)
  {
    if bases != [] {
      GroupsOfShape(bases[..|bases| - 1], names);
    }
  }

  /** A group is non-empty and holds suffixed names of the table, all with the same base. */
  lemma GroupShape(g: set<string>, names: seq<string>)
    requires IsGroup(g, names)
    ensures g != {}
    ensures forall n :: n in g ==> n in names && Suffixed(n)
    ensures forall n, m :: n in g && m in g ==> Base(n) == Base(m)
  {
    var b :| |Members(names, b)| > 1 && g == Elements(Members(names, b));
    MembersShape(names, b);
    assert Members(names, b)[0] in g;
  }

  /** Two names whose member list has two entries sit at two positions with that base. */
  lemma {:induction false} TwoMembers(names: seq<string>, b: string) returns (i: nat, j: nat)
    requires |Members(names, b)| > 1
    ensures i < j < |names| && Base(names[i]) == b && Base(names[j]) == b
  {
    var init := names[..|names| - 1];
    var n := names[|names| - 1];
    if |Members(init, b)| > 1 {
      i, j := TwoMembers(init, b);
    } else {
      MembersShape(init, b);
      var m := Members(init, b)[0];
      assert m in Members(init, b);
      var p :| 0 <= p < |init| && init[p] == m;
      i, j := p, |names| - 1;
    }
  }

  /** Some base of the list has a group, so some group is produced. */
  lemma {:induction false} GroupsOfNonEmpty(bases: seq<string>, names: seq<string>, b: string)
    requires b in bases && |Members(names, b)| > 1
    ensures GroupsOf(bases, names) != []
  {
    if bases[|bases| - 1] != b {
      GroupsOfNonEmpty(bases[..|bases| - 1], names, b);
    }
  }

  /** A repeating group is always a repeated base, so the 1NF check fails on its table. */
  lemma GroupImpliesRepeatedBase(names: seq<string>)
    requires RepeatingGroups(names) != []
    ensures HasRepeatedBase(names)
  {
    var bases := Dedup(StrippedBases(names));
    var b := GroupWitness(bases, names);
    var i, j := TwoMembers(names, b);
  }

  /** A base of the list whose member list is long enough to form a group. */
  lemma {:induction false} GroupWitness(bases: seq<string>, names: seq<string>) returns (b: string)
    requires GroupsOf(bases, names) != []
    ensures |Members(names, b)| > 1
  {
    var last := bases[|bases| - 1];
    if |Members(names, last)| > 1 {
      b := last;
    } else {
      b := GroupWitness(bases[..|bases| - 1], names);
    }
  }

  /** Two names both carrying a suffix and sharing a base always make a group. */
  lemma {:induction false} SuffixedPairMakesGroup(names: seq<string>, i: nat, j: nat)
    requires i < j < |names| && Base(names[i]) == Base(names[j])
    requires Suffixed(names[i]) && Suffixed(names[j])
    ensures RepeatingGroups(names) != []
  {
    var b := Base(names[i]);
    MembersAtTwo(names, b, i, j);
    MembersListed(names, b);
    GroupsOfNonEmpty(Dedup(StrippedBases(names)), names, b);
  }

  /** Two suffixed names with base `b` both count as members of `b`. */
  lemma {:induction false} MembersAtTwo(names: seq<string>, b: string, i: nat, j: nat)
    requires i < j < |names| && Base(names[i]) == b && Base(names[j]) == b
    requires Suffixed(names[i]) && Suffixed(names[j])
    ensures |Members(names, b)| > 1
  {
    var init := names[..|names| - 1];
    if j < |names| - 1 {
      MembersAtTwo(init, b, i, j);
    } else {
      MembersAtOne(init, b, i);
    }
  }

  /** A suffixed name with base `b` counts as a member of `b`. */
  lemma {:induction false} MembersAtOne(names: seq<string>, b: string, i: nat)
    requires i < |names| && Base(names[i]) == b && Suffixed(names[i])
    ensures |Members(names, b)| > 0
  {
    if i < |names| - 1 {
      MembersAtOne(names[..|names| - 1], b, i);
    }
  }

  /** An unsuffixed name and a suffixed one with the same base fail 1NF yet form no group. */
  lemma PlainAndSuffixedNoGroup()
    ensures HasRepeatedBase(["phone", "phone1"])
    ensures RepeatingGroups(["phone", "phone1"]) == []
  {
    var names := ["phone", "phone1"];
    assert !Strippable('e') && Strippable('1');
    assert KeptLength("phone", 5) == 5;
    assert KeptLength("phone1", 6) == KeptLength("phone1", 5) == 5;
    assert Base("phone") == "phone" && !Suffixed("phone");
    assert Base("phone1") == "phone" && Suffixed("phone1");
    assert names[..1] == ["phone"];
    assert StrippedBases(names) == ["phone"];
    assert Members(names, "phone") == ["phone1"];
    assert Dedup(["phone"]) == ["phone"];
    assert ["phone"][..0] == [];
  }

  // ---------------------------------------------------------------------------------------
  // Columns holding non-atomic values
  // ---------------------------------------------------------------------------------------

  /** The columns of the row's cells holding non-atomic values, in cell order. */
  function FlaggedInRow(r: Row): seq<string>
  {
    if r == [] then []
    else FlaggedInRow(r[..|r| - 1]) + if NonAtomic(r[|r| - 1].value) then [r[|r| - 1].column] else []
  }

  /** One more cell extends the row's flagged columns by its column when its value is non-atomic. */
  lemma FlaggedInRowSnoc(r: Row, c: Cell)
    ensures FlaggedInRow(r + [c]) == FlaggedInRow(r) + if NonAtomic(c.value) then [c.column] else []
  {
    assert (r + [c])[..|r|] == r;
  }

  /** The flagged columns of all rows, row after row. */
  function Flagged(rows: seq<Row>): seq<string>
  {
    if rows == [] then [] else Flagged(rows[..|rows| - 1]) + FlaggedInRow(rows[|rows| - 1])
  }

  /** `_find_non_atomic_columns`: the columns with a non-atomic value in the first 20 rows, each once, first-seen first. */
  function NonAtomicColumns(rows: seq<Row>): seq<string>
  {
    Dedup(Flagged(Take(rows, 20)))
  }

  /** The inner loop of `_find_non_atomic_columns`: one row's cells, adding each new flagged column. */
  method ScanRow(r: Row, ghost seen: seq<string>, cols: seq<string>) returns (cols': seq<string>)
    requires cols == Dedup(seen)
    ensures cols' == Dedup(seen + FlaggedInRow(r))
  {
    cols' := cols;
    ghost var acc := seen;
    var j := 0;
    ScanEnds(seen, r);
    while j < |r|
      invariant 0 <= j <= |r|
      invariant acc == seen + FlaggedInRow(r[..j])
      invariant cols' == Dedup(acc)
    {
      var c := r[j];
      ScanCell(seen, r, j);
      if NonAtomic(c.value) {
        DedupSnoc(acc, c.column);
        if c.column !in cols' {
          cols' := cols' + [c.column];
        }
        acc := acc + [c.column];
      }
      j := j + 1;
    }
  }

  /** Before the first cell nothing of the row is flagged; after the last, all of it is. */
  lemma ScanEnds(seen: seq<string>, r: Row)
    ensures seen + FlaggedInRow(r[..0]) == seen
    ensures r[..|r|] == r
  {
    assert FlaggedInRow(r[..0]) == [];
  }

  /** One cell of the scan flags its column when its value is non-atomic. */
  lemma ScanCell(seen: seq<string>, r: Row, j: nat)
    requires j < |r|
    ensures seen + FlaggedInRow(r[..j + 1])
            == (seen + FlaggedInRow(r[..j])) + if NonAtomic(r[j].value) then [r[j].column] else []
  {
    assert r[..j + 1] == r[..j] + [r[j]];
    FlaggedInRowSnoc(r[..j], r[j]);
  }

  /** `_find_non_atomic_columns`: scans the first 20 rows cell by cell. */
  method FindNonAtomicColumns(t: Table) returns (cols: seq<string>)
    ensures cols == NonAtomicColumns(t.data)
  {
    var rows := Take(t.data, 20);
    cols := [];
    var i := 0;
    while i < |rows|
      invariant 0 <= i <= |rows|
      invariant cols == Dedup(Flagged(rows[..i]))
    {
      cols := ScanRow(rows[i], Flagged(rows[..i]), cols);
      assert rows[..i + 1][..i] == rows[..i];
      i := i + 1;
    }
    assert rows[..i] == rows;
  }

  /** A column is flagged in a row exactly when one of its cells there holds a non-atomic value. */
  lemma {:induction false} FlaggedInRowExact(r: Row, col: string)
    ensures col in FlaggedInRow(r) <==> exists c :: c in r && c.column == col && NonAtomic(c.value)
  {
    if r != [] {
      FlaggedInRowExact(r[..|r| - 1], col);
      assert r == r[..|r| - 1] + [r[|r| - 1]];
    }
  }

  /** A column is flagged in the rows exactly when some cell of some row shows it non-atomic. */
  lemma {:induction false} FlaggedExact(rows: seq<Row>, col: string)
    ensures col in Flagged(rows) <==> exists r, c :: r in rows && c in r && c.column == col && NonAtomic(c.value)
  {
    if rows != [] {
      var last := rows[|rows| - 1];
      FlaggedExact(rows[..|rows| - 1], col);
      FlaggedInRowExact(last, col);
      assert rows == rows[..|rows| - 1] + [last];
    }
  }

  /**
   * The reported columns are distinct, and a column is reported exactly when a cell of one of
   * the first 20 rows shows it non-atomic.
   */
  lemma NonAtomicColumnsExact(rows: seq<Row>, col: string)
    ensures Distinct(NonAtomicColumns(rows))
    ensures col in NonAtomicColumns(rows)
            <==> exists r, c :: r in Take(rows, 20) && c in r && c.column == col && NonAtomic(c.value)
  {
    FlaggedExact(Take(rows, 20), col);
  }

  /**
   * A table failing 1NF has a repeated base or a reported non-atomic column: the 1NF scan
   * covers 10 rows, the column search 20.
   */
  lemma NotFirstNFExplained(t: Table)
    requires !Is1NF(t)
    ensures HasRepeatedBase(ColumnNames(t)) || NonAtomicColumns(t.data) != []
  {
    if !HasRepeatedBase(ColumnNames(t)) {
      var r, c :| r in Take(t.data, 10) && c in r && NonAtomic(c.value);
      assert r in Take(t.data, 20);
      NonAtomicColumnsExact(t.data, c.column);
    }
  }

  // ---------------------------------------------------------------------------------------
  // Tables split off along a dependency
  // ---------------------------------------------------------------------------------------

  /** The columns of `source` called by the given names, in name order, skipping names it lacks. */
  function ColumnsNamed(source: Table, names: seq<string>): seq<Column>
  {
    if names == [] then []
    else
      ColumnsNamed(source, names[..|names| - 1])
      + match ColumnNamed(source.columns, names[|names| - 1])
        case Some(c) => [c]
        case None => []
  }

  /** `_create_table_from_fd`: the source's columns of the determinant and dependent, keyed by the determinant. */
  function TableFromFd(source: Table, fd: FunctionalDependency, name: string): Table
  {
    NewTable(name, ColumnsNamed(source, Sorted(fd.determinant + fd.dependent)), fd.determinant)
  }

  /** Every picked column is a column of the source with one of the names, and every name the source has is picked. */
  lemma {:induction false} ColumnsNamedExact(source: Table, names: seq<string>)
    ensures forall c :: c in ColumnsNamed(source, names) ==> c in source.columns && c.name in names
    ensures forall n :: n in names && n in ColumnNames(source) ==>
              exists c :: c in ColumnsNamed(source, names) && c.name == n
  {
    if names != [] {
      var init := names[..|names| - 1];
      var n := names[|names| - 1];
      ColumnsNamedExact(source, init);
      ColumnNamedIffListed(source, n);
      assert names == init + [n];
      match ColumnNamed(source.columns, n)
      case Some(c) =>
        assert c in ColumnsNamed(source, names);
      case None =>
    }
  }

  /**
   * A split-off table is named as asked, keyed by the determinant, and holds exactly the
   * source's columns among the determinant and dependent; it starts with no keys, dependencies or rows.
   */
  lemma TableFromFdShape(source: Table, fd: FunctionalDependency, name: string)
    ensures var t := TableFromFd(source, fd, name);
            t.name == name && t.primaryKey == fd.determinant
            && (forall c :: c in t.columns ==> c in source.columns && c.name in fd.determinant + fd.dependent)
            && (forall n :: n in fd.determinant + fd.dependent && n in ColumnNames(source) ==>
                  exists c :: c in t.columns && c.name == n)
            && t.candidateKeys == [] && t.functionalDependencies == [] && t.multiValuedDependencies == []
            && t.data == []
  {
    ColumnsNamedExact(source, Sorted(fd.determinant + fd.dependent));
    SortedShape(fd.determinant + fd.dependent);
  }

  /** `list(s)[0]`, taking the set in sorted order; the source fails on an empty set, which the steps rule out. */
  function FirstListed(s: set<string>): string
  {
    if s == {} then "" else Sorted(s)[0]
  }

  // ---------------------------------------------------------------------------------------
  // The violations each step reports
  // ---------------------------------------------------------------------------------------

  const GroupExplanation: string :=
    "Columns with similar names and trailing numbers indicate repeating groups, violating 1NF."
  const GroupResolution: string := "Create a separate table for the repeating group with a foreign key reference."
  const AtomicExplanation: string :=
    "Column contains comma-separated or complex values, violating atomicity requirement of 1NF."
  const AtomicResolution: string := "Split the column into multiple rows or create a separate table."
  const PartialResolution: string := "Extract the partially dependent attributes into a separate table."
  const TransitiveResolution: string := "Extract transitively dependent attributes into a separate table."
  const MvdResolution: string := "Decompose into separate tables to eliminate multi-valued dependencies."

  function GroupViolation(g: set<string>): Violation
  {
    Violation(FirstNF, "Repeating group detected: " + NameSet(g), Sorted(g), GroupExplanation, GroupResolution)
  }

  function AtomicViolation(col: string): Violation
  {
    Violation(FirstNF, "Non-atomic values in column: " + col, [col], AtomicExplanation, AtomicResolution)
  }

  function PartialViolation(fd: FunctionalDependency): Violation
  {
    Violation(SecondNF, "Partial dependency: " + FdText(fd), Sorted(fd.determinant + fd.dependent),
      "Non-key attributes " + NameSet(fd.dependent) + " depend on only part of the primary key "
        + NameSet(fd.determinant) + ".",
      PartialResolution)
  }

  function TransitiveViolation(fd: FunctionalDependency): Violation
  {
    Violation(ThirdNF, "Transitive dependency: " + FdText(fd), Sorted(fd.determinant + fd.dependent),
      "Non-key attribute " + NameSet(fd.dependent) + " depends on non-key attribute "
        + NameSet(fd.determinant) + ".",
      TransitiveResolution)
  }

  function MvdViolation(mvd: MultiValuedDependency): Violation
  {
    Violation(FourthNF, "Multi-valued dependency: " + MvdText(mvd), Sorted(mvd.determinant + mvd.dependent),
      "Multi-valued dependency detected where " + NameSet(mvd.determinant) + " independently determines "
        + NameSet(mvd.dependent) + ".",
      MvdResolution)
  }

  /** One finding per repeating group, in group order. */
  function GroupViolations(groups: seq<set<string>>): seq<Violation>
  {
    if groups == [] then [] else GroupViolations(groups[..|groups| - 1]) + [GroupViolation(groups[|groups| - 1])]
  }

  /** One finding per non-atomic column, in column order. */
  function AtomicViolations(cols: seq<string>): seq<Violation>
  {
    if cols == [] then [] else AtomicViolations(cols[..|cols| - 1]) + [AtomicViolation(cols[|cols| - 1])]
  }

  /** The 1NF step's findings: the repeating groups first, then the non-atomic columns. */
  function Violations1NF(t: Table): seq<Violation>
  {
    GroupViolations(RepeatingGroups(ColumnNames(t))) + AtomicViolations(NonAtomicColumns(t.data))
  }

  /** One finding per partial dependency among `fds`, in order. */
  function PartialViolations(t: Table, fds: seq<FunctionalDependency>): seq<Violation>
  {
    if fds == [] then []
    else
      var fd := fds[|fds| - 1];
      PartialViolations(t, fds[..|fds| - 1]) + if PartialFd(t, fd) then [PartialViolation(fd)] else []
  }

  /** The name of the table split off for a partial dependency. */
  function PartialTableName(t: Table, fd: FunctionalDependency): string
  {
    t.name + "_" + FirstListed(fd.dependent)
  }

  /** One split-off table per partial dependency among `fds`, in order. */
  function PartialTables(t: Table, fds: seq<FunctionalDependency>): seq<Table>
  {
    if fds == [] then []
    else
      var fd := fds[|fds| - 1];
      PartialTables(t, fds[..|fds| - 1]) + if PartialFd(t, fd) then [TableFromFd(t, fd, PartialTableName(t, fd))] else []
  }

  /** The 2NF step's findings: none unless the primary key is composite. */
  function Violations2NF(t: Table): seq<Violation>
  {
    if |t.primaryKey| <= 1 then [] else PartialViolations(t, t.functionalDependencies)
  }

  /** The 2NF step's tables: the table itself, then one split-off table per partial dependency. */
  function Tables2NF(t: Table): seq<Table>
  {
    [t] + if |t.primaryKey| <= 1 then [] else PartialTables(t, t.functionalDependencies)
  }

  /** One finding per transitive dependency among `fds`, in order. */
  function TransitiveViolations(t: Table, fds: seq<FunctionalDependency>): seq<Violation>
  {
    if fds == [] then []
    else
      var fd := fds[|fds| - 1];
      TransitiveViolations(t, fds[..|fds| - 1]) + if TransitiveFd(t, fd) then [TransitiveViolation(fd)] else []
  }

  /** The name of the table split off for a transitive dependency. */
  function DetailsTableName(t: Table, fd: FunctionalDependency): string
  {
    t.name + "_" + FirstListed(fd.determinant) + "_details"
  }

  /** One split-off table per transitive dependency among `fds`, in order. */
  function DetailsTablesIn(t: Table, fds: seq<FunctionalDependency>): seq<Table>
  {
    if fds == [] then []
    else
      var fd := fds[|fds| - 1];
      DetailsTablesIn(t, fds[..|fds| - 1]) + if TransitiveFd(t, fd) then [TableFromFd(t, fd, DetailsTableName(t, fd))] else []
  }

  /** The 3NF step's findings over all tables, table after table. */
  function Violations3NF(tables: seq<Table>): seq<Violation>
  {
    if tables == [] then []
    else
      var t := tables[|tables| - 1];
      Violations3NF(tables[..|tables| - 1]) + TransitiveViolations(t, t.functionalDependencies)
  }

  /** The tables split off by the 3NF step, table after table. */
  function DetailsTables(tables: seq<Table>): seq<Table>
  {
    if tables == [] then []
    else
      var t := tables[|tables| - 1];
      DetailsTables(tables[..|tables| - 1]) + DetailsTablesIn(t, t.functionalDependencies)
  }

  /** One finding per MVD, in order. */
  function MvdViolations(mvds: seq<MultiValuedDependency>): seq<Violation>
  {
    if mvds == [] then [] else MvdViolations(mvds[..|mvds| - 1]) + [MvdViolation(mvds[|mvds| - 1])]
  }

  /** The 4NF step's findings: one per MVD of every table. */
  function Violations4NF(tables: seq<Table>): seq<Violation>
  {
    if tables == [] then []
    else Violations4NF(tables[..|tables| - 1]) + MvdViolations(tables[|tables| - 1].multiValuedDependencies)
  }

  // Each loop over a prefix extends the prefix's findings and tables by those of the next entry.

  lemma GroupViolationsNext(groups: seq<set<string>>, i: nat)
    requires i < |groups|
    ensures GroupViolations(groups[..i + 1]) == GroupViolations(groups[..i]) + [GroupViolation(groups[i])]
  {
    assert groups[..i + 1][..i] == groups[..i];
  }

  lemma AtomicViolationsNext(cols: seq<string>, j: nat)
    requires j < |cols|
    ensures AtomicViolations(cols[..j + 1]) == AtomicViolations(cols[..j]) + [AtomicViolation(cols[j])]
  {
    assert cols[..j + 1][..j] == cols[..j];
  }

  lemma PartialNext(t: Table, fds: seq<FunctionalDependency>, k: nat)
    requires k < |fds|
    ensures PartialViolations(t, fds[..k + 1])
            == PartialViolations(t, fds[..k]) + if PartialFd(t, fds[k]) then [PartialViolation(fds[k])] else []
    ensures PartialTables(t, fds[..k + 1])
            == PartialTables(t, fds[..k])
               + if PartialFd(t, fds[k]) then [TableFromFd(t, fds[k], PartialTableName(t, fds[k]))] else []
  {
    assert fds[..k + 1][..k] == fds[..k];
  }

  lemma TransitiveNext(t: Table, fds: seq<FunctionalDependency>, k: nat)
    requires k < |fds|
    ensures TransitiveViolations(t, fds[..k + 1])
            == TransitiveViolations(t, fds[..k]) + if TransitiveFd(t, fds[k]) then [TransitiveViolation(fds[k])] else []
    ensures DetailsTablesIn(t, fds[..k + 1])
            == DetailsTablesIn(t, fds[..k])
               + if TransitiveFd(t, fds[k]) then [TableFromFd(t, fds[k], DetailsTableName(t, fds[k]))] else []
  {
    assert fds[..k + 1][..k] == fds[..k];
  }

  lemma TablesNext(tables: seq<Table>, i: nat)
    requires i < |tables|
    ensures Violations3NF(tables[..i + 1])
            == Violations3NF(tables[..i]) + TransitiveViolations(tables[i], tables[i].functionalDependencies)
    ensures DetailsTables(tables[..i + 1])
            == DetailsTables(tables[..i]) + DetailsTablesIn(tables[i], tables[i].functionalDependencies)
  {
    assert tables[..i + 1][..i] == tables[..i];
  }

  /** What the 2NF and 3NF steps need of the tables: the sets they take a first element of are not empty. */
  predicate Ready(tables: seq<Table>)
  {
    tables != []
    && (|tables[0].primaryKey| > 1 ==>
          forall fd :: fd in tables[0].functionalDependencies && PartialFd(tables[0], fd) ==> fd.dependent != {})
    && forall t, fd :: t in tables && fd in t.functionalDependencies && TransitiveFd(t, fd) ==> fd.determinant != {}
  }

  /** The partial dependencies among `fds` give no finding exactly when there are none. */
  lemma {:induction false} PartialsNone(t: Table, fds: seq<FunctionalDependency>)
    ensures PartialViolations(t, fds) == [] <==> forall fd :: fd in fds ==> !PartialFd(t, fd)
  {
    if fds != [] {
      PartialsNone(t, fds[..|fds| - 1]);
      assert fds == fds[..|fds| - 1] + [fds[|fds| - 1]];
    }
  }

  /** One split-off table per partial-dependency finding, keyed by that dependency's determinant, with no FDs. */
  lemma {:induction false} PartialTablesShape(t: Table, fds: seq<FunctionalDependency>)
    ensures |PartialTables(t, fds)| == |PartialViolations(t, fds)|
    ensures forall u :: u in PartialTables(t, fds) ==>
              u.functionalDependencies == [] && exists fd :: fd in fds && PartialFd(t, fd) && u.primaryKey == fd.determinant
  {
    if fds != [] {
      PartialTablesShape(t, fds[..|fds| - 1]);
      assert fds == fds[..|fds| - 1] + [fds[|fds| - 1]];
    }
  }

  /** The transitive dependencies among `fds` give no finding exactly when there are none. */
  lemma {:induction false} TransitivesNone(t: Table, fds: seq<FunctionalDependency>)
    ensures TransitiveViolations(t, fds) == [] <==> forall fd :: fd in fds ==> !TransitiveFd(t, fd)
  {
    if fds != [] {
      TransitivesNone(t, fds[..|fds| - 1]);
      assert fds == fds[..|fds| - 1] + [fds[|fds| - 1]];
    }
  }

  /** One split-off table per transitive-dependency finding, keyed by that dependency's determinant, with no FDs. */
  lemma {:induction false} DetailsTablesInShape(t: Table, fds: seq<FunctionalDependency>)
    ensures |DetailsTablesIn(t, fds)| == |TransitiveViolations(t, fds)|
    ensures forall u :: u in DetailsTablesIn(t, fds) ==>
              u.functionalDependencies == [] && exists fd :: fd in fds && TransitiveFd(t, fd) && u.primaryKey == fd.determinant
  {
    if fds != [] {
      DetailsTablesInShape(t, fds[..|fds| - 1]);
      assert fds == fds[..|fds| - 1] + [fds[|fds| - 1]];
    }
  }

  /** On a 1NF table the 2NF step reports nothing exactly when the table is in 2NF. */
  lemma SecondStepExact(t: Table)
    requires Is1NF(t)
    ensures Violations2NF(t) == [] <==> Is2NF(t)
  {
    PartialsNone(t, t.functionalDependencies);
  }

  /** On a 2NF table, the 3NF step over that table alone reports nothing exactly when it is in 3NF. */
  lemma ThirdStepExact(t: Table)
    requires Is2NF(t)
    ensures Violations3NF([t]) == [] <==> Is3NF(t)
  {
    assert [t][..0] == [];
    TransitivesNone(t, t.functionalDependencies);
  }

  /**
   * The 2NF step keeps the table first and adds one table per reported violation, each keyed
   * by a proper part of the primary key and holding no dependencies.
   */
  lemma Tables2NFShape(t: Table)
    ensures Tables2NF(t)[0] == t
    ensures |Tables2NF(t)| == |Violations2NF(t)| + 1
    ensures forall u :: u in Tables2NF(t)[1..] ==> u.primaryKey < t.primaryKey && u.functionalDependencies == []
  {
    PartialTablesShape(t, t.functionalDependencies);
  }

  /**
   * The 3NF step adds one table per reported violation; each holds no dependencies and is
   * keyed by the determinant of a transitive dependency of one of the tables.
   */
  lemma {:induction false} DetailsTablesShape(tables: seq<Table>)
    ensures |DetailsTables(tables)| == |Violations3NF(tables)|
    ensures forall u :: u in DetailsTables(tables) ==> u.functionalDependencies == []
    ensures forall u :: u in DetailsTables(tables) ==>
              exists t, fd :: t in tables && fd in t.functionalDependencies && TransitiveFd(t, fd)
                              && u.primaryKey == fd.determinant
  {
    if tables != [] {
      var init := tables[..|tables| - 1];
      var t := tables[|tables| - 1];
      DetailsTablesShape(init);
      DetailsTablesInShape(t, t.functionalDependencies);
      assert tables == init + [t];
    }
  }

  /** The 4NF step reports nothing exactly when no table has an MVD. */
  lemma {:induction false} FourthStepExact(tables: seq<Table>)
    ensures Violations4NF(tables) == [] <==> forall t :: t in tables ==> t.multiValuedDependencies == []
  {
    if tables != [] {
      var t := tables[|tables| - 1];
      FourthStepExact(tables[..|tables| - 1]);
      assert tables == tables[..|tables| - 1] + [t];
      if t.multiValuedDependencies != [] {
        assert MvdViolations(t.multiValuedDependencies) != [];
      }
    }
  }

  /** The tables after the 2NF step still meet what the 3NF step needs. */
  lemma ReadyAfterSecond(tables: seq<Table>)
    requires Ready(tables)
    ensures var ts := Tables2NF(tables[0]); Ready(if |ts| > 1 then ts else tables)
  {
    Tables2NFShape(tables[0]);
    var ts := Tables2NF(tables[0]);
    forall u | u in ts
      ensures u == tables[0] || u.functionalDependencies == []
    {
      if u != tables[0] {
        var i :| 0 <= i < |ts| && ts[i] == u;
        assert ts[1..][i - 1] == u;
      }
    }
  }

  // ---------------------------------------------------------------------------------------
  // The engine
  // ---------------------------------------------------------------------------------------

  /**
   * The table the engine starts from: when it lists no FDs, the detector's FDs and MVDs are
   * filled in, and its candidate keys and first key too when it has keys and no primary key.
   */
  function Prepared(table: Table, score: MvdScore): Table
  {
    if table.functionalDependencies != [] then table
    else
      var (fds, mvds, keys) := DetectedAll(table, score);
      var t := table.(functionalDependencies := fds, multiValuedDependencies := mvds);
      if keys != [] && table.primaryKey == {} then t.(candidateKeys := keys, primaryKey := keys[0]) else t
  }

  /**
   * Preparing keeps the name, columns and rows, keeps a table with FDs as it is, never
   * replaces a primary key, takes a new one from the candidate keys, and leaves the table
   * ready for the 2NF and 3NF steps whenever the FDs came from the detector.
   */
  lemma PreparedShape(table: Table, score: MvdScore)
    ensures var t := Prepared(table, score);
            t.name == table.name && t.columns == table.columns && t.data == table.data
            && (table.functionalDependencies != [] ==> t == table)
            && (table.primaryKey != {} ==> t.primaryKey == table.primaryKey)
            && (t.primaryKey != table.primaryKey ==> t.primaryKey in t.candidateKeys)
            && (table.functionalDependencies == [] ==> Ready([t]))
  {
    if table.functionalDependencies == [] {
      DetectedAllShape(table, score);
      var t := Prepared(table, score);
      forall fd | fd in t.functionalDependencies
        ensures fd.determinant != {} && fd.dependent != {}
      {
        var cols := FrameColumns(table.data);
        assert SearchShaped(fd, cols);
      }
    }
  }

  /** The order in which `analyze` tries the steps. */
  const Targets: seq<NormalForm> := [FirstNF, SecondNF, ThirdNF, BCNF, FourthNF, FifthNF]

  /** The step toward `target` on the current tables, and the current tables after it. */
  function StepAt(target: NormalForm, tables: seq<Table>): (r: (NormalizationStep, seq<Table>))
    requires target != Unnormalized && tables != []
    ensures r.0.toNf == target && r.1 != []
  {
    match target
    case FirstNF => (NormalizationStep(Unnormalized, FirstNF, Violations1NF(tables[0]), tables, "", []), tables)
    case SecondNF =>
      var ts := Tables2NF(tables[0]);
      (NormalizationStep(FirstNF, SecondNF, Violations2NF(tables[0]), ts, "", []), if |ts| > 1 then ts else tables)
    case ThirdNF =>
      var ts := tables + DetailsTables(tables);
      (NormalizationStep(SecondNF, ThirdNF, Violations3NF(tables), ts, "", []), ts)
    case BCNF => (NormalizationStep(ThirdNF, BCNF, [], tables, "", []), tables)
    case FourthNF => (NormalizationStep(BCNF, FourthNF, Violations4NF(tables), tables, "", []), tables)
    case FifthNF => (NormalizationStep(FourthNF, FifthNF, [], tables, "", []), tables)
  }

  /**
   * The targets the guards of `analyze` step to from level `nf`, in order: each target whose
   * value string sorts after the level reached so far, which it then becomes. `ValueRank`
   * orders the levels as their value strings do (`ValueOrder`).
   */
  function Climb(nf: NormalForm, targets: seq<NormalForm>): seq<NormalForm>
    decreases |targets|
  {
    if targets == [] then []
    else if ValueRank(nf) < ValueRank(targets[0]) then [targets[0]] + Climb(targets[0], targets[1..])
    else Climb(nf, targets[1..])
  }

  /** A step function: from a level and the current tables to the step taken and the tables it leaves. */
  type Stepper = (NormalForm, seq<Table>) --> (NormalizationStep, seq<Table>)

  /** `step` is defined for every level but the unnormalized one and reaches the level it is asked for. */
  ghost predicate StepLike(step: Stepper)
  {
    forall target, tables :: target != Unnormalized && tables != [] ==>
      step.requires(target, tables) && step(target, tables).0.toNf == target && step(target, tables).1 != []
  }

  /** `StepAt` is such a step function. */
  lemma StepAtIsStepLike()
    ensures StepLike(StepAt)
  {
    forall target, tables | target != Unnormalized && tables != []
      ensures StepAt.requires(target, tables) && StepAt(target, tables).0.toNf == target && StepAt(target, tables).1 != []
    {
    }
  }

  /** The steps to `levels`, in order, starting from `tables`: each step works on the tables the one before left. */
  function Fold(step: Stepper, levels: seq<NormalForm>, tables: seq<Table>): (r: (seq<NormalizationStep>, seq<Table>))
    requires StepLike(step) && Unnormalized !in levels && tables != []
    ensures r.1 != []
    decreases |levels|, 1
  {
    if levels == [] then ([], tables) else FoldLast(step, levels, tables)
  }

  /** A nonempty fold: the fold of all but the last level, then the step to the last one. */
  function FoldLast(step: Stepper, levels: seq<NormalForm>, tables: seq<Table>): (r: (seq<NormalizationStep>, seq<Table>))
    requires StepLike(step) && levels != [] && Unnormalized !in levels && tables != []
    ensures r.1 != []
    decreases |levels|, 0
  {
    var (steps, before) := Fold(step, levels[..|levels| - 1], tables);
    var (last, after) := step(levels[|levels| - 1], before);
    (steps + [last], after)
  }

  /** Folding one more level appends its step and hands on its tables. */
  lemma FoldSnoc(step: Stepper, levels: seq<NormalForm>, target: NormalForm, tables: seq<Table>)
    requires StepLike(step) && Unnormalized !in levels && target != Unnormalized && tables != []
    ensures Unnormalized !in levels + [target]
    ensures var (steps, before) := Fold(step, levels, tables);
      Fold(step, levels + [target], tables) == (steps + [step(target, before).0], step(target, before).1)
  {
    assert (levels + [target])[..|levels|] == levels;
  }

  /**
   * Partway through `analyze`: the guards before target `k` have stepped to `done` and left
   * `steps` and `tables`, and the guards from `k` on, starting from `current`, step to the rest.
   */
  ghost predicate Midway(step: Stepper, targets: seq<NormalForm>, start: NormalForm, initial: seq<Table>, k: nat,
                         current: NormalForm, done: seq<NormalForm>, steps: seq<NormalizationStep>, tables: seq<Table>)
  {
    StepLike(step) && k <= |targets| && initial != [] && Unnormalized !in done
    && Climb(start, targets) == done + Climb(current, targets[k..])
    && (steps, tables) == Fold(step, done, initial)
  }

  /** One table's transitive dependencies: their findings and split-off tables. */
  method ScanTransitive(t: Table) returns (violations: seq<Violation>, details: seq<Table>)
    requires forall fd :: fd in t.functionalDependencies && TransitiveFd(t, fd) ==> fd.determinant != {}
    ensures violations == TransitiveViolations(t, t.functionalDependencies)
    ensures details == DetailsTablesIn(t, t.functionalDependencies)
  {
    var fds := t.functionalDependencies;
    violations, details := [], [];
    var k := 0;
    while k < |fds|
      invariant 0 <= k <= |fds|
      invariant violations == TransitiveViolations(t, fds[..k])
      invariant details == DetailsTablesIn(t, fds[..k])
    {
      var fd := fds[k];
      TransitiveNext(t, fds, k);
      if !HasKeyInside(t, fd.determinant) {
        if !TouchesKey(t, fd.dependent) {
          violations := violations + [TransitiveViolation(fd)];
          var name := t.name + "_" + Sorted(fd.determinant)[0] + "_details";
          details := details + [TableFromFd(t, fd, name)];
        }
      }
      k := k + 1;
    }
    assert fds[..k] == fds;
  }

  /**
   * The loop of `_normalize_to_2nf` over the FDs of a table with a composite key: a finding
   * and a split-off table for each partial dependency.
   */
  method ScanPartial(t: Table) returns (violations: seq<Violation>, created: seq<Table>)
    requires forall fd :: fd in t.functionalDependencies && PartialFd(t, fd) ==> fd.dependent != {}
    ensures violations == PartialViolations(t, t.functionalDependencies)
    ensures created == PartialTables(t, t.functionalDependencies)
  {
    var fds := t.functionalDependencies;
    violations, created := [], [];
    var k := 0;
    while k < |fds|
      invariant 0 <= k <= |fds|
      invariant violations == PartialViolations(t, fds[..k])
      invariant created == PartialTables(t, fds[..k])
    {
      var fd := fds[k];
      PartialNext(t, fds, k);
      if fd.determinant <= t.primaryKey && fd.determinant != t.primaryKey {
        if !InSomeKey(t, fd.dependent) {
          violations := violations + [PartialViolation(fd)];
          var name := t.name + "_" + Sorted(fd.dependent)[0];
          created := created + [TableFromFd(t, fd, name)];
        }
      }
      k := k + 1;
    }
    assert fds[..k] == fds;
  }

  /** One table's MVDs as findings. */
  method ScanMvds(t: Table) returns (violations: seq<Violation>)
    ensures violations == MvdViolations(t.multiValuedDependencies)
  {
    var mvds := t.multiValuedDependencies;
    violations := [];
    var k := 0;
    while k < |mvds|
      invariant 0 <= k <= |mvds|
      invariant violations == MvdViolations(mvds[..k])
    {
      assert mvds[..k + 1][..k] == mvds[..k];
      violations := violations + [MvdViolation(mvds[k])];
      k := k + 1;
    }
    assert mvds[..k] == mvds;
  }

  class NormalizationEngine {
    var originalTable: Table
    var currentTables: seq<Table>

    /**
     * `NormalizationEngine(table)`: keeps the table as given, and starts from it with the
     * detector's dependencies filled in when it had none.
     */
    constructor(table: Table, score: MvdScore)
      ensures originalTable == table
      ensures currentTables == [Prepared(table, score)]
    {
      originalTable := table;
      var t := table;
      if table.functionalDependencies == [] {
        var fds, mvds, keys := DetectAllDependencies(table, score);
        t := t.(functionalDependencies := fds, multiValuedDependencies := mvds);
        if keys != [] && table.primaryKey == {} {
          t := t.(candidateKeys := keys, primaryKey := keys[0]);
        }
      }
      currentTables := [t];
    }

    /** `_determine_current_nf`: the level of the first current table. */
    method DetermineCurrentNF() returns (nf: NormalForm)
      requires currentTables != []
      ensures nf == CurrentNF(currentTables[0])
    {
      var t := currentTables[0];
      if !Is1NF(t) {
        return Unnormalized;
      }
      if !Is2NF(t) {
        return FirstNF;
      }
      if !Is3NF(t) {
        return SecondNF;
      }
      if !IsBCNF(t) {
        return ThirdNF;
      }
      if !Is4NF(t) {
        return BCNF;
      }
      if !Is5NF(t) {
        return FourthNF;
      }
      return FifthNF;
    }

    /** `_normalize_to_1nf`: reports the repeating groups, then the non-atomic columns; the tables stay. */
    method Normalize1NF() returns (step: NormalizationStep)
      requires currentTables != []
      ensures step == NormalizationStep(Unnormalized, FirstNF, Violations1NF(currentTables[0]), currentTables, "", [])
    {
      var t := currentTables[0];
      var groups := FindRepeatingGroups(ColumnNames(t));
      var violations: seq<Violation> := [];
      var i := 0;
      while i < |groups|
        invariant 0 <= i <= |groups|
        invariant violations == GroupViolations(groups[..i])
      {
        GroupViolationsNext(groups, i);
        violations := violations + [GroupViolation(groups[i])];
        i := i + 1;
      }
      assert groups[..i] == groups;
      var cols := FindNonAtomicColumns(t);
      var j := 0;
      while j < |cols|
        invariant 0 <= j <= |cols|
        invariant violations == GroupViolations(groups) + AtomicViolations(cols[..j])
      {
        AtomicViolationsNext(cols, j);
        violations := violations + [AtomicViolation(cols[j])];
        j := j + 1;
      }
      assert cols[..j] == cols;
      step := NormalizationStep(Unnormalized, FirstNF, violations, currentTables, "", []);
    }

    /**
     * `_normalize_to_2nf`: with a composite primary key, reports each partial dependency of
     * the first table and splits off a table for it; the split replaces the current tables.
     */
    method Normalize2NF() returns (step: NormalizationStep)
      requires Ready(currentTables)
      modifies this
      ensures var t := old(currentTables[0]);
              step == NormalizationStep(FirstNF, SecondNF, Violations2NF(t), Tables2NF(t), "", [])
              && currentTables == if |Tables2NF(t)| > 1 then Tables2NF(t) else old(currentTables)
      ensures originalTable == old(originalTable)
    {
      var t := currentTables[0];
      var violations: seq<Violation> := [];
      var newTables := [t];
      if |t.primaryKey| > 1 {
        var created;
        violations, created := ScanPartial(t);
        newTables := newTables + created;
      }
      if newTables != [t] {
        currentTables := newTables;
      }
      step := NormalizationStep(FirstNF, SecondNF, violations, newTables, "", []);
    }

    /**
     * `_normalize_to_3nf`: reports every transitive dependency of every current table and
     * adds a split-off table for each after the current ones.
     */
    method Normalize3NF() returns (step: NormalizationStep)
      requires currentTables != []
      requires forall t, fd :: t in currentTables && fd in t.functionalDependencies && TransitiveFd(t, fd) ==>
                 fd.determinant != {}
      modifies this
      ensures currentTables == old(currentTables) + DetailsTables(old(currentTables))
      ensures step == NormalizationStep(SecondNF, ThirdNF, Violations3NF(old(currentTables)), currentTables, "", [])
      ensures originalTable == old(originalTable)
    {
      var tables := currentTables;
      var violations: seq<Violation> := [];
      var newTables := tables;
      var i := 0;
      while i < |tables|
        invariant 0 <= i <= |tables|
        invariant violations == Violations3NF(tables[..i])
        invariant newTables == tables + DetailsTables(tables[..i])
        invariant unchanged(this)
      {
        var v, d := ScanTransitive(tables[i]);
        TablesNext(tables, i);
        violations := violations + v;
        newTables := newTables + d;
        i := i + 1;
      }
      assert tables[..i] == tables;
      if newTables != currentTables {
        currentTables := newTables;
      }
      step := NormalizationStep(SecondNF, ThirdNF, violations, newTables, "", []);
    }

    /** `_normalize_to_bcnf`: reports nothing and keeps the tables. */
    method NormalizeBCNF() returns (step: NormalizationStep)
      requires currentTables != []
      ensures step == NormalizationStep(ThirdNF, BCNF, [], currentTables, "", [])
    {
      step := NormalizationStep(ThirdNF, BCNF, [], currentTables, "", []);
    }

    /** `_normalize_to_4nf`: reports every MVD of every current table; the tables stay. */
    method Normalize4NF() returns (step: NormalizationStep)
      requires currentTables != []
      ensures step == NormalizationStep(BCNF, FourthNF, Violations4NF(currentTables), currentTables, "", [])
    {
      var violations: seq<Violation> := [];
      var i := 0;
      while i < |currentTables|
        invariant 0 <= i <= |currentTables|
        invariant violations == Violations4NF(currentTables[..i])
      {
        var v := ScanMvds(currentTables[i]);
        assert currentTables[..i + 1][..i] == currentTables[..i];
        violations := violations + v;
        i := i + 1;
      }
      assert currentTables[..i] == currentTables;
      step := NormalizationStep(BCNF, FourthNF, violations, currentTables, "", []);
    }

    /** `_normalize_to_5nf`: reports nothing and keeps the tables. */
    method Normalize5NF() returns (step: NormalizationStep)
      requires currentTables != []
      ensures step == NormalizationStep(FourthNF, FifthNF, [], currentTables, "", [])
    {
      step := NormalizationStep(FourthNF, FifthNF, [], currentTables, "", []);
    }

    /** The `_normalize_to_*` method for `target`: the step it reports and the tables it leaves. */
    method TakeStep(target: NormalForm) returns (step: NormalizationStep)
      requires target != Unnormalized && currentTables != []
      requires target == SecondNF || target == ThirdNF ==> Ready(currentTables)
      modifies this
      ensures (step, currentTables) == StepAt(target, old(currentTables))
      ensures originalTable == old(originalTable)
    {
      match target {
        case FirstNF => step := Normalize1NF();
        case SecondNF => step := Normalize2NF();
        case ThirdNF => step := Normalize3NF();
        case BCNF => step := NormalizeBCNF();
        case FourthNF => step := Normalize4NF();
        case FifthNF => step := Normalize5NF();
      }
    }

    /**
     * One guard of `analyze`: when the value of the target at `k` sorts after the level
     * reached so far, takes that step, records it and makes the target the level reached.
     */
    method Advance(k: nat, ghost start: NormalForm, ghost initial: seq<Table>, current: NormalForm,
                   ghost done: seq<NormalForm>, steps: seq<NormalizationStep>)
      returns (current': NormalForm, ghost done': seq<NormalForm>, steps': seq<NormalizationStep>)
      requires k < |Targets| && Midway(StepAt, Targets, start, initial, k, current, done, steps, currentTables)
      requires k <= 2 ==> Ready(currentTables)
      modifies this
      ensures Midway(StepAt, Targets, start, initial, k + 1, current', done', steps', currentTables)
      ensures k + 1 <= 2 ==> Ready(currentTables)
      ensures originalTable == old(originalTable)
    {
      var target := Targets[k];
      current', done', steps' := current, done, steps;
      ValueOrder(current, target);
      if ValueLess(current, target) {
        MidwayTaken(StepAt, Targets, start, initial, k, current, done, steps, currentTables);
        if target == SecondNF {
          ReadyAfterSecond(currentTables);
        }
        var step := TakeStep(target);
        current', done', steps' := target, done + [target], steps + [step];
      } else {
        MidwaySkipped(StepAt, Targets, start, initial, k, current, done, steps, currentTables);
      }
    }

    /**
     * `analyze`: determines the current level, then takes each step whose target value sorts
     * after the level reached so far, collecting the steps and ending with the current tables.
     */
    method Analyze() returns (result: AnalysisResult)
      requires Ready(currentTables)
      modifies this
      ensures var start := CurrentNF(old(currentTables)[0]);
        var (steps, final) := Fold(StepAt, ExpectedSteps(start), old(currentTables));
        result == AnalysisResult(old(originalTable), start, FifthNF, steps, final, None)
        && currentTables == final
      ensures originalTable == old(originalTable)
    {
      var nf := DetermineCurrentNF();
      result := NewAnalysisResult(originalTable, nf);
      ghost var initial := currentTables;
      var current, steps: seq<NormalizationStep> := nf, [];
      ghost var done: seq<NormalForm> := [];
      StepAtIsStepLike();
      MidwayStart(StepAt, Targets, nf, initial);
      current, done, steps := Advance(0, nf, initial, current, done, steps);
      current, done, steps := Advance(1, nf, initial, current, done, steps);
      current, done, steps := Advance(2, nf, initial, current, done, steps);
      current, done, steps := Advance(3, nf, initial, current, done, steps);
      current, done, steps := Advance(4, nf, initial, current, done, steps);
      current, done, steps := Advance(5, nf, initial, current, done, steps);
      MidwayDone(StepAt, Targets, nf, initial, current, done, steps, currentTables);
      ClimbTargets(nf);
      result := result.(normalizationSteps := steps, finalTables := currentTables);
    }
  }

  /** The level each step reaches, in order. */
  function Reached(steps: seq<NormalizationStep>): (r: seq<NormalForm>)
    ensures |r| == |steps|
  {
    if steps == [] then [] else Reached(steps[..|steps| - 1]) + [steps[|steps| - 1].toNf]
  }

  /** Each step of a fold reaches the level it was asked for. */
  lemma {:induction false} FoldReaches(step: Stepper, levels: seq<NormalForm>, tables: seq<Table>)
    requires StepLike(step) && Unnormalized !in levels && tables != []
    ensures Reached(Fold(step, levels, tables).0) == levels
  {
    if levels != [] {
      var init := levels[..|levels| - 1];
      FoldReaches(step, init, tables);
      assert levels == init + [levels[|levels| - 1]];
      FoldSnoc(step, init, levels[|levels| - 1], tables);
      var steps := Fold(step, levels, tables).0;
      assert steps[..|steps| - 1] == Fold(step, init, tables).0;
    }
  }

  /** The guards only ever step to one of their targets. */
  lemma {:induction false} ClimbWithin(nf: NormalForm, targets: seq<NormalForm>)
    ensures forall x :: x in Climb(nf, targets) ==> x in targets
    decreases |targets|
  {
    if targets != [] {
      assert targets == [targets[0]] + targets[1..];
      if ValueRank(nf) < ValueRank(targets[0]) {
        ClimbWithin(targets[0], targets[1..]);
      } else {
        ClimbWithin(nf, targets[1..]);
      }
    }
  }

  /** One guard on levels alone: the target at `k` joins the levels stepped to exactly when it ranks above `current`. */
  lemma ClimbGuard(start: NormalForm, targets: seq<NormalForm>, k: nat, current: NormalForm, done: seq<NormalForm>)
    requires k < |targets| && Climb(start, targets) == done + Climb(current, targets[k..])
    ensures ValueRank(current) < ValueRank(targets[k]) ==>
      Climb(start, targets) == (done + [targets[k]]) + Climb(targets[k], targets[k + 1..])
    ensures ValueRank(current) >= ValueRank(targets[k]) ==>
      Climb(start, targets) == done + Climb(current, targets[k + 1..])
  {
    var t := targets[k..];
    assert t[0] == targets[k] && t[1..] == targets[k + 1..];
    if ValueRank(current) < ValueRank(targets[k]) {
      var rest := Climb(targets[k], t[1..]);
      assert Climb(current, t) == [targets[k]] + rest;
      assert done + ([targets[k]] + rest) == (done + [targets[k]]) + rest;
    }
  }

  /** A guard whose target ranks above the level reached takes the step to it. */
  lemma MidwayTaken(step: Stepper, targets: seq<NormalForm>, start: NormalForm, initial: seq<Table>, k: nat,
                    current: NormalForm, done: seq<NormalForm>, steps: seq<NormalizationStep>, tables: seq<Table>)
    requires k < |targets| && targets[k] != Unnormalized
    requires Midway(step, targets, start, initial, k, current, done, steps, tables)
    requires ValueRank(current) < ValueRank(targets[k])
    ensures tables != [] && step.requires(targets[k], tables)
    ensures Midway(step, targets, start, initial, k + 1, targets[k], done + [targets[k]],
                   steps + [step(targets[k], tables).0], step(targets[k], tables).1)
  {
    ClimbGuard(start, targets, k, current, done);
    FoldSnoc(step, done, targets[k], initial);
  }

  /** Before the first guard, nothing is done and the tables are the initial ones. */
  lemma MidwayStart(step: Stepper, targets: seq<NormalForm>, start: NormalForm, initial: seq<Table>)
    requires StepLike(step) && initial != []
    ensures Midway(step, targets, start, initial, 0, start, [], [], initial)
  {
    assert targets[0..] == targets;
  }

  /** After the last guard, the steps and tables are the fold over the levels climbed. */
  lemma MidwayDone(step: Stepper, targets: seq<NormalForm>, start: NormalForm, initial: seq<Table>,
                   current: NormalForm, done: seq<NormalForm>, steps: seq<NormalizationStep>, tables: seq<Table>)
    requires Midway(step, targets, start, initial, |targets|, current, done, steps, tables)
    ensures (steps, tables) == Fold(step, Climb(start, targets), initial)
  {
    assert targets[|targets|..] == [] && done + [] == done;
  }

  /** A guard whose target does not rank above the level reached changes nothing. */
  lemma MidwaySkipped(step: Stepper, targets: seq<NormalForm>, start: NormalForm, initial: seq<Table>, k: nat,
                      current: NormalForm, done: seq<NormalForm>, steps: seq<NormalizationStep>, tables: seq<Table>)
    requires k < |targets| && Midway(step, targets, start, initial, k, current, done, steps, tables)
    requires ValueRank(current) >= ValueRank(targets[k])
    ensures Midway(step, targets, start, initial, k + 1, current, done, steps, tables)
  {
    ClimbGuard(start, targets, k, current, done);
  }

  /**
   * The steps `analyze` takes from each level. Because the guards compare value strings,
   * where "BCNF" sorts after "1NF" to "5NF" and "Unnormalized" after everything, an
   * unnormalized table gets no step, and 4NF and 5NF tables get one back to BCNF.
   */
  function ExpectedSteps(nf: NormalForm): seq<NormalForm>
  {
    match nf
    case Unnormalized => []
    case FirstNF => [SecondNF, ThirdNF, BCNF]
    case SecondNF => [ThirdNF, BCNF]
    case ThirdNF => [BCNF]
    case BCNF => []
    case FourthNF => [BCNF]
    case FifthNF => [BCNF]
  }

  /** The guard chain over the six targets, level by level. */
  lemma ClimbTargets(nf: NormalForm)
    ensures Climb(nf, Targets) == ExpectedSteps(nf)
  {
    var t1, t2, t3, t4, t5 := Targets[1..], Targets[2..], Targets[3..], Targets[4..], Targets[5..];
    assert t1 == [SecondNF, ThirdNF, BCNF, FourthNF, FifthNF] && t1[1..] == t2;
    assert t2 == [ThirdNF, BCNF, FourthNF, FifthNF] && t2[1..] == t3;
    assert t3 == [BCNF, FourthNF, FifthNF] && t3[1..] == t4;
    assert t4 == [FourthNF, FifthNF] && t4[1..] == t5;
    assert t5 == [FifthNF] && t5[1..] == [];
  }

  /**
   * The result of `analyze` never counts as fully normalized: from every level the guards
   * either take no step or stop at BCNF, never at the 5NF target.
   */
  lemma AnalyzeNeverFullyNormalized(original: Table, start: NormalForm, tables: seq<Table>)
    requires tables != []
    ensures Unnormalized !in ExpectedSteps(start)
    ensures var (steps, final) := Fold(StepAt, ExpectedSteps(start), tables);
            !IsFullyNormalized(AnalysisResult(original, start, FifthNF, steps, final, None))
  {
    StepAtIsStepLike();
    var levels := ExpectedSteps(start);
    var steps := Fold(StepAt, levels, tables).0;
    FoldReaches(StepAt, levels, tables);
    if steps != [] {
      assert Reached(steps)[|steps| - 1] == steps[|steps| - 1].toNf;
      assert levels[|levels| - 1] == BCNF;
    }
  }
}
