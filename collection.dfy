/**
 * `TreeCollection`: the search tree of street-tree records, specialised with
 * a counter per borough, the list of distinct species names in the order
 * they were first added, and the result of the last species-name match.
 * The class extends `MyBST<Tree>`; here it holds the inherited `root` and
 * `size` itself, ordered by `compareTo` on records.
 */
module Collection {
  import opened Wrappers
  import opened Text
  import opened Records
  import opened BST

  /** The borough names, lower-case, in the order of the counters. */
  const Boroughs: seq<string> := ["manhattan", "brooklyn", "bronx", "queens", "staten island"]

  /** `compareTo` on records is an order the search tree can work with. */
  lemma CompareToIsOrder()
    ensures IsOrder(CompareTo)
  {
    forall a: Tree, b: Tree ensures CompareTo(a, b) < 0 <==> CompareTo(b, a) > 0 {
      CompareToAntisymmetric(a, b);
    }
    forall a: Tree, b: Tree, c: Tree | CompareTo(a, b) < 0 && CompareTo(b, c) <= 0
      ensures CompareTo(a, c) < 0
    {
      CompareToTransitive(a, b, c);
    }
    forall a: Tree, b: Tree, c: Tree | CompareTo(a, b) <= 0 && CompareTo(b, c) < 0
      ensures CompareTo(a, c) < 0
    {
      if CompareTo(a, b) < 0 {
        CompareToTransitive(a, b, c);
      } else {
        CompareToIsKeyOrder(a, c);
        CompareToIsKeyOrder(b, c);
      }
    }
  }

  /** In a search tree of records, the descent finds exactly the records equal to `x`. */
  lemma MemberIsMatch(t: BTree<Tree>, x: Tree)
    requires IsBST(t, CompareTo)
    ensures Member(t, x, CompareTo) <==> Matches(t, x, CompareTo) != {}
  {
    CompareToIsOrder();
    MemberCorrect(t, x, CompareTo);
  }

  /** A search tree of records holds as many distinct records as it has nodes. */
  lemma RecordCount(t: BTree<Tree>)
    requires IsBST(t, CompareTo)
    ensures |Elements(t)| == NodeCount(t)
  {
    CompareToIsOrder();
    SizeIsElementCount(t, CompareTo);
  }

  // ------------------------------------------------------------ boroughs

  /** The record's borough is `b` ignoring case. */
  predicate BoroughIs(e: Tree, b: string) {
    e.boro.Some? && EqualsIgnoreCase(e.boro.value, b)
  }

  /** The number of stored records in borough `b`, ignoring case. */
  ghost function InBorough(t: BTree<Tree>, b: string): nat {
    match t
    case Empty => 0
    case Node(l, d, r) => InBorough(l, b) + (if BoroughIs(d, b) then 1 else 0) + InBorough(r, b)
  }

  /** Every stored record came out of the constructor with a borough. */
  ghost predicate Recorded(t: BTree<Tree>) {
    forall e :: e in Elements(t) ==> Constructed(e) && e.boro.Some?
  }

  /** `getBoro()` is non-null on every stored record. */
  ghost predicate HasBoroughs(t: BTree<Tree>) {
    forall e :: e in Elements(t) ==> e.boro.Some?
  }

  /** A valid borough is, once lower-cased, one of the five counter names, and the five are different. */
  lemma BoroughsListed(x: string)
    ensures ValidBorough(x) <==> exists j :: 0 <= j < |Boroughs| && Lower(x) == Boroughs[j]
    ensures forall j :: 0 <= j < |Boroughs| ==> IsLower(Boroughs[j])
    ensures forall i, j :: 0 <= i < j < |Boroughs| ==> Boroughs[i] != Boroughs[j]
  {
    assert Lower("Manhattan") == Boroughs[0];
    assert Lower("Brooklyn") == Boroughs[1];
    assert Lower("Bronx") == Boroughs[2];
    assert Lower("Queens") == Boroughs[3];
    assert Lower("Staten Island") == Boroughs[4];
  }

  /** A borough name matches at most one counter slot. */
  lemma AtMostOneBorough(b: string)
    ensures forall i, j ::
      0 <= i < |Boroughs| && 0 <= j < |Boroughs| && EqualsIgnoreCase(b, Boroughs[i]) && EqualsIgnoreCase(b, Boroughs[j]) ==> i == j
  {
    BoroughsListed(b);
  }

  /** Names equal ignoring case count the same records. */
  lemma {:induction false} InBoroughSameName(t: BTree<Tree>, a: string, b: string)
    requires EqualsIgnoreCase(a, b)
    ensures InBorough(t, a) == InBorough(t, b)
  {
    match t
    case Empty =>
    case Node(l, d, r) =>
      InBoroughSameName(l, a, b);
      InBoroughSameName(r, a, b);
  }

  /** A name that matches no counter slot matches no stored record. */
  lemma {:induction false} UnlistedBoroughIsEmpty(t: BTree<Tree>, b: string)
    requires Recorded(t)
    requires forall j :: 0 <= j < |Boroughs| ==> !EqualsIgnoreCase(Boroughs[j], b)
    ensures InBorough(t, b) == 0
  {
    match t
    case Empty =>
    case Node(l, d, r) =>
      UnlistedBoroughIsEmpty(l, b);
      UnlistedBoroughIsEmpty(r, b);
      BoroughsListed(d.boro.value);
  }

  /** 1 when the record is in the `j`-th borough, else 0. */
  function Hit(d: Tree, j: nat): nat
    requires j < |Boroughs|
  {
    if BoroughIs(d, Boroughs[j]) then 1 else 0
  }

  /** A constructed record with a borough is in exactly one of the five. */
  lemma ExactlyOneBorough(d: Tree)
    requires Constructed(d) && d.boro.Some?
    ensures Hit(d, 0) + Hit(d, 1) + Hit(d, 2) + Hit(d, 3) + Hit(d, 4) == 1
  {
    BoroughsListed(d.boro.value);
    var k :| 0 <= k < |Boroughs| && Lower(d.boro.value) == Boroughs[k];
    assert forall j :: 0 <= j < |Boroughs| ==> (BoroughIs(d, Boroughs[j]) <==> j == k);
  }

  /** The five borough counts of a tree add up to its node count. */
  lemma {:induction false} BoroughsPartition(t: BTree<Tree>)
    requires Recorded(t)
    ensures InBorough(t, Boroughs[0]) + InBorough(t, Boroughs[1]) + InBorough(t, Boroughs[2])
      + InBorough(t, Boroughs[3]) + InBorough(t, Boroughs[4]) == NodeCount(t)
  {
    match t
    case Empty =>
    case Node(l, d, r) =>
      BoroughsPartition(l);
      BoroughsPartition(r);
      ExactlyOneBorough(d);
  }

  /** The five per-borough record counts, in counter order. */
  ghost function BoroughCounts(t: BTree<Tree>): (c: seq<int>)
    ensures |c| == |Boroughs|
  {
    [InBorough(t, Boroughs[0]), InBorough(t, Boroughs[1]), InBorough(t, Boroughs[2]),
     InBorough(t, Boroughs[3]), InBorough(t, Boroughs[4])]
  }

  lemma BoroughCountsAt(t: BTree<Tree>, j: nat)
    requires j < |Boroughs|
    ensures BoroughCounts(t)[j] == InBorough(t, Boroughs[j])
  {
    if j == 0 {} else if j == 1 {} else if j == 2 {} else if j == 3 {} else {}
  }

  /** The counters after adding record `d`: the slot of its borough goes up by one. */
  function Bumped(c: seq<int>, d: Tree): (r: seq<int>)
    requires |c| == |Boroughs|
    ensures |r| == |Boroughs|
  {
    [c[0] + Hit(d, 0), c[1] + Hit(d, 1), c[2] + Hit(d, 2), c[3] + Hit(d, 3), c[4] + Hit(d, 4)]
  }

  /** Counters that went up by each slot's hit are the bumped counters. */
  lemma BumpedBySlots(c: seq<int>, d: Tree, r: seq<int>)
    requires |c| == |Boroughs| && |r| == |Boroughs|
    requires forall j :: 0 <= j < |Boroughs| ==> r[j] == c[j] + Hit(d, j)
    ensures r == Bumped(c, d)
  {
  }

  /** Inserting a new record adds it to the count of its own borough. */
  lemma InsertBoroughCounts(t: BTree<Tree>, x: Tree)
    requires !Member(t, x, CompareTo)
    ensures BoroughCounts(Insert(t, x, CompareTo)) == Bumped(BoroughCounts(t), x)
  {
    var u := Insert(t, x, CompareTo);
    forall j | 0 <= j < |Boroughs| ensures BoroughCounts(u)[j] == BoroughCounts(t)[j] + Hit(x, j) {
      BoroughCountsAt(u, j);
      BoroughCountsAt(t, j);
      InsertInBorough(t, x, Boroughs[j]);
    }
    BumpedBySlots(BoroughCounts(t), x, BoroughCounts(u));
  }

  lemma {:induction false} InsertInBorough(t: BTree<Tree>, x: Tree, b: string)
    requires !Member(t, x, CompareTo)
    ensures InBorough(Insert(t, x, CompareTo), b) == InBorough(t, b) + (if BoroughIs(x, b) then 1 else 0)
  {
    match t
    case Empty =>
    case Node(l, d, r) =>
      if CompareTo(x, d) < 0 {
        InsertInBorough(l, x, b);
      } else if CompareTo(x, d) > 0 {
        InsertInBorough(r, x, b);
      }
  }

  function Sum(s: seq<int>): int {
    if s == [] then 0 else Sum(s[..|s| - 1]) + s[|s| - 1]
  }

  lemma SumOfFive(a: int, b: int, c: int, d: int, e: int)
    ensures Sum([a, b, c, d, e]) == a + b + c + d + e
  {
    assert Sum([a]) == a by { assert [a][..0] == []; }
    assert Sum([a, b]) == a + b by { assert [a, b][..1] == [a]; }
    assert Sum([a, b, c]) == a + b + c by { assert [a, b, c][..2] == [a, b]; }
    assert Sum([a, b, c, d]) == a + b + c + d by { assert [a, b, c, d][..3] == [a, b, c]; }
    assert [a, b, c, d, e][..4] == [a, b, c, d];
  }

  // ------------------------------------------------------------ species

  ghost function SpeciesOf(t: BTree<Tree>): set<string> {
    set e | e in Elements(t) :: e.species
  }


  /** The placeholder record that `getCountByTreeSpecies` builds for a name; only its name is compared. */
  function Probe(name: string): (t: Tree)
    ensures t.species == name
  {
    NewTree(1, 0, "", "", name, 0, "Manhattan")
  }

  /** The placeholder record that `getCountByTreeSpeciesBorough` builds for a name and a borough. */
  function BoroughProbe(name: string, boroName: string): (t: Tree)
    ensures t.species == name
  {
    NewTree(1, 0, "", "", name, 0, boroName)
  }

  /** The private `count`: visits every node and counts those whose species is the probe's ignoring case. */
  function Count(t: BTree<Tree>, probe: Tree): (n: nat)
    ensures n <= NodeCount(t)
    ensures n == 0 <==> forall e :: e in Elements(t) ==> !SameName(e, probe)
  {
    match t
    case Empty => 0
    case Node(l, d, r) =>
      if SameName(d, probe) then 1 + Count(l, probe) + Count(r, probe)
      else Count(l, probe) + Count(r, probe)
  }

  /**
   * The private `count2`: visits every node and counts those whose species is
   * the probe's ignoring case and whose lower-cased borough is exactly `boroName`.
   */
  function Count2(t: BTree<Tree>, probe: Tree, boroName: string): (n: nat)
    requires HasBoroughs(t)
    ensures n <= Count(t, probe)
    ensures n == 0 <==> forall e :: e in Elements(t) ==> !(SameName(e, probe) && Lower(e.boro.value) == boroName)
  {
    match t
    case Empty => 0
    case Node(l, d, r) =>
      if SameName(d, probe) && Lower(d.boro.value) == boroName then 1 + Count2(l, probe, boroName) + Count2(r, probe, boroName)
      else Count2(l, probe, boroName) + Count2(r, probe, boroName)
  }

  /** The loop of `getCountByTreeSpecies`: `count` summed over the placeholders of `names`. */
  function SumCounts(t: BTree<Tree>, names: seq<string>): nat {
    if names == [] then 0
    else SumCounts(t, names[..|names| - 1]) + Count(t, Probe(names[|names| - 1]))
  }

  /** The loop of `getCountByTreeSpeciesBorough`: `count2` summed over the placeholders of `names`. */
  function SumCounts2(t: BTree<Tree>, names: seq<string>, boroName: string): nat
    requires HasBoroughs(t)
  {
    if names == [] then 0
    else SumCounts2(t, names[..|names| - 1], boroName) + Count2(t, BoroughProbe(names[|names| - 1], boroName), boroName)
  }

  /** `count` looks only at the probe's name. */
  lemma {:induction false} CountByName(t: BTree<Tree>, p: Tree, q: Tree)
    requires p.species == q.species
    ensures Count(t, p) == Count(t, q)
  {
    match t
    case Empty =>
    case Node(l, d, r) =>
      CountByName(l, p, q);
      CountByName(r, p, q);
  }

  /** Restricting to one borough never counts more. */
  lemma {:induction false} SumCounts2AtMost(t: BTree<Tree>, names: seq<string>, boroName: string)
    requires HasBoroughs(t)
    ensures SumCounts2(t, names, boroName) <= SumCounts(t, names)
  {
    if names != [] {
      var last := names[|names| - 1];
      SumCounts2AtMost(t, names[..|names| - 1], boroName);
      CountByName(t, BoroughProbe(last, boroName), Probe(last));
    }
  }

  /** The names of `names` that contain `q`, in the order of `names` (the loop of `getMatchingSpecies`). */
  function MatchingOf(names: seq<string>, q: string): (r: seq<string>)
    ensures |r| <= |names|
    ensures forall x :: x in r <==> x in names && Contains(x, q)
  {
    if names == [] then []
    else
      var rest := MatchingOf(names[..|names| - 1], q);
      assert forall x :: x in names <==> x in names[..|names| - 1] || x == names[|names| - 1];
      if Contains(names[|names| - 1], q) then rest + [names[|names| - 1]] else rest
  }

  /** Every two entries of `r` appear in `s` in the same order. */
  ghost predicate OrderedWithin(r: seq<string>, s: seq<string>) {
    forall i, j :: 0 <= i < j < |r| ==> exists a, b :: 0 <= a < b < |s| && s[a] == r[i] && s[b] == r[j]
  }

  /** The matches keep the relative order they have in `names`. */
  lemma {:induction false} MatchingOfKeepsOrder(names: seq<string>, q: string)
    ensures OrderedWithin(MatchingOf(names, q), names)
  {
    if names != [] {
      var init, last := names[..|names| - 1], names[|names| - 1];
      var rest := MatchingOf(init, q);
      var r := MatchingOf(names, q);
      MatchingOfKeepsOrder(init, q);
      assert r == rest || r == rest + [last];
      assert forall k :: 0 <= k < |rest| ==> r[k] == rest[k];
      forall i, j | 0 <= i < j < |r|
        ensures exists a, b :: 0 <= a < b < |names| && names[a] == r[i] && names[b] == r[j]
      {
        if j < |rest| {
          var a, b :| 0 <= a < b < |init| && init[a] == rest[i] && init[b] == rest[j];
          assert names[a] == r[i] && names[b] == r[j];
        } else {
          assert r[j] == last;
          assert rest[i] in init;
          var a :| 0 <= a < |init| && init[a] == rest[i];
          assert names[a] == r[i] && names[|names| - 1] == r[j];
        }
      }
    }
  }

  /** Matching keeps a list free of duplicates. */
  lemma {:induction false} MatchingOfDistinct(names: seq<string>, q: string)
    requires Distinct(names)
    ensures Distinct(MatchingOf(names, q))
  {
    if names != [] {
      var init := names[..|names| - 1];
      assert Distinct(init);
      MatchingOfDistinct(init, q);
      assert names[|names| - 1] !in init;
    }
  }

  /** The empty query matches every name. */
  lemma {:induction false} MatchingOfEmptyQuery(names: seq<string>)
    ensures MatchingOf(names, []) == names
  {
    if names != [] {
      var init := names[..|names| - 1];
      MatchingOfEmptyQuery(init);
      assert Contains(names[|names| - 1], []);
      assert init + [names[|names| - 1]] == names;
    }
  }

  /** The number of stored records whose species contains `q`, case-sensitively. */
  ghost function CountContaining(t: BTree<Tree>, q: string): nat {
    match t
    case Empty => 0
    case Node(l, d, r) => CountContaining(l, q) + (if Contains(d.species, q) then 1 else 0) + CountContaining(r, q)
  }

  /** The number of names in `names` whose placeholder has the species of `d` ignoring case. */
  function Hits(d: Tree, names: seq<string>): nat {
    if names == [] then 0
    else Hits(d, names[..|names| - 1]) + (if SameName(d, Probe(names[|names| - 1])) then 1 else 0)
  }

  lemma {:induction false} SumCountsOfEmpty(names: seq<string>)
    ensures SumCounts(Empty, names) == 0
  {
    if names != [] {
      SumCountsOfEmpty(names[..|names| - 1]);
    }
  }

  /** Summing per name and then per node is summing per node and then per name. */
  lemma {:induction false} SumCountsOfNode(l: BTree<Tree>, d: Tree, r: BTree<Tree>, names: seq<string>)
    ensures SumCounts(Node(l, d, r), names) == SumCounts(l, names) + SumCounts(r, names) + Hits(d, names)
  {
    if names != [] {
      SumCountsOfNode(l, d, r, names[..|names| - 1]);
    }
  }

  /** Among distinct lower-case names, a lower-case species is hit once if listed and not at all otherwise. */
  lemma {:induction false} HitsOfDistinct(d: Tree, names: seq<string>)
    requires Distinct(names) && (forall i :: 0 <= i < |names| ==> IsLower(names[i]))
    requires IsLower(d.species)
    ensures Hits(d, names) == if d.species in names then 1 else 0
  {
    if names != [] {
      var init, last := names[..|names| - 1], names[|names| - 1];
      assert Distinct(init);
      HitsOfDistinct(d, init);
      assert last !in init;
      assert IsLower(last);
      assert SameName(d, Probe(last)) <==> d.species == last;
      assert d.species in names <==> d.species in init || d.species == last;
    }
  }

  /**
   * Summing `count` over distinct lower-case names counts each lower-case
   * record once if its species is listed; when the listed species are exactly
   * those containing `q`, the sum is the number of records whose species contains `q`.
   */
  lemma {:induction false} SumCountsIsContaining(t: BTree<Tree>, names: seq<string>, q: string)
    requires Distinct(names) && (forall i :: 0 <= i < |names| ==> IsLower(names[i]))
    requires forall e :: e in Elements(t) ==> IsLower(e.species) && (e.species in names <==> Contains(e.species, q))
    ensures SumCounts(t, names) == CountContaining(t, q)
  {
    match t
    case Empty =>
      SumCountsOfEmpty(names);
    case Node(l, d, r) =>
      SumCountsIsContaining(l, names, q);
      SumCountsIsContaining(r, names, q);
      SumCountsOfNode(l, d, r, names);
      HitsOfDistinct(d, names);
  }

  /** Every species contains the empty string. */
  lemma {:induction false} CountContainingEmpty(t: BTree<Tree>)
    ensures CountContaining(t, []) == NodeCount(t)
  {
    match t
    case Empty =>
    case Node(l, d, r) =>
      CountContainingEmpty(l);
      CountContainingEmpty(r);
  }

  // ------------------------------------------------------------ the collection object

  /**
   * The collection invariant, on the values of its fields: a search tree of
   * constructed records with boroughs, `size` its node count, each counter
   * the number of records in its borough, and `uniqueSpecies` each stored
   * species exactly once.
   */
  ghost predicate Inv(root: BTree<Tree>, size: int, counts: seq<int>, species: seq<string>) {
    && IsBST(root, CompareTo)
    && size == NodeCount(root)
    && Recorded(root)
    && counts == BoroughCounts(root)
    && Distinct(species)
    && (forall x :: x in species <==> x in SpeciesOf(root))
  }

  /** `if (!species.contains(x)) species.add(x)`: `species` with `x` appended unless already listed. */
  function Listed(species: seq<string>, x: string): (r: seq<string>)
    ensures x in r && forall y :: y in species ==> y in r
    ensures species <= r && |r| <= |species| + 1
    ensures x in species ==> r == species
    ensures Distinct(species) ==> Distinct(r)
  {
    if x in species then species else species + [x]
  }

  /** Inserting a new record keeps the invariant, with its borough's counter bumped and its species listed. */
  lemma AddKeepsInv(root: BTree<Tree>, size: int, counts: seq<int>, species: seq<string>, t: Tree)
    requires Inv(root, size, counts, species)
    requires Constructed(t) && t.boro.Some? && !Member(root, t, CompareTo)
    ensures Inv(Insert(root, t, CompareTo), size + 1, Bumped(counts, t), Listed(species, t.species))
  {
    InsertKeepsOrder(root, t, CompareTo);
    InsertBoroughCounts(root, t);
    var r := Insert(root, t, CompareTo);
    assert SpeciesOf(r) == SpeciesOf(root) + {t.species};
  }

  class TreeCollection {
    var root: BTree<Tree>
    var size: int
    const boroCount: array<int>
    var uniqueSpecies: seq<string>
    var matchingSpecies: Option<seq<string>>

    /**
     * The object invariant: a search tree of constructed records with
     * boroughs, `size` its node count, each counter the number of records
     * in its borough, and `uniqueSpecies` each stored species exactly once.
     */
    ghost predicate Valid()
      reads this, boroCount
    {
      boroCount.Length == |Boroughs| && Inv(root, size, boroCount[..], uniqueSpecies)
    }

    /** `new TreeCollection()`: no records, all counters zero, no species, no match computed yet. */
    constructor ()
      ensures Valid()
      ensures root == Empty && size == 0 && uniqueSpecies == [] && matchingSpecies == None
      ensures fresh(boroCount) && boroCount[..] == [0, 0, 0, 0, 0]
    {
      root := Empty;
      size := 0;
      boroCount := new int[5](_ => 0);
      uniqueSpecies := [];
      matchingSpecies := None;
    }

    /**
     * `add(t)`: a record equal to a stored one is rejected; otherwise the
     * counter of its borough goes up, its species is listed if new, and it
     * is inserted in a new leaf. `getBoro()` must not be null.
     */
    method Add(t: Tree) returns (added: bool)
      requires Valid()
      requires Constructed(t) && t.boro.Some?
      modifies this, boroCount
      ensures Valid()
      ensures added <==> old(Matches(root, t, CompareTo)) == {}
      ensures matchingSpecies == old(matchingSpecies)
      ensures !added ==> root == old(root) && size == old(size) && boroCount[..] == old(boroCount[..]) && uniqueSpecies == old(uniqueSpecies)
      ensures added ==> size == old(size) + 1 && Elements(root) == old(Elements(root)) + {t} && t in Leaves(root)
      ensures added ==> boroCount[..] == Bumped(old(boroCount[..]), t)
      ensures added ==> uniqueSpecies == Listed(old(uniqueSpecies), t.species)
    {
      MemberIsMatch(root, t);
      if root != Empty && Member(root, t, CompareTo) {
        return false;
      }
      Store(t);
      return true;
    }

    /** The `else` branch of `add`: count the borough, list the species, insert the record in a new leaf. */
    method Store(t: Tree)
      requires Valid()
      requires Constructed(t) && t.boro.Some? && !Member(root, t, CompareTo)
      modifies this, boroCount
      ensures Valid()
      ensures matchingSpecies == old(matchingSpecies)
      ensures size == old(size) + 1 && Elements(root) == old(Elements(root)) + {t} && t in Leaves(root)
      ensures boroCount[..] == Bumped(old(boroCount[..]), t)
      ensures uniqueSpecies == Listed(old(uniqueSpecies), t.species)
    {
      AddKeepsInv(root, size, boroCount[..], uniqueSpecies, t);
      ghost var after := (Insert(root, t, CompareTo), size + 1, Bumped(boroCount[..], t), Listed(uniqueSpecies, t.species));
      assert Inv(after.0, after.1, after.2, after.3);
      BumpBorough(t);
      uniqueSpecies := Listed(uniqueSpecies, t.species);
      root := Insert(root, t, CompareTo);
      size := size + 1;
      assert (root, size, boroCount[..], uniqueSpecies) == after;
    }

    /** The loop of `add` over the borough names: the counter of the record's borough goes up by one. */
    method BumpBorough(t: Tree)
      requires boroCount.Length == |Boroughs| && t.boro.Some?
      modifies boroCount
      ensures boroCount[..] == Bumped(old(boroCount[..]), t)
    {
      for i := 0 to |Boroughs|
        invariant forall j :: 0 <= j < i ==> boroCount[j] == old(boroCount[j]) + Hit(t, j)
        invariant forall j :: i <= j < |Boroughs| ==> boroCount[j] == old(boroCount[j])
      {
        if EqualsIgnoreCase(t.boro.value, Boroughs[i]) {
          boroCount[i] := boroCount[i] + 1;
        }
      }
      BumpedBySlots(old(boroCount[..]), t, boroCount[..]);
    }

    /** `getTotalNumberOfTrees`: `size`, which is the number of distinct stored records. */
    function GetTotalNumberOfTrees(): (n: int)
      reads this, boroCount
      requires Valid()
      ensures n == NodeCount(root) && n == |Elements(root)|
    {
      RecordCount(root);
      size
    }

    /**
     * `getCountByBorough(b)`: the counter of the borough equal to `b` ignoring
     * case, 0 when none is; either way the number of stored records in `b`.
     */
    method GetCountByBorough(boroName: string) returns (n: int)
      requires Valid()
      ensures n == InBorough(root, boroName)
      ensures (forall j :: 0 <= j < |Boroughs| ==> !EqualsIgnoreCase(Boroughs[j], boroName)) ==> n == 0
    {
      n := 0;
      for i := 0 to |Boroughs|
        invariant n == if exists j :: 0 <= j < i && EqualsIgnoreCase(Boroughs[j], boroName) then InBorough(root, boroName) else 0
      {
        if EqualsIgnoreCase(Boroughs[i], boroName) {
          n := boroCount[i];
          BoroughCountsAt(root, i);
          InBoroughSameName(root, Boroughs[i], boroName);
        }
      }
      if forall j :: 0 <= j < |Boroughs| ==> !EqualsIgnoreCase(Boroughs[j], boroName) {
        UnlistedBoroughIsEmpty(root, boroName);
      }
    }

    /**
     * `getMatchingSpecies(q)`: the listed species that contain `q`
     * case-sensitively, in listing order; also kept as `matchingSpecies`.
     */
    method GetMatchingSpecies(speciesName: string) returns (r: seq<string>)
      modifies this
      ensures r == MatchingOf(uniqueSpecies, speciesName) && matchingSpecies == Some(r)
      ensures root == old(root) && size == old(size) && uniqueSpecies == old(uniqueSpecies)
      ensures old(Valid()) ==> Valid()
    {
      var matching: seq<string> := [];
      for i := 0 to |uniqueSpecies|
        invariant matching == MatchingOf(uniqueSpecies[..i], speciesName)
      {
        assert uniqueSpecies[..i + 1][..i] == uniqueSpecies[..i];
        if Contains(uniqueSpecies[i], speciesName) {
          matching := matching + [uniqueSpecies[i]];
        }
      }
      assert uniqueSpecies[..|uniqueSpecies|] == uniqueSpecies;
      matchingSpecies := Some(matching);
      r := matching;
    }

    /**
     * `getCountByTreeSpecies`: ignores its argument and sums `count` over the
     * last computed matches; `matchingSpecies` must have been computed.
     */
    method GetCountByTreeSpecies(speciesName: string) returns (n: int)
      requires matchingSpecies.Some?
      ensures n == SumCounts(root, matchingSpecies.value)
    {
      var names := matchingSpecies.value;
      var probes: seq<Tree> := [];
      for i := 0 to |names|
        invariant |probes| == i && forall k :: 0 <= k < i ==> probes[k] == Probe(names[k])
      {
        probes := probes + [Probe(names[i])];
      }
      n := 0;
      for i := 0 to |probes|
        invariant n == SumCounts(root, names[..i])
      {
        assert names[..i + 1][..i] == names[..i];
        n := n + Count(root, probes[i]);
      }
      assert names[..|names|] == names;
    }

    /**
     * `getCountByTreeSpeciesBorough`: sums `count2` over the last computed
     * matches, for the lower-cased borough `boroName`.
     */
    method GetCountByTreeSpeciesBorough(speciesName: string, boroName: string) returns (n: int)
      requires HasBoroughs(root) && matchingSpecies.Some?
      ensures n == SumCounts2(root, matchingSpecies.value, boroName)
    {
      var names := matchingSpecies.value;
      var probes: seq<Tree> := [];
      for i := 0 to |names|
        invariant |probes| == i && forall k :: 0 <= k < i ==> probes[k] == BoroughProbe(names[k], boroName)
      {
        probes := probes + [BoroughProbe(names[i], boroName)];
      }
      n := 0;
      for i := 0 to |probes|
        invariant n == SumCounts2(root, names[..i], boroName)
      {
        assert names[..i + 1][..i] == names[..i];
        n := n + Count2(root, probes[i], boroName);
      }
      assert names[..|names|] == names;
    }
  }

  /** The five borough counters add up to the number of stored records. */
  lemma BoroughCountsSumToTotal(c: TreeCollection)
    requires c.Valid()
    ensures Sum(c.boroCount[..]) == c.GetTotalNumberOfTrees()
  {
    BoroughsPartition(c.root);
    var s := BoroughCounts(c.root);
    SumOfFive(s[0], s[1], s[2], s[3], s[4]);
  }

  /**
   * After `getMatchingSpecies(q)`, and when every stored species is lower
   * case (as the loader makes it), `getCountByTreeSpecies` counts exactly the
   * stored records whose species contains `q`; for the empty query, all of them.
   */
  lemma SpeciesCountIsContainingCount(c: TreeCollection, q: string)
    requires c.Valid()
    requires c.matchingSpecies == Some(MatchingOf(c.uniqueSpecies, q))
    requires forall e :: e in Elements(c.root) ==> IsLower(e.species)
    ensures SumCounts(c.root, c.matchingSpecies.value) == CountContaining(c.root, q)
    ensures q == [] ==> SumCounts(c.root, c.matchingSpecies.value) == c.GetTotalNumberOfTrees()
  {
    var names := c.matchingSpecies.value;
    MatchingOfDistinct(c.uniqueSpecies, q);
    forall i | 0 <= i < |names| ensures IsLower(names[i]) {
      assert names[i] in c.uniqueSpecies;
      assert names[i] in SpeciesOf(c.root);
    }
    forall e | e in Elements(c.root) ensures e.species in names <==> Contains(e.species, q) {
      assert e.species in SpeciesOf(c.root);
    }
    SumCountsIsContaining(c.root, names, q);
    CountContainingEmpty(c.root);
  }

  /** Restricting the species count to one borough never counts more. */
  lemma SpeciesBoroughAtMostSpecies(c: TreeCollection, boroName: string)
    requires c.Valid() && c.matchingSpecies.Some?
    ensures SumCounts2(c.root, c.matchingSpecies.value, boroName) <= SumCounts(c.root, c.matchingSpecies.value)
  {
    SumCounts2AtMost(c.root, c.matchingSpecies.value, boroName);
  }
}
