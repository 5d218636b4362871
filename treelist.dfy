/**
 * The linear version of the record store (`TreeList`): an `ArrayList` of
 * records whose queries scan the whole list and match by lower-cased
 * substring. Each query is a loop over the list that leaves the list alone;
 * the function next to it is what the loop computes, defined on the list
 * prefix the loop has seen.
 */
module Linear {
  import opened Wrappers
  import opened Text
  import opened Records

  /** The record's lower-cased species contains the lower-cased query. */
  predicate SpeciesMatches(e: Tree, q: string) {
    Contains(Lower(e.species), Lower(q))
  }

  /** The record's lower-cased borough contains the lower-cased query; `getBoro()` must not be null. */
  predicate BoroughMatches(e: Tree, b: string)
    requires e.boro.Some?
  {
    Contains(Lower(e.boro.value), Lower(b))
  }

  /** Every record has a borough, so `getBoro().toLowerCase()` does not throw. */
  predicate AllHaveBorough(items: seq<Tree>) {
    forall i :: 0 <= i < |items| ==> items[i].boro.Some?
  }

  /** The number of records whose species matches `q`. */
  function CountSpecies(items: seq<Tree>, q: string): (n: nat)
    ensures n <= |items|
  {
    if items == [] then 0
    else CountSpecies(items[..|items| - 1], q) + (if SpeciesMatches(items[|items| - 1], q) then 1 else 0)
  }

  /** The number of records whose borough matches `b`. */
  function CountBorough(items: seq<Tree>, b: string): (n: nat)
    requires AllHaveBorough(items)
    ensures n <= |items|
  {
    if items == [] then 0
    else CountBorough(items[..|items| - 1], b) + (if BoroughMatches(items[|items| - 1], b) then 1 else 0)
  }

  /**
   * Every record whose species matches `q` has a borough. The species test
   * comes first and short-circuits, so only these records have their
   * borough read.
   */
  predicate MatchesHaveBorough(items: seq<Tree>, q: string) {
    forall i :: 0 <= i < |items| && SpeciesMatches(items[i], q) ==> items[i].boro.Some?
  }

  /** The number of records whose species matches `q` and whose borough matches `b`. */
  function CountBoth(items: seq<Tree>, q: string, b: string): (n: nat)
    requires MatchesHaveBorough(items, q)
    ensures n <= |items|
  {
    if items == [] then 0
    else
      var e := items[|items| - 1];
      CountBoth(items[..|items| - 1], q, b) + (if SpeciesMatches(e, q) && BoroughMatches(e, b) then 1 else 0)
  }

  /** The species names of the records, in list order. */
  function Names(items: seq<Tree>): (r: seq<string>)
    ensures |r| == |items| && forall i :: 0 <= i < |items| ==> r[i] == items[i].species
  {
    seq(|items|, i requires 0 <= i < |items| => items[i].species)
  }

  /**
   * The loop of `getMatchingSpecies`: a matching record's species is
   * appended unless its lower-cased form is already in the result.
   */
  function Matching(items: seq<Tree>, q: string): (r: seq<string>)
    ensures |r| <= |items|
    ensures forall x :: x in r ==> x in Names(items) && Contains(Lower(x), Lower(q))
  {
    if items == [] then []
    else
      var init := items[..|items| - 1];
      var e := items[|items| - 1];
      var r := Matching(init, q);
      assert forall x :: x in Names(init) ==> x in Names(items) by {
        forall x | x in Names(init) ensures x in Names(items) {
          var i :| 0 <= i < |init| && Names(init)[i] == x;
          assert Names(items)[i] == x;
        }
      }
      assert Names(items)[|items| - 1] == e.species;
      if SpeciesMatches(e, q) && Lower(e.species) !in r then r + [e.species] else r
  }

  /** The empty query matches every record. */
  lemma {:induction false} CountSpeciesOfEmptyQuery(items: seq<Tree>)
    ensures CountSpecies(items, []) == |items|
  {
    if items != [] {
      CountSpeciesOfEmptyQuery(items[..|items| - 1]);
      assert Lower([]) == [];
    }
  }

  /** Counting a list split in two is counting the two parts. */
  lemma {:induction false} CountSpeciesAppend(a: seq<Tree>, b: seq<Tree>, q: string)
    ensures CountSpecies(a + b, q) == CountSpecies(a, q) + CountSpecies(b, q)
  {
    if b != [] {
      CountSpeciesAppend(a, b[..|b| - 1], q);
      assert (a + b)[..|a + b| - 1] == a + b[..|b| - 1];
    } else {
      assert a + b == a;
    }
  }

  /** Matching both queries is at most matching either one. */
  lemma {:induction false} CountBothAtMost(items: seq<Tree>, q: string, b: string)
    requires AllHaveBorough(items)
    ensures CountBoth(items, q, b) <= CountSpecies(items, q)
    ensures CountBoth(items, q, b) <= CountBorough(items, b)
  {
    if items != [] {
      CountBothAtMost(items[..|items| - 1], q, b);
    }
  }

  /** Every matching record is represented in the result, by its name or by its lower-cased name. */
  lemma {:induction false} MatchingComplete(items: seq<Tree>, q: string)
    ensures forall i :: 0 <= i < |items| && SpeciesMatches(items[i], q) ==>
      items[i].species in Matching(items, q) || Lower(items[i].species) in Matching(items, q)
  {
    if items != [] {
      var init := items[..|items| - 1];
      MatchingComplete(init, q);
      assert forall i :: 0 <= i < |init| ==> init[i] == items[i];
    }
  }

  /** Each step appends to the result, so the result for a prefix of the list is a prefix of the result. */
  lemma {:induction false} MatchingPrefix(items: seq<Tree>, n: nat, q: string)
    requires n <= |items|
    ensures Matching(items[..n], q) <= Matching(items, q)
  {
    if n < |items| {
      var init := items[..|items| - 1];
      assert items[..n] == init[..n];
      MatchingPrefix(init, n, q);
    } else {
      assert items[..n] == items;
    }
  }

  /** When every stored species is lower-case, the duplicate check works and the result has no repeats. */
  lemma {:induction false} MatchingDistinct(items: seq<Tree>, q: string)
    requires forall i :: 0 <= i < |items| ==> IsLower(items[i].species)
    ensures Distinct(Matching(items, q))
  {
    if items != [] {
      MatchingDistinct(items[..|items| - 1], q);
    }
  }

  /** Two records with the mixed-case species "Oak": the check looks for "oak" and lets "Oak" in twice. */
  lemma MixedCaseRepeats()
    ensures var t := Tree(1, 0, None, None, "Oak", 0, None);
      Matching([t, t], []) == ["Oak", "Oak"]
  {
    var t := Tree(1, 0, None, None, "Oak", 0, None);
    assert Lower("Oak") == "oak";
    assert [t, t][..1] == [t];
    assert [t][..0] == [];
  }

  /** Some entry of `r` equals `x` ignoring case. */
  predicate ListedIgnoringCase(r: seq<string>, x: string) {
    exists k :: 0 <= k < |r| && EqualsIgnoreCase(r[k], x)
  }

  /** `getMatchingSpecies` with the duplicate check made case-insensitive on both sides. */
  function MatchingFolded(items: seq<Tree>, q: string): (r: seq<string>)
    ensures |r| <= |items|
  {
    if items == [] then []
    else
      var e := items[|items| - 1];
      var r := MatchingFolded(items[..|items| - 1], q);
      if SpeciesMatches(e, q) && !ListedIgnoringCase(r, e.species) then r + [e.species] else r
  }

  /** With the corrected check no two entries are equal, even ignoring case. */
  lemma {:induction false} MatchingFoldedDistinct(items: seq<Tree>, q: string)
    ensures forall i, j :: 0 <= i < j < |MatchingFolded(items, q)| ==>
      !EqualsIgnoreCase(MatchingFolded(items, q)[i], MatchingFolded(items, q)[j])
    ensures Distinct(MatchingFolded(items, q))
  {
    if items != [] {
      MatchingFoldedDistinct(items[..|items| - 1], q);
    }
  }

  /** On lower-case species the corrected check and the original one agree. */
  lemma {:induction false} FoldedAgreesWhenLower(items: seq<Tree>, q: string)
    requires forall i :: 0 <= i < |items| ==> IsLower(items[i].species)
    ensures MatchingFolded(items, q) == Matching(items, q)
  {
    if items != [] {
      var init := items[..|items| - 1];
      var e := items[|items| - 1];
      FoldedAgreesWhenLower(init, q);
      var r := Matching(init, q);
      forall x | x in r ensures IsLower(x) {
        var i :| 0 <= i < |init| && Names(init)[i] == x;
      }
      if ListedIgnoringCase(r, e.species) {
        var k :| 0 <= k < |r| && EqualsIgnoreCase(r[k], e.species);
        assert r[k] in r;
        assert Lower(e.species) in r;
      }
    }
  }

  /** The list of records. `add` is the one `ArrayList` inherits; the queries only read the list. */
  class TreeList {
    var items: seq<Tree>

    /** `new TreeList()`: an empty list. */
    constructor ()
      ensures items == []
    {
      items := [];
    }

    /** The inherited `add`: the record goes to the end of the list. */
    method Add(t: Tree) returns (b: bool)
      modifies this
      ensures items == old(items) + [t] && b
    {
      items := items + [t];
      b := true;
    }

    /** `getTotalNumberOfTrees`: the list size. */
    function GetTotalNumberOfTrees(): (n: nat)
      reads this
      ensures n == |items|
    {
      |items|
    }

    /** `getCountByTreeSpecies(q)`: the number of records whose species contains `q` ignoring case. */
    method GetCountByTreeSpecies(speciesName: string) returns (n: int)
      ensures n == CountSpecies(items, speciesName)
    {
      n := 0;
      for i := 0 to |items|
        invariant n == CountSpecies(items[..i], speciesName)
      {
        assert items[..i + 1][..i] == items[..i];
        if Contains(Lower(items[i].species), Lower(speciesName)) {
          n := n + 1;
        }
      }
      assert items[..|items|] == items;
    }

    /** `getCountByBorough(b)`: the number of records whose borough contains `b` ignoring case. */
    method GetCountByBorough(boroName: string) returns (n: int)
      requires AllHaveBorough(items)
      ensures n == CountBorough(items, boroName)
    {
      n := 0;
      for i := 0 to |items|
        invariant n == CountBorough(items[..i], boroName)
      {
        assert items[..i + 1][..i] == items[..i];
        if Contains(Lower(items[i].boro.value), Lower(boroName)) {
          n := n + 1;
        }
      }
      assert items[..|items|] == items;
    }

    /** `getCountByTreeSpeciesBorough(q, b)`: the records matching both the species and the borough query. */
    method GetCountByTreeSpeciesBorough(speciesName: string, boroName: string) returns (n: int)
      requires MatchesHaveBorough(items, speciesName)
      ensures n == CountBoth(items, speciesName, boroName)
    {
      n := 0;
      for i := 0 to |items|
        invariant n == CountBoth(items[..i], speciesName, boroName)
      {
        assert items[..i + 1][..i] == items[..i];
        if Contains(Lower(items[i].species), Lower(speciesName)) && Contains(Lower(items[i].boro.value), Lower(boroName)) {
          n := n + 1;
        }
      }
      assert items[..|items|] == items;
    }

    /** `getMatchingSpecies(q)`: the matching species names, first occurrence first, without repeats. */
    method GetMatchingSpecies(speciesName: string) returns (r: seq<string>)
      ensures r == Matching(items, speciesName)
    {
      r := [];
      for i := 0 to |items|
        invariant r == Matching(items[..i], speciesName)
      {
        assert items[..i + 1][..i] == items[..i];
        if Contains(Lower(items[i].species), Lower(speciesName)) && Lower(items[i].species) !in r {
          r := r + [items[i].species];
        }
      }
      assert items[..|items|] == items;
    }
  }
}
