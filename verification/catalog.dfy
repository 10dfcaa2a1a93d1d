/**
 * The name catalog shown in the selector: every distinct `name` of the full
 * dataset, once, in sort order (names.js, the second `then` of `fetchNames`).
 */
module Catalog {
  import opened Records
  import opened Sorting

  function NamesOf(rows: seq<Record>): seq<string> {
    seq(|rows|, i requires 0 <= i < |rows| => rows[i].name)
  }

  /** `[...new Set(rows.map(r => r.name))].sort()` */
  function BuildCatalog(rows: seq<Record>): (names: seq<string>)
    ensures StrictlyIncreasing(names)
    ensures forall n :: n in names <==> HasName(rows, n)
  {
    var namesOnly := NamesOf(rows);
    var unique := Dedupe(namesOnly);
    var sorted := Sort(unique);
    PermutationKeepsNoDuplicates(unique, sorted);
    assert forall n :: n in sorted <==> n in unique by {
      forall n
        ensures n in sorted <==> n in unique
      {
        assert n in sorted <==> n in multiset(sorted);
        assert n in unique <==> n in multiset(unique);
      }
    }
    assert forall n :: n in namesOnly <==> HasName(rows, n) by {
      forall n
        ensures n in namesOnly <==> HasName(rows, n)
      {
        if HasName(rows, n) {
          var i :| 0 <= i < |rows| && rows[i].name == n;
          assert namesOnly[i] == n;
        }
      }
    }
    sorted
  }

  /** The catalog is the only strictly increasing listing of the names in the data. */
  lemma CatalogCanonical(rows: seq<Record>, names: seq<string>)
    requires StrictlyIncreasing(names)
    requires forall n :: n in names <==> HasName(rows, n)
    ensures names == BuildCatalog(rows)
  {
    StrictlyIncreasingUnique(names, BuildCatalog(rows));
  }

  /** Serving the same rows in another order yields the same catalog. */
  lemma CatalogOrderIndependent(rows1: seq<Record>, rows2: seq<Record>)
    requires multiset(rows1) == multiset(rows2)
    ensures BuildCatalog(rows1) == BuildCatalog(rows2)
  {
    forall n
      ensures HasName(rows1, n) <==> HasName(rows2, n)
    {
      if HasName(rows1, n) {
        var i :| 0 <= i < |rows1| && rows1[i].name == n;
        assert rows1[i] in multiset(rows2);
        var j :| 0 <= j < |rows2| && rows2[j] == rows1[i];
      }
      if HasName(rows2, n) {
        var j :| 0 <= j < |rows2| && rows2[j].name == n;
        assert rows2[j] in multiset(rows1);
        var i :| 0 <= i < |rows1| && rows1[i] == rows2[j];
      }
    }
    CatalogCanonical(rows2, BuildCatalog(rows1));
  }
}
