/** The citation list shown under an answer: the sources of the retrieved
    documents, with duplicates removed (a set) and sorted ascending. */
module SourceAttribution {
  import opened Documents
  import opened StringOrder

  /** Every element is smaller than every later one; so the list is sorted and has no duplicates. */
  predicate StrictlySorted(s: seq<string>)
  {
    forall i, j :: 0 <= i < j < |s| ==> Less(s[i], s[j])
  }

  function Elems(s: seq<string>): set<string>
  {
    set x | x in s
  }

  /** The set of citations of `docs`, as Python's `set(...)` over the generator builds it. */
  function SourceSet(docs: seq<Document>): set<string>
  {
    set i | 0 <= i < |docs| :: SourceOf(docs[i])
  }

  /** Inserts `x` into a strictly sorted list, leaving it unchanged when `x` is already there. */
  function Insert(x: string, s: seq<string>): (r: seq<string>)
    requires StrictlySorted(s)
    ensures StrictlySorted(r)
    ensures Elems(r) == Elems(s) + {x}
    ensures |r| <= |s| + 1
    ensures x in s ==> r == s
  {
    if s == [] then [x]
    else if x == s[0] then s
    else if Less(x, s[0]) then
      HeadBelowTail(s);
      assert forall z :: z in s ==> Less(x, z) by {
        forall z | z in s ensures Less(x, z) {
          if z != s[0] { LessTransitive(x, s[0], z); }
        }
      }
      LessIrreflexive(x);
      PrependSorted(x, s);
      [x] + s
    else
      LessConnected(x, s[0]);
      HeadBelowTail(s);
      var t := Insert(x, s[1..]);
      assert s == [s[0]] + s[1..];
      assert forall z :: z in t ==> Less(s[0], z) by {
        forall z | z in t ensures Less(s[0], z) {
          assert z in Elems(t);
        }
      }
      PrependSorted(s[0], t);
      [s[0]] + t
  }

  /** The head of a strictly sorted list is below everything after it. */
  lemma HeadBelowTail(s: seq<string>)
    requires StrictlySorted(s) && s != []
    ensures forall z :: z in s[1..] ==> Less(s[0], z)
  {
    forall z | z in s[1..] ensures Less(s[0], z) {
      var k :| 0 <= k < |s[1..]| && s[1..][k] == z;
      assert s[k + 1] == z;
    }
  }

  lemma PrependSorted(x: string, s: seq<string>)
    requires StrictlySorted(s)
    requires forall z :: z in s ==> Less(x, z)
    ensures StrictlySorted([x] + s)
  {
    var r := [x] + s;
    forall i, j | 0 <= i < j < |r| ensures Less(r[i], r[j]) {
      assert r[j] == s[j - 1];
      if i > 0 { assert r[i] == s[i - 1]; }
    }
  }

  /** The set of sources of a non-empty list: the first document's and the rest's. */
  lemma SourceSetCons(docs: seq<Document>)
    requires docs != []
    ensures SourceSet(docs) == {SourceOf(docs[0])} + SourceSet(docs[1..])
  {
    forall s | s in SourceSet(docs) ensures s in {SourceOf(docs[0])} + SourceSet(docs[1..]) {
      var i :| 0 <= i < |docs| && SourceOf(docs[i]) == s;
      if i > 0 { assert docs[1..][i - 1] == docs[i]; }
    }
    forall s | s in SourceSet(docs[1..]) ensures s in SourceSet(docs) {
      var i :| 0 <= i < |docs[1..]| && SourceOf(docs[1..][i]) == s;
      assert docs[i + 1] == docs[1..][i];
    }
  }

  /** `sorted(set(d.metadata.get("source", "Unknown") for d in docs))`. */
  function ExtractSources(docs: seq<Document>): (r: seq<string>)
    ensures StrictlySorted(r)
    ensures Elems(r) == SourceSet(docs)
    ensures |r| <= |docs|
  {
    if docs == [] then []
    else
      SourceSetCons(docs);
      Insert(SourceOf(docs[0]), ExtractSources(docs[1..]))
  }

  /** A citation appears exactly when some document carries it as its "source",
      or some document has no "source" and the citation is "Unknown". */
  lemma ExtractSourcesMembership(docs: seq<Document>, s: string)
    ensures s in ExtractSources(docs) <==>
      exists i :: 0 <= i < |docs| &&
        ((SourceKey in docs[i].metadata && docs[i].metadata[SourceKey] == s) ||
         (SourceKey !in docs[i].metadata && s == UnknownSource))
  {
    var r := ExtractSources(docs);
    assert s in r <==> s in Elems(r);
    if s in r {
      var i :| 0 <= i < |docs| && SourceOf(docs[i]) == s;
    } else {
      forall i | 0 <= i < |docs| ensures SourceOf(docs[i]) != s {
        assert SourceOf(docs[i]) in SourceSet(docs);
      }
    }
  }

  /** No citation is listed twice. */
  lemma ExtractSourcesNoDuplicates(docs: seq<Document>)
    ensures var r := ExtractSources(docs);
      forall i, j :: 0 <= i < j < |r| ==> r[i] != r[j]
  {
    var r := ExtractSources(docs);
    forall i, j | 0 <= i < j < |r| ensures r[i] != r[j] {
      if r[i] == r[j] { LessIrreflexive(r[i]); }
    }
  }

  /** A strictly sorted list is determined by its elements: there is only one
      sorted, duplicate-free listing of a set. */
  lemma {:induction false} StrictlySortedUnique(a: seq<string>, b: seq<string>)
    requires StrictlySorted(a) && StrictlySorted(b)
    requires Elems(a) == Elems(b)
    ensures a == b
    decreases |a|
  {
    if a == [] {
      assert Elems(a) == {};
      DistinctCardinality(b);
    } else {
      assert a[0] in Elems(b);
      assert b != [];
      assert b[0] in Elems(a);
      var i :| 0 <= i < |a| && a[i] == b[0];
      var j :| 0 <= j < |b| && b[j] == a[0];
      if i > 0 && j > 0 {
        LessAsymmetric(a[0], a[i]);
        assert false;
      }
      assert a[0] == b[0] by {
        if i == 0 { } else { LessIrreflexive(a[0]); }
      }
      assert Elems(a[1..]) == Elems(b[1..]) by {
        assert a == [a[0]] + a[1..] && b == [b[0]] + b[1..];
        assert Elems(a) == {a[0]} + Elems(a[1..]);
        assert Elems(b) == {b[0]} + Elems(b[1..]);
        forall x | x in a[1..] ensures x != a[0] {
          var k :| 0 <= k < |a[1..]| && a[1..][k] == x;
          assert Less(a[0], a[k + 1]);
          LessIrreflexive(a[0]);
        }
        forall x | x in b[1..] ensures x != b[0] {
          var k :| 0 <= k < |b[1..]| && b[1..][k] == x;
          assert Less(b[0], b[k + 1]);
          LessIrreflexive(b[0]);
        }
      }
      StrictlySortedUnique(a[1..], b[1..]);
    }
  }

  /** The citation list is THE sorted listing of the set of sources: it depends on
      which sources occur, not on retrieval order or repetitions. */
  lemma ExtractSourcesIsSortedListingOfSet(docs: seq<Document>, listing: seq<string>)
    requires StrictlySorted(listing) && Elems(listing) == SourceSet(docs)
    ensures ExtractSources(docs) == listing
  {
    StrictlySortedUnique(ExtractSources(docs), listing);
  }

  /** Two retrievals with the same set of sources yield the same citation list. */
  lemma ExtractSourcesDependsOnlyOnSourceSet(docs1: seq<Document>, docs2: seq<Document>)
    requires SourceSet(docs1) == SourceSet(docs2)
    ensures ExtractSources(docs1) == ExtractSources(docs2)
  {
    StrictlySortedUnique(ExtractSources(docs1), ExtractSources(docs2));
  }

  /** A duplicate-free list has as many elements as its element set. */
  lemma {:induction false} DistinctCardinality(s: seq<string>)
    requires StrictlySorted(s)
    ensures |Elems(s)| == |s|
    decreases |s|
  {
    if s != [] {
      assert s == [s[0]] + s[1..];
      assert Elems(s) == {s[0]} + Elems(s[1..]);
      assert s[0] !in Elems(s[1..]) by {
        if s[0] in s[1..] {
          var k :| 0 <= k < |s[1..]| && s[1..][k] == s[0];
          assert Less(s[0], s[k + 1]);
          LessIrreflexive(s[0]);
        }
      }
      DistinctCardinality(s[1..]);
    }
  }

  /** One citation per distinct source; never more citations than documents. */
  lemma ExtractSourcesLength(docs: seq<Document>)
    ensures |ExtractSources(docs)| == |SourceSet(docs)| <= |docs|
  {
    DistinctCardinality(ExtractSources(docs));
  }

  lemma ExtractSourcesEmpty()
    ensures ExtractSources([]) == []
  {
  }

  /** Documents with sources "b", "a", "a" are cited as ["a", "b"]. */
  lemma ExtractSourcesExample()
    ensures ExtractSources([
      Document("x", map[SourceKey := "b"]),
      Document("y", map[SourceKey := "a"]),
      Document("z", map[SourceKey := "a"])]) == ["a", "b"]
  {
    var d1 := Document("x", map[SourceKey := "b"]);
    var d2 := Document("y", map[SourceKey := "a"]);
    var d3 := Document("z", map[SourceKey := "a"]);
    assert SourceOf(d1) == "b" && SourceOf(d2) == "a" && SourceOf(d3) == "a";
    assert [d1, d2, d3][1..] == [d2, d3] && [d2, d3][1..] == [d3] && [d3][1..] == [];
    assert ExtractSources([d3]) == ["a"];
    assert ExtractSources([d2, d3]) == ["a"];
    assert !Less("b", "a");
    assert Insert("b", ["a"]) == ["a", "b"];
  }
}
