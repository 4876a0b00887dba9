/**
 * Resolution of normalised names against the medication catalog: the rows
 * the name lookup returns (`found`), their names and ids, and the requested
 * names that matched no row (`missing`).
 */
module Catalog {

  /** A catalog row as the name lookup returns it: `(id, name)`. */
  datatype MedRow = MedRow(id: int, name: string)

  /** The catalog's keys: `id` is the primary key and `name` is UNIQUE. */
  predicate WellFormed(catalog: seq<MedRow>) {
    forall i, j :: 0 <= i < j < |catalog| ==> catalog[i].id != catalog[j].id && catalog[i].name != catalog[j].name
  }

  /**
   * The rows the name lookup returns (src/app.js:66-69): every catalog row
   * whose name is one of the requested names, each once, however often its
   * name was requested. The lookup fixes no order; the model returns them in
   * catalog order.
   */
  function Found(catalog: seq<MedRow>, names: seq<string>): (found: seq<MedRow>)
    ensures |found| <= |catalog|
    ensures forall r :: r in found ==> r in catalog && r.name in names
    ensures forall r :: r in catalog && r.name in names ==> r in found
  {
    if catalog == [] then []
    else (if catalog[0].name in names then [catalog[0]] else []) + Found(catalog[1..], names)
  }

  lemma WellFormedTail(catalog: seq<MedRow>)
    requires WellFormed(catalog) && catalog != []
    ensures WellFormed(catalog[1..])
    ensures forall r :: r in catalog[1..] ==> r.id != catalog[0].id && r.name != catalog[0].name
  {
    var rest := catalog[1..];
    forall i, j | 0 <= i < j < |rest| ensures rest[i].id != rest[j].id && rest[i].name != rest[j].name {
      assert rest[i] == catalog[i + 1] && rest[j] == catalog[j + 1];
    }
    forall r | r in rest ensures r.id != catalog[0].id && r.name != catalog[0].name {
      var j :| 0 <= j < |rest| && rest[j] == r;
      assert catalog[j + 1] == r;
    }
  }

  /** The rows found in a well-formed catalog have distinct ids and distinct names. */
  lemma {:induction false} FoundWellFormed(catalog: seq<MedRow>, names: seq<string>)
    requires WellFormed(catalog)
    ensures WellFormed(Found(catalog, names))
  {
    if catalog != [] {
      WellFormedTail(catalog);
      var rest := Found(catalog[1..], names);
      FoundWellFormed(catalog[1..], names);
      if catalog[0].name in names {
        var found := [catalog[0]] + rest;
        forall i, j | 0 <= i < j < |found| ensures found[i].id != found[j].id && found[i].name != found[j].name {
          assert found[j] == rest[j - 1] && found[j] in catalog[1..];
          if i > 0 { assert found[i] == rest[i - 1]; }
        }
      }
    }
  }

  /** In a well-formed catalog an id determines its row, and distinct ids carry distinct names. */
  lemma WellFormedKeys(catalog: seq<MedRow>, x: MedRow, y: MedRow)
    requires WellFormed(catalog) && x in catalog && y in catalog
    ensures x.id == y.id <==> x == y
    ensures x.name == y.name <==> x == y
  {
    var i :| 0 <= i < |catalog| && catalog[i] == x;
    var j :| 0 <= j < |catalog| && catalog[j] == y;
    assert i < j ==> catalog[i].id != catalog[j].id && catalog[i].name != catalog[j].name;
    assert j < i ==> catalog[j].id != catalog[i].id && catalog[j].name != catalog[i].name;
  }

  /** The names of the found rows, in their order (`foundNames`, src/app.js:70). */
  function NamesOf(rows: seq<MedRow>): (names: seq<string>)
    ensures |names| == |rows|
  {
    seq(|rows|, k requires 0 <= k < |rows| => rows[k].name)
  }

  /** The ids of the found rows, in their order (`ids`, src/app.js:77). */
  function IdsOf(rows: seq<MedRow>): (ids: seq<int>)
    ensures |ids| == |rows|
  {
    seq(|rows|, k requires 0 <= k < |rows| => rows[k].id)
  }

  /** The requested names that are not among the found names, in request order and with repeats (src/app.js:71). */
  function Missing(names: seq<string>, foundNames: seq<string>): (missing: seq<string>)
    ensures |missing| <= |names|
    ensures forall n :: n in missing ==> n in names && n !in foundNames
  {
    if names == [] then []
    else (if names[0] in foundNames then [] else [names[0]]) + Missing(names[1..], foundNames)
  }

  /** When every catalog row is requested, the lookup returns the whole catalog. */
  lemma {:induction false} FoundWholeCatalog(catalog: seq<MedRow>, names: seq<string>)
    requires forall r :: r in catalog ==> r.name in names
    ensures Found(catalog, names) == catalog
  {
    if catalog != [] {
      assert catalog[0] in catalog;
      assert forall r :: r in catalog[1..] ==> r in catalog;
      FoundWholeCatalog(catalog[1..], names);
    }
  }

  /** When every requested name is found, nothing is missing. */
  lemma {:induction false} NothingMissing(names: seq<string>, foundNames: seq<string>)
    requires forall n :: n in names ==> n in foundNames
    ensures Missing(names, foundNames) == []
  {
    if names != [] {
      assert names[0] in names;
      assert forall n :: n in names[1..] ==> n in names;
      NothingMissing(names[1..], foundNames);
    }
  }

  /**
   * `missing` keeps every requested name that was not found, as often as it
   * was requested, and no name that was found.
   */
  lemma {:induction false} MissingCounts(names: seq<string>, foundNames: seq<string>, n: string)
    ensures multiset(Missing(names, foundNames))[n] == if n in foundNames then 0 else multiset(names)[n]
  {
    if names != [] {
      MissingCounts(names[1..], foundNames, n);
      assert names == [names[0]] + names[1..];
      assert multiset(names) == multiset([names[0]]) + multiset(names[1..]);
    }
  }

  /** Order is kept too: `missing` of a concatenation is the concatenation of the `missing` lists. */
  lemma {:induction false} MissingAppend(a: seq<string>, b: seq<string>, foundNames: seq<string>)
    ensures Missing(a + b, foundNames) == Missing(a, foundNames) + Missing(b, foundNames)
  {
    if a != [] {
      assert (a + b)[0] == a[0];
      assert (a + b)[1..] == a[1..] + b;
      MissingAppend(a[1..], b, foundNames);
    } else {
      assert a + b == b;
    }
  }

  /** Each requested name is either a found name or in `missing`, never both. */
  lemma NameResolvedOrMissing(catalog: seq<MedRow>, names: seq<string>, n: string)
    requires n in names
    ensures var found := Found(catalog, names);
      (n in NamesOf(found)) != (n in Missing(names, NamesOf(found)))
  {
    var fn := NamesOf(Found(catalog, names));
    MissingCounts(names, fn, n);
  }

  lemma NamesOfMembership(rows: seq<MedRow>, n: string)
    ensures n in NamesOf(rows) <==> exists r :: r in rows && r.name == n
  {
    if n in NamesOf(rows) {
      var k :| 0 <= k < |rows| && NamesOf(rows)[k] == n;
      assert rows[k] in rows;
    }
    if exists r :: r in rows && r.name == n {
      var r :| r in rows && r.name == n;
      var k :| 0 <= k < |rows| && rows[k] == r;
      assert NamesOf(rows)[k] == n;
    }
  }

  /** An id is in `ids` exactly when some row carries it. */
  lemma IdsOfMembership(rows: seq<MedRow>, x: int)
    ensures x in IdsOf(rows) <==> exists r :: r in rows && r.id == x
  {
    if x in IdsOf(rows) {
      var k :| 0 <= k < |rows| && IdsOf(rows)[k] == x;
      assert rows[k] in rows;
    }
    if exists r :: r in rows && r.id == x {
      var r :| r in rows && r.id == x;
      var k :| 0 <= k < |rows| && rows[k] == r;
      assert IdsOf(rows)[k] == x;
    }
  }

  /** A requested name is found exactly when some catalog row carries it. */
  lemma FoundNamesAreKnown(catalog: seq<MedRow>, names: seq<string>, n: string)
    ensures n in NamesOf(Found(catalog, names)) <==> n in names && n in NamesOf(catalog)
  {
    NamesOfMembership(Found(catalog, names), n);
    NamesOfMembership(catalog, n);
  }

  /** The distinct known names among those requested. */
  function KnownNames(catalog: seq<MedRow>, names: seq<string>): set<string> {
    set n | n in names && n in NamesOf(catalog)
  }

  lemma {:induction false} DistinctNamesCount(rows: seq<MedRow>)
    requires WellFormed(rows)
    ensures |set r | r in rows :: r.name| == |rows|
  {
    if rows != [] {
      var rest := rows[1..];
      WellFormedTail(rows);
      DistinctNamesCount(rest);
      var all, tail := set r | r in rows :: r.name, set r | r in rest :: r.name;
      forall x ensures x in all <==> x in {rows[0].name} + tail {
        if x in all {
          var r :| r in rows && r.name == x;
          var k :| 0 <= k < |rows| && rows[k] == r;
          if k > 0 { assert rest[k - 1] == r; }
        }
        if x in tail {
          var r :| r in rest && r.name == x;
          assert r in rows;
        }
      }
      assert all == {rows[0].name} + tail;
      assert rows[0].name !in tail;
    }
  }

  /**
   * In a well-formed catalog the number of rows found is the number of
   * DISTINCT known names requested: a name requested twice is one row.
   */
  lemma FoundCountsDistinctKnownNames(catalog: seq<MedRow>, names: seq<string>)
    requires WellFormed(catalog)
    ensures |Found(catalog, names)| == |KnownNames(catalog, names)|
  {
    var found := Found(catalog, names);
    FoundWellFormed(catalog, names);
    DistinctNamesCount(found);
    forall n ensures n in (set r | r in found :: r.name) <==> n in KnownNames(catalog, names) {
      FoundNamesAreKnown(catalog, names, n);
      NamesOfMembership(found, n);
    }
    assert (set r | r in found :: r.name) == KnownNames(catalog, names);
  }
}
