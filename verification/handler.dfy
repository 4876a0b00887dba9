/**
 * The `POST /check-interactions` handler: raw-input guard, normalisation,
 * name lookup, the too-few check, the interaction query, the row loop and
 * the response. The two store queries are parameters: `catalog` is the
 * medications table the name lookup reads, `pairRows` is what the
 * interaction query returns.
 */
module Handler {
  import opened Wrappers
  import opened Normalization
  import opened Catalog
  import opened Interactions
  import opened Severity

  /** The `meds` field of the request body: a JSON array, or anything else (missing, null, an object...). */
  datatype Body = MedsArray(items: seq<Raw>) | NotAnArray

  /** The body of a successful response (`success: true`). */
  datatype Response = Response(
    requested: seq<string>,
    missing: seq<string>,
    interactions: seq<Interaction>,
    overallSeverity: Option<Overall>)

  /** What the handler answers. */
  datatype Outcome =
    | BadInput                          // 400, "Provide an array \"meds\" with at least two medication names"
    | TooFewKnown(missing: seq<string>) // 400, "At least two known medications required", with `missing`
    | StoreFault                        // 500, "Server error"
    | Ok(response: Response)            // 200

  /** A query the handler sends to the store. */
  datatype Query = NameLookup(names: seq<string>) | PairLookup(ids: seq<int>)

  /** The HTTP status of an outcome. */
  function Status(o: Outcome): (code: int)
    ensures code == 200 <==> o.Ok?
    ensures code == 400 <==> o.BadInput? || o.TooFewKnown?
    ensures code == 500 <==> o.StoreFault?
  {
    match o
    case BadInput => 400
    case TooFewKnown(_) => 400
    case StoreFault => 500
    case Ok(_) => 200
  }

  /**
   * The handler's answer. An all-blank list reaches the name lookup with an
   * empty list of names, which makes the query text malformed, so the
   * database rejects it and the handler's catch turns that into a store fault.
   */
  function Respond(body: Body, catalog: seq<MedRow>, pairRows: seq<PairRow>): (o: Outcome)
    ensures o.TooFewKnown? || o.Ok? ==> body.MedsArray? && |body.items| >= 2 && Normalize(body.items) != []
    ensures o.Ok? ==> o.response.requested == Normalize(body.items)
  {
    if body.NotAnArray? || |body.items| < 2 then BadInput
    else
      var names := Normalize(body.items);
      if names == [] then StoreFault else Resolve(names, Found(catalog, names), pairRows)
  }

  /** The answer once the name lookup has returned `found` for the normalised `names`. */
  function Resolve(names: seq<string>, found: seq<MedRow>, pairRows: seq<PairRow>): (o: Outcome)
    ensures o.TooFewKnown? || o.Ok?
    ensures o.Ok? <==> |found| >= 2
    ensures o.Ok? ==> o.response.requested == names && o.response.missing == Missing(names, NamesOf(found))
  {
    var missing := Missing(names, NamesOf(found));
    if |found| < 2 then TooFewKnown(missing)
    else
      var ids := IdsOf(found);
      Ok(Response(names, missing, Kept(ids, pairRows), OverallSeverity(MaxLevel(ids, pairRows))))
  }

  /**
   * The handler as it runs: the guard, then at most one name lookup and at
   * most one interaction query, in that order, recorded in `queries`.
   */
  method CheckInteractions(body: Body, catalog: seq<MedRow>, pairRows: seq<PairRow>)
    returns (outcome: Outcome, queries: seq<Query>)
    ensures outcome == Respond(body, catalog, pairRows)
    ensures queries == [] <==> outcome.BadInput?
    ensures !outcome.BadInput? ==> queries[0] == NameLookup(Normalize(body.items))
    ensures |queries| == 2 <==> outcome.Ok?
    ensures outcome.Ok? ==> queries[1] == PairLookup(IdsOf(Found(catalog, Normalize(body.items))))
    ensures outcome.Ok? ==> outcome.response.requested == Normalize(body.items)
    ensures queries ==
      if outcome.BadInput? then []
      else if outcome.Ok? then [NameLookup(Normalize(body.items)), PairLookup(IdsOf(Found(catalog, Normalize(body.items))))]
      else [NameLookup(Normalize(body.items))]
  {
    if body.NotAnArray? || |body.items| < 2 {
      return BadInput, [];
    }
    var names := Normalize(body.items);
    queries := [NameLookup(names)];
    if names == [] {
      return StoreFault, queries;
    }
    var found := Found(catalog, names);
    var missing := Missing(names, NamesOf(found));
    if |found| < 2 {
      return TooFewKnown(missing), queries;
    }
    var ids := IdsOf(found);
    queries := queries + [PairLookup(ids)];
    var interactions, overallLevel := FilterRows(ids, pairRows);
    outcome := Ok(Response(names, missing, interactions, OverallSeverity(overallLevel)));
  }

  /** The guard looks at the raw array only: it rejects exactly non-arrays and arrays of fewer than two elements. */
  lemma RawGuard(body: Body, catalog: seq<MedRow>, pairRows: seq<PairRow>)
    ensures Respond(body, catalog, pairRows).BadInput? <==> body.NotAnArray? || |body.items| < 2
  {
  }

  /**
   * A store fault comes exactly from an array of at least two elements none
   * of which is a string with a non-trimmable character, such as `["", " "]`
   * or `[1, 2]`: the name lookup is then sent an empty list.
   */
  lemma BlankListFaults(body: Body, catalog: seq<MedRow>, pairRows: seq<PairRow>)
    ensures Respond(body, catalog, pairRows).StoreFault? <==>
      && body.MedsArray? && |body.items| >= 2
      && forall k :: 0 <= k < |body.items| && body.items[k].Str? ==> AllTrimmable(body.items[k].s)
  {
    if body.MedsArray? {
      NormalizeEmpty(body.items);
    }
  }

  /**
   * `missing` (in the too-few error and in a success) holds exactly the
   * requested names that no catalog row carries, each as often as requested.
   */
  lemma MissingIsTheUnknownNames(body: Body, catalog: seq<MedRow>, pairRows: seq<PairRow>)
    ensures var o := Respond(body, catalog, pairRows);
      var missing := if o.TooFewKnown? then o.missing else if o.Ok? then o.response.missing else [];
      (o.TooFewKnown? || o.Ok?) ==>
        forall n :: multiset(missing)[n] == if n in NamesOf(catalog) then 0 else multiset(Normalize(body.items))[n]
  {
    var o := Respond(body, catalog, pairRows);
    if o.TooFewKnown? || o.Ok? {
      var names := Normalize(body.items);
      var found := Found(catalog, names);
      var missing := Missing(names, NamesOf(found));
      assert o == Resolve(names, found, pairRows);
      assert (if o.TooFewKnown? then o.missing else o.response.missing) == missing;
      forall n ensures multiset(missing)[n] == if n in NamesOf(catalog) then 0 else multiset(names)[n] {
        MissingCounts(names, NamesOf(found), n);
        FoundNamesAreKnown(catalog, names, n);
      }
    }
  }

  /**
   * With a well-formed catalog, the too-few error is answered exactly when
   * fewer than two DISTINCT known names survive normalisation (a blank list
   * aside, which faults): repeating a name does not make it count twice.
   */
  lemma TooFewKnownNames(body: Body, catalog: seq<MedRow>, pairRows: seq<PairRow>)
    requires WellFormed(catalog)
    requires body.MedsArray? && |body.items| >= 2 && Normalize(body.items) != []
    ensures Respond(body, catalog, pairRows).TooFewKnown? <==> |KnownNames(catalog, Normalize(body.items))| < 2
  {
    FoundCountsDistinctKnownNames(catalog, Normalize(body.items));
  }

  /** The interaction query's join: each row carries the catalog names of its two endpoints. */
  predicate Joined(catalog: seq<MedRow>, pairRows: seq<PairRow>) {
    forall r :: r in pairRows ==> MedRow(r.medA, r.medAName) in catalog && MedRow(r.medB, r.medBName) in catalog
  }

  lemma ResolvedEndpoint(catalog: seq<MedRow>, names: seq<string>, id: int, name: string)
    requires WellFormed(catalog) && MedRow(id, name) in catalog
    requires id in IdsOf(Found(catalog, names))
    ensures MedRow(id, name) in Found(catalog, names)
    ensures name in names && name in NamesOf(Found(catalog, names))
  {
    var found := Found(catalog, names);
    var k :| 0 <= k < |found| && found[k].id == id;
    WellFormedKeys(catalog, found[k], MedRow(id, name));
    assert NamesOf(found)[k] == name;
  }

  /** The store's own invariant: at most one row per unordered pair of medications. */
  predicate OnePerPair(rows: seq<PairRow>) {
    forall i, j :: 0 <= i < j < |rows| ==> {rows[i].medA, rows[i].medB} != {rows[j].medA, rows[j].medB}
  }

  /** No two entries name the same unordered pair of medications. */
  predicate DistinctPairs(es: seq<Interaction>) {
    forall i, j :: 0 <= i < j < |es| ==> {es[i].medA, es[i].medB} != {es[j].medA, es[j].medB}
  }

  /** Joined rows naming the same unordered pair of medications join the same unordered pair of ids. */
  lemma SameNamesSameIds(catalog: seq<MedRow>, r: PairRow, s: PairRow)
    requires WellFormed(catalog) && Joined(catalog, [r, s])
    requires {r.medAName, r.medBName} == {s.medAName, s.medBName}
    ensures {r.medA, r.medB} == {s.medA, s.medB}
  {
    assert r in [r, s] && s in [r, s];
    var ra, rb, sa, sb := MedRow(r.medA, r.medAName), MedRow(r.medB, r.medBName), MedRow(s.medA, s.medAName), MedRow(s.medB, s.medBName);
    WellFormedKeys(catalog, ra, sa);
    WellFormedKeys(catalog, ra, sb);
    WellFormedKeys(catalog, rb, sa);
    WellFormedKeys(catalog, rb, sb);
    assert r.medAName in {s.medAName, s.medBName} && r.medBName in {s.medAName, s.medBName};
    assert s.medAName in {r.medAName, r.medBName} && s.medBName in {r.medAName, r.medBName};
  }

  /**
   * The loop collapses nothing, but when the store keeps its own invariant
   * (one row per unordered pair) and joins the catalog names, each unordered
   * pair of medications is reported at most once.
   */
  lemma {:induction false} OnePerPairReported(catalog: seq<MedRow>, ids: seq<int>, rows: seq<PairRow>)
    requires WellFormed(catalog) && Joined(catalog, rows) && OnePerPair(rows)
    ensures DistinctPairs(Kept(ids, rows))
    decreases |rows|
  {
    if rows != [] {
      var init, last := rows[..|rows| - 1], rows[|rows| - 1];
      assert forall k :: 0 <= k < |init| ==> init[k] == rows[k];
      assert forall r :: r in init ==> r in rows;
      OnePerPairReported(catalog, ids, init);
      var kept := Kept(ids, init);
      if Keeps(ids, last) {
        forall i | 0 <= i < |kept|
          ensures {kept[i].medA, kept[i].medB} != {last.medAName, last.medBName}
        {
          KeptMembership(ids, init, kept[i]);
          var k :| 0 <= k < |init| && Keeps(ids, init[k]) && Report(init[k]) == kept[i];
          assert rows[k] in rows && last in rows;
          if {kept[i].medA, kept[i].medB} == {last.medAName, last.medBName} {
            SameNamesSameIds(catalog, rows[k], last);
            assert false;
          }
        }
      }
    }
  }

  /**
   * On success, with a well-formed catalog and a joined store, each reported
   * interaction names two different requested medications, neither of them
   * missing: unknown names never reach `interactions`.
   */
  lemma ReportedNamesAreResolved(body: Body, catalog: seq<MedRow>, pairRows: seq<PairRow>, e: Interaction)
    requires WellFormed(catalog) && Joined(catalog, pairRows)
    requires Respond(body, catalog, pairRows).Ok?
    requires e in Respond(body, catalog, pairRows).response.interactions
    ensures var resp := Respond(body, catalog, pairRows).response;
      && e.medA in resp.requested && e.medA !in resp.missing
      && e.medB in resp.requested && e.medB !in resp.missing
      && e.medA != e.medB
  {
    var names := Normalize(body.items);
    var ids := IdsOf(Found(catalog, names));
    KeptMembership(ids, pairRows, e);
    var k :| 0 <= k < |pairRows| && Keeps(ids, pairRows[k]) && Report(pairRows[k]) == e;
    var r := pairRows[k];
    assert r in pairRows;
    ResolvedEndpoint(catalog, names, r.medA, r.medAName);
    ResolvedEndpoint(catalog, names, r.medB, r.medBName);
    WellFormedKeys(catalog, MedRow(r.medA, r.medAName), MedRow(r.medB, r.medBName));
  }

  /** On success `overall_severity` is the largest kept level with its text, or null when no kept level is positive. */
  lemma OverallIsLargestLevel(body: Body, catalog: seq<MedRow>, pairRows: seq<PairRow>)
    requires Respond(body, catalog, pairRows).Ok?
    ensures var ids := IdsOf(Found(catalog, Normalize(body.items)));
      var o := Respond(body, catalog, pairRows).response.overallSeverity;
      && (o.None? <==> forall k :: 0 <= k < |pairRows| && Keeps(ids, pairRows[k]) ==> pairRows[k].severityLevel <= 0)
      && (o.Some? ==>
            (forall k :: 0 <= k < |pairRows| && Keeps(ids, pairRows[k]) ==> pairRows[k].severityLevel <= o.value.level)
            && (exists k :: 0 <= k < |pairRows| && Keeps(ids, pairRows[k]) && pairRows[k].severityLevel == o.value.level)
            && o.value.text == LevelText(o.value.level))
  {
    OverallReflectsKeptRows(IdsOf(Found(catalog, Normalize(body.items))), pairRows);
  }

  // Worked requests, for any names that trim to themselves.

  lemma NormalizePair(x: Raw, y: Raw)
    ensures Normalize([x, y]) == Contribution(x) + Contribution(y)
  {
    assert [x, y] == [x] + [y];
    NormalizeAppend([x], [y]);
    NormalizeOne(x);
    NormalizeOne(y);
  }

  /** With one known name `a` requested (any number of times), the too-few error follows with nothing missing. */
  lemma OneKnownNameIsTooFew(names: seq<string>, a: string, catalog: seq<MedRow>, pairRows: seq<PairRow>)
    requires names != [] && forall k :: 0 <= k < |names| ==> names[k] == a
    requires WellFormed(catalog) && a in NamesOf(catalog)
    ensures Resolve(names, Found(catalog, names), pairRows) == TooFewKnown([])
  {
    var found := Found(catalog, names);
    FoundCountsDistinctKnownNames(catalog, names);
    assert KnownNames(catalog, names) == {a} by {
      assert names[0] == a;
    }
    FoundNamesAreKnown(catalog, names, a);
    NothingMissing(names, NamesOf(found));
  }

  /**
   * A blank entry and one known name, such as `["  ", "Aspirin"]`: two raw
   * elements pass the guard, one name survives normalisation, and the
   * too-few error follows with nothing missing.
   */
  lemma BlankEntryPassesGuard(blank: string, a: string, catalog: seq<MedRow>, pairRows: seq<PairRow>)
    requires AllTrimmable(blank)
    requires a != [] && Trimmed(a)
    requires WellFormed(catalog) && a in NamesOf(catalog)
    ensures Respond(MedsArray([Str(blank), Str(a)]), catalog, pairRows) == TooFewKnown([])
  {
    assert Normalize([Str(blank), Str(a)]) == [a] by {
      TrimEmpty(blank);
      NameContributesItself(a);
      NormalizePair(Str(blank), Str(a));
    }
    OneKnownNameIsTooFew([a], a, catalog, pairRows);
  }

  /** The same known name twice, such as `["Aspirin", "Aspirin"]`, is one catalog row: too few. */
  lemma RepeatedNameIsOneMedication(a: string, catalog: seq<MedRow>, pairRows: seq<PairRow>)
    requires a != [] && Trimmed(a)
    requires WellFormed(catalog) && a in NamesOf(catalog)
    ensures Respond(MedsArray([Str(a), Str(a)]), catalog, pairRows) == TooFewKnown([])
  {
    assert [Str(a), Str(a)] == AsRaw([a, a]);
    CleanRequestResolves([a, a], catalog, pairRows);
    OneKnownNameIsTooFew([a, a], a, catalog, pairRows);
  }

  /** With a known `a` and an unknown `b` requested, the too-few error follows with `b` missing. */
  lemma KnownAndUnknownIsTooFew(a: string, b: string, catalog: seq<MedRow>, pairRows: seq<PairRow>)
    requires WellFormed(catalog) && a in NamesOf(catalog) && b !in NamesOf(catalog)
    ensures Resolve([a, b], Found(catalog, [a, b]), pairRows) == TooFewKnown([b])
  {
    var names := [a, b];
    var found := Found(catalog, names);
    assert |found| < 2 by {
      FoundCountsDistinctKnownNames(catalog, names);
      assert KnownNames(catalog, names) == {a};
    }
    assert Missing(names, NamesOf(found)) == [b] by {
      FoundNamesAreKnown(catalog, names, a);
      FoundNamesAreKnown(catalog, names, b);
      assert names[1..] == [b] && names[1..][1..] == [];
    }
  }

  /** A known and an unknown name, such as `["Aspirin", "Warfarin"]` with no Warfarin row: the unknown one is missing. */
  lemma UnknownSecondName(a: string, b: string, catalog: seq<MedRow>, pairRows: seq<PairRow>)
    requires a != [] && Trimmed(a) && b != [] && Trimmed(b)
    requires WellFormed(catalog) && a in NamesOf(catalog) && b !in NamesOf(catalog)
    ensures Respond(MedsArray([Str(a), Str(b)]), catalog, pairRows) == TooFewKnown([b])
  {
    assert [Str(a), Str(b)] == AsRaw([a, b]);
    CleanRequestResolves([a, b], catalog, pairRows);
    KnownAndUnknownIsTooFew(a, b, catalog, pairRows);
  }

  /** A request of at least two clean names goes straight to the name lookup with exactly those names. */
  lemma CleanRequestResolves(names: seq<string>, catalog: seq<MedRow>, pairRows: seq<PairRow>)
    requires |names| >= 2
    requires forall k :: 0 <= k < |names| ==> names[k] != [] && Trimmed(names[k])
    ensures Respond(MedsArray(AsRaw(names)), catalog, pairRows) == Resolve(names, Found(catalog, names), pairRows)
  {
    NormalizeClean(names);
  }

  /** The answer for three resolved medications once the lookup has returned the whole catalog. */
  lemma ThreeMedicationsResolved(a: string, b: string, c: string, catalog: seq<MedRow>, pairRows: seq<PairRow>)
    requires catalog == [MedRow(1, a), MedRow(2, b), MedRow(3, c)]
    requires pairRows == [PairRow(1, 2, a, b, 3, "Severe", None, None), PairRow(2, 3, b, c, 1, "Low", None, None)]
    ensures var o := Resolve([a, b, c], catalog, pairRows);
      && o.Ok?
      && o.response.requested == [a, b, c]
      && o.response.missing == []
      && o.response.interactions == [Report(pairRows[0]), Report(pairRows[1])]
      && o.response.overallSeverity == Some(Overall(3, Some("Severe")))
  {
    var names := [a, b, c];
    assert Missing(names, NamesOf(catalog)) == [] by {
      assert NamesOf(catalog) == names;
      NothingMissing(names, names);
    }
    var ids := IdsOf(catalog);
    assert ids == [1, 2, 3];
    assert Kept(ids, pairRows) == [Report(pairRows[0]), Report(pairRows[1])] by {
      KeptEveryRow(ids, pairRows);
    }
    assert MaxLevel(ids, pairRows) == 3 by {
      assert pairRows[..1] == [pairRows[0]] && [pairRows[0]][..0] == [];
    }
  }

  /**
   * Three known medications with interactions stored for (a, b) at level 3
   * and (b, c) at level 1, as for Aspirin, Warfarin and Ibuprofen: both are
   * reported, in retrieval order, and the overall severity is 3, "Severe".
   */
  lemma ThreeMedications(a: string, b: string, c: string, catalog: seq<MedRow>, pairRows: seq<PairRow>)
    requires a != [] && Trimmed(a) && b != [] && Trimmed(b) && c != [] && Trimmed(c)
    requires catalog == [MedRow(1, a), MedRow(2, b), MedRow(3, c)]
    requires pairRows == [PairRow(1, 2, a, b, 3, "Severe", None, None), PairRow(2, 3, b, c, 1, "Low", None, None)]
    ensures var o := Respond(MedsArray([Str(a), Str(b), Str(c)]), catalog, pairRows);
      && o.Ok?
      && o.response.requested == [a, b, c]
      && o.response.missing == []
      && o.response.interactions == [Report(pairRows[0]), Report(pairRows[1])]
      && o.response.overallSeverity == Some(Overall(3, Some("Severe")))
  {
    var names := [a, b, c];
    assert [Str(a), Str(b), Str(c)] == AsRaw(names);
    CleanRequestResolves(names, catalog, pairRows);
    FoundWholeCatalog(catalog, names);
    ThreeMedicationsResolved(a, b, c, catalog, pairRows);
  }
}
