# Medication interaction checker: the `POST /check-interactions` handler

The handler receives a JSON body `{ meds: [...] }` and answers in one of four ways.

1. **Raw-input guard.** It rejects the request with a 400 ("Provide an array \"meds\" with at least
   two medication names") when `meds` is not an array or has fewer than two raw elements.
2. **Normalisation.** Non-string elements become `''`, strings are trimmed as JavaScript's
   `String.prototype.trim` trims, and empty results are dropped. Order and repeats are kept.
3. **Name lookup.** The normalised names are looked up in the `medications` table. This gives the
   found rows and the `missing` names, which are the requested names no row carries.
4. **Too-few check.** When fewer than two rows are found, the handler answers 400 ("At least two
   known medications required") with `missing`.
5. **Interaction query.** Otherwise it fetches the interaction rows among the found ids.
6. **Row filter.** A loop keeps each row whose two endpoints are distinct found ids. It reports the
   row's joined names and its own columns, and it tracks the largest severity level.
7. **Overall severity.** That level becomes `overall_severity`: the level with its text from the
   table 1→Low, 2→Moderate, 3→Severe, or null when the level stayed 0.
8. **Response.** The handler answers 200 with `requested`, `missing`, `interactions` and
   `overall_severity`.

When the names are all blank, the lookup is sent an empty `IN ()` list. The database rejects it,
and the handler's catch answers 500 ("Server error").

The two store queries are parameters of the model:

- `catalog` is the medications table as a sequence of `(id, name)` rows.
- `pairRows` is whatever the interaction query returns. The store may return any rows, including
  rows outside the found ids, which is why the loop re-checks them.

The modules follow the handler's steps:

- `Normalization`: trim and the normalised list.
- `Catalog`: found rows, names, ids and `missing`.
- `Interactions`: the row loop, as the method `FilterRows`, proved against the functions `Kept`
  and `MaxLevel`.
- `Severity`: the level table and `overall_severity`.
- `Handler`: the whole handler.

The handler has two forms. `Respond` is the specification function. `CheckInteractions` is the
method, which also records the store queries it issues.

Behaviour worth noting:

- **Guard.** The guard counts raw elements, not normalised names. So `["  ", "Aspirin"]` gets the
  too-few answer, not the "Provide an array" answer. An all-blank list of two or more elements
  gets a 500.
- **Duplicates.** Duplicate or reversed interaction rows are not collapsed.
- **Order.** Interactions are reported in retrieval order, unsorted.
- **Out-of-range levels.** An out-of-range severity level is not rejected:
  - a level outside 1..3 gets no text (`undefined`);
  - kept rows whose levels are all 0 or below give a null `overall_severity`, even though
    `interactions` is not empty.
- **Repeated names.** A name requested twice matches one catalog row. So the too-few check counts
  distinct known names.

## Model

| member | source | states |
|---|---|---|
| Handler.CheckInteractions | src/app.js:57-112 | the handler's answer is `Respond`; the queries sent are exactly: none on the guard's rejection; one name lookup with the normalised names on a store fault or the too-few answer; that lookup followed by one interaction query with the found ids on success; a success echoes the normalised names |
| Handler.RawGuard | src/app.js:59-60 | the 400 "Provide an array" answer comes exactly from a non-array or an array of fewer than two raw elements |
| Handler.Status | src/app.js:60-110 | 200 exactly for a success, 400 exactly for the two client errors, 500 exactly for a store fault |
| Handler.Respond | src/app.js:57-112 | the specification of the answer: a too-few answer or a success only for an array of two or more raw elements with a non-empty normalised list, and a success echoes that list; RawGuard, BlankListFaults, TooFewKnownNames, MissingIsTheUnknownNames, ReportedNamesAreResolved and OverallIsLargestLevel characterise each outcome |
| Handler.Resolve | src/app.js:69-107 | after the lookup the answer is the too-few one or a success, a success exactly when two or more rows were found, echoing the names and carrying the `missing` partition |
| Handler.BlankListFaults | src/app.js:63-68 | among the faults the model covers, the handler answers 500 exactly when the array has two or more elements and none is a string with a non-trimmable character |
| Normalization.TrimStart | src/app.js:63 | the leading half of trim, no longer than its input; TrimStartSpec characterises it |
| Normalization.TrimEnd | src/app.js:63 | the trailing half of trim, no longer than its input; TrimEndSpec characterises it |
| Normalization.TrimStartSpec | src/app.js:63 | the result is a suffix of the input, everything dropped is trimmable, and it does not start with a trimmable character |
| Normalization.TrimEndSpec | src/app.js:63 | the result is a prefix of the input, everything dropped is trimmable, and it does not end with a trimmable character |
| Normalization.Trim | src/app.js:63 | the trimmed text is no longer than the input and has no trimmable character at either end |
| Normalization.TrimEmpty | src/app.js:63 | a string trims to empty exactly when all its characters are trimmable |
| Normalization.TrimUnique | src/app.js:63 | for a trimmable prefix, an untrimmed core and a trimmable suffix, trim returns the core |
| Normalization.TrimKeeps | src/app.js:63 | a string with no trimmable ends is left unchanged |
| Normalization.TrimIdempotent | src/app.js:63 | trimming twice is trimming once |
| Normalization.Entry | src/app.js:63 | what one element becomes before the filter: a trimmed string, and the empty string for a non-string; NormalizeOne states that a string element becomes its own trim |
| Normalization.Contribution | src/app.js:63 | one element adds at most one name to the normalised list; NormalizeOne says which |
| Normalization.Normalize | src/app.js:63 | the normalised list is no longer than the input; NormalizeMembership, NormalizeAppend, NormalizedNamesAreClean, NormalizeClean and NormalizeEmpty characterise it |
| Normalization.NormalizedNamesAreClean | src/app.js:63 | every name in the normalised list is non-empty and has no trimmable character at either end |
| Normalization.NormalizeMembership | src/app.js:63 | a name is in the normalised list exactly when it is non-empty and is the trimmed text of some string element |
| Normalization.NormalizeAppend | src/app.js:63 | normalisation works element by element: normalising a concatenation concatenates the results, so order is kept |
| Normalization.NormalizeOne | src/app.js:63 | one element contributes its trimmed text when that is non-empty, and nothing otherwise (non-strings never contribute) |
| Normalization.NormalizeClean | src/app.js:63 | a list of names that are non-empty and trimmed normalises to itself, repeats included |
| Normalization.NormalizeEmpty | src/app.js:63 | the normalised list is empty exactly when no element is a string with a non-trimmable character |
| Catalog.Found | src/app.js:66-69 | the rows returned are exactly the catalog rows whose name is requested, and there are no more of them than catalog rows |
| Catalog.FoundWellFormed | src/app.js:66-69 | in a catalog with unique ids and names, the rows found have distinct ids and distinct names |
| Catalog.FoundWholeCatalog | src/app.js:66-69 | when every catalog name is requested, the lookup returns the whole catalog |
| Catalog.FoundNamesAreKnown | src/app.js:69-70 | a name is among the found names exactly when it was requested and some catalog row carries it |
| Catalog.FoundCountsDistinctKnownNames | src/app.js:66-69 | in a well-formed catalog, the number of rows found is the number of distinct known names requested |
| Catalog.WellFormedKeys | src/app.js:77 | in a well-formed catalog an id determines its row, and so does a name |
| Catalog.NamesOf | src/app.js:70 | `foundNames` has one name per found row; NamesOfMembership and FoundNamesAreKnown say which |
| Catalog.IdsOf | src/app.js:77 | `ids` has one id per found row; IdsOfMembership says which |
| Catalog.IdsOfMembership | src/app.js:77 | an id is in `ids` exactly when some found row carries it |
| Catalog.Missing | src/app.js:71 | `missing` is no longer than the names, and each of its names was requested and not found |
| Catalog.MissingCounts | src/app.js:71 | `missing` holds each unfound name exactly as often as it was requested, and no found name |
| Catalog.MissingAppend | src/app.js:71 | `missing` keeps the requested order: the result for a concatenation is the concatenation of the results |
| Catalog.NothingMissing | src/app.js:71 | when every requested name is found, `missing` is empty |
| Catalog.NameResolvedOrMissing | src/app.js:69-71 | each requested name is either a found name or in `missing`, never both |
| Handler.MissingIsTheUnknownNames | src/app.js:71-74 | in the too-few answer and in a success, `missing` holds each requested name no catalog row carries, as often as requested, and nothing else |
| Handler.TooFewKnownNames | src/app.js:73-75 | with a well-formed catalog and a non-blank list, the too-few answer comes exactly when fewer than two distinct known names were requested |
| Interactions.MaxLevel | src/app.js:89-100 | the running level is at least 0, at least every kept row's level, and either 0 or some kept row's level |
| Interactions.Keeps | src/app.js:91 | the re-check: both endpoints among the found ids, and distinct |
| Interactions.Report | src/app.js:92-99 | the entry pushed for a kept row: the joined names and the row's level, text, explanation and alternatives |
| Interactions.Kept | src/app.js:88-99 | the reported entries are no more than the rows; KeptMembership, KeptAppend, KeptEveryRow and KeptEmpty characterise them |
| Interactions.FilterRows | src/app.js:88-102 | the loop's `interactions` are the reports of the kept rows in retrieval order, and `overallLevel` is the largest kept level, or 0 |
| Interactions.KeptMembership | src/app.js:90-99 | an entry is reported exactly when some row with both endpoints in the ids, distinct, reports it |
| Interactions.KeptAppend | src/app.js:90-99 | the rows are filtered one at a time: filtering a concatenation concatenates the results |
| Interactions.KeptEveryRow | src/app.js:90-99 | when every row passes the re-check, each row yields exactly one entry at its own position, its columns copied unchanged |
| Interactions.DuplicatesAreNotCollapsed | src/app.js:90-99 | a row stored twice and once reversed is reported three times |
| Interactions.KeptEmpty | src/app.js:90-99 | nothing is reported exactly when no row passes the re-check |
| Handler.OnePerPairReported | src/app.js:79-99 | when the store holds one row per unordered pair and joins the catalog names, no unordered pair of names is reported twice |
| Handler.SameNamesSameIds | src/app.js:79-83 | in a well-formed catalog, joined rows with the same unordered pair of names have the same unordered pair of ids |
| Handler.ReportedNamesAreResolved | src/app.js:90-107 | on success each reported interaction names two different requested medications, neither of them missing |
| Severity.LevelText | src/app.js:104 | a level has a text exactly when it is 1, 2 or 3; the text is Low exactly for 1, Moderate exactly for 2 and Severe exactly for 3 |
| Severity.OverallSeverity | src/app.js:105 | `overall_severity` is null exactly when the level is 0 or less; otherwise it carries that level and its text |
| Interactions.OverallReflectsKeptRows | src/app.js:100-105 | `overall_severity` is null exactly when no kept row has a positive level; otherwise it is the largest kept level with its text |
| Interactions.OverallWithTableLevels | src/app.js:100-105 | with every level in 1..3, `overall_severity` is null exactly when nothing is reported, and otherwise it has a text |
| Handler.OverallIsLargestLevel | src/app.js:100-107 | in a success, `overall_severity` is the largest kept level with its text, or null when no kept level is positive |
| Handler.CleanRequestResolves | src/app.js:59-71 | two or more clean names pass the guard and reach the lookup unchanged |
| Handler.OneKnownNameIsTooFew | src/app.js:73-74 | one known name, requested any number of times, gets the too-few answer with nothing missing |
| Handler.BlankEntryPassesGuard | src/app.js:59-74 | a blank element and one known name pass the guard and get the too-few answer with nothing missing |
| Handler.RepeatedNameIsOneMedication | src/app.js:59-74 | the same known name twice gets the too-few answer |
| Handler.KnownAndUnknownIsTooFew | src/app.js:69-74 | a known and an unknown name get the too-few answer with the unknown one missing |
| Handler.UnknownSecondName | src/app.js:59-74 | a request of a known then an unknown name gets the too-few answer with the unknown name missing |
| Handler.ThreeMedicationsResolved | src/app.js:77-107 | three found medications with stored pairs at levels 3 and 1: both are reported in order, nothing is missing, and the overall severity is 3, Severe |
| Handler.ThreeMedications | src/app.js:57-107 | the same three medications requested by name give that success |

## Left out

- `GET /meds` and `GET /meds/:id` (src/app.js:20-44) are plain table reads with no logic worth modelling.
- The pool setup (src/db.js), the front end and the concurrency script are not part of this model.
- The SQL text is replaced by the two parameters above:
  - the lookup's rows come in catalog order, because the query has no ORDER BY and the answer
    depends only on which rows are found, not on their order;
  - the interaction query's join is the `Joined` assumption, stated where it is used.
- Store faults are modelled only for the empty `IN ()` list. Other lookup failures answer 500 through the
  same catch (src/app.js:108-110) but are not modelled, so for them `Respond` answers too-few or success:
  - a failing connection or query (I/O);
  - a name containing the character U+0000, which the database refuses in a text parameter;
- Handler.Respond: answers a store fault only for the empty name list; the U+0000 fault
  above comes out as too-few or success, and `Handler.BlankListFaults` is "exactly" only among
  the faults the model covers.
- More names than the database accepts as query parameters cannot reach the handler: the JSON body
  parser's default size limit (src/app.js:11) refuses such a request before the handler runs.
- The Express, body-parser and CORS setup, `console.error` logging and `app.listen` are left out.
- JSON values in `meds` other than strings are all one case (`NonString`). Their only role is to
  normalise to `''`.
- A null `severity_level` in a row is not modelled: levels are integers.
- Strings are sequences of Unicode scalar values. A JSON string carrying a lone surrogate cannot be
  represented, so such requests are not modelled. Every character that `trim` removes lies in the
  Basic Multilingual Plane, so for the strings that are represented this agrees with JavaScript.
- Asynchrony, and the concurrency between requests, are left out. Each request is independent and
  only reads from the store.
