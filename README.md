# RedHat OVAL store: refresh and lookups

This project models the RedHat part of goval-dictionary's advisory store
(`db/redhat.go`). It models three operations and proves properties about them.

- **InsertOval** refreshes the dataset of one OS family and version from a
  parsed OVAL file. It skips the work when the stored fetch stamp for the
  same file has the same timestamp. Otherwise it deletes the old root's
  subtree leaf-first inside a transaction, inserts the new aggregate and
  commits. A failing delete or insert rolls the transaction back and
  returns its error. A failing commit returns its error without a rollback.
  The errors of the stamp, root, definitions and advisory reads are ignored,
  and the refresh goes on with what each read left behind.
- **GetByPackName** and **GetByCveID** find the definitions that mention a
  package name or a CVE id. They follow parent links up to the root, keep
  the definitions whose root is RedHat at the requested major version, and
  hydrate each kept definition with its advisory, cves, bugzillas, cpes,
  packages and references.
- **filterByMajor** narrows a definition's packages to those whose version
  carries `.el<major>`.

The store is nine tables of rows (`Store.Tables`), each row holding its id and
its parent's id. Exact-match lookups are `Store.Where` and `Store.First`, and
deletes are `Store.Without`. The handle is the class `RedHatDb.RedHat`:

- `db` holds the committed tables.
- `nextId` is the id the store hands out next.
- `leakedTxs` counts transactions that were begun and never ended.

A transaction is a snapshot of `db`, put back on rollback. The two reads the
source issues through the connection rather than the transaction (the old
definitions and each one's advisory) read that snapshot. Every table lists
its rows in rising id order (`Store.Ordered`), the order ids are handed out
in, so the first matching row of a table is also the one with the lowest id.
The counter starts at 1, so no row has id 0 (`Refresh.NonzeroIds`).
`Refresh.StoreInvariant` collects these facts, and `RedHatDb.RedHat.Valid`
is that invariant.

Two oracles stand in for the database's behaviour:

- `fails: Step -> bool` says which delete, the insert or the commit returns
  an error.
- `rd: Refresh.Reads` gives the outcome of the four reads in InsertOval
  whose errors are ignored:
  - `stampFails`: the stamp lookup fails other than by finding no row. The
    zero stamp is then compared, so the refresh is skipped exactly when the
    new timestamp is the zero time.
  - `rootFails`: the lookup of the root to supersede fails the same way. The
    zero root is then torn down, and its id is 0.
  - `definitionsFail`: the read of the old root's definitions fails. The
    loop then has no definitions to visit.
  - `advisoryHit(i)`: the advisory lookup of the i-th old definition finds
    its row. That lookup names the relation "Avisory" and ignores its error,
    so a miss leaves the advisory id at 0.

The module layout:

- `models.dfy` holds the rows and the trees.
- `store.dfy` holds the table operations.
- `refresh.dfy` is what a refresh does to the tables.
- `query.dfy` is what a lookup returns.
- `major_filter.dfy` is the package filter.
- `redhat.dfy` holds the imperative handle. Each of its methods is proved
  against the functions of the other modules.

## Model

| member | source | states |
|---|---|---|
| `MajorFilter.FilterByMajor` | db/redhat.go:235-242 | the loop returns the packages whose version contains ".el" + majorVer, in input order, and exactly those |
| `MajorFilter.KeepMajor` | db/redhat.go:235-242 | the filtered list is no longer than the input, and each of its packages is an input package whose version carries ".el" + majorVer |
| `MajorFilter.KeepMajorMembers` | db/redhat.go:236-240 | a package is in the filtered list iff it is in the input and its version carries the tag |
| `MajorFilter.KeepMajorIsSubsequence` | db/redhat.go:236-240 | the filtered list is an order-preserving subsequence of the input, hence no longer |
| `MajorFilter.KeepMajorAppend` | db/redhat.go:236-240 | the filter works package by package: filtering a concatenation concatenates the results |
| `MajorFilter.KeepMajorIdempotent` | db/redhat.go:235-242 | filtering twice by the same major version equals filtering once |
| `MajorFilter.KeepMajorExample` | db/redhat.go:237 | for major "7", version "1.0.el7" is kept and "2.0.el8" dropped |
| `Store.Where` | db/redhat.go:101 | an exact-match lookup returns exactly the rows whose column equals the value, never more rows than the table |
| `Store.First` | db/redhat.go:34 | a single-row lookup finds nothing iff no row matches; a row it finds is in the table and matches |
| `Store.FirstIsEarliest` | db/redhat.go:34 | no row before the one a single-row lookup returns matches: it is the first match in table order |
| `Store.IncreasingUnique` | db/redhat.go:42 | in a table kept in rising id order no two rows share an id |
| `Store.FirstIsLowest` | db/redhat.go:42 | in a table kept in rising id order, a single-row lookup returns the matching row with the lowest id, as a lookup ordered by primary key does |
| `Store.Without` | db/redhat.go:75 | a delete keeps exactly the rows whose column is not among the deleted values |
| `Store.WithoutWithout` | db/redhat.go:50-73 | two successive deletes on a table equal one delete of the union of their values, the order of the rest kept |
| `Store.WithoutIncreasing` | db/redhat.go:50-82 | a delete keeps a table in rising id order |
| `RedHatDb.RedHat.InsertOval` | db/redhat.go:30-95 | skip when the stored stamp is current: no table changes and one more open transaction; a failing delete, insert or commit returns its error with the store as it was; otherwise the tables become `Refreshed` and the id counter advances past the new rows; the store invariant is kept: ids stay below the counter, none is 0, and they rise in every table; one root per family and version is kept unless the root lookup failed |
| `RedHatDb.RedHat.StampIsCurrent` | db/redhat.go:32-35 | the skip test's outcome on the current tables is `Refresh.IsCurrent` |
| `RedHatDb.RedHat.FindOldRoot` | db/redhat.go:40-43 | the root lookup's outcome on the current tables is `Refresh.OldRootId` |
| `RedHatDb.RedHat.CreateAndCommit` | db/redhat.go:85-94 | a failing insert or commit returns its error with the tables back at the snapshot and the counter unchanged; otherwise the stamped aggregate is appended and the counter advances past it |
| `RedHatDb.RedHat.DeleteSubtree` | db/redhat.go:44-82 | the delete phase succeeds iff none of its deletes fails, and then leaves the tables as `Teardown` describes |
| `RedHatDb.RedHat.DeleteDefinitionRows` | db/redhat.go:50-73 | the six deletes of one old definition succeed iff none of them fails, and then remove its advisory's cves, bugzillas and cpes and its own advisories, packages and references |
| `RedHatDb.RedHat.GetByPackName` | db/redhat.go:98-162 | the result is the package-name lookup of the current tables: chains resolved, filtered by scope and hydrated, or NotFound |
| `RedHatDb.RedHat.PackageCandidates` | db/redhat.go:106-120 | the first loop fails, with NotFound, iff some package's chain is broken, and otherwise yields the in-scope definitions of `Query.Candidates` |
| `RedHatDb.RedHat.GetByCveID` | db/redhat.go:165-233 | the result is the CVE-id lookup of the current tables, under the same rule |
| `RedHatDb.RedHat.CveCandidates` | db/redhat.go:173-191 | the first loop fails, with NotFound, iff some cve row's chain is broken, and otherwise yields the in-scope definitions of `Query.Candidates` |
| `RedHatDb.RedHat.ResolveDefinition` | db/redhat.go:107-115 | the definition with the given id and its root, or nothing when either lookup finds no row |
| `RedHatDb.RedHat.ResolveCve` | db/redhat.go:174-186 | a cve row's advisory, then its definition and root, or nothing when any of the three lookups finds no row |
| `RedHatDb.RedHat.HydrateDefinitions` | db/redhat.go:122-159 | every definition is hydrated in place, or NotFound as soon as one has no advisory |
| `RedHatDb.RefreshedHydrates` | db/redhat.go:85-159 | after a committed refresh, each newly stored definition hydrates to its stored tree with packages narrowed by major version, and that tree has the ingested definition's content |
| `Query.Chain` | db/redhat.go:107-115 | a resolved chain is a stored definition with the requested id and the stored root its root id names |
| `Query.ChainResolves` | db/redhat.go:107-115 | a stored definition whose root is stored resolves to exactly that definition and root |
| `Query.CveChainResolves` | db/redhat.go:174-186 | a cve row whose advisory, definition and root are stored resolves to exactly that definition and root |
| `Query.Scoped` | db/redhat.go:117-119 | the scope filter keeps at most one definition per chain |
| `Query.Candidates` | db/redhat.go:106-120 | the first loop fails iff some chain is broken, and the failure is NotFound |
| `Query.Hydrate` | db/redhat.go:122-159 | hydration fails, with NotFound, iff no advisory names the definition; on success it keeps the definition row and attaches a stored advisory of that definition |
| `Query.HydrateAllPointwise` | db/redhat.go:122-161 | a list that agrees with single-definition hydration at every position is the hydrated result |
| `Query.ScopedAppend` | db/redhat.go:106-120 | the scope filter works row by row, keeping discovery order |
| `Query.ScopedMembers` | db/redhat.go:117-119 | a definition is kept iff some row's chain reaches it through a RedHat root of the requested major version |
| `Query.ScopedKeepsDuplicates` | db/redhat.go:106-120 | two rows leading to the same in-scope definition yield it twice: no de-duplication |
| `Query.LookupAllOrNothing` | db/redhat.go:98-162 | a lookup fails iff some row's chain is broken or some kept definition has no advisory; on success it returns one hydrated entry per kept definition |
| `Query.LookupRows` | db/redhat.go:122-161 | hydration keeps each result's definition row and the order of the kept definitions |
| `Query.HydrateFields` | db/redhat.go:122-159 | a hydrated definition holds a stored advisory of that definition, all of that advisory's cves, bugzillas and cpes, exactly its packages of the requested major version, and all its references; hydration fails iff the definition has no advisory |
| `Query.PackNameQuerySound` | db/redhat.go:98-120 | every definition returned by package name is stored, has a package of that name, and has a RedHat root whose major version is the requested one |
| `Query.PackNameQueryComplete` | db/redhat.go:100-120 | every package of that name whose chain reaches an in-scope root contributes its definition to a successful result |
| `Query.PackNameQueryBroken` | db/redhat.go:106-116 | one package of that name with a broken chain makes the whole lookup fail: never a partial list |
| `Query.CveIdQuerySound` | db/redhat.go:165-191 | every definition returned by CVE id is stored, has an advisory listing that CVE, and has a RedHat root whose major version is the requested one |
| `Query.CveIdQueryComplete` | db/redhat.go:167-191 | every cve row of that id whose chain reaches an in-scope root contributes its definition to a successful result |
| `Query.CveIdQueryBroken` | db/redhat.go:173-187 | one cve row of that id with a broken chain makes the whole lookup fail |
| `Refresh.IsCurrent` | db/redhat.go:33-35 | when the stamp lookup succeeds, a refresh is skipped only if a stored stamp of the same file has the new timestamp, and never when no stamp of that file is stored; when it fails otherwise, the refresh is skipped iff the new timestamp is the zero time |
| `Refresh.IsCurrentIffStampMatches` | db/redhat.go:33-35 | when the stamp lookup succeeds on a table in rising id order, the refresh is skipped iff the file's stored stamp with the lowest id has the new timestamp |
| `Refresh.OldRootId` | db/redhat.go:41-43 | when the root lookup succeeds, there is a root to supersede iff a stored root has the new root's family and OS version, and its id is that root's; when it fails otherwise, the id is 0 |
| `Refresh.OldDefinitions` | db/redhat.go:45-46 | the definitions read are stored definitions of the old root; all of them when the read succeeds, none when it fails |
| `Refresh.AdvisoryLookup` | db/redhat.go:48-49 | a non-zero looked-up advisory id is that of a stored advisory of the definition, found by a lookup that resolved; a resolved lookup for a definition with an advisory yields the id of one of its stored advisories, and for a definition without one yields 0 |
| `Refresh.PurgeDefinition` | db/redhat.go:50-73 | the six deletes of one old definition remove exactly the cves, bugzillas and cpes of the looked-up advisory id and the advisories, packages and references of the definition; stamps, roots and definitions untouched |
| `Refresh.Teardown` | db/redhat.go:44-82 | the delete phase removes exactly the roots with the old id and the definitions with that root id; stamps untouched |
| `Refresh.StampDefinition` | db/redhat.go:85 | an inserted definition takes the next id and the new root's id, its advisory the id after it and the definition's id, and everything else in it is kept |
| `Refresh.Insert` | db/redhat.go:85 | the insert adds exactly the aggregate's rows to each table; stamps untouched |
| `Refresh.PurgeAllRows` | db/redhat.go:47-74 | the loop's deletes, taken together, remove the cves, bugzillas and cpes of every looked-up advisory id and the advisories, packages and references of every old definition, nothing else |
| `Refresh.TeardownRows` | db/redhat.go:41-83 | the delete phase removes exactly the old root, its definitions, their advisories, packages and references, and the cves, bugzillas and cpes of the looked-up advisory ids; stamps untouched |
| `Refresh.SupersededRows` | db/redhat.go:41-83 | the same, whether or not an old root exists: with no old root nothing is deleted |
| `Refresh.RefreshedRows` | db/redhat.go:30-95 | after a committed refresh each table holds exactly the old rows the deletes spared plus the new aggregate's rows; the FetchMeta table is never written |
| `Refresh.RefreshedOldRows` | db/redhat.go:41-89 | an old row survives a committed refresh iff no delete targets it |
| `Refresh.OtherRootNotSuperseded` | db/redhat.go:41-43 | a stored root of another family or OS version is never the root a refresh supersedes, even when the root lookup fails and id 0 is torn down |
| `Refresh.KeptDefinitionNotVisited` | db/redhat.go:45-47 | a definition whose root is not superseded is never visited by the delete loop |
| `Refresh.KeptAdvisoryNotLookedUp` | db/redhat.go:48-61 | the advisory of a definition the loop does not visit never has its id looked up, so its cves, bugzillas and cpes are not deleted |
| `Refresh.RefreshedKeepsOtherRoots` | db/redhat.go:41-89 | a committed refresh keeps the root of every other family and OS version, its definitions, and their advisories, packages and references |
| `Refresh.RefreshedKeepsOtherAdvisoryChildren` | db/redhat.go:41-89 | a committed refresh keeps the cves, bugzillas and cpes of every other family's and OS version's advisories |
| `Refresh.VisitedAdvisoryLookedUp` | db/redhat.go:47-61 | with every advisory lookup finding its row and one advisory per definition, the advisory of a visited definition has its cves, bugzillas and cpes deleted |
| `Refresh.RefreshedLinksDefinitions` | db/redhat.go:45-89 | with the definitions read in full, a committed refresh keeps every definition's root and every advisory's, package's and reference's definition stored |
| `Refresh.RefreshedLinksAdvisories` | db/redhat.go:45-89 | with the definitions read in full, every advisory lookup finding its row and one advisory per definition, a committed refresh keeps every cve's, bugzilla's and cpe's advisory stored |
| `Refresh.RefreshedLinked` | db/redhat.go:43-89 | under the same reads, a committed refresh on a store without orphans leaves none: every stored row's parent is stored |
| `Refresh.StampedAdvisoryFollowsDefinition` | db/redhat.go:85 | the insert writes each advisory with the id right after its definition's, so one advisory per new definition |
| `Refresh.OneAdvisoryAfterInsert` | db/redhat.go:85 | old advisories unique per definition and below the counter, joined with new ones whose definitions lie at or above it and that follow their definition by one, stay unique per definition |
| `Refresh.RefreshedOneAdvisory` | db/redhat.go:41-89 | a committed refresh of a store with at most one advisory per definition keeps that so, whatever the reads return |
| `Refresh.RefreshedStaysLinked` | db/redhat.go:43-89 | under the same reads, both hypotheses of `Refresh.RefreshedLinked` hold again after the refresh, so the no-orphans guarantee carries from one refresh to the next |
| `Refresh.StampedLinkedToDefinitions` | db/redhat.go:85 | every advisory, package and reference the insert writes belongs to a definition the same insert writes |
| `Refresh.StampedLinkedToAdvisories` | db/redhat.go:85 | every cve, bugzilla and cpe the insert writes belongs to an advisory the same insert writes |
| `Refresh.RefreshedDropsOldAggregate` | db/redhat.go:62-82 | after a committed refresh no root has the old root's id and no definition its root id, and no advisory, package or reference belongs to an old definition |
| `Refresh.TeardownDrops` | db/redhat.go:62-82 | the delete phase itself leaves no row of the old aggregate except cves, bugzillas and cpes |
| `Refresh.RefreshedReplacesRoot` | db/redhat.go:41-89 | after a committed refresh whose root lookup succeeded, the new root is the only one with its family and version, and roots keep distinct keys |
| `Refresh.FailedRootReadKeepsOldRoot` | db/redhat.go:41-43 | when the root lookup fails other than by finding no row, the stored root of that family and version survives next to the new one, so two roots share the key |
| `Refresh.FailedDefinitionsReadOrphans` | db/redhat.go:45-74 | when the read of the old definitions fails, every old advisory, cve, bugzilla, cpe, package and reference survives the refresh |
| `Refresh.MissedLookupsOrphanCves` | db/redhat.go:48-65 | when the advisory lookups miss, an old advisory is deleted while its cves survive, orphaned |
| `Refresh.MissedLookupsDeleteByZero` | db/redhat.go:48-61 | when the advisory lookups miss, the cve, bugzilla and cpe deletes only name advisory id 0 |
| `Refresh.HitLookupRemovesCves` | db/redhat.go:48-53 | when the lookup of an old definition's advisory finds it, that advisory's cves are gone |
| `Refresh.RefreshedInvariant` | db/redhat.go:41-89 | a committed refresh keeps the store invariant (counter at least 1, ids below it, no id 0, every table rising) with the counter advanced past the new rows |
| `Refresh.RefreshedNonzeroIds` | db/redhat.go:41-89 | a committed refresh stores no row with id 0 |
| `Refresh.SupersededNonzeroIds` | db/redhat.go:44-82 | the delete phase adds no row, so none with id 0 |
| `Refresh.InsertNonzeroIds` | db/redhat.go:85 | the insert hands out ids from a counter of at least 1, never 0 |
| `Refresh.RefreshedBounded` | db/redhat.go:41-89 | a committed refresh keeps every id and parent id below the advanced counter |
| `Refresh.SupersededBounded` | db/redhat.go:43-83 | deletes never introduce an id |
| `Refresh.InsertBounded` | db/redhat.go:85 | inserting the aggregate with ids from the counter keeps all ids below the advanced counter |
| `Refresh.RefreshedOrdered` | db/redhat.go:41-89 | a committed refresh keeps every table in rising id order |
| `Refresh.SupersededOrdered` | db/redhat.go:44-82 | the delete phase keeps every table in rising id order |
| `Refresh.InsertOrdered` | db/redhat.go:85 | appending the aggregate, its ids from the counter, to tables whose ids lie below it keeps every table in rising id order |
| `Refresh.StampDefinitionsOrdered` | db/redhat.go:85 | the insert hands ids out in the order it writes the rows, so every table of the aggregate rises |
| `Refresh.StampDefinitionsWithin` | db/redhat.go:85 | the insert hands out the aggregate's ids from the counter upwards, within its size, and links each definition to the new root |
| `Refresh.StampDefinitionLinks` | db/redhat.go:85 | inside one inserted definition, every child carries its parent's new id |
| `Refresh.StampedDefinitionChildren` | db/redhat.go:85 | looking up an inserted definition's advisory, packages and references by its new id returns exactly them, in order |
| `Refresh.StampedAdvisoryChildren` | db/redhat.go:85 | looking up an inserted advisory's cves, bugzillas and cpes by its new id returns exactly them, in order |
| `Refresh.StampKeepsContent` | db/redhat.go:85 | the insert changes ids only: the k-th stored definition has the content of the k-th ingested one |

## Left out

- Opening the database, `NewRedHat` and the `Base` struct (db/redhat.go:19-27): connection plumbing.
- The SQL engine. Tables are sequences in rising id order and lookups are exact matches.
- The ORM rule that drops zero-valued fields from a struct condition. Under that rule a lookup by an empty package name or CVE id (db/redhat.go:101, 168) would match every row, as would the stamp lookup for an empty file name (34) and the root lookup for an empty family or OS version (42); here each matches exactly.
- Logging (db/redhat.go:36, 39) and the text of error messages (db/redhat.go:52, 87-88). Errors are the four values of `Store.Error`.
- Transaction isolation and concurrent readers and writers. The transaction left open on the skip path is counted in `leakedTxs`; the locks it may hold are not modelled.
- Store errors other than "no row found" in GetByPackName and GetByCveID, such as a lost connection. The only failure those lookups model is a missing row. In InsertOval every read error is modelled, by `Refresh.Reads`.
- The database's own ids. One counter hands out every table's ids, in the order the insert writes the rows (root, then for each definition: the definition, its advisory, cves, bugzillas, cpes, packages, references). Per-table auto-increment is not modelled.
- A commit that returns an error is not followed by a rollback (db/redhat.go:91-93). What the database then holds is not modelled: the model leaves the committed contents as they were before the call.
- Timestamps are integers compared by equality, as at db/redhat.go:35. Go's zero time is `Refresh.ZeroTime`, 0.
- When the root lookup fails other than by finding no row, only the zero root's id, 0, is used: the definitions read at db/redhat.go:46 and the deletes at 75 and 79 name it.
- `major` is a parameter of the lookups, a total function on strings. Its body lives outside `db/redhat.go` and is not part of this model.
- The `config` and `models` packages are not part of this model. The family is an enum. Each row's payload is one opaque string, since the logic never inspects it.
- Whether the ORM resolves the misspelled relation at db/redhat.go:49 is not modelled. Its outcome is the oracle `advisoryHit` of `Refresh.Reads`.
- Lookups without an explicit order (`Related` and `Find` at db/redhat.go:49, 108, 113, 124, 175-185, 195) take the row with the lowest id, like the ordered ones. The ORM scans one struct from whatever the database returns. Ids are unique in every table, so the by-id lookups match one row at most; the advisory of a definition is the only lookup where several rows could match, and the insert stores exactly one.
- Store.First: its own contract states that the row matches; that it is the first match, and the lowest id in an ordered table, is stated by `Store.FirstIsEarliest` and `Store.FirstIsLowest`. This keeps the lookups' proofs small.
- MajorFilter.KeepMajor: its own contract states that every kept package is an input package carrying the tag; that every such input package is kept, in input order, is stated by `MajorFilter.KeepMajorMembers` and `MajorFilter.KeepMajorIsSubsequence`.
- Query.Scoped: its own contract states only a size bound; which definitions it keeps is stated by `Query.ScopedMembers` and `Query.ScopedAppend`.
- Query.Candidates: its own contract states when it fails; what it returns on success is stated by `Query.ScopedMembers` and `Query.LookupAllOrNothing`.
- RedHatDb.RedHat.DeleteDefinitionRows and RedHatDb.RedHat.DeleteSubtree: when a delete fails, the tables are left unspecified. The caller rolls the transaction back to its snapshot, which `RedHatDb.RedHat.InsertOval` states.
