/**
 * The RedHat store handle: the database it is bound to, with the refresh
 * (InsertOval) and the two lookups (GetByPackName, GetByCveID).
 *
 * The database is the field `db`; a transaction is a snapshot of it taken at
 * Begin and put back on Rollback. Reads the source issues through the
 * connection instead of the transaction read that snapshot. Store errors,
 * and the outcome of the misspelled advisory lookup, come in as oracles.
 */
module RedHatDb {
  import opened Models
  import opened Store
  import opened Refresh
  import opened Query
  import opened MajorFilter

  class RedHat {
    /** The committed contents of the database. */
    var db: Tables
    /** The next id the store hands out on insert. */
    var nextId: nat
    /** Transactions begun and neither committed nor rolled back. */
    var leakedTxs: nat

    /** Every stored id was handed out by the counter, none is 0, and every table lists its rows in rising id order. */
    ghost predicate Valid()
      reads this
    {
      StoreInvariant(db, nextId)
    }

    /**
     * A handle on an opened database holding `tables`, whose ids are all
     * below `next` and rise in each table's order.
     */
    constructor (tables: Tables, next: nat)
      requires StoreInvariant(tables, next)
      ensures Valid()
      ensures db == tables && nextId == next && leakedTxs == 0
    {
      db, nextId, leakedTxs := tables, next, 0;
    }

    /**
     * Replace the stored dataset for `root`'s family and OS version by `root`,
     * unless the stamp stored for `meta`'s file has the same timestamp.
     * `rd` gives the outcome of the reads whose errors are ignored;
     * `fails(s)` says whether step `s` gets an error from the store.
     */
    method InsertOval(root: RootTree, meta: FetchMeta, rd: Reads, fails: Step -> bool)
      returns (err: Option<Error>)
      requires Valid()
      modifies this
      ensures Valid()
      // One root per family and OS version is kept, unless the root lookup failed.
      ensures UniqueRootKeys(old(db)) && !rd.rootFails ==> UniqueRootKeys(db)
      // Skip: nothing is written, and the transaction is left open.
      ensures IsCurrent(old(db), meta, rd) ==>
                err == None && db == old(db) && nextId == old(nextId) && leakedTxs == old(leakedTxs) + 1
      ensures !IsCurrent(old(db), meta, rd) ==> leakedTxs == old(leakedTxs)
      // Any failing delete, the insert or the commit: an error, and the store as it was.
      ensures !IsCurrent(old(db), meta, rd) && DeleteFails(old(db), root, rd, fails) ==>
                err == Some(DeleteFailed) && db == old(db) && nextId == old(nextId)
      ensures !IsCurrent(old(db), meta, rd) && !DeleteFails(old(db), root, rd, fails) && fails(Create) ==>
                err == Some(InsertFailed) && db == old(db) && nextId == old(nextId)
      ensures !IsCurrent(old(db), meta, rd) && !DeleteFails(old(db), root, rd, fails) && !fails(Create) && fails(Commit) ==>
                err == Some(CommitFailed) && db == old(db) && nextId == old(nextId)
      // Otherwise: the old subtree replaced by the new aggregate.
      ensures !IsCurrent(old(db), meta, rd) && !DeleteFails(old(db), root, rd, fails) && !fails(Create) && !fails(Commit) ==>
                err == None && db == Refreshed(old(db), old(nextId), root, rd) && nextId == NextAfter(old(nextId), root)
    {
      // tx := o.DB.Begin()
      var snapshot, snapshotNext := db, nextId;

      var current := StampIsCurrent(meta, rd);
      if current {
        // returns without committing or rolling back the transaction
        leakedTxs := leakedTxs + 1;
        return None;
      }

      var staleId := FindOldRoot(root, rd);
      if staleId.Some? {
        var ok := DeleteSubtree(staleId.value, rd, fails);
        if !ok {
          db := snapshot;
          return Some(DeleteFailed);
        }
      }

      RefreshedInvariant(snapshot, snapshotNext, root, rd);
      if UniqueRootKeys(snapshot) && !rd.rootFails {
        RefreshedReplacesRoot(snapshot, snapshotNext, root, rd);
      }
      assert db == Superseded(snapshot, root, rd);
      err := CreateAndCommit(root, snapshot, fails);
    }

    /**
     * The end of a refresh (lines 85-94): insert the aggregate, its ids
     * handed out from the counter, then commit. A failing insert rolls back
     * to `snapshot`, the contents at Begin; a failing commit leaves the
     * committed contents as they were, which is `snapshot` as well.
     */
    method CreateAndCommit(root: RootTree, snapshot: Tables, fails: Step -> bool) returns (err: Option<Error>)
      modifies this
      ensures leakedTxs == old(leakedTxs)
      ensures fails(Create) ==> err == Some(InsertFailed) && db == snapshot && nextId == old(nextId)
      ensures !fails(Create) && fails(Commit) ==> err == Some(CommitFailed) && db == snapshot && nextId == old(nextId)
      ensures !fails(Create) && !fails(Commit) ==>
                err == None && db == Insert(old(db), Stamp(root, old(nextId))) && nextId == NextAfter(old(nextId), root)
    {
      var before := nextId;
      if fails(Create) {
        db := snapshot;
        return Some(InsertFailed);
      }
      db := Insert(db, Stamp(root, nextId));
      nextId := NextAfter(nextId, root);

      if fails(Commit) {
        // an uncommitted transaction leaves the committed contents as they were
        db, nextId := snapshot, before;
        return Some(CommitFailed);
      }
      return None;
    }
  
    /**
     * The skip test (lines 32-35): the stamp lookup for `meta`'s file name
     * did not report "no row found", and the stamp it left has `meta`'s
     * timestamp. An error other than "no row found" leaves the zero stamp.
     */
    method StampIsCurrent(meta: FetchMeta, rd: Reads) returns (current: bool)
      ensures current == IsCurrent(db, meta, rd)
    {
      var notFound := false;
      var oldTimestamp := ZeroTime;
      if !rd.stampFails {
        var stored := First(db.metas, FetchMetaFileName, meta.fileName);
        if stored.Some? {
          oldTimestamp := stored.value.timestamp;
        } else {
          notFound := true;
        }
      }
      current := !notFound && oldTimestamp == meta.timestamp;
    }

    /**
     * The lookup of the root being superseded (lines 40-42): the id of the
     * first root with `root`'s family and OS version, none when no row is
     * found, and the zero root's id 0 when the lookup fails otherwise.
     */
    method FindOldRoot(root: RootTree, rd: Reads) returns (staleId: Option<nat>)
      ensures staleId == OldRootId(db, root, rd)
    {
      var id := 0;
      if !rd.rootFails {
        var found := First(db.roots, RootKey, (root.row.family, root.row.osVersion));
        if found.None? {
          return None;
        }
        id := found.value.id;
      }
      return Some(id);
    }

    /**
     * The deletes of one old definition's rows (lines 50-73): the cves,
     * bugzillas and cpes whose advisory id is `advId`, then the advisories,
     * packages and references whose definition id is `def.id`. When one of
     * them fails, the deletes issued before it stay in the tables and nothing
     * is promised about them: InsertOval rolls the transaction back, putting
     * its snapshot in their place.
     */
    method DeleteDefinitionRows(i: nat, def: Definition, advId: nat, fails: Step -> bool) returns (ok: bool)
      modifies this
      ensures nextId == old(nextId) && leakedTxs == old(leakedTxs)
      ensures ok <==> !ChildDeleteFails(i, fails)
      ensures ok ==> db == PurgeDefinition(old(db), def.id, advId)
    {
      ok := false;
      if fails(DeleteChildren(CveTable, i)) { return; }
      db := db.(cves := Without(db.cves, CveAdvisoryId, {advId}));
      if fails(DeleteChildren(BugzillaTable, i)) { return; }
      db := db.(bugzillas := Without(db.bugzillas, BugzillaAdvisoryId, {advId}));
      if fails(DeleteChildren(CpeTable, i)) { return; }
      db := db.(cpes := Without(db.cpes, CpeAdvisoryId, {advId}));
      if fails(DeleteChildren(AdvisoryTable, i)) { return; }
      db := db.(advisories := Without(db.advisories, AdvisoryDefinitionId, {def.id}));
      if fails(DeleteChildren(PackageTable, i)) { return; }
      db := db.(packages := Without(db.packages, PackageDefinitionId, {def.id}));
      if fails(DeleteChildren(ReferenceTable, i)) { return; }
      db := db.(references := Without(db.references, ReferenceDefinitionId, {def.id}));
      ok := true;
    }

    /**
     * The delete phase for the superseded root, whose id is `staleId`
     * (lines 44-82): the loop over its definitions, read through the
     * connection, then its definitions and the root itself. When a delete
     * fails, the deletes issued before it stay in the tables and nothing is
     * promised about them: InsertOval rolls the transaction back, putting its
     * snapshot in their place.
     */
    method DeleteSubtree(staleId: nat, rd: Reads, fails: Step -> bool) returns (ok: bool)
      modifies this
      ensures nextId == old(nextId) && leakedTxs == old(leakedTxs)
      ensures ok <==> !TeardownFails(old(db), staleId, rd, fails)
      ensures ok ==> db == Teardown(old(db), staleId, rd)
    {
      var snapshot := db;
      // o.DB.Model(&old).Related(&defs, "Definitions"); an error leaves the list empty
      var defs: seq<Definition> := [];
      if !rd.definitionsFail {
        defs := Where(snapshot.definitions, DefinitionRootId, staleId);
      }
      ghost var ids := LookupIds(snapshot, defs, rd.advisoryHit);
      for i := 0 to |defs|
        invariant db == PurgeAll(snapshot, defs[..i], ids[..i])
        invariant forall j: nat :: j < i ==> !ChildDeleteFails(j, fails)
        invariant nextId == old(nextId) && leakedTxs == old(leakedTxs)
      {
        var def := defs[i];
        var advId := AdvisoryLookup(snapshot, def, rd.advisoryHit(i));
        ok := DeleteDefinitionRows(i, def, advId, fails);
        if !ok {
          return;
        }
        PurgeAllStep(snapshot, defs, ids, i);
        assert !ChildDeleteFails(i, fails);
        assert forall j: nat :: j < i + 1 ==> !ChildDeleteFails(j, fails) by {
          forall j: nat | j < i + 1 ensures !ChildDeleteFails(j, fails) {
            if j < i {
            }
          }
        }
      }
      assert defs[..|defs|] == defs && ids[..|ids|] == ids;
      ok := !fails(DeleteDefinitions);
      if !ok {
        return;
      }
      db := db.(definitions := Without(db.definitions, DefinitionRootId, {staleId}));
      ok := !fails(DeleteRoot);
      if !ok {
        return;
      }
      db := db.(roots := Without(db.roots, RootId, {staleId}));
    }
  
    /**
     * The definitions affecting package `packName` on RedHat at the major
     * version of `osVer`, one per matching Package row, each hydrated.
     */
    method GetByPackName(osVer: string, packName: string, major: string -> string)
      returns (r: Result<seq<DefinitionTree>>)
      ensures r == PackNameQuery(db, major, osVer, packName)
    {
      var majorVer := major(osVer);
      var packs := Where(db.packages, PackageName, packName);
      var found := PackageCandidates(packs, major, majorVer);
      if found.Failure? {
        return Failure(NotFound);
      }
      r := HydrateDefinitions(found.value, majorVer);
    }

    /**
     * The first loop of GetByPackName (lines 106-120): each package's
     * definition and root, the definition kept, unhydrated, when the root is
     * in scope; NotFound as soon as a lookup finds no row.
     */
    method PackageCandidates(packs: seq<Package>, major: string -> string, majorVer: string)
      returns (r: Result<seq<DefinitionTree>>)
      ensures r.Failure? <==> Candidates(PackageChains(db, packs), major, majorVer).Failure?
      ensures r.Failure? ==> r.error == NotFound
      ensures r.Success? ==> Candidates(PackageChains(db, packs), major, majorVer) == Success(Rows(r.value))
    {
      ghost var chains := PackageChains(db, packs);
      var defs: seq<DefinitionTree> := [];
      for i := 0 to |packs|
        invariant forall j :: 0 <= j < i ==> chains[j].Some?
        invariant Rows(defs) == Scoped(chains[..i], major, majorVer)
      {
        var chain := ResolveDefinition(packs[i].definitionId);
        assert chain == chains[i];
        if chain.None? {
          assert !chains[i].Some?;
          return Failure(NotFound);
        }
        var (def, root) := chain.value;
        ScopedRowsStep(defs, chains, major, majorVer, i, def, root);
        if root.family == RedHat && major(root.osVersion) == majorVer {
          defs := defs + [Unhydrated(def)];
        }
        assert forall j :: 0 <= j < i + 1 ==> chains[j].Some? by {
          forall j | 0 <= j < i + 1 ensures chains[j].Some? {
            if j < i { }
          }
        }
      }
      assert chains[..|packs|] == chains;
      return Success(defs);
    }

    /**
     * The definitions whose advisory lists CVE `cveID`, on RedHat at the
     * major version of `osVer`, one per matching Cve row, each hydrated.
     */
    method GetByCveID(osVer: string, cveID: string, major: string -> string)
      returns (r: Result<seq<DefinitionTree>>)
      ensures r == CveIdQuery(db, major, osVer, cveID)
    {
      var majorVer := major(osVer);
      var cves := Where(db.cves, CveCveId, cveID);
      var found := CveCandidates(cves, major, majorVer);
      if found.Failure? {
        return Failure(NotFound);
      }
      r := HydrateDefinitions(found.value, majorVer);
    }

    /**
     * The first loop of GetByCveID (lines 173-191): each cve row's advisory,
     * definition and root, the definition kept, unhydrated, when the root is
     * in scope; NotFound as soon as a lookup finds no row.
     */
    method CveCandidates(cves: seq<Cve>, major: string -> string, majorVer: string)
      returns (r: Result<seq<DefinitionTree>>)
      ensures r.Failure? <==> Candidates(CveChains(db, cves), major, majorVer).Failure?
      ensures r.Failure? ==> r.error == NotFound
      ensures r.Success? ==> Candidates(CveChains(db, cves), major, majorVer) == Success(Rows(r.value))
    {
      ghost var chains := CveChains(db, cves);
      var defs: seq<DefinitionTree> := [];
      for i := 0 to |cves|
        invariant forall j :: 0 <= j < i ==> chains[j].Some?
        invariant Rows(defs) == Scoped(chains[..i], major, majorVer)
      {
        CveChainsAt(db, cves, i);
        var chain := ResolveCve(cves[i]);
        if chain.None? {
          assert !chains[i].Some?;
          return Failure(NotFound);
        }
        var (def, root) := chain.value;
        ScopedRowsStep(defs, chains, major, majorVer, i, def, root);
        if root.family == RedHat && major(root.osVersion) == majorVer {
          defs := defs + [Unhydrated(def)];
        }
        assert forall j :: 0 <= j < i + 1 ==> chains[j].Some? by {
          forall j | 0 <= j < i + 1 ensures chains[j].Some? {
            if j < i { }
          }
        }
      }
      assert chains[..|cves|] == chains;
      return Success(defs);
    }

    /**
     * The lookups by id that walk from a definition id up to its root
     * (lines 107-115 and 179-186); None when either finds no row.
     */
    method ResolveDefinition(defId: nat) returns (chain: Option<(Definition, Root)>)
      ensures chain == Chain(db, defId)
    {
      var def := First(db.definitions, DefinitionId, defId);
      if def.None? {
        return None;
      }
      var root := First(db.roots, RootId, def.value.rootId);
      if root.None? {
        return None;
      }
      return Some((def.value, root.value));
    }

    /** The lookups by id that walk from a Cve row up to its root (lines 174-186). */
    method ResolveCve(cve: Cve) returns (chain: Option<(Definition, Root)>)
      ensures chain == CveChain(db, cve)
    {
      var adv := First(db.advisories, AdvisoryId, cve.advisoryId);
      if adv.None? {
        return None;
      }
      chain := ResolveDefinition(adv.value.definitionId);
    }

    /**
     * The hydration loop both lookups share (lines 122-159 and 193-230):
     * fills in each definition's Advisory (with its Cves, Bugzillas and
     * AffectedCPEList), AffectedPacks and References, in place.
     */
    method HydrateDefinitions(found: seq<DefinitionTree>, majorVer: string) returns (r: Result<seq<DefinitionTree>>)
      ensures r == HydrateAll(db, majorVer, Rows(found))
    {
      var defs := found;
      for i := 0 to |defs|
        invariant |defs| == |found|
        invariant forall j :: 0 <= j < i ==> Hydrate(db, majorVer, found[j].row) == Success(defs[j])
        invariant forall j :: i <= j < |defs| ==> defs[j] == found[j]
      {
        var def := defs[i];
        var adv := First(db.advisories, AdvisoryDefinitionId, def.row.id);
        if adv.None? {
          assert Hydrate(db, majorVer, Rows(found)[i]).Failure?;
          return Failure(NotFound);
        }
        var cves := Where(db.cves, CveAdvisoryId, adv.value.id);
        var bugs := Where(db.bugzillas, BugzillaAdvisoryId, adv.value.id);
        var cpes := Where(db.cpes, CpeAdvisoryId, adv.value.id);
        defs := defs[i := defs[i].(advisory := AdvisoryTree(adv.value, cves, bugs, cpes))];
        var packs := Where(db.packages, PackageDefinitionId, def.row.id);
        var filtered := FilterByMajor(packs, majorVer);
        defs := defs[i := defs[i].(affectedPacks := filtered)];
        var refs := Where(db.references, ReferenceDefinitionId, def.row.id);
        defs := defs[i := defs[i].(references := refs)];
      }
      HydrateAllPointwise(db, majorVer, Rows(found), defs);
      return Success(defs);
    }
  }

  /**
   * What a committed refresh stores reads back through the lookups'
   * hydration: the k-th newly stored definition hydrates to its stored tree,
   * with its packages narrowed to the requested major version, and that tree
   * has the content of the k-th ingested definition.
   */
  lemma RefreshedHydrates(t: Tables, next: nat, root: RootTree, rd: Reads, majorVer: string, k: nat)
    requires Bounded(t, next) && k < |root.definitions|
    ensures var h := Stamp(root, next).definitions[k];
            && Hydrate(Refreshed(t, next, root, rd), majorVer, h.row)
               == Success(h.(affectedPacks := KeepMajor(h.affectedPacks, majorVer)))
            && Content(h) == Content(root.definitions[k])
  {
    var sd := Stamp(root, next).definitions;
    var h := sd[k];
    var sup := Superseded(t, root, rd);
    var r := Refreshed(t, next, root, rd);
    SupersededBounded(t, root, rd, next);
    StampedIds(root.definitions, next, next + 1, k);
    StampedDefinitionChildren(root.definitions, next, next + 1, k);
    StampedAdvisoryChildren(root.definitions, next, next + 1, k);
    StampKeepsContent(root.definitions, next, next + 1, k);
    var defId, advId := h.row.id, h.advisory.row.id;
    WhereAppend(sup.advisories, FlatAdvisories(sd), AdvisoryDefinitionId, defId);
    WhereAppend(sup.cves, FlatCves(sd), CveAdvisoryId, advId);
    WhereAppend(sup.bugzillas, FlatBugzillas(sd), BugzillaAdvisoryId, advId);
    WhereAppend(sup.cpes, FlatCpes(sd), CpeAdvisoryId, advId);
    WhereAppend(sup.packages, FlatPackages(sd), PackageDefinitionId, defId);
    WhereAppend(sup.references, FlatReferences(sd), ReferenceDefinitionId, defId);
    WhereAllOrNone(sup.advisories, AdvisoryDefinitionId, defId);
    WhereAllOrNone(sup.cves, CveAdvisoryId, advId);
    WhereAllOrNone(sup.bugzillas, BugzillaAdvisoryId, advId);
    WhereAllOrNone(sup.cpes, CpeAdvisoryId, advId);
    WhereAllOrNone(sup.packages, PackageDefinitionId, defId);
    WhereAllOrNone(sup.references, ReferenceDefinitionId, defId);
    assert r.advisories == sup.advisories + FlatAdvisories(sd);
    assert Where(r.advisories, AdvisoryDefinitionId, defId) == [h.advisory.row];
    FirstOfOnly(r.advisories, AdvisoryDefinitionId, defId, h.advisory.row);
    assert r.cves == sup.cves + FlatCves(sd);
    assert Where(r.cves, CveAdvisoryId, advId) == h.advisory.cves;
    assert r.bugzillas == sup.bugzillas + FlatBugzillas(sd);
    assert Where(r.bugzillas, BugzillaAdvisoryId, advId) == h.advisory.bugzillas;
    assert r.cpes == sup.cpes + FlatCpes(sd);
    assert Where(r.cpes, CpeAdvisoryId, advId) == h.advisory.cpes;
    assert r.packages == sup.packages + FlatPackages(sd);
    assert Where(r.packages, PackageDefinitionId, defId) == h.affectedPacks;
    assert r.references == sup.references + FlatReferences(sd);
    assert Where(r.references, ReferenceDefinitionId, defId) == h.references;
  }
}
