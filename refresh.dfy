/**
 * What InsertOval does to the tables: the freshness check, the choice of the
 * root being superseded, the leaf-first teardown of that root's subtree, and
 * the insertion of the new aggregate with store-assigned ids.
 *
 * The functions here are the specification the imperative InsertOval (module
 * RedHatDb) is proved against; the lemmas state what a refresh guarantees.
 */
module Refresh {
  import opened Models
  import opened Store

  /** The tables one old definition's deletes target (db/redhat.go:50-73). */
  datatype ChildTable = CveTable | BugzillaTable | CpeTable | AdvisoryTable | PackageTable | ReferenceTable

  /**
   * Each point at which InsertOval receives an error from the store: one
   * delete per child table per old definition (by its index among the old
   * definitions), the two deletes after the loop, the insert and the commit.
   */
  datatype Step =
    | DeleteChildren(table: ChildTable, index: nat)
    | DeleteDefinitions
    | DeleteRoot
    | Create
    | Commit

  /**
   * The outcome of the reads whose errors InsertOval ignores: the stamp
   * lookup (db/redhat.go:33), the lookup of the root being superseded
   * (line 41), the read of that root's definitions (line 46), and, by the
   * index of each old definition, whether the lookup of its advisory
   * (line 49) finds the row. The first three say whether the read returns
   * an error other than "no row found".
   */
  datatype Reads = Reads(stampFails: bool, rootFails: bool, definitionsFail: bool, advisoryHit: nat -> bool)

  // ---------------------------------------------------------------------------
  // Freshness check and the superseded root

  /** The timestamp of a zero-valued stamp (Go's zero time). */
  const ZeroTime: int := 0

  /**
   * The skip test (db/redhat.go:33-35): the stamp lookup did not report "no
   * row found", and the stamp it left has the new timestamp. The first stored
   * stamp for the same file name when the lookup succeeds; the zero stamp
   * when it fails otherwise.
   */
  predicate IsCurrent(t: Tables, meta: FetchMeta, rd: Reads)
    ensures !rd.stampFails && IsCurrent(t, meta, rd) ==>
              exists m :: m in t.metas && m.fileName == meta.fileName && m.timestamp == meta.timestamp
    ensures !rd.stampFails && (forall m :: m in t.metas ==> m.fileName != meta.fileName) ==> !IsCurrent(t, meta, rd)
    ensures rd.stampFails ==> (IsCurrent(t, meta, rd) <==> meta.timestamp == ZeroTime)
  {
    if rd.stampFails then meta.timestamp == ZeroTime
    else
      match First(t.metas, FetchMetaFileName, meta.fileName)
      case Some(stored) => stored.timestamp == meta.timestamp
      case None => false
  }

  /** A stored stamp with the lowest id among the stamps of its file. */
  predicate EarliestStamp(t: Tables, m: FetchMeta) {
    m in t.metas && forall y :: y in t.metas && y.fileName == m.fileName ==> m.id <= y.id
  }

  /**
   * When the stamp lookup succeeds on a table in rising id order, the
   * refresh is skipped exactly when the file's stamp with the lowest id (the
   * one an ordered First returns) has the new timestamp.
   */
  lemma IsCurrentIffStampMatches(t: Tables, meta: FetchMeta, rd: Reads)
    requires !rd.stampFails && Increasing(t.metas, FetchMetaId)
    ensures IsCurrent(t, meta, rd) <==>
              exists m :: EarliestStamp(t, m) && m.fileName == meta.fileName && m.timestamp == meta.timestamp
  {
    var f := First(t.metas, FetchMetaFileName, meta.fileName);
    if f.Some? {
      FirstIsLowest(t.metas, FetchMetaId, FetchMetaFileName, meta.fileName);
      assert EarliestStamp(t, f.value);
      forall m | EarliestStamp(t, m) && m.fileName == meta.fileName
        ensures m == f.value
      {
        IncreasingUnique(t.metas, FetchMetaId, m, f.value);
      }
    }
  }

  /**
   * The id of the root being superseded (db/redhat.go:40-42): the first root
   * with the new root's family and OS version; when the lookup fails other
   * than by finding no row, the zero root, whose id is 0.
   */
  function OldRootId(t: Tables, root: RootTree, rd: Reads): (r: Option<nat>)
    ensures rd.rootFails ==> r == Some(0)
    ensures !rd.rootFails ==>
              (r.None? <==> forall x :: x in t.roots ==> RootKey(x) != RootKey(root.row))
    ensures !rd.rootFails && r.Some? ==> exists x :: x in t.roots && RootKey(x) == RootKey(root.row) && x.id == r.value
  {
    if rd.rootFails then Some(0)
    else
      match First(t.roots, RootKey, (root.row.family, root.row.osVersion))
      case Some(x) => Some(x.id)
      case None => None
  }

  /**
   * The old root's definitions, as read through the connection rather than
   * the transaction (db/redhat.go:45-46); a read that fails leaves the list
   * empty.
   */
  function OldDefinitions(t: Tables, staleId: nat, rd: Reads): (defs: seq<Definition>)
    ensures forall d :: d in defs ==> d in t.definitions && d.rootId == staleId
    ensures !rd.definitionsFail ==> forall d :: d in t.definitions && d.rootId == staleId ==> d in defs
    ensures rd.definitionsFail ==> defs == []
  {
    if rd.definitionsFail then [] else Where(t.definitions, DefinitionRootId, staleId)
  }

  /**
   * The advisory id the lookup of one old definition's advisory yields. The
   * lookup names the relation "Avisory" and its error is ignored, so whether
   * it finds the row is an oracle (`hit`); when it does not, the id stays 0,
   * as it also does when the definition has no advisory.
   */
  function AdvisoryLookup(t: Tables, d: Definition, hit: bool): (id: nat)
    ensures id != 0 ==> hit && exists a :: a in t.advisories && a.definitionId == d.id && a.id == id
    ensures hit && (forall a :: a in t.advisories ==> a.definitionId != d.id) ==> id == 0
    ensures hit && (exists a :: a in t.advisories && a.definitionId == d.id) ==>
              exists a :: a in t.advisories && a.definitionId == d.id && a.id == id
  {
    if hit then
      match First(t.advisories, AdvisoryDefinitionId, d.id)
      case Some(a) => a.id
      case None => 0
    else 0
  }

  /** The looked-up advisory id of every old definition, in loop order. */
  function LookupIds(t: Tables, defs: seq<Definition>, hit: nat -> bool): (ids: seq<nat>)
    ensures |ids| == |defs|
  {
    seq<nat>(|defs|, i requires 0 <= i < |defs| => AdvisoryLookup(t, defs[i], hit(i)))
  }

  /** One of the six deletes for the i-th old definition returns an error. */
  predicate ChildDeleteFails(i: nat, fails: Step -> bool) {
    || fails(DeleteChildren(CveTable, i))
    || fails(DeleteChildren(BugzillaTable, i))
    || fails(DeleteChildren(CpeTable, i))
    || fails(DeleteChildren(AdvisoryTable, i))
    || fails(DeleteChildren(PackageTable, i))
    || fails(DeleteChildren(ReferenceTable, i))
  }

  /** Tearing down the root with id `staleId` fails when some delete it issues returns an error. */
  predicate TeardownFails(t: Tables, staleId: nat, rd: Reads, fails: Step -> bool) {
    || (exists i: nat :: i < |OldDefinitions(t, staleId, rd)| && ChildDeleteFails(i, fails))
    || fails(DeleteDefinitions)
    || fails(DeleteRoot)
  }

  /** The delete phase fails when there is a root to supersede and tearing it down fails. */
  predicate DeleteFails(t: Tables, root: RootTree, rd: Reads, fails: Step -> bool) {
    match OldRootId(t, root, rd)
    case None => false
    case Some(staleId) => TeardownFails(t, staleId, rd, fails)
  }

  // ---------------------------------------------------------------------------
  // The teardown

  /** The six deletes issued for one old definition: its advisory's children, then its own children. */
  function PurgeDefinition(t: Tables, defId: nat, advId: nat): (r: Tables)
    ensures r.metas == t.metas && r.roots == t.roots && r.definitions == t.definitions
    ensures forall x :: x in r.cves <==> x in t.cves && x.advisoryId != advId
    ensures forall x :: x in r.bugzillas <==> x in t.bugzillas && x.advisoryId != advId
    ensures forall x :: x in r.cpes <==> x in t.cpes && x.advisoryId != advId
    ensures forall x :: x in r.advisories <==> x in t.advisories && x.definitionId != defId
    ensures forall x :: x in r.packages <==> x in t.packages && x.definitionId != defId
    ensures forall x :: x in r.references <==> x in t.references && x.definitionId != defId
  {
    t.(cves := Without(t.cves, CveAdvisoryId, {advId}),
       bugzillas := Without(t.bugzillas, BugzillaAdvisoryId, {advId}),
       cpes := Without(t.cpes, CpeAdvisoryId, {advId}),
       advisories := Without(t.advisories, AdvisoryDefinitionId, {defId}),
       packages := Without(t.packages, PackageDefinitionId, {defId}),
       references := Without(t.references, ReferenceDefinitionId, {defId}))
  }

  /** The deletes of the loop over the old definitions, applied in loop order. */
  function PurgeAll(t: Tables, defs: seq<Definition>, advIds: seq<nat>): (r: Tables)
    requires |defs| == |advIds|
    ensures r.metas == t.metas && r.roots == t.roots && r.definitions == t.definitions
  {
    if defs == [] then t
    else
      var n := |defs| - 1;
      PurgeDefinition(PurgeAll(t, defs[..n], advIds[..n]), defs[n].id, advIds[n])
  }

  /** One more iteration of the loop applies the next definition's deletes. */
  lemma PurgeAllStep(t: Tables, defs: seq<Definition>, advIds: seq<nat>, i: nat)
    requires |defs| == |advIds| && i < |defs|
    ensures PurgeAll(t, defs[..i + 1], advIds[..i + 1]) == PurgeDefinition(PurgeAll(t, defs[..i], advIds[..i]), defs[i].id, advIds[i])
  {
    assert defs[..i + 1][..i] == defs[..i] && advIds[..i + 1][..i] == advIds[..i];
  }

  /** The whole delete phase for the superseded root, whose id is `staleId`. */
  function Teardown(t: Tables, staleId: nat, rd: Reads): (r: Tables)
    ensures r.metas == t.metas
    ensures forall x :: x in r.roots <==> x in t.roots && x.id != staleId
    ensures forall x :: x in r.definitions <==> x in t.definitions && x.rootId != staleId
  {
    var defs := OldDefinitions(t, staleId, rd);
    var purged := PurgeAll(t, defs, LookupIds(t, defs, rd.advisoryHit));
    purged.(definitions := Without(purged.definitions, DefinitionRootId, {staleId}),
            roots := Without(purged.roots, RootId, {staleId}))
  }

  /** The ids of a list of definitions. */
  function DefIds(defs: seq<Definition>): (ids: set<nat>)
    ensures forall d :: d in defs ==> d.id in ids
    ensures forall n :: n in ids ==> exists d :: d in defs && d.id == n
  {
    if defs == [] then {} else DefIds(defs[..|defs| - 1]) + {defs[|defs| - 1].id}
  }

  /** The elements of a list of ids. */
  function Elems(ids: seq<nat>): (s: set<nat>)
    ensures forall n :: n in s <==> n in ids
  {
    if ids == [] then {}
    else
      assert ids == ids[..|ids| - 1] + [ids[|ids| - 1]];
      Elems(ids[..|ids| - 1]) + {ids[|ids| - 1]}
  }

  // ---------------------------------------------------------------------------
  // The insert: the aggregate with ids assigned from a counter

  /** The number of ids one definition's subtree takes: the definition, its advisory and every child row. */
  function TreeSize(d: DefinitionTree): nat {
    2 + |d.advisory.cves| + |d.advisory.bugzillas| + |d.advisory.cpes| + |d.affectedPacks| + |d.references|
  }

  function TotalSize(ds: seq<DefinitionTree>): nat {
    if ds == [] then 0 else TreeSize(ds[0]) + TotalSize(ds[1..])
  }

  function StampCves(cs: seq<Cve>, advId: nat, next: nat): (r: seq<Cve>)
    ensures |r| == |cs|
  {
    seq(|cs|, i requires 0 <= i < |cs| => Cve(next + i, advId, cs[i].cveId))
  }

  function StampBugzillas(bs: seq<Bugzilla>, advId: nat, next: nat): (r: seq<Bugzilla>)
    ensures |r| == |bs|
  {
    seq(|bs|, i requires 0 <= i < |bs| => Bugzilla(next + i, advId, bs[i].url))
  }

  function StampCpes(cs: seq<Cpe>, advId: nat, next: nat): (r: seq<Cpe>)
    ensures |r| == |cs|
  {
    seq(|cs|, i requires 0 <= i < |cs| => Cpe(next + i, advId, cs[i].name))
  }

  function StampPackages(ps: seq<Package>, defId: nat, next: nat): (r: seq<Package>)
    ensures |r| == |ps|
  {
    seq(|ps|, i requires 0 <= i < |ps| => Package(next + i, defId, ps[i].name, ps[i].version))
  }

  function StampReferences(rs: seq<Reference>, defId: nat, next: nat): (r: seq<Reference>)
    ensures |r| == |rs|
  {
    seq(|rs|, i requires 0 <= i < |rs| => Reference(next + i, defId, rs[i].refId))
  }

  /**
   * One definition's subtree as the insert stores it: ids handed out from
   * `next` (definition, advisory, cves, bugzillas, cpes, packages,
   * references) and every parent id set to the parent's new id.
   */
  function StampDefinition(d: DefinitionTree, rootId: nat, next: nat): (r: DefinitionTree)
    ensures r.row.id == next && r.row.rootId == rootId
    ensures r.advisory.row.id == next + 1 && r.advisory.row.definitionId == next
    ensures Content(r) == Content(d)
  {
    var a := d.advisory;
    var advId := next + 1;
    var cveStart := next + 2;
    var bugStart := cveStart + |a.cves|;
    var cpeStart := bugStart + |a.bugzillas|;
    var packStart := cpeStart + |a.cpes|;
    var refStart := packStart + |d.affectedPacks|;
    var r := DefinitionTree(
      Definition(next, rootId, d.row.title),
      AdvisoryTree(
        Advisory(advId, next, a.row.severity),
        StampCves(a.cves, advId, cveStart),
        StampBugzillas(a.bugzillas, advId, bugStart),
        StampCpes(a.cpes, advId, cpeStart)),
      StampPackages(d.affectedPacks, next, packStart),
      StampReferences(d.references, next, refStart));
    assert StripCves(r.advisory.cves) == StripCves(a.cves);
    assert StripBugzillas(r.advisory.bugzillas) == StripBugzillas(a.bugzillas);
    assert StripCpes(r.advisory.cpes) == StripCpes(a.cpes);
    assert StripPackages(r.affectedPacks) == StripPackages(d.affectedPacks);
    assert StripReferences(r.references) == StripReferences(d.references);
    r
  }

  function StampDefinitions(ds: seq<DefinitionTree>, rootId: nat, next: nat): (r: seq<DefinitionTree>)
    ensures |r| == |ds|
  {
    if ds == [] then []
    else [StampDefinition(ds[0], rootId, next)] + StampDefinitions(ds[1..], rootId, next + TreeSize(ds[0]))
  }

  /** The aggregate as the insert stores it, the root taking id `next`. */
  function Stamp(root: RootTree, next: nat): RootTree {
    RootTree(Root(next, root.row.family, root.row.osVersion), StampDefinitions(root.definitions, next, next + 1))
  }

  // The rows of a list of definition trees, table by table, in tree order.

  function FlatDefinitions(ds: seq<DefinitionTree>): seq<Definition> {
    if ds == [] then [] else [ds[0].row] + FlatDefinitions(ds[1..])
  }

  function FlatAdvisories(ds: seq<DefinitionTree>): seq<Advisory> {
    if ds == [] then [] else [ds[0].advisory.row] + FlatAdvisories(ds[1..])
  }

  function FlatCves(ds: seq<DefinitionTree>): seq<Cve> {
    if ds == [] then [] else ds[0].advisory.cves + FlatCves(ds[1..])
  }

  function FlatBugzillas(ds: seq<DefinitionTree>): seq<Bugzilla> {
    if ds == [] then [] else ds[0].advisory.bugzillas + FlatBugzillas(ds[1..])
  }

  function FlatCpes(ds: seq<DefinitionTree>): seq<Cpe> {
    if ds == [] then [] else ds[0].advisory.cpes + FlatCpes(ds[1..])
  }

  function FlatPackages(ds: seq<DefinitionTree>): seq<Package> {
    if ds == [] then [] else ds[0].affectedPacks + FlatPackages(ds[1..])
  }

  function FlatReferences(ds: seq<DefinitionTree>): seq<Reference> {
    if ds == [] then [] else ds[0].references + FlatReferences(ds[1..])
  }

  /** `tx.Create(&root)`: the rows of an (already stamped) aggregate appended to their tables. */
  function Insert(t: Tables, s: RootTree): (r: Tables)
    ensures r.metas == t.metas
    ensures forall x :: x in r.roots <==> x in t.roots || x == s.row
    ensures forall x :: x in r.definitions <==> x in t.definitions || x in FlatDefinitions(s.definitions)
    ensures forall x :: x in r.advisories <==> x in t.advisories || x in FlatAdvisories(s.definitions)
    ensures forall x :: x in r.cves <==> x in t.cves || x in FlatCves(s.definitions)
    ensures forall x :: x in r.bugzillas <==> x in t.bugzillas || x in FlatBugzillas(s.definitions)
    ensures forall x :: x in r.cpes <==> x in t.cpes || x in FlatCpes(s.definitions)
    ensures forall x :: x in r.packages <==> x in t.packages || x in FlatPackages(s.definitions)
    ensures forall x :: x in r.references <==> x in t.references || x in FlatReferences(s.definitions)
  {
    t.(roots := t.roots + [s.row],
       definitions := t.definitions + FlatDefinitions(s.definitions),
       advisories := t.advisories + FlatAdvisories(s.definitions),
       cves := t.cves + FlatCves(s.definitions),
       bugzillas := t.bugzillas + FlatBugzillas(s.definitions),
       cpes := t.cpes + FlatCpes(s.definitions),
       packages := t.packages + FlatPackages(s.definitions),
       references := t.references + FlatReferences(s.definitions))
  }

  // ---------------------------------------------------------------------------
  // The state after a refresh that commits

  /** The tables once the superseded root's subtree, if any, is deleted. */
  function Superseded(t: Tables, root: RootTree, rd: Reads): Tables {
    match OldRootId(t, root, rd)
    case None => t
    case Some(staleId) => Teardown(t, staleId, rd)
  }

  /** The tables after a committed refresh, the new root's ids handed out from `next`. */
  function Refreshed(t: Tables, next: nat, root: RootTree, rd: Reads): Tables {
    Insert(Superseded(t, root, rd), Stamp(root, next))
  }

  /** The id counter after a committed refresh. */
  function NextAfter(next: nat, root: RootTree): nat {
    next + 1 + TotalSize(root.definitions)
  }

  // ---------------------------------------------------------------------------
  // Store invariant: every id and parent id was handed out by the counter

  predicate Bounded(t: Tables, next: nat) {
    && (forall r :: r in t.roots ==> r.id < next)
    && (forall d :: d in t.definitions ==> d.id < next && d.rootId < next)
    && (forall a :: a in t.advisories ==> a.id < next && a.definitionId < next)
    && (forall c :: c in t.cves ==> c.id < next && c.advisoryId < next)
    && (forall b :: b in t.bugzillas ==> b.id < next && b.advisoryId < next)
    && (forall c :: c in t.cpes ==> c.id < next && c.advisoryId < next)
    && (forall p :: p in t.packages ==> p.id < next && p.definitionId < next)
    && (forall r :: r in t.references ==> r.id < next && r.definitionId < next)
  }

  /** No row has id 0: an auto-increment key starts at 1. */
  predicate NonzeroIds(t: Tables) {
    && (forall r :: r in t.roots ==> r.id != 0)
    && (forall d :: d in t.definitions ==> d.id != 0)
    && (forall a :: a in t.advisories ==> a.id != 0)
    && (forall c :: c in t.cves ==> c.id != 0)
    && (forall b :: b in t.bugzillas ==> b.id != 0)
    && (forall c :: c in t.cpes ==> c.id != 0)
    && (forall p :: p in t.packages ==> p.id != 0)
    && (forall r :: r in t.references ==> r.id != 0)
  }

  /** Every id and parent id of a stamped list of definitions lies in [lo, hi). */
  predicate StampedWithin(ds: seq<DefinitionTree>, lo: nat, hi: nat) {
    && (forall d :: d in FlatDefinitions(ds) ==> lo <= d.id < hi)
    && (forall a :: a in FlatAdvisories(ds) ==> lo <= a.id < hi && lo <= a.definitionId < hi)
    && (forall c :: c in FlatCves(ds) ==> lo <= c.id < hi && lo <= c.advisoryId < hi)
    && (forall b :: b in FlatBugzillas(ds) ==> lo <= b.id < hi && lo <= b.advisoryId < hi)
    && (forall c :: c in FlatCpes(ds) ==> lo <= c.id < hi && lo <= c.advisoryId < hi)
    && (forall p :: p in FlatPackages(ds) ==> lo <= p.id < hi && lo <= p.definitionId < hi)
    && (forall r :: r in FlatReferences(ds) ==> lo <= r.id < hi && lo <= r.definitionId < hi)
  }

  /** The ids one definition's stamped subtree takes lie in [next, next + TreeSize). */
  lemma StampDefinitionWithin(d: DefinitionTree, rootId: nat, next: nat)
    ensures StampedWithin([StampDefinition(d, rootId, next)], next, next + TreeSize(d))
  {
    var s := StampDefinition(d, rootId, next);
    var ds := [s];
    assert ds[1..] == [];
    assert FlatCves(ds) == s.advisory.cves;
    assert FlatBugzillas(ds) == s.advisory.bugzillas;
    assert FlatCpes(ds) == s.advisory.cpes;
    assert FlatPackages(ds) == s.affectedPacks;
    assert FlatReferences(ds) == s.references;
  }

  /** Ranges of consecutive subtrees join up. */
  lemma StampedWithinCons(head: DefinitionTree, rest: seq<DefinitionTree>, lo: nat, mid: nat, hi: nat)
    requires lo <= mid <= hi
    requires StampedWithin([head], lo, mid) && StampedWithin(rest, mid, hi)
    ensures StampedWithin([head] + rest, lo, hi)
  {
    var all := [head] + rest;
    assert all[1..] == rest && [head][1..] == [];
    assert FlatDefinitions(all) == FlatDefinitions([head]) + FlatDefinitions(rest);
    assert FlatAdvisories(all) == FlatAdvisories([head]) + FlatAdvisories(rest);
    assert FlatCves(all) == FlatCves([head]) + FlatCves(rest);
    assert FlatBugzillas(all) == FlatBugzillas([head]) + FlatBugzillas(rest);
    assert FlatCpes(all) == FlatCpes([head]) + FlatCpes(rest);
    assert FlatPackages(all) == FlatPackages([head]) + FlatPackages(rest);
    assert FlatReferences(all) == FlatReferences([head]) + FlatReferences(rest);
  }

  /** Stamping hands out ids from `next` upwards, never reaching next + TotalSize. */
  lemma {:induction false} StampDefinitionsWithin(ds: seq<DefinitionTree>, rootId: nat, next: nat)
    ensures StampedWithin(StampDefinitions(ds, rootId, next), next, next + TotalSize(ds))
    ensures forall d :: d in FlatDefinitions(StampDefinitions(ds, rootId, next)) ==> d.rootId == rootId
  {
    if ds != [] {
      var head := StampDefinition(ds[0], rootId, next);
      var rest := StampDefinitions(ds[1..], rootId, next + TreeSize(ds[0]));
      var all := StampDefinitions(ds, rootId, next);
      StampDefinitionWithin(ds[0], rootId, next);
      StampDefinitionsWithin(ds[1..], rootId, next + TreeSize(ds[0]));
      assert all == [head] + rest;
      assert all[1..] == rest;
      StampedWithinCons(head, rest, next, next + TreeSize(ds[0]), next + TotalSize(ds));
    }
  }

  /** Inserting a stamped aggregate keeps every id below the advanced counter. */
  lemma InsertBounded(t: Tables, root: RootTree, next: nat)
    requires Bounded(t, next)
    ensures Bounded(Insert(t, Stamp(root, next)), NextAfter(next, root))
  {
    StampDefinitionsWithin(root.definitions, next, next + 1);
  }

  // ---------------------------------------------------------------------------
  // What the teardown deletes and what it keeps

  /** The loop's deletes, taken together: every row whose parent id one of the deletes named. */
  lemma {:induction false} PurgeAllRows(t: Tables, defs: seq<Definition>, advIds: seq<nat>)
    requires |defs| == |advIds|
    ensures PurgeAll(t, defs, advIds) == t.(
      cves := Without(t.cves, CveAdvisoryId, Elems(advIds)),
      bugzillas := Without(t.bugzillas, BugzillaAdvisoryId, Elems(advIds)),
      cpes := Without(t.cpes, CpeAdvisoryId, Elems(advIds)),
      advisories := Without(t.advisories, AdvisoryDefinitionId, DefIds(defs)),
      packages := Without(t.packages, PackageDefinitionId, DefIds(defs)),
      references := Without(t.references, ReferenceDefinitionId, DefIds(defs)))
  {
    if defs == [] {
      WithoutNothing(t.cves, CveAdvisoryId, {});
      WithoutNothing(t.bugzillas, BugzillaAdvisoryId, {});
      WithoutNothing(t.cpes, CpeAdvisoryId, {});
      WithoutNothing(t.advisories, AdvisoryDefinitionId, {});
      WithoutNothing(t.packages, PackageDefinitionId, {});
      WithoutNothing(t.references, ReferenceDefinitionId, {});
    } else {
      var n := |defs| - 1;
      var ids, dset := Elems(advIds[..n]), DefIds(defs[..n]);
      PurgeAllRows(t, defs[..n], advIds[..n]);
      assert Elems(advIds) == ids + {advIds[n]};
      WithoutWithout(t.cves, CveAdvisoryId, ids, {advIds[n]});
      WithoutWithout(t.bugzillas, BugzillaAdvisoryId, ids, {advIds[n]});
      WithoutWithout(t.cpes, CpeAdvisoryId, ids, {advIds[n]});
      WithoutWithout(t.advisories, AdvisoryDefinitionId, dset, {defs[n].id});
      WithoutWithout(t.packages, PackageDefinitionId, dset, {defs[n].id});
      WithoutWithout(t.references, ReferenceDefinitionId, dset, {defs[n].id});
    }
  }

  /**
   * The teardown of the root with id `staleId` deletes exactly: the root itself, its
   * definitions, every advisory, package and reference whose definition is
   * one of them, and every cve, bugzilla and cpe whose advisory id is one the
   * lookups returned. Every other row stays, in its order; stamps are untouched.
   */
  lemma TeardownRows(t: Tables, staleId: nat, rd: Reads)
    ensures var defs := OldDefinitions(t, staleId, rd);
            var ids := Elems(LookupIds(t, defs, rd.advisoryHit));
            Teardown(t, staleId, rd) == t.(
              roots := Without(t.roots, RootId, {staleId}),
              definitions := Without(t.definitions, DefinitionRootId, {staleId}),
              advisories := Without(t.advisories, AdvisoryDefinitionId, DefIds(defs)),
              cves := Without(t.cves, CveAdvisoryId, ids),
              bugzillas := Without(t.bugzillas, BugzillaAdvisoryId, ids),
              cpes := Without(t.cpes, CpeAdvisoryId, ids),
              packages := Without(t.packages, PackageDefinitionId, DefIds(defs)),
              references := Without(t.references, ReferenceDefinitionId, DefIds(defs)))
  {
    var defs := OldDefinitions(t, staleId, rd);
    PurgeAllRows(t, defs, LookupIds(t, defs, rd.advisoryHit));
  }

  /** Deleting rows never introduces an id the counter has not handed out. */
  lemma SupersededBounded(t: Tables, root: RootTree, rd: Reads, next: nat)
    requires Bounded(t, next)
    ensures Bounded(Superseded(t, root, rd), next)
  {
    if OldRootId(t, root, rd).Some? {
      TeardownRows(t, OldRootId(t, root, rd).value, rd);
    }
  }

  /** A committed refresh keeps the store invariant with the advanced counter. */
  lemma RefreshedBounded(t: Tables, next: nat, root: RootTree, rd: Reads)
    requires Bounded(t, next)
    ensures Bounded(Refreshed(t, next, root, rd), NextAfter(next, root))
  {
    SupersededBounded(t, root, rd, next);
    InsertBounded(Superseded(t, root, rd), root, next);
  }

  // ---------------------------------------------------------------------------
  // What a committed refresh guarantees

  /** The id of the root a refresh supersedes, if there is one. */
  function SupersededRootIds(t: Tables, root: RootTree, rd: Reads): set<nat> {
    match OldRootId(t, root, rd)
    case None => {}
    case Some(staleId) => {staleId}
  }

  /** The definitions of the root a refresh supersedes, as the teardown loop visits them. */
  function SupersededDefinitions(t: Tables, root: RootTree, rd: Reads): seq<Definition> {
    match OldRootId(t, root, rd)
    case None => []
    case Some(staleId) => OldDefinitions(t, staleId, rd)
  }

  /** The advisory ids the teardown deletes cves, bugzillas and cpes by. */
  function DeletedAdvisoryIds(t: Tables, root: RootTree, rd: Reads): set<nat> {
    match OldRootId(t, root, rd)
    case None => {}
    case Some(staleId) => Elems(LookupIds(t, OldDefinitions(t, staleId, rd), rd.advisoryHit))
  }

  /**
   * The delete phase, whether or not a root is superseded: the superseded
   * root, its definitions, their advisories, packages and references, and
   * the cves, bugzillas and cpes of the looked-up advisory ids go; every
   * other row stays in its order, and the fetch stamps are not touched.
   */
  lemma SupersededRows(t: Tables, root: RootTree, rd: Reads)
    ensures var gone, defs, advs := SupersededRootIds(t, root, rd), DefIds(SupersededDefinitions(t, root, rd)), DeletedAdvisoryIds(t, root, rd);
            Superseded(t, root, rd) == t.(
              roots := Without(t.roots, RootId, gone),
              definitions := Without(t.definitions, DefinitionRootId, gone),
              advisories := Without(t.advisories, AdvisoryDefinitionId, defs),
              cves := Without(t.cves, CveAdvisoryId, advs),
              bugzillas := Without(t.bugzillas, BugzillaAdvisoryId, advs),
              cpes := Without(t.cpes, CpeAdvisoryId, advs),
              packages := Without(t.packages, PackageDefinitionId, defs),
              references := Without(t.references, ReferenceDefinitionId, defs))
  {
    match OldRootId(t, root, rd)
    case None =>
      assert DefIds([]) == {};
      WithoutNothing(t.roots, RootId, {});
      WithoutNothing(t.definitions, DefinitionRootId, {});
      WithoutNothing(t.advisories, AdvisoryDefinitionId, {});
      WithoutNothing(t.cves, CveAdvisoryId, {});
      WithoutNothing(t.bugzillas, BugzillaAdvisoryId, {});
      WithoutNothing(t.cpes, CpeAdvisoryId, {});
      WithoutNothing(t.packages, PackageDefinitionId, {});
      WithoutNothing(t.references, ReferenceDefinitionId, {});
    case Some(staleId) =>
      TeardownRows(t, staleId, rd);
  }

  /**
   * After a committed refresh every table holds exactly the old rows the
   * delete phase spared and the rows of the newly stored aggregate; the
   * fetch stamps are never written.
   */
  lemma RefreshedRows(t: Tables, next: nat, root: RootTree, rd: Reads)
    ensures var r, s := Refreshed(t, next, root, rd), Stamp(root, next);
            var gone, defs, advs := SupersededRootIds(t, root, rd), DefIds(SupersededDefinitions(t, root, rd)), DeletedAdvisoryIds(t, root, rd);
            && r.metas == t.metas
            && (forall x :: x in r.roots <==> (x in t.roots && x.id !in gone) || x == s.row)
            && (forall x :: x in r.definitions <==> (x in t.definitions && x.rootId !in gone) || x in FlatDefinitions(s.definitions))
            && (forall x :: x in r.advisories <==> (x in t.advisories && x.definitionId !in defs) || x in FlatAdvisories(s.definitions))
            && (forall x :: x in r.cves <==> (x in t.cves && x.advisoryId !in advs) || x in FlatCves(s.definitions))
            && (forall x :: x in r.bugzillas <==> (x in t.bugzillas && x.advisoryId !in advs) || x in FlatBugzillas(s.definitions))
            && (forall x :: x in r.cpes <==> (x in t.cpes && x.advisoryId !in advs) || x in FlatCpes(s.definitions))
            && (forall x :: x in r.packages <==> (x in t.packages && x.definitionId !in defs) || x in FlatPackages(s.definitions))
            && (forall x :: x in r.references <==> (x in t.references && x.definitionId !in defs) || x in FlatReferences(s.definitions))
  {
    SupersededRows(t, root, rd);
  }

  /**
   * An old row survives a committed refresh exactly when the delete phase
   * does not target it: none of the newly stored rows can coincide with an
   * old one, since their ids are fresh.
   */
  lemma RefreshedOldRows(t: Tables, next: nat, root: RootTree, rd: Reads)
    requires Bounded(t, next)
    ensures var r := Refreshed(t, next, root, rd);
            var gone, defs, advs := SupersededRootIds(t, root, rd), DefIds(SupersededDefinitions(t, root, rd)), DeletedAdvisoryIds(t, root, rd);
            && (forall x :: x in t.roots ==> (x in r.roots <==> x.id !in gone))
            && (forall x :: x in t.definitions ==> (x in r.definitions <==> x.rootId !in gone))
            && (forall x :: x in t.advisories ==> (x in r.advisories <==> x.definitionId !in defs))
            && (forall x :: x in t.cves ==> (x in r.cves <==> x.advisoryId !in advs))
            && (forall x :: x in t.bugzillas ==> (x in r.bugzillas <==> x.advisoryId !in advs))
            && (forall x :: x in t.cpes ==> (x in r.cpes <==> x.advisoryId !in advs))
            && (forall x :: x in t.packages ==> (x in r.packages <==> x.definitionId !in defs))
            && (forall x :: x in t.references ==> (x in r.references <==> x.definitionId !in defs))
  {
    RefreshedRows(t, next, root, rd);
    FreshRows(t, next, root);
  }

  /**
   * After a committed refresh that superseded a root, nothing of the old
   * aggregate is left: no root with its id, no definition under it, and no
   * advisory, package or reference of one of its definitions.
   */
  lemma RefreshedDropsOldAggregate(t: Tables, next: nat, root: RootTree, rd: Reads)
    requires 1 <= next && Bounded(t, next) && OldRootId(t, root, rd).Some?
    ensures var r, staleId := Refreshed(t, next, root, rd), OldRootId(t, root, rd).value;
            var defs := DefIds(OldDefinitions(t, staleId, rd));
            && (forall x :: x in r.roots ==> x.id != staleId)
            && (forall x :: x in r.definitions ==> x.rootId != staleId)
            && (forall x :: x in r.advisories ==> x.definitionId !in defs)
            && (forall x :: x in r.packages ==> x.definitionId !in defs)
            && (forall x :: x in r.references ==> x.definitionId !in defs)
  {
    var staleId := OldRootId(t, root, rd).value;
    var defs := DefIds(OldDefinitions(t, staleId, rd));
    TeardownDrops(t, staleId, rd);
    if !rd.rootFails {
      var x :| x in t.roots && RootKey(x) == RootKey(root.row) && x.id == staleId;
    }
    forall n | n in defs
      ensures n < next
    {
      var d :| d in OldDefinitions(t, staleId, rd) && d.id == n;
    }
    StampAvoidsOld(root, next, staleId, defs);
    assert Superseded(t, root, rd) == Teardown(t, staleId, rd);
  }

  /** The rows stamped from `next` on name no root id and no definition id below `next`. */
  lemma StampAvoidsOld(root: RootTree, next: nat, staleId: nat, defs: set<nat>)
    requires staleId < next && forall n :: n in defs ==> n < next
    ensures var s := Stamp(root, next);
            && s.row.id != staleId
            && (forall x :: x in FlatDefinitions(s.definitions) ==> x.rootId != staleId)
            && (forall x :: x in FlatAdvisories(s.definitions) ==> x.definitionId !in defs)
            && (forall x :: x in FlatPackages(s.definitions) ==> x.definitionId !in defs)
            && (forall x :: x in FlatReferences(s.definitions) ==> x.definitionId !in defs)
  {
    StampDefinitionsWithin(root.definitions, next, next + 1);
  }

  /** The teardown of the root with id `staleId` leaves no row of its aggregate. */
  lemma TeardownDrops(t: Tables, staleId: nat, rd: Reads)
    ensures var u, defs := Teardown(t, staleId, rd), DefIds(OldDefinitions(t, staleId, rd));
            && (forall x :: x in u.roots ==> x.id != staleId)
            && (forall x :: x in u.definitions ==> x.rootId != staleId)
            && (forall x :: x in u.advisories ==> x.definitionId !in defs)
            && (forall x :: x in u.packages ==> x.definitionId !in defs)
            && (forall x :: x in u.references ==> x.definitionId !in defs)
  {
    TeardownRows(t, staleId, rd);
  }

  /** No row of a store whose ids lie below `next` is among the rows stamped from `next` on. */
  lemma FreshRows(t: Tables, next: nat, root: RootTree)
    requires Bounded(t, next)
    ensures var s := Stamp(root, next);
            && s.row !in t.roots
            && (forall x :: x in t.definitions ==> x !in FlatDefinitions(s.definitions))
            && (forall x :: x in t.advisories ==> x !in FlatAdvisories(s.definitions))
            && (forall x :: x in t.cves ==> x !in FlatCves(s.definitions))
            && (forall x :: x in t.bugzillas ==> x !in FlatBugzillas(s.definitions))
            && (forall x :: x in t.cpes ==> x !in FlatCpes(s.definitions))
            && (forall x :: x in t.packages ==> x !in FlatPackages(s.definitions))
            && (forall x :: x in t.references ==> x !in FlatReferences(s.definitions))
  {
    StampDefinitionsWithin(root.definitions, next, next + 1);
  }

  /** At most one root per family and OS version. */
  predicate UniqueRootKeys(t: Tables) {
    forall x, y :: x in t.roots && y in t.roots && RootKey(x) == RootKey(y) ==> x == y
  }

  /**
   * A committed refresh replaces the root of its family and OS version: the
   * newly stored root is then the only one with that key, and no two roots
   * share a key afterwards.
   */
  lemma RefreshedReplacesRoot(t: Tables, next: nat, root: RootTree, rd: Reads)
    requires Bounded(t, next) && UniqueRootKeys(t) && !rd.rootFails
    ensures var r, s := Refreshed(t, next, root, rd), Stamp(root, next);
            && s.row in r.roots
            && (forall x :: x in r.roots && RootKey(x) == RootKey(root.row) ==> x == s.row)
            && UniqueRootKeys(r)
  {
    var r, s := Refreshed(t, next, root, rd), Stamp(root, next);
    RefreshedRows(t, next, root, rd);
    assert RootKey(s.row) == RootKey(root.row);
  }

  /**
   * The lookup of an old definition's advisory can miss (it names the
   * relation "Avisory"). When every lookup misses, the old advisories are
   * still deleted by definition id, but their cves survive the refresh,
   * pointing at an advisory that is gone.
   */
  lemma MissedLookupsOrphanCves(t: Tables, next: nat, root: RootTree, rd: Reads, a: Advisory, c: Cve)
    requires Bounded(t, next)
    requires forall i: nat :: !rd.advisoryHit(i)
    requires a in t.advisories && a.definitionId in DefIds(SupersededDefinitions(t, root, rd))
    requires c in t.cves && c.advisoryId == a.id && a.id != 0
    ensures a !in Refreshed(t, next, root, rd).advisories
    ensures c in Refreshed(t, next, root, rd).cves
  {
    MissedLookupsDeleteByZero(t, root, rd);
    RefreshedOldRows(t, next, root, rd);
  }

  /** When every advisory lookup misses, the only advisory id the cve, bugzilla and cpe deletes name is 0. */
  lemma MissedLookupsDeleteByZero(t: Tables, root: RootTree, rd: Reads)
    requires forall i: nat :: !rd.advisoryHit(i)
    ensures forall n :: n in DeletedAdvisoryIds(t, root, rd) ==> n == 0
  {
    if OldRootId(t, root, rd).Some? {
      var defs := OldDefinitions(t, OldRootId(t, root, rd).value, rd);
      var ids := LookupIds(t, defs, rd.advisoryHit);
      forall n | n in Elems(ids)
        ensures n == 0
      {
        var i :| 0 <= i < |ids| && ids[i] == n;
        assert !rd.advisoryHit(i);
      }
    }
  }

  /**
   * When the lookup of the i-th old definition's advisory does find it,
   * every cve of that advisory is gone after the refresh.
   */
  lemma HitLookupRemovesCves(t: Tables, next: nat, root: RootTree, rd: Reads, i: nat, c: Cve)
    requires Bounded(t, next)
    requires i < |SupersededDefinitions(t, root, rd)| && rd.advisoryHit(i)
    requires First(t.advisories, AdvisoryDefinitionId, SupersededDefinitions(t, root, rd)[i].id).Some?
    requires c in t.cves
    requires c.advisoryId == First(t.advisories, AdvisoryDefinitionId, SupersededDefinitions(t, root, rd)[i].id).value.id
    ensures c !in Refreshed(t, next, root, rd).cves
  {
    RefreshedOldRows(t, next, root, rd);
    var staleId := OldRootId(t, root, rd).value;
    var ids := LookupIds(t, OldDefinitions(t, staleId, rd), rd.advisoryHit);
    assert ids[i] == c.advisoryId;
  }

  /**
   * When the lookup of the root being superseded fails other than by finding
   * no row, the teardown runs for root id 0: a stored root of the same family
   * and OS version (with a real id) survives the refresh next to the newly
   * stored one, so two roots then share that family and OS version.
   */
  lemma FailedRootReadKeepsOldRoot(t: Tables, next: nat, root: RootTree, rd: Reads, x: Root)
    requires Bounded(t, next) && rd.rootFails
    requires x in t.roots && RootKey(x) == RootKey(root.row) && x.id != 0
    ensures var r, s := Refreshed(t, next, root, rd), Stamp(root, next);
            && x in r.roots && s.row in r.roots && x != s.row && RootKey(x) == RootKey(s.row)
            && !UniqueRootKeys(r)
  {
    RefreshedOldRows(t, next, root, rd);
    RefreshedRows(t, next, root, rd);
  }

  /**
   * When the read of the old root's definitions fails, the loop over them
   * deletes nothing: the old root and its definitions go, but every old
   * advisory, cve, bugzilla, cpe, package and reference survives the
   * refresh, orphaned.
   */
  lemma FailedDefinitionsReadOrphans(t: Tables, next: nat, root: RootTree, rd: Reads)
    requires Bounded(t, next) && rd.definitionsFail
    ensures var r := Refreshed(t, next, root, rd);
            && (forall x :: x in t.advisories ==> x in r.advisories)
            && (forall x :: x in t.cves ==> x in r.cves)
            && (forall x :: x in t.bugzillas ==> x in r.bugzillas)
            && (forall x :: x in t.cpes ==> x in r.cpes)
            && (forall x :: x in t.packages ==> x in r.packages)
            && (forall x :: x in t.references ==> x in r.references)
  {
    RefreshedOldRows(t, next, root, rd);
    assert DefIds([]) == {} && Elems([]) == {};
  }

  // ---------------------------------------------------------------------------
  // Ids rise in table order

  /** Each table of a list of stamped definitions lists its rows in rising id order. */
  predicate StampedOrdered(ds: seq<DefinitionTree>) {
    && Increasing(FlatDefinitions(ds), DefinitionId)
    && Increasing(FlatAdvisories(ds), AdvisoryId)
    && Increasing(FlatCves(ds), CveId)
    && Increasing(FlatBugzillas(ds), BugzillaId)
    && Increasing(FlatCpes(ds), CpeId)
    && Increasing(FlatPackages(ds), PackageId)
    && Increasing(FlatReferences(ds), ReferenceId)
  }

  /** Subtrees with ascending id ranges, each in rising order, join in rising order. */
  lemma StampedOrderedCons(head: DefinitionTree, rest: seq<DefinitionTree>, lo: nat, mid: nat, hi: nat)
    requires lo <= mid <= hi
    requires StampedWithin([head], lo, mid) && StampedWithin(rest, mid, hi)
    requires StampedOrdered([head]) && StampedOrdered(rest)
    ensures StampedOrdered([head] + rest)
  {
    var all := [head] + rest;
    assert all[1..] == rest && [head][1..] == [];
    assert FlatDefinitions(all) == FlatDefinitions([head]) + FlatDefinitions(rest);
    assert FlatAdvisories(all) == FlatAdvisories([head]) + FlatAdvisories(rest);
    assert FlatCves(all) == FlatCves([head]) + FlatCves(rest);
    assert FlatBugzillas(all) == FlatBugzillas([head]) + FlatBugzillas(rest);
    assert FlatCpes(all) == FlatCpes([head]) + FlatCpes(rest);
    assert FlatPackages(all) == FlatPackages([head]) + FlatPackages(rest);
    assert FlatReferences(all) == FlatReferences([head]) + FlatReferences(rest);
    AppendIncreasing(FlatDefinitions([head]), FlatDefinitions(rest), DefinitionId);
    AppendIncreasing(FlatAdvisories([head]), FlatAdvisories(rest), AdvisoryId);
    AppendIncreasing(FlatCves([head]), FlatCves(rest), CveId);
    AppendIncreasing(FlatBugzillas([head]), FlatBugzillas(rest), BugzillaId);
    AppendIncreasing(FlatCpes([head]), FlatCpes(rest), CpeId);
    AppendIncreasing(FlatPackages([head]), FlatPackages(rest), PackageId);
    AppendIncreasing(FlatReferences([head]), FlatReferences(rest), ReferenceId);
  }

  /** One stamped subtree lists each table's rows in rising id order. */
  lemma StampDefinitionOrdered(d: DefinitionTree, rootId: nat, next: nat)
    ensures StampedOrdered([StampDefinition(d, rootId, next)])
  {
    var s := StampDefinition(d, rootId, next);
    var ds := [s];
    assert ds[1..] == [];
    assert FlatCves(ds) == s.advisory.cves;
    assert FlatBugzillas(ds) == s.advisory.bugzillas;
    assert FlatCpes(ds) == s.advisory.cpes;
    assert FlatPackages(ds) == s.affectedPacks;
    assert FlatReferences(ds) == s.references;
  }

  /** The insert hands ids out in the order it writes the rows, so each stamped table rises. */
  lemma {:induction false} StampDefinitionsOrdered(ds: seq<DefinitionTree>, rootId: nat, next: nat)
    ensures StampedOrdered(StampDefinitions(ds, rootId, next))
  {
    if ds != [] {
      var mid := next + TreeSize(ds[0]);
      var head := StampDefinition(ds[0], rootId, next);
      var rest := StampDefinitions(ds[1..], rootId, mid);
      StampDefinitionWithin(ds[0], rootId, next);
      StampDefinitionsWithin(ds[1..], rootId, mid);
      StampDefinitionOrdered(ds[0], rootId, next);
      StampDefinitionsOrdered(ds[1..], rootId, mid);
      assert StampDefinitions(ds, rootId, next) == [head] + rest;
      StampedOrderedCons(head, rest, next, mid, next + TotalSize(ds));
    }
  }

  /** Appending rows stamped from `next` on to tables whose ids lie below `next` keeps every table in rising id order. */
  lemma InsertOrdered(t: Tables, root: RootTree, next: nat)
    requires Bounded(t, next) && Ordered(t)
    ensures Ordered(Insert(t, Stamp(root, next)))
  {
    var sd := Stamp(root, next).definitions;
    StampDefinitionsWithin(root.definitions, next, next + 1);
    StampDefinitionsOrdered(root.definitions, next, next + 1);
    AppendIncreasing(t.roots, [Stamp(root, next).row], RootId);
    AppendIncreasing(t.definitions, FlatDefinitions(sd), DefinitionId);
    AppendIncreasing(t.advisories, FlatAdvisories(sd), AdvisoryId);
    AppendIncreasing(t.cves, FlatCves(sd), CveId);
    AppendIncreasing(t.bugzillas, FlatBugzillas(sd), BugzillaId);
    AppendIncreasing(t.cpes, FlatCpes(sd), CpeId);
    AppendIncreasing(t.packages, FlatPackages(sd), PackageId);
    AppendIncreasing(t.references, FlatReferences(sd), ReferenceId);
  }

  /** The delete phase keeps every table in rising id order. */
  lemma SupersededOrdered(t: Tables, root: RootTree, rd: Reads)
    requires Ordered(t)
    ensures Ordered(Superseded(t, root, rd))
  {
    var gone, defs, advs := SupersededRootIds(t, root, rd), DefIds(SupersededDefinitions(t, root, rd)), DeletedAdvisoryIds(t, root, rd);
    SupersededRows(t, root, rd);
    WithoutIncreasing(t.roots, RootId, gone, RootId);
    WithoutIncreasing(t.definitions, DefinitionRootId, gone, DefinitionId);
    WithoutIncreasing(t.advisories, AdvisoryDefinitionId, defs, AdvisoryId);
    WithoutIncreasing(t.cves, CveAdvisoryId, advs, CveId);
    WithoutIncreasing(t.bugzillas, BugzillaAdvisoryId, advs, BugzillaId);
    WithoutIncreasing(t.cpes, CpeAdvisoryId, advs, CpeId);
    WithoutIncreasing(t.packages, PackageDefinitionId, defs, PackageId);
    WithoutIncreasing(t.references, ReferenceDefinitionId, defs, ReferenceId);
  }

  /** A committed refresh keeps every table in rising id order. */
  lemma RefreshedOrdered(t: Tables, next: nat, root: RootTree, rd: Reads)
    requires Bounded(t, next) && Ordered(t)
    ensures Ordered(Refreshed(t, next, root, rd))
  {
    SupersededBounded(t, root, rd, next);
    SupersededOrdered(t, root, rd);
    InsertOrdered(Superseded(t, root, rd), root, next);
  }

  /**
   * The store invariant: the counter starts at 1, every id and parent id
   * lies below it, no row has id 0, and every table rises in id order.
   */
  predicate StoreInvariant(t: Tables, next: nat) {
    1 <= next && Bounded(t, next) && NonzeroIds(t) && Ordered(t)
  }

  /** A committed refresh keeps the store invariant, the counter advanced past the new rows. */
  lemma RefreshedInvariant(t: Tables, next: nat, root: RootTree, rd: Reads)
    requires StoreInvariant(t, next)
    ensures StoreInvariant(Refreshed(t, next, root, rd), NextAfter(next, root))
  {
    RefreshedBounded(t, next, root, rd);
    RefreshedOrdered(t, next, root, rd);
    RefreshedNonzeroIds(t, next, root, rd);
  }

  // ---------------------------------------------------------------------------
  // Other roots' aggregates are left alone

  /** The delete phase introduces no row. */
  lemma SupersededNonzeroIds(t: Tables, root: RootTree, rd: Reads)
    requires NonzeroIds(t)
    ensures NonzeroIds(Superseded(t, root, rd))
  {
    SupersededRows(t, root, rd);
  }

  /** The insert hands out ids from a counter that starts at 1. */
  lemma InsertNonzeroIds(t: Tables, root: RootTree, next: nat)
    requires 1 <= next && NonzeroIds(t)
    ensures NonzeroIds(Insert(t, Stamp(root, next)))
  {
    StampDefinitionsWithin(root.definitions, next, next + 1);
  }

  /** A committed refresh hands out no id 0. */
  lemma RefreshedNonzeroIds(t: Tables, next: nat, root: RootTree, rd: Reads)
    requires 1 <= next && NonzeroIds(t)
    ensures NonzeroIds(Refreshed(t, next, root, rd))
  {
    SupersededNonzeroIds(t, root, rd);
    InsertNonzeroIds(Superseded(t, root, rd), root, next);
  }

  /** A root of another family or OS version is not the one a refresh supersedes. */
  lemma OtherRootNotSuperseded(t: Tables, root: RootTree, rd: Reads, x: Root)
    requires NonzeroIds(t) && Ordered(t)
    requires x in t.roots && RootKey(x) != RootKey(root.row)
    ensures x.id !in SupersededRootIds(t, root, rd)
  {
    if !rd.rootFails && OldRootId(t, root, rd).Some? {
      var y :| y in t.roots && RootKey(y) == RootKey(root.row) && y.id == OldRootId(t, root, rd).value;
      if x.id == y.id {
        IncreasingUnique(t.roots, RootId, x, y);
      }
    }
  }

  /** A definition whose root is not superseded is not one the teardown loop visits. */
  lemma KeptDefinitionNotVisited(t: Tables, root: RootTree, rd: Reads, d: Definition)
    requires Ordered(t)
    requires d in t.definitions && d.rootId !in SupersededRootIds(t, root, rd)
    ensures d.id !in DefIds(SupersededDefinitions(t, root, rd))
  {
    var defs := SupersededDefinitions(t, root, rd);
    if d.id in DefIds(defs) {
      var e :| e in defs && e.id == d.id;
      IncreasingUnique(t.definitions, DefinitionId, d, e);
    }
  }

  /** An advisory of a definition the loop does not visit keeps its cves, bugzillas and cpes. */
  lemma KeptAdvisoryNotLookedUp(t: Tables, root: RootTree, rd: Reads, a: Advisory)
    requires NonzeroIds(t) && Ordered(t)
    requires a in t.advisories && a.definitionId !in DefIds(SupersededDefinitions(t, root, rd))
    ensures a.id !in DeletedAdvisoryIds(t, root, rd)
  {
    if OldRootId(t, root, rd).Some? {
      var defs := OldDefinitions(t, OldRootId(t, root, rd).value, rd);
      var ids := LookupIds(t, defs, rd.advisoryHit);
      assert DeletedAdvisoryIds(t, root, rd) == Elems(ids);
      if a.id in Elems(ids) {
        var i :| 0 <= i < |ids| && ids[i] == a.id;
        assert ids[i] == AdvisoryLookup(t, defs[i], rd.advisoryHit(i));
        var b :| b in t.advisories && b.definitionId == defs[i].id && b.id == a.id;
        IncreasingUnique(t.advisories, AdvisoryId, a, b);
      }
    }
  }

  /**
   * A committed refresh leaves the aggregate of every other family and OS
   * version alone: its root, its definitions, and their advisories, packages
   * and references all survive.
   */
  lemma RefreshedKeepsOtherRoots(t: Tables, next: nat, root: RootTree, rd: Reads, x: Root)
    requires Bounded(t, next) && NonzeroIds(t) && Ordered(t)
    requires x in t.roots && RootKey(x) != RootKey(root.row)
    ensures var r := Refreshed(t, next, root, rd);
            && x in r.roots
            && (forall d :: d in t.definitions && d.rootId == x.id ==> d in r.definitions)
            && (forall d, a :: d in t.definitions && d.rootId == x.id && a in t.advisories && a.definitionId == d.id ==> a in r.advisories)
            && (forall d, p :: d in t.definitions && d.rootId == x.id && p in t.packages && p.definitionId == d.id ==> p in r.packages)
            && (forall d, e :: d in t.definitions && d.rootId == x.id && e in t.references && e.definitionId == d.id ==> e in r.references)
  {
    RefreshedOldRows(t, next, root, rd);
    OtherRootNotSuperseded(t, root, rd, x);
    forall d | d in t.definitions && d.rootId == x.id
      ensures d.id !in DefIds(SupersededDefinitions(t, root, rd))
    {
      KeptDefinitionNotVisited(t, root, rd, d);
    }
  }

  /** The same for the cves, bugzillas and cpes of another family's and OS version's advisories. */
  lemma RefreshedKeepsOtherAdvisoryChildren(t: Tables, next: nat, root: RootTree, rd: Reads, x: Root)
    requires Bounded(t, next) && NonzeroIds(t) && Ordered(t)
    requires x in t.roots && RootKey(x) != RootKey(root.row)
    ensures var r := Refreshed(t, next, root, rd);
            && (forall d, a, c :: d in t.definitions && d.rootId == x.id && a in t.advisories && a.definitionId == d.id && c in t.cves && c.advisoryId == a.id ==> c in r.cves)
            && (forall d, a, b :: d in t.definitions && d.rootId == x.id && a in t.advisories && a.definitionId == d.id && b in t.bugzillas && b.advisoryId == a.id ==> b in r.bugzillas)
            && (forall d, a, c :: d in t.definitions && d.rootId == x.id && a in t.advisories && a.definitionId == d.id && c in t.cpes && c.advisoryId == a.id ==> c in r.cpes)
  {
    RefreshedOldRows(t, next, root, rd);
    OtherRootNotSuperseded(t, root, rd, x);
    forall d, a | d in t.definitions && d.rootId == x.id && a in t.advisories && a.definitionId == d.id
      ensures a.id !in DeletedAdvisoryIds(t, root, rd)
    {
      KeptDefinitionNotVisited(t, root, rd, d);
      KeptAdvisoryNotLookedUp(t, root, rd, a);
    }
  }

  // ---------------------------------------------------------------------------
  // No orphans when every read succeeds

  /** Every row's parent is stored: the aggregates have no orphans. */
  predicate Linked(t: Tables) {
    && (forall d :: d in t.definitions ==> exists x :: x in t.roots && x.id == d.rootId)
    && (forall a :: a in t.advisories ==> exists d :: d in t.definitions && d.id == a.definitionId)
    && (forall c :: c in t.cves ==> exists a :: a in t.advisories && a.id == c.advisoryId)
    && (forall b :: b in t.bugzillas ==> exists a :: a in t.advisories && a.id == b.advisoryId)
    && (forall c :: c in t.cpes ==> exists a :: a in t.advisories && a.id == c.advisoryId)
    && (forall p :: p in t.packages ==> exists d :: d in t.definitions && d.id == p.definitionId)
    && (forall e :: e in t.references ==> exists d :: d in t.definitions && d.id == e.definitionId)
  }

  /** At most one advisory per definition, as the insert stores them. */
  predicate OneAdvisoryPerDefinition(t: Tables) {
    forall a, b :: a in t.advisories && b in t.advisories && a.definitionId == b.definitionId ==> a == b
  }

  /** The insert writes each advisory with the id right after its definition's. */
  lemma {:induction false} StampedAdvisoryFollowsDefinition(ds: seq<DefinitionTree>, rootId: nat, next: nat)
    ensures forall a :: a in FlatAdvisories(StampDefinitions(ds, rootId, next)) ==> a.id == a.definitionId + 1
  {
    if ds != [] {
      var all := StampDefinitions(ds, rootId, next);
      var h := StampDefinition(ds[0], rootId, next);
      var rest := StampDefinitions(ds[1..], rootId, next + TreeSize(ds[0]));
      StampedAdvisoryFollowsDefinition(ds[1..], rootId, next + TreeSize(ds[0]));
      assert all[0] == h && all[1..] == rest;
      assert FlatAdvisories(all) == [h.advisory.row] + FlatAdvisories(rest);
    }
  }

  /**
   * A committed refresh keeps one advisory per definition: the insert writes
   * one advisory per new definition, and new definitions take ids no old
   * advisory names.
   */
  lemma RefreshedOneAdvisory(t: Tables, next: nat, root: RootTree, rd: Reads)
    requires Bounded(t, next) && OneAdvisoryPerDefinition(t)
    ensures OneAdvisoryPerDefinition(Refreshed(t, next, root, rd))
  {
    var sd := Stamp(root, next).definitions;
    RefreshedRows(t, next, root, rd);
    StampDefinitionsWithin(root.definitions, next, next + 1);
    StampDefinitionsOrdered(root.definitions, next, next + 1);
    StampedAdvisoryFollowsDefinition(root.definitions, next, next + 1);
    OneAdvisoryAfterInsert(t.advisories, FlatAdvisories(sd), Refreshed(t, next, root, rd).advisories, next);
  }

  /**
   * Advisories drawn from an old table with one advisory per definition, all
   * below `next`, and from new rows whose definitions lie at `next` or above,
   * each advisory one past its definition, keep one advisory per definition.
   */
  lemma OneAdvisoryAfterInsert(olds: seq<Advisory>, news: seq<Advisory>, r: seq<Advisory>, next: nat)
    requires forall a, b :: a in olds && b in olds && a.definitionId == b.definitionId ==> a == b
    requires forall a :: a in olds ==> a.definitionId < next
    requires forall a :: a in news ==> next <= a.definitionId && a.id == a.definitionId + 1
    requires Increasing(news, AdvisoryId)
    requires forall a :: a in r ==> a in olds || a in news
    ensures forall a, b :: a in r && b in r && a.definitionId == b.definitionId ==> a == b
  {
    forall a, b | a in news && b in news && a.definitionId == b.definitionId
      ensures a == b
    {
      IncreasingUnique(news, AdvisoryId, a, b);
    }
  }

  /**
   * Refresh after refresh, a store without orphans stays without them while
   * every read succeeds: both hypotheses of `RefreshedLinked` hold again
   * after it.
   */
  lemma RefreshedStaysLinked(t: Tables, next: nat, root: RootTree, rd: Reads)
    requires Bounded(t, next) && Linked(t) && OneAdvisoryPerDefinition(t)
    requires !rd.definitionsFail && forall i: nat :: rd.advisoryHit(i)
    ensures Linked(Refreshed(t, next, root, rd)) && OneAdvisoryPerDefinition(Refreshed(t, next, root, rd))
  {
    RefreshedLinked(t, next, root, rd);
    RefreshedOneAdvisory(t, next, root, rd);
  }

  /** Inside a list of definition trees, every advisory, package and reference has its definition among the list's rows. */
  predicate FlatLinkedToDefinitions(ds: seq<DefinitionTree>) {
    && (forall a :: a in FlatAdvisories(ds) ==> exists d :: d in FlatDefinitions(ds) && d.id == a.definitionId)
    && (forall p :: p in FlatPackages(ds) ==> exists d :: d in FlatDefinitions(ds) && d.id == p.definitionId)
    && (forall e :: e in FlatReferences(ds) ==> exists d :: d in FlatDefinitions(ds) && d.id == e.definitionId)
  }

  /** Inside a list of definition trees, every cve, bugzilla and cpe has its advisory among the list's rows. */
  predicate FlatLinkedToAdvisories(ds: seq<DefinitionTree>) {
    && (forall c :: c in FlatCves(ds) ==> exists a :: a in FlatAdvisories(ds) && a.id == c.advisoryId)
    && (forall b :: b in FlatBugzillas(ds) ==> exists a :: a in FlatAdvisories(ds) && a.id == b.advisoryId)
    && (forall c :: c in FlatCpes(ds) ==> exists a :: a in FlatAdvisories(ds) && a.id == c.advisoryId)
  }

  /** The insert links every stored advisory, package and reference to a stored definition of the same aggregate. */
  lemma {:induction false} StampedLinkedToDefinitions(ds: seq<DefinitionTree>, rootId: nat, next: nat)
    ensures FlatLinkedToDefinitions(StampDefinitions(ds, rootId, next))
  {
    if ds != [] {
      var all := StampDefinitions(ds, rootId, next);
      var h := StampDefinition(ds[0], rootId, next);
      var rest := StampDefinitions(ds[1..], rootId, next + TreeSize(ds[0]));
      StampedLinkedToDefinitions(ds[1..], rootId, next + TreeSize(ds[0]));
      StampDefinitionLinks(ds[0], rootId, next);
      assert all[0] == h && all[1..] == rest;
      assert FlatDefinitions(all) == [h.row] + FlatDefinitions(rest);
      assert FlatAdvisories(all) == [h.advisory.row] + FlatAdvisories(rest);
      assert FlatPackages(all) == h.affectedPacks + FlatPackages(rest);
      assert FlatReferences(all) == h.references + FlatReferences(rest);
    }
  }

  /** The insert links every stored cve, bugzilla and cpe to a stored advisory of the same aggregate. */
  lemma {:induction false} StampedLinkedToAdvisories(ds: seq<DefinitionTree>, rootId: nat, next: nat)
    ensures FlatLinkedToAdvisories(StampDefinitions(ds, rootId, next))
  {
    if ds != [] {
      var all := StampDefinitions(ds, rootId, next);
      var h := StampDefinition(ds[0], rootId, next);
      var rest := StampDefinitions(ds[1..], rootId, next + TreeSize(ds[0]));
      StampedLinkedToAdvisories(ds[1..], rootId, next + TreeSize(ds[0]));
      StampDefinitionLinks(ds[0], rootId, next);
      assert all[0] == h && all[1..] == rest;
      assert FlatAdvisories(all) == [h.advisory.row] + FlatAdvisories(rest);
      assert FlatCves(all) == h.advisory.cves + FlatCves(rest);
      assert FlatBugzillas(all) == h.advisory.bugzillas + FlatBugzillas(rest);
      assert FlatCpes(all) == h.advisory.cpes + FlatCpes(rest);
    }
  }

  /**
   * With the definitions read in full, the parent definition of a row the
   * loop spared is not under the superseded root.
   */
  lemma SparedParentDefinition(t: Tables, root: RootTree, rd: Reads, d: Definition)
    requires !rd.definitionsFail
    requires d in t.definitions && d.id !in DefIds(SupersededDefinitions(t, root, rd))
    ensures d.rootId !in SupersededRootIds(t, root, rd)
  {
  }

  /**
   * With every advisory lookup finding its row and one advisory per
   * definition, the advisory of a definition the loop visits has its id
   * looked up, so its cves, bugzillas and cpes are deleted.
   */
  lemma VisitedAdvisoryLookedUp(t: Tables, root: RootTree, rd: Reads, a: Advisory)
    requires OneAdvisoryPerDefinition(t) && forall i: nat :: rd.advisoryHit(i)
    requires a in t.advisories
    ensures a.definitionId in DefIds(SupersededDefinitions(t, root, rd)) ==> a.id in DeletedAdvisoryIds(t, root, rd)
  {
    if OldRootId(t, root, rd).Some? {
      var defs := OldDefinitions(t, OldRootId(t, root, rd).value, rd);
      var ids := LookupIds(t, defs, rd.advisoryHit);
      if a.definitionId in DefIds(defs) {
        var e :| e in defs && e.id == a.definitionId;
        var i :| 0 <= i < |defs| && defs[i] == e;
        assert ids[i] == AdvisoryLookup(t, defs[i], rd.advisoryHit(i));
        assert ids[i] == a.id;
        assert a.id in Elems(ids);
      }
    }
  }

  /** A committed refresh with every read succeeding keeps each stored definition's root stored. */
  lemma RefreshedLinksDefinitions(t: Tables, next: nat, root: RootTree, rd: Reads)
    requires Linked(t) && !rd.definitionsFail
    ensures var r := Refreshed(t, next, root, rd);
            && (forall d :: d in r.definitions ==> exists x :: x in r.roots && x.id == d.rootId)
            && (forall a :: a in r.advisories ==> exists d :: d in r.definitions && d.id == a.definitionId)
            && (forall p :: p in r.packages ==> exists d :: d in r.definitions && d.id == p.definitionId)
            && (forall e :: e in r.references ==> exists d :: d in r.definitions && d.id == e.definitionId)
  {
    var r, s := Refreshed(t, next, root, rd), Stamp(root, next);
    var sd := s.definitions;
    RefreshedRows(t, next, root, rd);
    StampDefinitionsWithin(root.definitions, next, next + 1);
    StampedLinkedToDefinitions(root.definitions, next, next + 1);
    forall d | d in r.definitions
      ensures exists x :: x in r.roots && x.id == d.rootId
    {
      if d !in FlatDefinitions(sd) {
        var x :| x in t.roots && x.id == d.rootId;
        assert x in r.roots;
      } else {
        assert s.row in r.roots;
      }
    }
    forall a | a in r.advisories
      ensures exists d :: d in r.definitions && d.id == a.definitionId
    {
      if a !in FlatAdvisories(sd) {
        var d :| d in t.definitions && d.id == a.definitionId;
        SparedParentDefinition(t, root, rd, d);
        assert d in r.definitions;
      } else {
        var d :| d in FlatDefinitions(sd) && d.id == a.definitionId;
        assert d in r.definitions;
      }
    }
    forall p | p in r.packages
      ensures exists d :: d in r.definitions && d.id == p.definitionId
    {
      if p !in FlatPackages(sd) {
        var d :| d in t.definitions && d.id == p.definitionId;
        SparedParentDefinition(t, root, rd, d);
        assert d in r.definitions;
      } else {
        var d :| d in FlatDefinitions(sd) && d.id == p.definitionId;
        assert d in r.definitions;
      }
    }
    forall e | e in r.references
      ensures exists d :: d in r.definitions && d.id == e.definitionId
    {
      if e !in FlatReferences(sd) {
        var d :| d in t.definitions && d.id == e.definitionId;
        SparedParentDefinition(t, root, rd, d);
        assert d in r.definitions;
      } else {
        var d :| d in FlatDefinitions(sd) && d.id == e.definitionId;
        assert d in r.definitions;
      }
    }
  }

  /** The same for the cves, bugzillas and cpes and their advisories. */
  lemma RefreshedLinksAdvisories(t: Tables, next: nat, root: RootTree, rd: Reads)
    requires Linked(t) && OneAdvisoryPerDefinition(t) && forall i: nat :: rd.advisoryHit(i)
    ensures var r := Refreshed(t, next, root, rd);
            && (forall c :: c in r.cves ==> exists a :: a in r.advisories && a.id == c.advisoryId)
            && (forall b :: b in r.bugzillas ==> exists a :: a in r.advisories && a.id == b.advisoryId)
            && (forall c :: c in r.cpes ==> exists a :: a in r.advisories && a.id == c.advisoryId)
  {
    var r, s := Refreshed(t, next, root, rd), Stamp(root, next);
    var sd := s.definitions;
    RefreshedRows(t, next, root, rd);
    StampedLinkedToAdvisories(root.definitions, next, next + 1);
    forall c | c in r.cves
      ensures exists a :: a in r.advisories && a.id == c.advisoryId
    {
      if c !in FlatCves(sd) {
        var a :| a in t.advisories && a.id == c.advisoryId;
        VisitedAdvisoryLookedUp(t, root, rd, a);
        assert a in r.advisories;
      } else {
        var a :| a in FlatAdvisories(sd) && a.id == c.advisoryId;
        assert a in r.advisories;
      }
    }
    forall b | b in r.bugzillas
      ensures exists a :: a in r.advisories && a.id == b.advisoryId
    {
      if b !in FlatBugzillas(sd) {
        var a :| a in t.advisories && a.id == b.advisoryId;
        VisitedAdvisoryLookedUp(t, root, rd, a);
        assert a in r.advisories;
      } else {
        var a :| a in FlatAdvisories(sd) && a.id == b.advisoryId;
        assert a in r.advisories;
      }
    }
    forall c | c in r.cpes
      ensures exists a :: a in r.advisories && a.id == c.advisoryId
    {
      if c !in FlatCpes(sd) {
        var a :| a in t.advisories && a.id == c.advisoryId;
        VisitedAdvisoryLookedUp(t, root, rd, a);
        assert a in r.advisories;
      } else {
        var a :| a in FlatAdvisories(sd) && a.id == c.advisoryId;
        assert a in r.advisories;
      }
    }
  }

  /**
   * When every read succeeds and each definition has at most one advisory,
   * a committed refresh leaves no orphans behind: every stored row's parent
   * is still stored.
   */
  lemma RefreshedLinked(t: Tables, next: nat, root: RootTree, rd: Reads)
    requires Linked(t) && OneAdvisoryPerDefinition(t)
    requires !rd.definitionsFail && forall i: nat :: rd.advisoryHit(i)
    ensures Linked(Refreshed(t, next, root, rd))
  {
    RefreshedLinksDefinitions(t, next, root, rd);
    RefreshedLinksAdvisories(t, next, root, rd);
  }

  // ---------------------------------------------------------------------------
  // The stored aggregate reads back as it was ingested

  /** Within one stamped subtree every child carries its parent's new id. */
  lemma StampDefinitionLinks(d: DefinitionTree, rootId: nat, next: nat)
    ensures var h := StampDefinition(d, rootId, next);
            && h.row.id == next && h.advisory.row.id == next + 1 && h.advisory.row.definitionId == next
            && (forall x :: x in h.advisory.cves ==> x.advisoryId == next + 1)
            && (forall x :: x in h.advisory.bugzillas ==> x.advisoryId == next + 1)
            && (forall x :: x in h.advisory.cpes ==> x.advisoryId == next + 1)
            && (forall x :: x in h.affectedPacks ==> x.definitionId == next)
            && (forall x :: x in h.references ==> x.definitionId == next)
  {
    var h := StampDefinition(d, rootId, next);
    forall x | x in h.advisory.cves ensures x.advisoryId == next + 1 {
      var i :| 0 <= i < |h.advisory.cves| && h.advisory.cves[i] == x;
    }
    forall x | x in h.advisory.bugzillas ensures x.advisoryId == next + 1 {
      var i :| 0 <= i < |h.advisory.bugzillas| && h.advisory.bugzillas[i] == x;
    }
    forall x | x in h.advisory.cpes ensures x.advisoryId == next + 1 {
      var i :| 0 <= i < |h.advisory.cpes| && h.advisory.cpes[i] == x;
    }
    forall x | x in h.affectedPacks ensures x.definitionId == next {
      var i :| 0 <= i < |h.affectedPacks| && h.affectedPacks[i] == x;
    }
    forall x | x in h.references ensures x.definitionId == next {
      var i :| 0 <= i < |h.references| && h.references[i] == x;
    }
  }

  /** The k-th stamped definition and its advisory take ids from `next` on, the advisory pointing at the definition. */
  lemma {:induction false} StampedIds(ds: seq<DefinitionTree>, rootId: nat, next: nat, k: nat)
    requires k < |ds|
    ensures var h := StampDefinitions(ds, rootId, next)[k];
            next <= h.row.id && h.advisory.row.id == h.row.id + 1 && h.advisory.row.definitionId == h.row.id
  {
    if k > 0 {
      StampedIds(ds[1..], rootId, next + TreeSize(ds[0]), k - 1);
    }
  }

  /**
   * In a stamped list of definitions, looking up the rows that hang off the
   * k-th definition by its new id returns exactly its advisory, packages and
   * references, in their order.
   */
  lemma {:induction false} StampedDefinitionChildren(ds: seq<DefinitionTree>, rootId: nat, next: nat, k: nat)
    requires k < |ds|
    ensures var sd := StampDefinitions(ds, rootId, next);
            var h := sd[k];
            && Where(FlatAdvisories(sd), AdvisoryDefinitionId, h.row.id) == [h.advisory.row]
            && Where(FlatPackages(sd), PackageDefinitionId, h.row.id) == h.affectedPacks
            && Where(FlatReferences(sd), ReferenceDefinitionId, h.row.id) == h.references
  {
    var sd := StampDefinitions(ds, rootId, next);
    var first := StampDefinition(ds[0], rootId, next);
    var mid := next + TreeSize(ds[0]);
    var rest := StampDefinitions(ds[1..], rootId, mid);
    assert sd == [first] + rest;
    assert sd[1..] == rest;
    StampDefinitionLinks(ds[0], rootId, next);
    var id := sd[k].row.id;
    assert FlatAdvisories(sd) == [first.advisory.row] + FlatAdvisories(rest);
    assert FlatPackages(sd) == first.affectedPacks + FlatPackages(rest);
    assert FlatReferences(sd) == first.references + FlatReferences(rest);
    if k == 0 {
      StampDefinitionsWithin(ds[1..], rootId, mid);
      WhereFirstPart([first.advisory.row], FlatAdvisories(rest), AdvisoryDefinitionId, id);
      WhereFirstPart(first.affectedPacks, FlatPackages(rest), PackageDefinitionId, id);
      WhereFirstPart(first.references, FlatReferences(rest), ReferenceDefinitionId, id);
    } else {
      StampedIds(ds[1..], rootId, mid, k - 1);
      StampedDefinitionChildren(ds[1..], rootId, mid, k - 1);
      assert sd[k] == rest[k - 1];
      WhereSecondPart([first.advisory.row], FlatAdvisories(rest), AdvisoryDefinitionId, id);
      WhereSecondPart(first.affectedPacks, FlatPackages(rest), PackageDefinitionId, id);
      WhereSecondPart(first.references, FlatReferences(rest), ReferenceDefinitionId, id);
    }
  }

  /**
   * In a stamped list of definitions, looking up the rows that hang off the
   * k-th definition's advisory by its new id returns exactly its cves,
   * bugzillas and cpes, in their order.
   */
  lemma {:induction false} StampedAdvisoryChildren(ds: seq<DefinitionTree>, rootId: nat, next: nat, k: nat)
    requires k < |ds|
    ensures var sd := StampDefinitions(ds, rootId, next);
            var h := sd[k];
            && Where(FlatCves(sd), CveAdvisoryId, h.advisory.row.id) == h.advisory.cves
            && Where(FlatBugzillas(sd), BugzillaAdvisoryId, h.advisory.row.id) == h.advisory.bugzillas
            && Where(FlatCpes(sd), CpeAdvisoryId, h.advisory.row.id) == h.advisory.cpes
  {
    var sd := StampDefinitions(ds, rootId, next);
    var first := StampDefinition(ds[0], rootId, next);
    var mid := next + TreeSize(ds[0]);
    var rest := StampDefinitions(ds[1..], rootId, mid);
    assert sd == [first] + rest;
    assert sd[1..] == rest;
    StampDefinitionLinks(ds[0], rootId, next);
    var id := sd[k].advisory.row.id;
    assert FlatCves(sd) == first.advisory.cves + FlatCves(rest);
    assert FlatBugzillas(sd) == first.advisory.bugzillas + FlatBugzillas(rest);
    assert FlatCpes(sd) == first.advisory.cpes + FlatCpes(rest);
    if k == 0 {
      StampDefinitionsWithin(ds[1..], rootId, mid);
      WhereFirstPart(first.advisory.cves, FlatCves(rest), CveAdvisoryId, id);
      WhereFirstPart(first.advisory.bugzillas, FlatBugzillas(rest), BugzillaAdvisoryId, id);
      WhereFirstPart(first.advisory.cpes, FlatCpes(rest), CpeAdvisoryId, id);
    } else {
      StampedIds(ds[1..], rootId, mid, k - 1);
      StampedAdvisoryChildren(ds[1..], rootId, mid, k - 1);
      assert sd[k] == rest[k - 1];
      WhereSecondPart(first.advisory.cves, FlatCves(rest), CveAdvisoryId, id);
      WhereSecondPart(first.advisory.bugzillas, FlatBugzillas(rest), BugzillaAdvisoryId, id);
      WhereSecondPart(first.advisory.cpes, FlatCpes(rest), CpeAdvisoryId, id);
    }
  }

  // The content of a tree, with every id and parent id cleared.

  function StripCves(cs: seq<Cve>): seq<Cve> {
    seq(|cs|, i requires 0 <= i < |cs| => Cve(0, 0, cs[i].cveId))
  }

  function StripBugzillas(bs: seq<Bugzilla>): seq<Bugzilla> {
    seq(|bs|, i requires 0 <= i < |bs| => Bugzilla(0, 0, bs[i].url))
  }

  function StripCpes(cs: seq<Cpe>): seq<Cpe> {
    seq(|cs|, i requires 0 <= i < |cs| => Cpe(0, 0, cs[i].name))
  }

  function StripPackages(ps: seq<Package>): seq<Package> {
    seq(|ps|, i requires 0 <= i < |ps| => Package(0, 0, ps[i].name, ps[i].version))
  }

  function StripReferences(rs: seq<Reference>): seq<Reference> {
    seq(|rs|, i requires 0 <= i < |rs| => Reference(0, 0, rs[i].refId))
  }

  function Content(d: DefinitionTree): DefinitionTree {
    DefinitionTree(
      Definition(0, 0, d.row.title),
      AdvisoryTree(Advisory(0, 0, d.advisory.row.severity), StripCves(d.advisory.cves),
                   StripBugzillas(d.advisory.bugzillas), StripCpes(d.advisory.cpes)),
      StripPackages(d.affectedPacks),
      StripReferences(d.references))
  }

  /** Stamping changes ids only: the k-th stored definition has the k-th ingested one's content, in order. */
  lemma {:induction false} StampKeepsContent(ds: seq<DefinitionTree>, rootId: nat, next: nat, k: nat)
    requires k < |ds|
    ensures Content(StampDefinitions(ds, rootId, next)[k]) == Content(ds[k])
  {
    if k > 0 {
      StampKeepsContent(ds[1..], rootId, next + TreeSize(ds[0]), k - 1);
    }
  }
}
