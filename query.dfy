/**
 * What the two lookups return: starting from the Package rows with a given
 * name (GetByPackName) or the Cve rows with a given CVE id (GetByCveID), walk
 * the parent links up to the Root, keep the definitions whose root is RedHat
 * at the requested major version, and hydrate each kept definition.
 *
 * These functions are the specification the imperative lookups (module
 * RedHatDb) are proved against; the lemmas state what a lookup guarantees.
 */
module Query {
  import opened Models
  import opened Store
  import opened MajorFilter

  /**
   * The definition with id `defId` and that definition's root, or None when
   * either lookup by id finds no row (gorm's RecordNotFound).
   */
  function Chain(t: Tables, defId: nat): (c: Option<(Definition, Root)>)
    ensures c.Some? ==> c.value.0 in t.definitions && c.value.0.id == defId
    ensures c.Some? ==> c.value.1 in t.roots && c.value.1.id == c.value.0.rootId
  {
    match First(t.definitions, DefinitionId, defId)
    case None => None
    case Some(d) =>
      match First(t.roots, RootId, d.rootId)
      case None => None
      case Some(r) => Some((d, r))
  }

  /** Package -> Definition -> Root. */
  function PackageChain(t: Tables, p: Package): Option<(Definition, Root)> {
    Chain(t, p.definitionId)
  }

  /** Cve -> Advisory -> Definition -> Root. */
  function CveChain(t: Tables, c: Cve): Option<(Definition, Root)> {
    match First(t.advisories, AdvisoryId, c.advisoryId)
    case None => None
    case Some(a) => Chain(t, a.definitionId)
  }

  function PackageChains(t: Tables, packs: seq<Package>): (cs: seq<Option<(Definition, Root)>>)
    ensures |cs| == |packs|
  {
    seq(|packs|, i requires 0 <= i < |packs| => PackageChain(t, packs[i]))
  }

  function CveChains(t: Tables, cves: seq<Cve>): (cs: seq<Option<(Definition, Root)>>)
    ensures |cs| == |cves|
  {
    seq(|cves|, i requires 0 <= i < |cves| => CveChain(t, cves[i]))
  }

  /** One entry of the chain list: the chain of that Cve row. */
  lemma CveChainsAt(t: Tables, cves: seq<Cve>, i: nat)
    requires i < |cves|
    ensures CveChains(t, cves)[i] == CveChain(t, cves[i])
  {
  }

  /** The family and version filter: a RedHat root whose OS version has the requested major version. */
  predicate InScope(r: Root, major: string -> string, majorVer: string) {
    r.family == RedHat && major(r.osVersion) == majorVer
  }

  /** The definitions of the resolved chains that pass the filter, one per chain, in chain order. */
  function Scoped(chains: seq<Option<(Definition, Root)>>, major: string -> string, majorVer: string): (r: seq<Definition>)
    ensures |r| <= |chains|
  {
    if chains == [] then []
    else
      var last := chains[|chains| - 1];
      Scoped(chains[..|chains| - 1], major, majorVer)
        + (if last.Some? && InScope(last.value.1, major, majorVer) then [last.value.0] else [])
  }

  /** The first loop of a lookup: NotFound if any chain breaks, otherwise the kept definitions. */
  function Candidates(chains: seq<Option<(Definition, Root)>>, major: string -> string, majorVer: string)
    : (r: Result<seq<Definition>>)
    ensures r.Failure? <==> exists i :: 0 <= i < |chains| && chains[i].None?
    ensures r.Failure? ==> r.error == NotFound
  {
    if forall i :: 0 <= i < |chains| ==> chains[i].Some? then Success(Scoped(chains, major, majorVer))
    else Failure(NotFound)
  }

  /**
   * One definition with its associations loaded: its advisory (the first
   * whose definition id matches; NotFound if none) with all of that
   * advisory's cves, bugzillas and cpes, its packages filtered by major
   * version, and all its references.
   */
  function Hydrate(t: Tables, majorVer: string, d: Definition): (r: Result<DefinitionTree>)
    ensures r.Failure? <==> forall a :: a in t.advisories ==> a.definitionId != d.id
    ensures r.Failure? ==> r.error == NotFound
    ensures r.Success? ==> r.value.row == d && r.value.advisory.row in t.advisories
                           && r.value.advisory.row.definitionId == d.id
  {
    match First(t.advisories, AdvisoryDefinitionId, d.id)
    case None => Failure(NotFound)
    case Some(a) =>
      Success(DefinitionTree(
        d,
        AdvisoryTree(a, Where(t.cves, CveAdvisoryId, a.id), Where(t.bugzillas, BugzillaAdvisoryId, a.id),
                     Where(t.cpes, CpeAdvisoryId, a.id)),
        KeepMajor(Where(t.packages, PackageDefinitionId, d.id), majorVer),
        Where(t.references, ReferenceDefinitionId, d.id)))
  }

  /** The second loop of a lookup: NotFound if any definition fails to hydrate, otherwise all of them hydrated. */
  function HydrateAll(t: Tables, majorVer: string, defs: seq<Definition>): Result<seq<DefinitionTree>> {
    if forall i :: 0 <= i < |defs| ==> Hydrate(t, majorVer, defs[i]).Success? then
      Success(seq(|defs|, i requires 0 <= i < |defs| => Hydrate(t, majorVer, defs[i]).value))
    else Failure(NotFound)
  }

  /** A list that agrees with Hydrate on every definition is the hydration of the list. */
  lemma HydrateAllPointwise(t: Tables, majorVer: string, defs: seq<Definition>, out: seq<DefinitionTree>)
    requires |out| == |defs|
    requires forall j :: 0 <= j < |defs| ==> Hydrate(t, majorVer, defs[j]) == Success(out[j])
    ensures HydrateAll(t, majorVer, defs) == Success(out)
  {
    var all := seq(|defs|, i requires 0 <= i < |defs| => Hydrate(t, majorVer, defs[i]).value);
    assert all == out;
  }

  /** The definition rows of a list of (possibly hydrated) definitions. */
  function Rows(ts: seq<DefinitionTree>): (ds: seq<Definition>)
    ensures |ds| == |ts|
    ensures forall i :: 0 <= i < |ts| ==> ds[i] == ts[i].row
  {
    seq(|ts|, i requires 0 <= i < |ts| => ts[i].row)
  }

  /** One more chain adds its definition when it resolves and passes the filter. */
  lemma ScopedStep(chains: seq<Option<(Definition, Root)>>, major: string -> string, majorVer: string, i: nat)
    requires i < |chains|
    ensures Scoped(chains[..i + 1], major, majorVer)
         == Scoped(chains[..i], major, majorVer)
            + (if chains[i].Some? && InScope(chains[i].value.1, major, majorVer) then [chains[i].value.0] else [])
  {
    assert chains[..i + 1][..i] == chains[..i];
  }

  /** One more resolved chain extends the candidate list exactly when its root is in scope. */
  lemma ScopedRowsStep(defs: seq<DefinitionTree>, chains: seq<Option<(Definition, Root)>>, major: string -> string,
                       majorVer: string, i: nat, def: Definition, root: Root)
    requires i < |chains| && chains[i] == Some((def, root))
    requires Rows(defs) == Scoped(chains[..i], major, majorVer)
    ensures Rows(if InScope(root, major, majorVer) then defs + [Unhydrated(def)] else defs)
         == Scoped(chains[..i + 1], major, majorVer)
  {
    ScopedStep(chains, major, majorVer, i);
    RowsAppend(defs, Unhydrated(def));
  }

  lemma RowsAppend(ts: seq<DefinitionTree>, t: DefinitionTree)
    ensures Rows(ts + [t]) == Rows(ts) + [t.row]
  {
  }

  /** A lookup from its chains: the candidates, then their hydration. */
  function Lookup(t: Tables, chains: seq<Option<(Definition, Root)>>, major: string -> string, majorVer: string)
    : Result<seq<DefinitionTree>>
  {
    match Candidates(chains, major, majorVer)
    case Failure(e) => Failure(e)
    case Success(defs) => HydrateAll(t, majorVer, defs)
  }

  /** GetByPackName(osVer, packName). */
  function PackNameQuery(t: Tables, major: string -> string, osVer: string, packName: string)
    : Result<seq<DefinitionTree>>
  {
    Lookup(t, PackageChains(t, Where(t.packages, PackageName, packName)), major, major(osVer))
  }

  /** GetByCveID(osVer, cveID). */
  function CveIdQuery(t: Tables, major: string -> string, osVer: string, cveID: string)
    : Result<seq<DefinitionTree>>
  {
    Lookup(t, CveChains(t, Where(t.cves, CveCveId, cveID)), major, major(osVer))
  }

  // ---------------------------------------------------------------------------
  // What a lookup guarantees

  /** The filter works chain by chain: on a concatenation it concatenates, so chain order is kept. */
  lemma {:induction false} ScopedAppend(a: seq<Option<(Definition, Root)>>, b: seq<Option<(Definition, Root)>>,
                                        major: string -> string, majorVer: string)
    ensures Scoped(a + b, major, majorVer) == Scoped(a, major, majorVer) + Scoped(b, major, majorVer)
  {
    if b == [] {
      assert a + b == a;
    } else {
      assert (a + b)[..|a + b| - 1] == a + b[..|b| - 1];
      ScopedAppend(a, b[..|b| - 1], major, majorVer);
    }
  }

  /** A definition is kept exactly when some chain resolves to it through an in-scope root. */
  lemma {:induction false} ScopedMembers(chains: seq<Option<(Definition, Root)>>, major: string -> string, majorVer: string)
    ensures forall d :: d in Scoped(chains, major, majorVer) <==>
              exists j :: 0 <= j < |chains| && chains[j].Some? && chains[j].value.0 == d && InScope(chains[j].value.1, major, majorVer)
  {
    if chains != [] {
      var init := chains[..|chains| - 1];
      ScopedMembers(init, major, majorVer);
      forall d | (exists j :: 0 <= j < |chains| && chains[j].Some? && chains[j].value.0 == d && InScope(chains[j].value.1, major, majorVer))
        ensures d in Scoped(chains, major, majorVer)
      {
        var j :| 0 <= j < |chains| && chains[j].Some? && chains[j].value.0 == d && InScope(chains[j].value.1, major, majorVer);
        if j < |chains| - 1 {
          assert init[j] == chains[j];
        }
      }
      forall d | d in Scoped(chains, major, majorVer)
        ensures exists j :: 0 <= j < |chains| && chains[j].Some? && chains[j].value.0 == d && InScope(chains[j].value.1, major, majorVer)
      {
        if d in Scoped(init, major, majorVer) {
          var j :| 0 <= j < |init| && init[j].Some? && init[j].value.0 == d && InScope(init[j].value.1, major, majorVer);
          assert chains[j] == init[j];
        }
      }
    }
  }

  /** No de-duplication: two rows leading to the same in-scope definition put it in the result twice. */
  lemma ScopedKeepsDuplicates(c: Option<(Definition, Root)>, major: string -> string, majorVer: string)
    requires c.Some? && InScope(c.value.1, major, majorVer)
    ensures Scoped([c, c], major, majorVer) == [c.value.0, c.value.0]
  {
    assert [c, c][..1] == [c];
    assert [c][..0] == [];
    assert Scoped([c], major, majorVer) == [c.value.0];
  }

  /**
   * A lookup is all or nothing: it fails exactly when some row's chain is
   * broken or some kept definition cannot be hydrated; otherwise it returns
   * every kept definition, in order, each hydrated.
   */
  lemma LookupAllOrNothing(t: Tables, chains: seq<Option<(Definition, Root)>>, major: string -> string, majorVer: string)
    ensures var r, kept := Lookup(t, chains, major, majorVer), Scoped(chains, major, majorVer);
            && (r.Failure? <==>
                  || (exists j :: 0 <= j < |chains| && chains[j].None?)
                  || (exists k :: 0 <= k < |kept| && Hydrate(t, majorVer, kept[k]).Failure?))
            && (r.Success? ==>
                  && |r.value| == |kept|
                  && forall k :: 0 <= k < |kept| ==> Hydrate(t, majorVer, kept[k]) == Success(r.value[k]))
  {
  }

  /**
   * What a hydrated definition holds: the first advisory whose definition id
   * is the definition's, all of that advisory's cves, bugzillas and cpes,
   * exactly the definition's packages of the requested major version, and all
   * the definition's references.
   */
  lemma HydrateFields(t: Tables, majorVer: string, d: Definition)
    ensures var h := Hydrate(t, majorVer, d);
            && (h.Failure? <==> forall a :: a in t.advisories ==> a.definitionId != d.id)
            && (h.Success? ==>
                  var v, a := h.value, h.value.advisory.row;
                  && v.row == d
                  && a in t.advisories && a.definitionId == d.id
                  && (forall x :: x in v.advisory.cves <==> x in t.cves && x.advisoryId == a.id)
                  && (forall x :: x in v.advisory.bugzillas <==> x in t.bugzillas && x.advisoryId == a.id)
                  && (forall x :: x in v.advisory.cpes <==> x in t.cpes && x.advisoryId == a.id)
                  && (forall p :: p in v.affectedPacks <==> p in t.packages && p.definitionId == d.id && MatchesMajor(p, majorVer))
                  && (forall x :: x in v.references <==> x in t.references && x.definitionId == d.id))
  {
    KeepMajorMembers(Where(t.packages, PackageDefinitionId, d.id), majorVer);
  }

  /** Hydration keeps the definition row it starts from. */
  lemma LookupRows(t: Tables, chains: seq<Option<(Definition, Root)>>, major: string -> string, majorVer: string)
    requires Lookup(t, chains, major, majorVer).Success?
    ensures Rows(Lookup(t, chains, major, majorVer).value) == Scoped(chains, major, majorVer)
  {
    var r, kept := Lookup(t, chains, major, majorVer).value, Scoped(chains, major, majorVer);
    LookupAllOrNothing(t, chains, major, majorVer);
    forall k | 0 <= k < |kept|
      ensures r[k].row == kept[k]
    {
      HydrateFields(t, majorVer, kept[k]);
    }
  }

  /**
   * Every definition GetByPackName returns is stored, has a package named
   * `packName`, and belongs to a RedHat root of the requested major version.
   */
  lemma PackNameQuerySound(t: Tables, major: string -> string, osVer: string, packName: string)
    ensures var r := PackNameQuery(t, major, osVer, packName);
            r.Success? ==>
              forall k :: 0 <= k < |r.value| ==>
                var d := r.value[k].row;
                && d in t.definitions
                && (exists p :: p in t.packages && p.name == packName && p.definitionId == d.id)
                && (exists root :: root in t.roots && root.id == d.rootId && InScope(root, major, major(osVer)))
  {
    var r := PackNameQuery(t, major, osVer, packName);
    var packs := Where(t.packages, PackageName, packName);
    var chains := PackageChains(t, packs);
    if r.Success? {
      LookupRows(t, chains, major, major(osVer));
      ScopedMembers(chains, major, major(osVer));
      forall k | 0 <= k < |r.value|
        ensures var d := r.value[k].row;
                && d in t.definitions
                && (exists p :: p in t.packages && p.name == packName && p.definitionId == d.id)
                && (exists root :: root in t.roots && root.id == d.rootId && InScope(root, major, major(osVer)))
      {
        var d := r.value[k].row;
        assert d == Rows(r.value)[k];
        assert d in Scoped(chains, major, major(osVer));
        var j :| 0 <= j < |chains| && chains[j].Some? && chains[j].value.0 == d && InScope(chains[j].value.1, major, major(osVer));
        assert chains[j] == Chain(t, packs[j].definitionId);
        assert packs[j] in packs;
      }
    }
  }

  /**
   * GetByPackName misses nothing: a package named `packName` whose
   * definition resolves to a RedHat root of the requested major version
   * contributes its definition to any successful result.
   */
  lemma PackNameQueryComplete(t: Tables, major: string -> string, osVer: string, packName: string, p: Package)
    requires p in t.packages && p.name == packName
    requires Chain(t, p.definitionId).Some? && InScope(Chain(t, p.definitionId).value.1, major, major(osVer))
    ensures var r := PackNameQuery(t, major, osVer, packName);
            r.Success? ==> exists k :: 0 <= k < |r.value| && r.value[k].row == Chain(t, p.definitionId).value.0
  {
    var r := PackNameQuery(t, major, osVer, packName);
    var packs := Where(t.packages, PackageName, packName);
    var chains := PackageChains(t, packs);
    if r.Success? {
      LookupRows(t, chains, major, major(osVer));
      ScopedMembers(chains, major, major(osVer));
      assert p in packs;
      var j :| 0 <= j < |packs| && packs[j] == p;
      assert chains[j] == Chain(t, p.definitionId);
      var kept := Scoped(chains, major, major(osVer));
      assert Chain(t, p.definitionId).value.0 in kept;
      var k :| 0 <= k < |kept| && kept[k] == Chain(t, p.definitionId).value.0;
      assert r.value[k].row == Rows(r.value)[k];
    }
  }

  /** GetByPackName never returns a partial result: one package named `packName` with a broken chain fails the lookup. */
  lemma PackNameQueryBroken(t: Tables, major: string -> string, osVer: string, packName: string, p: Package)
    requires p in t.packages && p.name == packName && Chain(t, p.definitionId).None?
    ensures PackNameQuery(t, major, osVer, packName).Failure?
  {
    var packs := Where(t.packages, PackageName, packName);
    var chains := PackageChains(t, packs);
    assert p in packs;
    var j :| 0 <= j < |packs| && packs[j] == p;
    assert chains[j].None?;
    LookupAllOrNothing(t, chains, major, major(osVer));
  }

  /**
   * Every definition GetByCveID returns is stored, has an advisory listing
   * CVE `cveID`, and belongs to a RedHat root of the requested major version.
   */
  lemma CveIdQuerySound(t: Tables, major: string -> string, osVer: string, cveID: string)
    ensures var r := CveIdQuery(t, major, osVer, cveID);
            r.Success? ==>
              forall k :: 0 <= k < |r.value| ==>
                var d := r.value[k].row;
                && d in t.definitions
                && (exists c, a :: c in t.cves && a in t.advisories && c.cveId == cveID && c.advisoryId == a.id && a.definitionId == d.id)
                && (exists root :: root in t.roots && root.id == d.rootId && InScope(root, major, major(osVer)))
  {
    var r := CveIdQuery(t, major, osVer, cveID);
    var cves := Where(t.cves, CveCveId, cveID);
    var chains := CveChains(t, cves);
    if r.Success? {
      LookupRows(t, chains, major, major(osVer));
      ScopedMembers(chains, major, major(osVer));
      forall k | 0 <= k < |r.value|
        ensures var d := r.value[k].row;
                && d in t.definitions
                && (exists c, a :: c in t.cves && a in t.advisories && c.cveId == cveID && c.advisoryId == a.id && a.definitionId == d.id)
                && (exists root :: root in t.roots && root.id == d.rootId && InScope(root, major, major(osVer)))
      {
        var d := r.value[k].row;
        assert d == Rows(r.value)[k];
        assert d in Scoped(chains, major, major(osVer));
        var j :| 0 <= j < |chains| && chains[j].Some? && chains[j].value.0 == d && InScope(chains[j].value.1, major, major(osVer));
        assert chains[j] == CveChain(t, cves[j]);
        assert cves[j] in cves;
        var a := First(t.advisories, AdvisoryId, cves[j].advisoryId).value;
        assert a in t.advisories && a.definitionId == d.id;
      }
    }
  }

  /**
   * GetByCveID misses nothing: a cve row for `cveID` whose advisory and
   * definition resolve to a RedHat root of the requested major version
   * contributes its definition to any successful result.
   */
  lemma CveIdQueryComplete(t: Tables, major: string -> string, osVer: string, cveID: string, c: Cve)
    requires c in t.cves && c.cveId == cveID
    requires CveChain(t, c).Some? && InScope(CveChain(t, c).value.1, major, major(osVer))
    ensures var r := CveIdQuery(t, major, osVer, cveID);
            r.Success? ==> exists k :: 0 <= k < |r.value| && r.value[k].row == CveChain(t, c).value.0
  {
    var r := CveIdQuery(t, major, osVer, cveID);
    var cves := Where(t.cves, CveCveId, cveID);
    var chains := CveChains(t, cves);
    if r.Success? {
      LookupRows(t, chains, major, major(osVer));
      ScopedMembers(chains, major, major(osVer));
      assert c in cves;
      var j :| 0 <= j < |cves| && cves[j] == c;
      assert chains[j] == CveChain(t, c);
      var kept := Scoped(chains, major, major(osVer));
      assert CveChain(t, c).value.0 in kept;
      var k :| 0 <= k < |kept| && kept[k] == CveChain(t, c).value.0;
      assert r.value[k].row == Rows(r.value)[k];
    }
  }

  /** GetByCveID never returns a partial result: one cve row for `cveID` with a broken chain fails the lookup. */
  lemma CveIdQueryBroken(t: Tables, major: string -> string, osVer: string, cveID: string, c: Cve)
    requires c in t.cves && c.cveId == cveID && CveChain(t, c).None?
    ensures CveIdQuery(t, major, osVer, cveID).Failure?
  {
    var cves := Where(t.cves, CveCveId, cveID);
    var chains := CveChains(t, cves);
    assert c in cves;
    var j :| 0 <= j < |cves| && cves[j] == c;
    assert chains[j].None?;
    LookupAllOrNothing(t, chains, major, major(osVer));
  }

  /**
   * In tables in rising id order, a stored definition whose root is stored
   * resolves: the lookups by id find that definition and that root.
   */
  lemma ChainResolves(t: Tables, d: Definition, r: Root)
    requires Increasing(t.definitions, DefinitionId) && Increasing(t.roots, RootId)
    requires d in t.definitions && r in t.roots && r.id == d.rootId
    ensures Chain(t, d.id) == Some((d, r))
  {
    var fd := First(t.definitions, DefinitionId, d.id);
    IncreasingUnique(t.definitions, DefinitionId, d, fd.value);
    var fr := First(t.roots, RootId, d.rootId);
    IncreasingUnique(t.roots, RootId, r, fr.value);
  }

  /**
   * In tables in rising id order, a cve row whose advisory, that advisory's
   * definition and that definition's root are stored resolves to them.
   */
  lemma CveChainResolves(t: Tables, c: Cve, a: Advisory, d: Definition, r: Root)
    requires Increasing(t.advisories, AdvisoryId) && Increasing(t.definitions, DefinitionId) && Increasing(t.roots, RootId)
    requires a in t.advisories && a.id == c.advisoryId
    requires d in t.definitions && d.id == a.definitionId && r in t.roots && r.id == d.rootId
    ensures CveChain(t, c) == Some((d, r))
  {
    var fa := First(t.advisories, AdvisoryId, c.advisoryId);
    IncreasingUnique(t.advisories, AdvisoryId, a, fa.value);
    ChainResolves(t, d, r);
  }
}
