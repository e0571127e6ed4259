/**
 * The records of the OVAL advisory store: one flat row type per table, each
 * carrying its surrogate id and the id of its parent row, and the nested
 * trees that the store ingests (a whole Root aggregate) and that the two
 * queries hand back (hydrated Definitions).
 *
 * Payload fields that the store's logic never inspects are reduced to one
 * opaque string per row (title, severity, url, ...).
 */
module Models {

  /** OS families known to the configuration; only RedHat matters here. */
  datatype Family = RedHat | Debian | Ubuntu | Oracle

  /** Freshness stamp of one ingested source file; timestamps are compared by equality only. */
  datatype FetchMeta = FetchMeta(id: nat, fileName: string, timestamp: int)

  datatype Root = Root(id: nat, family: Family, osVersion: string)
  datatype Definition = Definition(id: nat, rootId: nat, title: string)
  datatype Advisory = Advisory(id: nat, definitionId: nat, severity: string)
  datatype Cve = Cve(id: nat, advisoryId: nat, cveId: string)
  datatype Bugzilla = Bugzilla(id: nat, advisoryId: nat, url: string)
  datatype Cpe = Cpe(id: nat, advisoryId: nat, name: string)
  datatype Package = Package(id: nat, definitionId: nat, name: string, version: string)
  datatype Reference = Reference(id: nat, definitionId: nat, refId: string)

  /** An Advisory together with its Cves, Bugzillas and AffectedCPEList. */
  datatype AdvisoryTree = AdvisoryTree(row: Advisory, cves: seq<Cve>, bugzillas: seq<Bugzilla>, cpes: seq<Cpe>)

  /** A Definition together with its Advisory, AffectedPacks and References. */
  datatype DefinitionTree = DefinitionTree(
    row: Definition, advisory: AdvisoryTree, affectedPacks: seq<Package>, references: seq<Reference>)

  /** A Root together with its Definitions: the aggregate one refresh ingests. */
  datatype RootTree = RootTree(row: Root, definitions: seq<DefinitionTree>)

  /** A Definition as a lookup by id leaves it: no associations loaded (Go's zero values). */
  function Unhydrated(d: Definition): (t: DefinitionTree)
    ensures t.row == d && t.affectedPacks == [] && t.references == []
    ensures t.advisory.row.id == 0 && t.advisory.cves == [] && t.advisory.bugzillas == [] && t.advisory.cpes == []
  {
    DefinitionTree(d, AdvisoryTree(Advisory(0, 0, ""), [], [], []), [], [])
  }

  // Column projections, used as the keys of exact-match lookups and deletes.

  function FetchMetaId(m: FetchMeta): nat { m.id }
  function FetchMetaFileName(m: FetchMeta): string { m.fileName }
  function RootId(r: Root): nat { r.id }
  function RootKey(r: Root): (Family, string) { (r.family, r.osVersion) }
  function DefinitionId(d: Definition): nat { d.id }
  function DefinitionRootId(d: Definition): nat { d.rootId }
  function AdvisoryId(a: Advisory): nat { a.id }
  function AdvisoryDefinitionId(a: Advisory): nat { a.definitionId }
  function CveId(c: Cve): nat { c.id }
  function CveAdvisoryId(c: Cve): nat { c.advisoryId }
  function CveCveId(c: Cve): string { c.cveId }
  function BugzillaId(b: Bugzilla): nat { b.id }
  function BugzillaAdvisoryId(b: Bugzilla): nat { b.advisoryId }
  function CpeId(c: Cpe): nat { c.id }
  function CpeAdvisoryId(c: Cpe): nat { c.advisoryId }
  function PackageId(p: Package): nat { p.id }
  function PackageDefinitionId(p: Package): nat { p.definitionId }
  function PackageName(p: Package): string { p.name }
  function ReferenceId(r: Reference): nat { r.id }
  function ReferenceDefinitionId(r: Reference): nat { r.definitionId }
}
