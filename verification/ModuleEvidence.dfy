/** The evidence a module is reported with: its manifest, or the number of its files. */
module ModuleEvidence {
  import opened Wrappers
  import opened Text
  import opened PathText
  import opened ModuleDrafts
  import opened Confidences

  datatype Evidence = FileEvidence(path: string, note: string) | DirectoryEvidence(path: string, note: string)

  datatype PackageBoundary = PackageBoundary(name: string, path: Path, ecosystem: string, manifest: string)

  /** The package a draft belongs to. */
  function PackageOf(packages: seq<PackageBoundary>, d: Draft): Option<PackageBoundary> {
    if d.package.Some? && d.package.value < |packages| then Some(packages[d.package.value]) else None
  }

  function CodeFiles(count: nat): string {
    Decimal(count) + " code file" + if count == 1 then "" else "s"
  }

  function ManifestEvidence(p: PackageBoundary): Evidence {
    FileEvidence(p.manifest, p.ecosystem + " package manifest")
  }

  /** The evidence of a module that is no package. */
  function CountEvidence(path: Path, kind: Kind, count: nat): Evidence {
    if kind == Root then DirectoryEvidence("", CodeFiles(count) + " at the repository root")
    else DirectoryEvidence(Render(path), CodeFiles(count) + " grouped by directory")
  }

  function EvidenceOf(packages: seq<PackageBoundary>, d: Draft): (Confidence, Evidence) {
    if d.kind == Package && PackageOf(packages, d).Some?
    then (High, ManifestEvidence(PackageOf(packages, d).value))
    else (Medium, CountEvidence(d.path, d.kind, |d.files|))
  }
}
