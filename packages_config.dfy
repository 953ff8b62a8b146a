/** PackagesConfigPackageReferenceExtractor: finds package versions in
    packages.config files, in
    `<packages><package id="System.Foo" version="1.2.3" /></packages>`.
    The version parser (SemanticVersion.TryParse) is a parameter. */
module PackagesConfigExtractor {
  import opened Common
  import opened Xml
  import opened Records
  import ExtractorUtil

  const PackagesName := Unqualified("packages")
  const PackageName := Unqualified("package")

  /** The package elements that are direct children of a packages element
      anywhere in the document. */
  function Candidates(doc: XDocument): (r: seq<XElement>)
    ensures forall x :: x in r <==>
      exists p :: p in SelfAndDescendants(doc.root) && p.name == PackagesName
        && x in p.children && x.name == PackageName
  {
    Elements(Descendants(doc, PackagesName), PackageName)
  }

  function IdOf(e: XElement): Option<string> {
    TrimmedAttribute(e, Unqualified("id"))
  }

  function VersionOf(e: XElement): Option<string> {
    TrimmedAttribute(e, Unqualified("version"))
  }

  /** ExtractPackageReferences: one reference per package element whose id
      matches and whose version parses, in document order; an unparsable
      version such as `$(Var)` drops the element. */
  function ExtractPackageReferences<PV>(doc: XDocument, targetPackageName: string, useWildcardSuffix: bool,
                                        parseVersion: string -> Option<PV>): (r: seq<PackageReference<PV>>)
    ensures |r| <= |Candidates(doc)|
    ensures forall x :: x in r ==> ExtractorUtil.NameMatches(Some(x.name), targetPackageName, useWildcardSuffix)
    ensures forall x :: x in r ==>
      exists e :: e in Candidates(doc) && IdOf(e) == Some(x.name)
        && ExtractorUtil.TryParsePackageVersion(VersionOf(e), parseVersion) == Some(x.version)
  {
    ExtractorUtil.ExtractSound(Candidates(doc), IdOf, VersionOf, parseVersion, targetPackageName, useWildcardSuffix);
    ExtractorUtil.Extract(Candidates(doc), IdOf, VersionOf, parseVersion, targetPackageName, useWildcardSuffix)
  }

  /** A package element that is not inside a packages element is never read:
      a document without packages elements yields nothing. */
  lemma NoPackagesYieldsNothing<PV>(doc: XDocument, target: string, useWildcardSuffix: bool,
                                    parseVersion: string -> Option<PV>)
    requires forall x :: x in SelfAndDescendants(doc.root) ==> x.name != PackagesName
    ensures ExtractPackageReferences(doc, target, useWildcardSuffix, parseVersion) == []
  {
    NamedNone(SelfAndDescendants(doc.root), PackagesName);
  }

  /** Every package element under packages with a matching id and a
      parsable version is reported. */
  lemma ExtractionComplete<PV>(doc: XDocument, e: XElement, target: string, useWildcardSuffix: bool,
                               parseVersion: string -> Option<PV>)
    requires e in Candidates(doc)
    requires ExtractorUtil.NameMatches(IdOf(e), target, useWildcardSuffix)
    requires ExtractorUtil.TryParsePackageVersion(VersionOf(e), parseVersion).Some?
    ensures Reference(IdOf(e).value, ExtractorUtil.TryParsePackageVersion(VersionOf(e), parseVersion).value)
      in ExtractPackageReferences(doc, target, useWildcardSuffix, parseVersion)
  {
    ExtractorUtil.ExtractComplete(Candidates(doc), e, IdOf, VersionOf, parseVersion, target, useWildcardSuffix);
  }

  // ---------------------------------------------------------------------
  // The search clause

  const Filter := "file:packages.config"
  const Tag := "<package id="

  function SearchClause(basePackageName: string, useWildcardSuffix: bool): string {
    ExtractorUtil.ClauseBody(Filter, Tag, basePackageName, useWildcardSuffix)
  }

  /** GetSearchClause: the exact-id term, then, with the wildcard on, a
      space and the sub-package term, then the closing parenthesis. */
  method GetSearchClause(basePackageName: string, useWildcardSuffix: bool) returns (clause: string)
    ensures clause == SearchClause(basePackageName, useWildcardSuffix)
  {
    var builder := "";
    builder := builder + Filter + " AND (" + ExtractorUtil.ExactTerm(Tag, basePackageName);
    if useWildcardSuffix {
      builder := builder + " ";
      builder := builder + "OR " + ExtractorUtil.WildcardTerm(Tag, basePackageName);
    }
    builder := builder + ")";
    clause := builder;
  }
}
