/** CentralPackageManagementPackageReferenceExtractor: finds package
    versions pinned centrally in Directory.Packages.props, in
    `<PackageVersion Include="System.Foo" Version="1.2.3" />`.
    The version parser (SemanticVersion.TryParse) is a parameter. */
module CentralPackageManagementExtractor {
  import opened Common
  import opened Xml
  import opened Records
  import ExtractorUtil

  const PackageVersionName := Unqualified("PackageVersion")

  /** Every un-namespaced PackageVersion element, at any depth, in document order. */
  function Candidates(doc: XDocument): (r: seq<XElement>)
    ensures forall x :: x in r <==> x in SelfAndDescendants(doc.root) && x.name == PackageVersionName
  {
    Descendants(doc, PackageVersionName)
  }

  function IncludeOf(e: XElement): Option<string> {
    TrimmedAttribute(e, Unqualified("Include"))
  }

  function VersionOf(e: XElement): Option<string> {
    TrimmedAttribute(e, Unqualified("Version"))
  }

  /** ExtractPackageReferences: one reference per PackageVersion element
      whose Include matches and whose Version parses, in document order. */
  function ExtractPackageReferences<PV>(doc: XDocument, targetPackageName: string, useWildcardSuffix: bool,
                                        parseVersion: string -> Option<PV>): (r: seq<PackageReference<PV>>)
    ensures |r| <= |Candidates(doc)|
    ensures forall x :: x in r ==> ExtractorUtil.NameMatches(Some(x.name), targetPackageName, useWildcardSuffix)
    ensures forall x :: x in r ==>
      exists e :: e in Candidates(doc) && IncludeOf(e) == Some(x.name)
        && ExtractorUtil.TryParsePackageVersion(VersionOf(e), parseVersion) == Some(x.version)
  {
    ExtractorUtil.ExtractSound(Candidates(doc), IncludeOf, VersionOf, parseVersion, targetPackageName, useWildcardSuffix);
    ExtractorUtil.Extract(Candidates(doc), IncludeOf, VersionOf, parseVersion, targetPackageName, useWildcardSuffix)
  }

  /** Every PackageVersion element with a matching Include and a parsable
      Version is reported. */
  lemma ExtractionComplete<PV>(doc: XDocument, e: XElement, target: string, useWildcardSuffix: bool,
                               parseVersion: string -> Option<PV>)
    requires e in SelfAndDescendants(doc.root) && e.name == PackageVersionName
    requires ExtractorUtil.NameMatches(IncludeOf(e), target, useWildcardSuffix)
    requires ExtractorUtil.TryParsePackageVersion(VersionOf(e), parseVersion).Some?
    ensures Reference(IncludeOf(e).value, ExtractorUtil.TryParsePackageVersion(VersionOf(e), parseVersion).value)
      in ExtractPackageReferences(doc, target, useWildcardSuffix, parseVersion)
  {
    ExtractorUtil.ExtractComplete(Candidates(doc), e, IncludeOf, VersionOf, parseVersion, target, useWildcardSuffix);
  }

  // ---------------------------------------------------------------------
  // The search clause

  const Filter := "file:Directory.Packages.props"
  const Tag := "<PackageVersion Include="

  function SearchClause(basePackageName: string, useWildcardSuffix: bool): string {
    ExtractorUtil.ClauseBody(Filter, Tag, basePackageName, useWildcardSuffix)
  }

  /** GetSearchClause: the exact-name term, then, with the wildcard on, a
      space and the sub-package term, then the closing parenthesis. */
  method GetSearchClause(basePackageName: string, useWildcardSuffix: bool) returns (clause: string)
    ensures clause == SearchClause(basePackageName, useWildcardSuffix)
  {
    var builder := "";
    builder := builder + Filter + " AND (" + ExtractorUtil.ExactTerm(Tag, basePackageName);
    if useWildcardSuffix {
      builder := builder + " ";
      builder := builder + "OR " + ExtractorUtil.WildcardTerm(Tag, basePackageName);
    }
    builder := builder + ")";
    clause := builder;
  }
}
