/** BindingRedirectAssemblyReferenceExtractor: finds the assembly versions
    that app.config / web.config binding redirects pin, in

      <assemblyBinding xmlns="urn:schemas-microsoft-com:asm.v1">
        <dependentAssembly>
          <assemblyIdentity name="System.Foo" ... />
          <bindingRedirect oldVersion="..." newVersion="1.2.3.0" />
        </dependentAssembly>
      </assemblyBinding>

    The version parser (System.Version.TryParse) is a parameter. */
module BindingRedirectExtractor {
  import opened Common
  import opened Xml
  import opened Records
  import ExtractorUtil

  const AsmV1 := "urn:schemas-microsoft-com:asm.v1"
  const AssemblyBindingName := XName(AsmV1, "assemblyBinding")
  const DependentAssemblyName := XName(AsmV1, "dependentAssembly")
  const AssemblyIdentityName := XName(AsmV1, "assemblyIdentity")
  const BindingRedirectName := XName(AsmV1, "bindingRedirect")

  /** The dependentAssembly elements that are direct children of an
      assemblyBinding element anywhere in the document, both in the asm.v1
      namespace. */
  function Candidates(doc: XDocument): (r: seq<XElement>)
    ensures forall x :: x in r <==>
      exists p :: p in SelfAndDescendants(doc.root) && p.name == AssemblyBindingName
        && x in p.children && x.name == DependentAssemblyName
  {
    Elements(Descendants(doc, AssemblyBindingName), DependentAssemblyName)
  }

  /** The trimmed name attribute of the first assemblyIdentity child. */
  function AssemblyNameOf(dependentAssembly: XElement): Option<string> {
    match Element(dependentAssembly, AssemblyIdentityName)
    case None => None
    case Some(identity) => TrimmedAttribute(identity, Unqualified("name"))
  }

  /** The trimmed newVersion attribute of the first bindingRedirect child. */
  function NewVersionOf(dependentAssembly: XElement): Option<string> {
    match Element(dependentAssembly, BindingRedirectName)
    case None => None
    case Some(redirect) => TrimmedAttribute(redirect, Unqualified("newVersion"))
  }

  /** ExtractAssemblyReferences: one reference per candidate whose assembly
      name matches and whose redirect version parses, in document order.
      TryParseVersion is the same null-on-failure wrapper as
      TryParsePackageVersion, over the Version parser. */
  function ExtractAssemblyReferences<AV>(doc: XDocument, targetAssemblyName: string, useWildcardSuffix: bool,
                                         parseVersion: string -> Option<AV>): (r: seq<AssemblyReference<AV>>)
    ensures |r| <= |Candidates(doc)|
    ensures forall x :: x in r ==> ExtractorUtil.NameMatches(Some(x.name), targetAssemblyName, useWildcardSuffix)
    ensures forall x :: x in r ==>
      exists e :: e in Candidates(doc) && AssemblyNameOf(e) == Some(x.name)
        && ExtractorUtil.TryParsePackageVersion(NewVersionOf(e), parseVersion) == Some(x.version)
  {
    ExtractorUtil.ExtractSound(Candidates(doc), AssemblyNameOf, NewVersionOf, parseVersion, targetAssemblyName, useWildcardSuffix);
    ExtractorUtil.Extract(Candidates(doc), AssemblyNameOf, NewVersionOf, parseVersion, targetAssemblyName, useWildcardSuffix)
  }

  /** A document with no element in the asm.v1 namespace yields nothing. */
  lemma UnnamespacedYieldsNothing<AV>(doc: XDocument, target: string, useWildcardSuffix: bool,
                                      parseVersion: string -> Option<AV>)
    requires forall x :: x in SelfAndDescendants(doc.root) ==> x.name.namespace != AsmV1
    ensures ExtractAssemblyReferences(doc, target, useWildcardSuffix, parseVersion) == []
  {
    NamedNone(SelfAndDescendants(doc.root), AssemblyBindingName);
  }

  /** A dependentAssembly without an assemblyIdentity name or without a
      bindingRedirect newVersion contributes nothing. */
  lemma IncompleteElementDropped<AV>(e: XElement, target: string, useWildcardSuffix: bool,
                                     parseVersion: string -> Option<AV>)
    requires AssemblyNameOf(e).None? || NewVersionOf(e).None?
    ensures ExtractorUtil.ExtractOne(e, AssemblyNameOf, NewVersionOf, parseVersion, target, useWildcardSuffix) == []
  {
  }

  /** Every candidate with a matching name and a parsable version is reported. */
  lemma ExtractionComplete<AV>(doc: XDocument, e: XElement, target: string, useWildcardSuffix: bool,
                               parseVersion: string -> Option<AV>)
    requires e in Candidates(doc)
    requires ExtractorUtil.NameMatches(AssemblyNameOf(e), target, useWildcardSuffix)
    requires ExtractorUtil.TryParsePackageVersion(NewVersionOf(e), parseVersion).Some?
    ensures Reference(AssemblyNameOf(e).value, ExtractorUtil.TryParsePackageVersion(NewVersionOf(e), parseVersion).value)
      in ExtractAssemblyReferences(doc, target, useWildcardSuffix, parseVersion)
  {
    ExtractorUtil.ExtractComplete(Candidates(doc), e, AssemblyNameOf, NewVersionOf, parseVersion, target, useWildcardSuffix);
  }

  // ---------------------------------------------------------------------
  // The search clause

  const Filter := "ext:config"
  const Tag := "<assemblyIdentity name="

  function SearchClause(basePackageName: string, useWildcardSuffix: bool): string {
    ExtractorUtil.ClauseBody(Filter, Tag, basePackageName, useWildcardSuffix)
  }

  /** GetSearchClause: appends the exact-name term, then, with the wildcard
      on, a space and the sub-assembly term, then the closing parenthesis. */
  method GetSearchClause(basePackageName: string, useWildcardSuffix: bool) returns (clause: string)
    ensures clause == SearchClause(basePackageName, useWildcardSuffix)
  {
    var builder := "";
    builder := builder + Filter + " AND (" + ExtractorUtil.ExactTerm(Tag, basePackageName);
    if useWildcardSuffix {
      builder := builder + " ";
      builder := builder + "OR " + ExtractorUtil.WildcardTerm(Tag, basePackageName);
    }
    builder := builder + ")";
    clause := builder;
  }
}
