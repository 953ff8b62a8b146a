/** SdkProjPackageReferenceExtractor: finds package versions in SDK-style
    project files, in `<PackageReference Include="System.Foo" Version="1.2.3" />`,
    and restricts the search to projects that target one of a fixed list of
    frameworks. The version parser (SemanticVersion.TryParse) is a parameter. */
module SdkProjExtractor {
  import opened Common
  import opened Xml
  import opened Records
  import ExtractorUtil

  /** The target frameworks the search is limited to, in this order. A
      phrase search for a prefix also finds its longer forms: "netcoreapp2"
      finds netcoreapp2.0, netcoreapp2.1 and so on. */
  const TargetFrameworks: seq<string> :=
    ["netcoreapp2", "netcoreapp3", "net5", "net462", "net47", "net471", "net472", "net48", "net481"]

  const PackageReferenceName := Unqualified("PackageReference")

  /** Every un-namespaced PackageReference element, at any depth, in document order. */
  function Candidates(doc: XDocument): (r: seq<XElement>)
    ensures forall x :: x in r <==> x in SelfAndDescendants(doc.root) && x.name == PackageReferenceName
  {
    Descendants(doc, PackageReferenceName)
  }

  function IncludeOf(e: XElement): Option<string> {
    TrimmedAttribute(e, Unqualified("Include"))
  }

  /** Only the Version attribute is read; a version given as a child element
      is not seen. */
  function VersionOf(e: XElement): Option<string> {
    TrimmedAttribute(e, Unqualified("Version"))
  }

  /** ExtractPackageReferences: one reference per PackageReference element
      whose Include matches and whose Version attribute parses, in document
      order. */
  function ExtractPackageReferences<PV>(doc: XDocument, targetPackageName: string, useWildcardSuffix: bool,
                                        parseVersion: string -> Option<PV>): (r: seq<PackageReference<PV>>)
    ensures |r| <= |Candidates(doc)|
    ensures forall x :: x in r ==> ExtractorUtil.NameMatches(Some(x.name), targetPackageName, useWildcardSuffix)
    ensures forall x :: x in r ==>
      exists e :: e in Candidates(doc) && IncludeOf(e) == Some(x.name)
        && ExtractorUtil.TryParsePackageVersion(VersionOf(e), parseVersion) == Some(x.version)
  {
    ExtractorUtil.ExtractSound(Candidates(doc), IncludeOf, VersionOf, parseVersion, targetPackageName, useWildcardSuffix);
    ExtractorUtil.Extract(Candidates(doc), IncludeOf, VersionOf, parseVersion, targetPackageName, useWildcardSuffix)
  }

  /** Every PackageReference element with a matching Include and a parsable
      Version attribute is reported. */
  lemma ExtractionComplete<PV>(doc: XDocument, e: XElement, target: string, useWildcardSuffix: bool,
                               parseVersion: string -> Option<PV>)
    requires e in SelfAndDescendants(doc.root) && e.name == PackageReferenceName
    requires ExtractorUtil.NameMatches(IncludeOf(e), target, useWildcardSuffix)
    requires ExtractorUtil.TryParsePackageVersion(VersionOf(e), parseVersion).Some?
    ensures Reference(IncludeOf(e).value, ExtractorUtil.TryParsePackageVersion(VersionOf(e), parseVersion).value)
      in ExtractPackageReferences(doc, target, useWildcardSuffix, parseVersion)
  {
    ExtractorUtil.ExtractComplete(Candidates(doc), e, IncludeOf, VersionOf, parseVersion, target, useWildcardSuffix);
  }

  // ---------------------------------------------------------------------
  // The search clause

  const Filter := "ext:*proj"
  const Tag := "<PackageReference Include="
  const FrameworkTag := "<TargetFramework>"

  /** `"<TargetFramework>tf"` */
  function FrameworkTerm(tf: string): string {
    "\"" + FrameworkTag + tf + "\""
  }

  /** One term per framework, in order; a term, read back as a search
      phrase, asks for `<TargetFramework>` followed by its framework
      (when the framework holds no quote or backslash to escape). */
  function FrameworkTerms(frameworks: seq<string>): (r: seq<string>)
    ensures |r| == |frameworks|
    ensures forall i :: 0 <= i < |r| && ExtractorUtil.NoQuoteOrBackslash(frameworks[i]) ==>
      ExtractorUtil.Unquote(r[i]) == Some(FrameworkTag + frameworks[i])
  {
    var terms := seq(|frameworks|, i requires 0 <= i < |frameworks| => FrameworkTerm(frameworks[i]));
    FrameworkTermsRead(frameworks, terms);
    terms
  }

  lemma FrameworkTermsRead(frameworks: seq<string>, terms: seq<string>)
    requires |terms| == |frameworks|
    requires forall i :: 0 <= i < |terms| ==> terms[i] == FrameworkTerm(frameworks[i])
    ensures forall i :: 0 <= i < |terms| && ExtractorUtil.NoQuoteOrBackslash(frameworks[i]) ==>
      ExtractorUtil.Unquote(terms[i]) == Some(FrameworkTag + frameworks[i])
  {
    forall i | 0 <= i < |terms| && ExtractorUtil.NoQuoteOrBackslash(frameworks[i])
      ensures ExtractorUtil.Unquote(terms[i]) == Some(FrameworkTag + frameworks[i])
    {
      var tf := frameworks[i];
      assert ExtractorUtil.NoQuoteOrBackslash(FrameworkTag + tf);
      assert FrameworkTerm(tf) == "\"" + (FrameworkTag + tf) + "\"";
      PlainTermPhrase(FrameworkTag + tf);
    }
  }

  /** The framework terms joined by " OR ". */
  function FrameworkFilter(frameworks: seq<string>): string {
    Join(" OR ", FrameworkTerms(frameworks))
  }

  /** A package clause restricted to projects targeting one of `frameworks`. */
  function WithFrameworks(packageClause: string, frameworks: seq<string>): string {
    packageClause + " AND (" + FrameworkFilter(frameworks) + ")"
  }

  function SearchClause(basePackageName: string, useWildcardSuffix: bool): string {
    WithFrameworks(ExtractorUtil.ClauseBody(Filter, Tag, basePackageName, useWildcardSuffix), TargetFrameworks)
  }

  /** GetSearchClause: the package terms as in the other plugins, then
      ") AND (", the framework terms joined by " OR ", and ")". */
  method GetSearchClause(basePackageName: string, useWildcardSuffix: bool) returns (clause: string)
    ensures clause == SearchClause(basePackageName, useWildcardSuffix)
  {
    var builder := "";
    builder := builder + Filter + " AND (" + ExtractorUtil.ExactTerm(Tag, basePackageName);
    if useWildcardSuffix {
      builder := builder + " ";
      builder := builder + "OR " + ExtractorUtil.WildcardTerm(Tag, basePackageName);
    }
    ghost var packagePart := builder + ")";
    assert packagePart == ExtractorUtil.ClauseBody(Filter, Tag, basePackageName, useWildcardSuffix);
    builder := builder + ") AND (";
    assert builder == packagePart + " AND (";
    builder := builder + Join(" OR ", FrameworkTerms(TargetFrameworks));
    builder := builder + ")";
    clause := builder;
  }

  lemma SuffixOf(h: string, f: string, e: string)
    ensures |h + f + e| >= |f + e| && (h + f + e)[|h + f + e| - |f + e|..] == f + e
  {
    assert h + f + e == h + (f + e);
  }

  /** The framework part does not depend on the package or the wildcard
      flag: whatever package clause precedes it (ClauseBody of any name and
      flag in SearchClause), the clause ends with the same framework filter. */
  lemma FrameworkFilterIndependent(c1: string, c2: string, frameworks: seq<string>)
    ensures var w1 := WithFrameworks(c1, frameworks);
      var w2 := WithFrameworks(c2, frameworks);
      var t := FrameworkFilter(frameworks) + ")";
      |w1| >= |t| && |w2| >= |t| && w1[|w1| - |t|..] == w2[|w2| - |t|..] == t
  {
    var f := FrameworkFilter(frameworks);
    SuffixOf(c1 + " AND (", f, ")");
    SuffixOf(c2 + " AND (", f, ")");
  }

  /** The phrase each framework term searches for. */
  lemma FrameworkTermPhrase()
    ensures forall i :: 0 <= i < |TargetFrameworks| ==>
      ExtractorUtil.Unquote(FrameworkTerms(TargetFrameworks)[i]) == Some(FrameworkTag + TargetFrameworks[i])
  {
    forall i | 0 <= i < |TargetFrameworks|
      ensures ExtractorUtil.NoQuoteOrBackslash(TargetFrameworks[i])
    {
    }
  }


  /** A quoted term with no quote or backslash inside asks for its text. */
  lemma PlainTermPhrase(text: string)
    requires ExtractorUtil.NoQuoteOrBackslash(text)
    ensures ExtractorUtil.Unquote("\"" + text + "\"") == Some(text)
  {
    ExtractorUtil.UnquoteOf(text);
    ExtractorUtil.UnescapeQuotesPlain(text, []);
    assert text + [] == text;
  }

  /** A project's TargetFramework value v is selected when the text
      `<TargetFramework>v` begins with one of the framework phrases. */
  predicate SelectsFramework(v: string) {
    exists i :: 0 <= i < |TargetFrameworks| && StartsWithOrdinal(FrameworkTag + v, FrameworkTag + TargetFrameworks[i])
  }

  predicate StartsWithOrdinal(s: string, prefix: string) {
    |prefix| <= |s| && s[..|prefix|] == prefix
  }

  lemma StartsWithTagged(v: string, tf: string)
    ensures StartsWithOrdinal(FrameworkTag + v, FrameworkTag + tf) <==> StartsWithOrdinal(v, tf)
  {
    var k := |FrameworkTag|;
    if |tf| <= |v| {
      assert (FrameworkTag + v)[..k + |tf|] == FrameworkTag + v[..|tf|];
      if (FrameworkTag + v)[..k + |tf|] == FrameworkTag + tf {
        assert v[..|tf|] == (FrameworkTag + v[..|tf|])[k..];
      }
    }
  }

  lemma DiffersAt(v: string, tf: string, j: nat)
    requires j < |v| && j < |tf| && v[j] != tf[j]
    ensures !StartsWithOrdinal(v, tf)
  {
    if |tf| <= |v| {
      assert v[..|tf|][j] == v[j];
    }
  }

  /** netcoreapp2.1 and net472 are selected; net6.0, netstandard2.0 and
      net461 are not. */
  lemma FrameworkExamples()
    ensures SelectsFramework("netcoreapp2.1")
    ensures SelectsFramework("net472")
    ensures !SelectsFramework("net6.0")
    ensures !SelectsFramework("netstandard2.0")
    ensures !SelectsFramework("net461")
  {
    StartsWithTagged("netcoreapp2.1", TargetFrameworks[0]);
    assert "netcoreapp2.1"[..11] == "netcoreapp2";
    assert StartsWithOrdinal(FrameworkTag + "netcoreapp2.1", FrameworkTag + TargetFrameworks[0]);
    StartsWithTagged("net472", TargetFrameworks[6]);
    assert "net472"[..6] == "net472";
    assert StartsWithOrdinal(FrameworkTag + "net472", FrameworkTag + TargetFrameworks[6]);
    forall i | 0 <= i < |TargetFrameworks|
      ensures !StartsWithOrdinal(FrameworkTag + "net6.0", FrameworkTag + TargetFrameworks[i])
      ensures !StartsWithOrdinal(FrameworkTag + "netstandard2.0", FrameworkTag + TargetFrameworks[i])
      ensures !StartsWithOrdinal(FrameworkTag + "net461", FrameworkTag + TargetFrameworks[i])
    {
      var tf := TargetFrameworks[i];
      assert |tf| >= 5 || i == 2;
      assert tf[3] in "c54";
      DiffersAt("net6.0", tf, 3);
      DiffersAt("netstandard2.0", tf, 3);
      if i == 3 {
        DiffersAt("net461", tf, 5);       // net462
      } else if tf[3] == '4' {
        DiffersAt("net461", tf, 4);       // net47, net471, net472, net48, net481
      } else {
        DiffersAt("net461", tf, 3);       // netcoreapp2, netcoreapp3, net5
      }
      StartsWithTagged("net6.0", tf);
      StartsWithTagged("netstandard2.0", tf);
      StartsWithTagged("net461", tf);
    }
  }
}
