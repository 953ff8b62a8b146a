/** The immutable records the scraper passes around. C# positional records
    compare by value, which is what a Dafny datatype is; `with` is datatype
    update. Versions are type parameters: AV stands for System.Version and
    PV for SemanticVersion, whose parsers are not part of this model. */
module Records {
  import opened Common
  import GlobalUtils
  import AzdoConnection

  /** A named, versioned reference found in a file. AssemblyReference
      (AssemblyName, AssemblyVersion) and PackageReference (PackageName,
      PackageVersion) have the same shape and differ only in the version type. */
  datatype Reference<V> = Reference(name: string, version: V)

  type AssemblyReference<AV> = Reference<AV>

  type PackageReference<PV> = Reference<PV>

  /** A file in an Azure DevOps git repository, at the head of a branch. */
  datatype FileReference = FileReference(
    organization: string, project: string, repository: string, path: string, branch: string)
  {
    /** ToFriendlyUrl: the web address that shows the file, with each part
        escaped so that it cannot be confused with the separators around it. */
    function ToFriendlyUrl(): (r: string)
      ensures ParseFriendlyUrl(r) == Some(this)
    {
      FriendlyUrlRoundTrip(this);
      FriendlyUrl(this)
    }
  }

  function Encoded(s: string): (r: string)
    ensures GlobalUtils.IsEscapedText(r)
    ensures GlobalUtils.UnescapeDataString(r) == Some(s)
  {
    Text(GlobalUtils.UrlEncode(Some(s)))
  }

  function QueryEncoded(s: string): (r: string)
    ensures GlobalUtils.IsQueryEscapedText(r)
    ensures GlobalUtils.UnescapeDataString(r) == Some(s)
  {
    Text(GlobalUtils.QueryEncode(Some(s)))
  }

  const FriendlyUrlPrefix := "https://dev.azure.com/"

  /** https://dev.azure.com/{org}/{project}/_git/{repo}?path={path}&version=GB{branch} */
  function FriendlyUrl(f: FileReference): string {
    FriendlyUrlPrefix + Encoded(f.organization) + "/" + Encoded(f.project) + "/_git/"
      + Encoded(f.repository) + "?path=" + QueryEncoded(f.path)
      + "&version=GB" + QueryEncoded(f.branch)
  }

  // ---------------------------------------------------------------------
  // Reading a friendly URL back

  /** The position of the first c in s, if any. */
  function IndexOf(s: string, c: char): (r: Option<nat>)
    ensures r.Some? ==> r.value < |s| && s[r.value] == c
    ensures r.Some? ==> forall i :: 0 <= i < r.value ==> s[i] != c
    ensures r.None? ==> forall i :: 0 <= i < |s| ==> s[i] != c
  {
    if s == [] then None
    else if s[0] == c then Some(0)
    else match IndexOf(s[1..], c)
      case None => None
      case Some(i) => Some(i + 1)
  }

  /** s split at its first c: the part before and the part after. */
  function SplitAt(s: string, c: char): Option<(string, string)> {
    match IndexOf(s, c)
    case None => None
    case Some(i) => Some((s[..i], s[i + 1..]))
  }

  lemma {:induction false} IndexOfFirst(a: string, c: char, b: string)
    requires forall i :: 0 <= i < |a| ==> a[i] != c
    ensures IndexOf(a + [c] + b, c) == Some(|a|)
  {
    if a != [] {
      assert (a + [c] + b)[1..] == a[1..] + [c] + b;
      IndexOfFirst(a[1..], c, b);
    }
  }

  lemma SplitAtFirst(a: string, c: char, b: string)
    requires forall i :: 0 <= i < |a| ==> a[i] != c
    ensures SplitAt(a + [c] + b, c) == Some((a, b))
  {
    IndexOfFirst(a, c, b);
    var s := a + [c] + b;
    assert s[..|a|] == a;
    assert s[|a| + 1..] == b;
  }

  /** s with the literal prefix p removed, if s starts with it. */
  function DropPrefix(s: string, p: string): Option<string> {
    if |p| <= |s| && s[..|p|] == p then Some(s[|p|..]) else None
  }

  lemma DropPrefixOf(p: string, s: string)
    ensures DropPrefix(p + s, p) == Some(s)
  {
    assert (p + s)[..|p|] == p;
    assert (p + s)[|p|..] == s;
  }

  /** The query part "path={path}&version=GB{branch}", still escaped. */
  function SplitQuery(q: string): Option<(string, string)> {
    match DropPrefix(q, "path=")
    case None => None
    case Some(r) =>
      match SplitAt(r, '&')
      case None => None
      case Some((path, rest)) =>
        match DropPrefix(rest, "version=GB")
        case None => None
        case Some(branch) => Some((path, branch))
  }

  /** "{repo}?{query}", still escaped. */
  function SplitRepository(r: string): Option<(string, string, string)> {
    match SplitAt(r, '?')
    case None => None
    case Some((repo, q)) =>
      match SplitQuery(q)
      case None => None
      case Some((path, branch)) => Some((repo, path, branch))
  }

  /** The five escaped parts of a friendly URL. */
  function SplitFriendlyUrl(u: string): Option<(string, string, string, string, string)> {
    match DropPrefix(u, FriendlyUrlPrefix)
    case None => None
    case Some(r1) =>
      match SplitAt(r1, '/')
      case None => None
      case Some((org, r2)) =>
        match SplitAt(r2, '/')
        case None => None
        case Some((project, r3)) =>
          match DropPrefix(r3, "_git/")
          case None => None
          case Some(r4) =>
            match SplitRepository(r4)
            case None => None
            case Some((repo, path, branch)) => Some((org, project, repo, path, branch))
  }

  /** The inverse of FriendlyUrl: splits at the separators, then unescapes each part. */
  function ParseFriendlyUrl(u: string): Option<FileReference> {
    match SplitFriendlyUrl(u)
    case None => None
    case Some((org, project, repo, path, branch)) =>
      var o := GlobalUtils.UnescapeDataString(org);
      var p := GlobalUtils.UnescapeDataString(project);
      var rp := GlobalUtils.UnescapeDataString(repo);
      var pa := GlobalUtils.UnescapeDataString(path);
      var b := GlobalUtils.UnescapeDataString(branch);
      if o.Some? && p.Some? && rp.Some? && pa.Some? && b.Some?
      then Some(FileReference(o.value, p.value, rp.value, pa.value, b.value))
      else None
  }

  lemma EscapedHasNo(t: string, c: char)
    requires GlobalUtils.IsEscapedText(t)
    requires !GlobalUtils.IsUnreserved(c) && c != '%'
    ensures forall i :: 0 <= i < |t| ==> t[i] != c
  {
  }

  lemma SplitQueryOf(qp: string, qb: string)
    requires GlobalUtils.IsQueryEscapedText(qp)
    ensures SplitQuery("path=" + (qp + "&" + ("version=GB" + qb))) == Some((qp, qb))
  {
    var rest := "version=GB" + qb;
    DropPrefixOf("path=", qp + "&" + rest);
    SplitAtFirst(qp, '&', rest);
    DropPrefixOf("version=GB", qb);
  }

  lemma SplitRepositoryOf(er: string, qp: string, qb: string)
    requires GlobalUtils.IsEscapedText(er) && GlobalUtils.IsQueryEscapedText(qp)
    ensures SplitRepository(er + "?" + ("path=" + (qp + "&" + ("version=GB" + qb)))) == Some((er, qp, qb))
  {
    EscapedHasNo(er, '?');
    SplitAtFirst(er, '?', "path=" + (qp + "&" + ("version=GB" + qb)));
    SplitQueryOf(qp, qb);
  }

  lemma SplitFriendlyUrlOf(eo: string, ep: string, r4: string)
    requires GlobalUtils.IsEscapedText(eo) && GlobalUtils.IsEscapedText(ep)
    requires SplitRepository(r4).Some?
    ensures SplitFriendlyUrl(FriendlyUrlPrefix + (eo + "/" + (ep + "/" + ("_git/" + r4)))) ==
      Some((eo, ep, SplitRepository(r4).value.0, SplitRepository(r4).value.1, SplitRepository(r4).value.2))
  {
    var r2 := ep + "/" + ("_git/" + r4);
    DropPrefixOf(FriendlyUrlPrefix, eo + "/" + r2);
    EscapedHasNo(eo, '/');
    SplitAtFirst(eo, '/', r2);
    EscapedHasNo(ep, '/');
    SplitAtFirst(ep, '/', "_git/" + r4);
    DropPrefixOf("_git/", r4);
  }

  lemma FriendlyUrlShape(eo: string, ep: string, er: string, qp: string, qb: string)
    ensures FriendlyUrlPrefix + eo + "/" + ep + "/_git/" + er + "?path=" + qp + "&version=GB" + qb
      == FriendlyUrlPrefix + (eo + "/" + (ep + "/" + ("_git/" + (er + "?" + ("path=" + (qp + "&" + ("version=GB" + qb)))))))
  {
    assert "/_git/" == "/" + "_git/";
    assert "?path=" == "?" + "path=";
    assert "&version=GB" == "&" + "version=GB";
    Regroup(FriendlyUrlPrefix, eo, "/", ep, "/", "_git/", er, "?", "path=", qp, "&", "version=GB", qb);
  }

  lemma Regroup(p: string, eo: string, s1: string, ep: string, s2: string, s3: string, er: string,
                s4: string, s5: string, qp: string, s6: string, s7: string, qb: string)
    ensures p + eo + s1 + ep + (s2 + s3) + er + (s4 + s5) + qp + (s6 + s7) + qb
      == p + (eo + s1 + (ep + s2 + (s3 + (er + s4 + (s5 + (qp + s6 + (s7 + qb)))))))
  {
  }

  /** The escaped parts hold none of the separators, so reading the URL
      back finds every part again. */
  lemma FriendlyUrlRoundTrip(f: FileReference)
    ensures ParseFriendlyUrl(FriendlyUrl(f)) == Some(f)
  {
    var eo, ep, er := Encoded(f.organization), Encoded(f.project), Encoded(f.repository);
    var qp, qb := QueryEncoded(f.path), QueryEncoded(f.branch);
    var r4 := er + "?" + ("path=" + (qp + "&" + ("version=GB" + qb)));
    FriendlyUrlShape(eo, ep, er, qp, qb);
    SplitRepositoryOf(er, qp, qb);
    SplitFriendlyUrlOf(eo, ep, r4);
  }

  /** Two file references share a friendly URL only if they are the same. */
  lemma FriendlyUrlInjective(f: FileReference, g: FileReference)
    requires f.ToFriendlyUrl() == g.ToFriendlyUrl()
    ensures f == g
  {
  }

  // ---------------------------------------------------------------------
  // File contents

  /** AzdoGitFileContents: a file reference and what was read from it. */
  datatype FileContents<T> = FileContents(fileReference: FileReference, contents: T)
  {
    /** Transform: applies f to the contents and keeps the file reference. */
    function Transform<U>(f: T -> U): (r: FileContents<U>)
      ensures r.fileReference == fileReference
      ensures r.contents == f(contents)
    {
      FileContents(fileReference, f(contents))
    }
  }

  /** Transforming by f and then by g is transforming by their composition. */
  lemma TransformCompose<T, U, W>(x: FileContents<T>, f: T -> U, g: U -> W)
    ensures x.Transform(f).Transform(g) == x.Transform(y => g(f(y)))
  {
  }

  /** Transforming by the identity changes nothing. */
  lemma TransformIdentity<T>(x: FileContents<T>)
    ensures x.Transform(y => y) == x
  {
  }

  /** AzdoPackageLookupResult: the references found in one file. */
  datatype LookupResult<AV, PV> = LookupResult(
    fileReference: FileReference,
    assemblyReferences: seq<AssemblyReference<AV>>,
    packageReferences: seq<PackageReference<PV>>)
  {
    /** The inherited AzdoGitFileContents view: its contents are the pair of
        reference lists. */
    function AsFileContents(): (r: FileContents<(seq<AssemblyReference<AV>>, seq<PackageReference<PV>>)>)
      ensures r.fileReference == fileReference
      ensures r.contents.0 == assemblyReferences && r.contents.1 == packageReferences
    {
      FileContents(fileReference, (assemblyReferences, packageReferences))
    }
  }

  /** The file-contents view loses nothing: the lookup result can be rebuilt from it. */
  lemma LookupResultFromContents<AV, PV>(x: LookupResult<AV, PV>)
    ensures var c := x.AsFileContents(); LookupResult(c.fileReference, c.contents.0, c.contents.1) == x
  {
  }

  /** QueryParameters: what one run of the scraper searches for. */
  datatype QueryParameters = QueryParameters(
    connection: AzdoConnection.Connection,
    packageName: string,
    useWildcardSuffixMatching: bool,
    maxRecordsToReturn: int)

  /** `query with { MaxRecordsToReturn = n }` */
  function WithMaxRecords(q: QueryParameters, n: int): (r: QueryParameters)
    ensures r.maxRecordsToReturn == n
    ensures r.connection == q.connection && r.packageName == q.packageName
    ensures r.useWildcardSuffixMatching == q.useWildcardSuffixMatching
  {
    q.(maxRecordsToReturn := n)
  }
}
