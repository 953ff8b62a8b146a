/** AzdoConnection: turning the user's organisation name or URL into an
    organisation name, the connection's base URI, and the argument checks
    SearchCodeAsync makes before any request is built.

    The three regular expressions of ExtractOrgName are written out as
    character-level matchers. .NET's `$` (without RegexOptions.Multiline)
    matches at the end of the input or just before a final '\n', and `.`
    matches anything but '\n'; both are modelled. */
module AzdoConnection {
  import opened Common
  import GlobalUtils

  // ---------------------------------------------------------------------
  // Pattern pieces

  /** [a-zA-Z0-9-] */
  predicate IsOrgChar(c: char) {
    IsAsciiLetterOrDigit(c) || c == '-'
  }

  /** [a-zA-Z0-9-]+ matched by the whole of s. */
  predicate IsOrgName(s: string) {
    |s| >= 1 && forall i :: 0 <= i < |s| ==> IsOrgChar(s[i])
  }

  /** `$`: the end of the input, or a final '\n' before it. */
  predicate AtEnd(t: string) {
    t == [] || t == "\n"
  }

  predicate NoNewline(t: string) {
    forall i :: 0 <= i < |t| ==> t[i] != '\n'
  }

  /** `(/.*)?$` matched by the whole of t. */
  predicate PathThenEnd(t: string) {
    || AtEnd(t)
    || (t[0] == '/' && NoNewline(t[1..]))
    || (t[0] == '/' && |t| >= 2 && t[|t| - 1] == '\n' && NoNewline(t[1..|t| - 1]))
  }

  /** The length of the longest prefix of s made of org characters (greedy `+`). */
  function OrgRun(s: string): (k: nat)
    ensures k <= |s|
    ensures forall i :: 0 <= i < k ==> IsOrgChar(s[i])
    ensures k < |s| ==> !IsOrgChar(s[k])
  {
    if s != [] && IsOrgChar(s[0]) then 1 + OrgRun(s[1..]) else 0
  }

  lemma OrgRunOf(o: string, tail: string)
    requires forall i :: 0 <= i < |o| ==> IsOrgChar(o[i])
    requires tail == [] || !IsOrgChar(tail[0])
    ensures OrgRun(o + tail) == |o|
  {
    if o != [] {
      assert (o + tail)[1..] == o[1..] + tail;
      OrgRunOf(o[1..], tail);
    }
  }

  const HttpsScheme := "https://"
  const VisualStudioSuffix := ".visualstudio.com"

  // ---------------------------------------------------------------------
  // The three patterns

  /** ^[a-zA-Z0-9-]+$ */
  predicate MatchesOrgNamePattern(s: string) {
    IsOrgName(s) || (|s| >= 2 && s[|s| - 1] == '\n' && IsOrgName(s[..|s| - 1]))
  }

  /** ^https://(?<orgName>[a-zA-Z0-9-]+)\.visualstudio\.com(/.*)?$ :
      the orgName group, if the input matches. */
  function VisualStudioOrg(s: string): Option<string> {
    if |s| < |HttpsScheme| || s[..|HttpsScheme|] != HttpsScheme then None
    else
      var rest := s[|HttpsScheme|..];
      var k := OrgRun(rest);
      if k >= 1 && |rest| >= k + |VisualStudioSuffix|
        && rest[k..k + |VisualStudioSuffix|] == VisualStudioSuffix
        && PathThenEnd(rest[k + |VisualStudioSuffix|..])
      then Some(rest[..k])
      else None
  }

  /** The declarative reading of the visualstudio.com pattern. */
  predicate IsVisualStudioUrl(s: string, org: string, tail: string) {
    IsOrgName(org) && PathThenEnd(tail) && s == HttpsScheme + org + VisualStudioSuffix + tail
  }

  lemma VisualStudioOrgSound(s: string, org: string)
    requires VisualStudioOrg(s) == Some(org)
    ensures exists tail :: IsVisualStudioUrl(s, org, tail)
  {
    var rest := s[|HttpsScheme|..];
    var tail := rest[|org| + |VisualStudioSuffix|..];
    Reassemble(s, HttpsScheme, |org|, VisualStudioSuffix);
    assert IsVisualStudioUrl(s, org, tail);
  }

  /** s split after a prefix p, then after k more characters, then after an
      infix suf that is known to be there. */
  lemma Reassemble(s: string, p: string, k: nat, suf: string)
    requires |s| >= |p| && s[..|p|] == p
    requires |s| - |p| >= k + |suf| && s[|p|..][k..k + |suf|] == suf
    ensures s == p + s[|p|..][..k] + suf + s[|p|..][k + |suf|..]
  {
    var rest := s[|p|..];
    assert rest == rest[..k] + rest[k..k + |suf|] + rest[k + |suf|..];
    assert s == s[..|p|] + rest;
  }

  lemma VisualStudioOrgComplete(s: string, org: string, tail: string)
    requires IsVisualStudioUrl(s, org, tail)
    ensures VisualStudioOrg(s) == Some(org)
  {
    assert VisualStudioSuffix[0] == '.' && !IsOrgChar('.');
    RunBetween(s, HttpsScheme, org, VisualStudioSuffix, tail);
  }

  /** Where s is pre + org + suf + tail and suf starts with a character
      outside the org alphabet, the greedy run after pre is exactly org. */
  lemma RunBetween(s: string, pre: string, org: string, suf: string, tail: string)
    requires s == pre + org + suf + tail
    requires forall i :: 0 <= i < |org| ==> IsOrgChar(org[i])
    requires suf != [] && !IsOrgChar(suf[0])
    ensures |s| >= |pre| && s[..|pre|] == pre
    ensures var rest := s[|pre|..];
      && OrgRun(rest) == |org| && |rest| >= |org| + |suf|
      && rest[..|org|] == org
      && rest[|org|..|org| + |suf|] == suf
      && rest[|org| + |suf|..] == tail
  {
    var rest := s[|pre|..];
    assert rest == org + (suf + tail);
    OrgRunOf(org, suf + tail);
  }

  /** The matcher finds exactly the org name of the pattern. */
  lemma VisualStudioOrgCorrect(s: string, org: string)
    ensures VisualStudioOrg(s) == Some(org) <==> exists tail :: IsVisualStudioUrl(s, org, tail)
  {
    if VisualStudioOrg(s) == Some(org) {
      VisualStudioOrgSound(s, org);
    }
    if tail :| IsVisualStudioUrl(s, org, tail) {
      VisualStudioOrgComplete(s, org, tail);
    }
  }

  /** ^https://dev.azure.com/(?<orgName>[a-zA-Z0-9-]+)(/.*)?$ : the dots
      are unescaped, so each matches any character except '\n'. */
  function DevAzureOrg(s: string): Option<string> {
    if |s| < 22 || s[..11] != "https://dev" || s[11] == '\n' || s[12..17] != "azure"
      || s[17] == '\n' || s[18..22] != "com/"
    then None
    else
      var rest := s[22..];
      var k := OrgRun(rest);
      if k >= 1 && PathThenEnd(rest[k..]) then Some(rest[..k]) else None
  }

  /** The declarative reading of the dev.azure.com pattern, with the two
      wildcard positions x and y. */
  predicate IsDevAzureUrl(s: string, x: char, y: char, org: string, tail: string) {
    && x != '\n' && y != '\n'
    && IsOrgName(org) && PathThenEnd(tail)
    && s == "https://dev" + [x] + "azure" + [y] + "com/" + org + tail
  }

  lemma DevAzureOrgSound(s: string, org: string)
    requires DevAzureOrg(s) == Some(org)
    ensures IsDevAzureUrl(s, s[11], s[17], org, s[22 + |org|..])
  {
    var tail := s[22 + |org|..];
    assert s[22..] == org + tail;
    assert s == s[..11] + [s[11]] + s[12..17] + [s[17]] + s[18..22] + s[22..];
  }

  lemma DevAzureOrgComplete(s: string, x: char, y: char, org: string, tail: string)
    requires IsDevAzureUrl(s, x, y, org, tail)
    ensures DevAzureOrg(s) == Some(org)
  {
    assert s[..11] == "https://dev" && s[11] == x && s[12..17] == "azure";
    assert s[17] == y && s[18..22] == "com/";
    assert s[22..] == org + tail;
    OrgRunOf(org, tail);
    assert s[22..][|org|..] == tail;
  }

  lemma DevAzureOrgCorrect(s: string, org: string)
    ensures DevAzureOrg(s) == Some(org) <==>
      exists x, y, tail :: IsDevAzureUrl(s, x, y, org, tail)
  {
    if DevAzureOrg(s) == Some(org) {
      DevAzureOrgSound(s, org);
    }
    if x, y, tail :| IsDevAzureUrl(s, x, y, org, tail) {
      DevAzureOrgComplete(s, x, y, org, tail);
    }
  }

  /** "https://devXazureYcom/contoso/x" names the organisation "contoso"
      for any X and Y other than a line break. */
  lemma DevAzureDotsAreWildcards(x: char, y: char)
    requires x != '\n' && y != '\n'
    ensures DevAzureOrg("https://dev" + [x] + "azure" + [y] + "com/contoso/x") == Some("contoso")
  {
    var s := "https://dev" + [x] + "azure" + [y] + "com/contoso/x";
    assert IsOrgName("contoso") && PathThenEnd("/x");
    assert IsDevAzureUrl(s, x, y, "contoso", "/x");
    DevAzureOrgCorrect(s, "contoso");
  }

  // ---------------------------------------------------------------------
  // ExtractOrgName

  /** ExtractOrgName: null or empty gives null; a bare organisation name is
      returned as it is; otherwise the visualstudio.com form is tried, then
      the dev.azure.com form; anything else gives null. */
  function ExtractOrgName(input: Option<string>): (r: Option<string>)
    ensures input.None? || input == Some("") ==> r.None?
    ensures input.Some? && MatchesOrgNamePattern(input.value) ==> r == input
    ensures r.Some? ==>
      (|| IsOrgName(r.value)
       || (r == input && input.value[|input.value| - 1] == '\n' && IsOrgName(input.value[..|input.value| - 1])))
  {
    match input
    case None => None
    case Some(s) =>
      if s == [] then None
      else if MatchesOrgNamePattern(s) then input
      else
        match VisualStudioOrg(s)
        case Some(org) => Some(org)
        case None =>
          match DevAzureOrg(s)
          case Some(org) => Some(org)
          case None => None
  }

  /** A visualstudio.com URL that is not itself a bare name yields its org. */
  lemma ExtractOrgNameVisualStudio(s: string, org: string, tail: string)
    requires IsVisualStudioUrl(s, org, tail)
    ensures ExtractOrgName(Some(s)) == Some(org)
  {
    VisualStudioOrgComplete(s, org, tail);
    assert s[5] == ':';
    NotBareName(s);
  }

  /** A dev.azure.com URL yields its org, unless it is a visualstudio.com URL. */
  lemma ExtractOrgNameDevAzure(s: string, x: char, y: char, org: string, tail: string)
    requires IsDevAzureUrl(s, x, y, org, tail)
    requires VisualStudioOrg(s).None?
    ensures ExtractOrgName(Some(s)) == Some(org)
  {
    DevAzureOrgComplete(s, x, y, org, tail);
    assert s[5] == ':';
    NotBareName(s);
  }

  /** A URL, with the ':' of its scheme, is never a bare organisation name. */
  lemma NotBareName(s: string)
    requires |s| > 5 && s[5] == ':'
    ensures !MatchesOrgNamePattern(s)
  {
    assert !IsOrgChar(s[5]);
    if |s| >= 2 && s[|s| - 1] == '\n' {
      assert s[..|s| - 1][5] == s[5];
    }
  }

  /** Input that fits none of the three forms yields null. */
  lemma ExtractOrgNameUnknown(s: string)
    requires !MatchesOrgNamePattern(s)
    requires forall org, tail :: !IsVisualStudioUrl(s, org, tail)
    requires forall x, y, org, tail :: !IsDevAzureUrl(s, x, y, org, tail)
    ensures ExtractOrgName(Some(s)).None?
  {
    if VisualStudioOrg(s).Some? {
      VisualStudioOrgCorrect(s, VisualStudioOrg(s).value);
    }
    if DevAzureOrg(s).Some? {
      DevAzureOrgCorrect(s, DevAzureOrg(s).value);
    }
  }

  // ---------------------------------------------------------------------
  // The connection

  /** What the constructor records: the organisation name and the base URI
      "https://dev.azure.com/{org}/". The authenticated VssConnection is I/O
      and not part of the model. */
  datatype Connection = Connection(orgName: string, baseUri: string)

  const DevAzurePrefix := "https://dev.azure.com/"

  /** The base URI of an organisation: the org name can be read back from
      between the dev.azure.com prefix and the final slash. */
  function BaseUri(orgName: string): (r: string)
    ensures |r| == |DevAzurePrefix| + |orgName| + 1
    ensures r[..|DevAzurePrefix|] == DevAzurePrefix && r[|r| - 1] == '/'
    ensures r[|DevAzurePrefix|..|r| - 1] == orgName
  {
    DevAzurePrefix + orgName + "/"
  }

  /** Different organisations get different base URIs. */
  lemma BaseUriInjective(org1: string, org2: string)
    requires BaseUri(org1) == BaseUri(org2)
    ensures org1 == org2
  {
    var u := BaseUri(org1);
    assert org1 == u[|DevAzurePrefix|..|u| - 1];
  }

  /** The constructor: trims the input, extracts the organisation name and
      throws ArgumentException when there is none. */
  function Connect(orgNameOrUrl: Option<string>): (r: Result<Connection, Exception>)
    ensures r.Failure? <==> ExtractOrgName(TrimNullable(orgNameOrUrl)).None?
    ensures r.Failure? ==> r.error.ArgumentException?
    ensures r.Success? ==>
      (&& IsOrgName(r.value.orgName)
       && r.value.orgName == ExtractOrgName(TrimNullable(orgNameOrUrl)).value
       && r.value.baseUri == BaseUri(r.value.orgName))
  {
    var trimmed := TrimNullable(orgNameOrUrl);
    match ExtractOrgName(trimmed)
    case None => Failure(ArgumentException("Invalid AzDO URI or organization name."))
    case Some(org) =>
      // a result that is not an org name would be the trimmed input itself
      // ending in '\n', which Trim has removed
      assert IsWhiteSpace('\n');
      assert IsOrgName(org);
      Success(Connection(org, BaseUri(org)))
  }

  /** Blank input, null input included, is rejected. */
  lemma ConnectRejectsBlank(orgNameOrUrl: Option<string>)
    requires orgNameOrUrl.None? || Trim(orgNameOrUrl.value) == []
    ensures Connect(orgNameOrUrl).Failure?
  {
  }

  // ---------------------------------------------------------------------
  // SearchCodeAsync

  /** The argument checks SearchCodeAsync makes before building a request:
      skip must not be negative, and top must lie in [1, 1000]. */
  function CheckSearchArguments(skip: int, top: int): (r: Result<(), Exception>)
    ensures r.Success? <==> skip >= 0 && 1 <= top <= 1000
    ensures skip < 0 ==> r == Failure(ArgumentOutOfRangeException("skip"))
    ensures skip >= 0 && (top < 1 || top > 1000) ==> r == Failure(ArgumentOutOfRangeException("top"))
  {
    if skip < 0 then Failure(ArgumentOutOfRangeException("skip"))
    else if top < 1 || top > 1000 then Failure(ArgumentOutOfRangeException("top"))
    else Success(())
  }

  /** One request to the code-search service, as SearchCodeAsync posts it. */
  datatype SearchRequest = SearchRequest(uri: string, searchText: string, skip: int, top: int)

  function SearchUri(orgName: string): string {
    "https://almsearch.dev.azure.com/" + Text(GlobalUtils.UrlEncode(Some(orgName)))
      + "/_apis/search/codesearchresults?api-version=7.1-preview.1"
  }

  /** SearchCodeAsync: the argument checks, then one request to the service
      (a function of the request; None when the service or transport fails). */
  function SearchCode<R>(conn: Connection, searchText: string, skip: int, top: int,
                         service: SearchRequest -> Option<R>): (r: Result<R, Exception>)
    ensures CheckSearchArguments(skip, top).Failure? ==> r == Failure(CheckSearchArguments(skip, top).error)
    ensures CheckSearchArguments(skip, top).Success? ==>
      var response := service(SearchRequest(SearchUri(conn.orgName), searchText, skip, top));
      (r.Success? <==> response.Some?) && (r.Success? ==> r.value == response.value)
      && (r.Failure? ==> r.error == RemoteFailure)
  {
    match CheckSearchArguments(skip, top)
    case Failure(e) => Failure(e)
    case Success(_) =>
      match service(SearchRequest(SearchUri(conn.orgName), searchText, skip, top))
      case None => Failure(RemoteFailure)
      case Some(response) => Success(response)
  }
}
