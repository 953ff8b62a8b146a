# AzdoPackageScrape, modelled in Dafny

AzdoPackageScrape asks Azure DevOps (AzDO) code search which files in an organisation
mention a NuGet package or assembly. It reads each file found, extracts the package
and assembly references that match the name the user typed, and writes CSV reports
with per-(name, version) hit counts.

This project models the deterministic logic around the tool's concurrent dataflow
graph:

- the name-match policy shared by all extractors;
- the four search plugins: binding redirects in `*.config`, central package
  management in `Directory.Packages.props`, `packages.config`, and SDK-style
  project files. Each has an XML extraction and a search-clause builder;
- the query driver: the OR-joined query text, the count probe, the pagination
  loop with its git/branch filter, and the three per-file stages (fetch → parse
  XML → extract), each mapping a failure to null;
- the value records and their helpers: `Transform` and `ToFriendlyUrl`;
- CSV escaping, URL and query encoding;
- organisation-name extraction and the code-search argument guards;
- the console program's package-name and record-count prompts, the collection of
  non-null results, the output file name, and the hit-count statistics.

Modules follow the source files:

| module | file | source |
|---|---|---|
| `Common` | `common.dfy` | Option/Result, exceptions, .NET `Trim`, ASCII case folding, `string.Join` |
| `Xml` | `xml.dfy` | an abstract element tree with `Descendants`, `Elements`, `Element` and `Attribute` |
| `ExtractorUtil` | `extractor_util.dfy` | SearchPlugins/ExtractorUtil.cs |
| `BindingRedirectExtractor` | `binding_redirect.dfy` | SearchPlugins/BindingRedirectAssemblyReferenceExtractor.cs |
| `CentralPackageManagementExtractor` | `central_package_management.dfy` | SearchPlugins/CentralPackageManagementPackageReferenceExtractor.cs |
| `PackagesConfigExtractor` | `packages_config.dfy` | SearchPlugins/PackagesConfigPackageReferenceExtractor.cs |
| `SdkProjExtractor` | `sdk_proj.dfy` | SearchPlugins/SdkProjPackageReferenceExtractor.cs |
| `SearchPlugin` | `search_plugin.dfy` | the two extractor interfaces, as capability tags on a closed datatype |
| `Records` | `records.dfy` | Records.cs |
| `GlobalUtils` | `global_utils.dfy` | GlobalUtils.cs |
| `AzdoConnection` | `azdo_connection.dfy` | DevOps/AzdoConnection.cs |
| `AzdoCodeSearchPipeline` | `azdo_code_search_pipeline.dfy` | DevOps/AzdoCodeSearchPipeline.cs |
| `Program` | `program.dfy` | Program.cs, except the statistics |
| `Statistics` | `statistics.dfy` | the group-by / count / order-by queries of Program.cs |

Representation:

- A C# `null` is `Option.None`.
- A thrown exception is `Result.Failure`.
- Console input is a sequence of lines, where `None` is end of input.
- The following are function-valued parameters:
  - the code-search service (`SearchService`, `None` when the request fails);
  - the file fetch;
  - `XDocument.Parse`;
  - `Version.TryParse` and `SemanticVersion.TryParse`.
- Versions are type parameters.
- The culture-sensitive orderings of the statistics are passed as parameters.
  - Names are compared by a strict weak order, which may tie names that differ.
  - Versions are compared by a strict order.
  - A few lemmas ask for strict total orders; "## Left out" names them.

In these places the code does something a reader may not expect, and the model
follows the code:

- The dots in `https://dev.azure.com/` are unescaped in the organisation pattern, so
  any character is accepted there (`AzdoConnection.DevAzureDotsAreWildcards`).
- .NET's `$` also matches before a final newline.
- CSV escaping uses a backslash before each special character and backslash-quote
  delimiters, not RFC 4180 quote doubling.
- The count probe runs with a record limit of 1000.

Imperative code is modelled with methods proved against specification functions:

- the `StringBuilder` loops: `GlobalUtils.DoEscape` and each plugin's `GetSearchClause`;
- the pagination loop `AzdoCodeSearchPipeline.PreprocessRecords`;
- the prompt retry loops `Program.ReadPackageName` and `Program.ChooseRecordCount`;
- the result-collecting loop `Program.CollectResults`.

## Model

| member | source | states |
|---|---|---|
| ExtractorUtil.NameMatchesCharacterised | SearchPlugins/ExtractorUtil.cs:11-32 | a candidate matches iff it is non-null, non-empty, and either equals the target ignoring case or, with the wildcard on, starts with the target followed by '.' |
| ExtractorUtil.NullOrEmptyNeverMatches | SearchPlugins/ExtractorUtil.cs:13 | a null or empty candidate never matches, whatever the target and flag |
| ExtractorUtil.MatchNeedsPrefix | SearchPlugins/ExtractorUtil.cs:13-14 | a matching candidate starts with the target ignoring case, so it is at least as long as the target |
| ExtractorUtil.ExactMatchIgnoresFlag | SearchPlugins/ExtractorUtil.cs:16-19 | a non-empty candidate equal to the target ignoring case matches whatever the wildcard flag |
| ExtractorUtil.WildcardOffIsEquality | SearchPlugins/ExtractorUtil.cs:13-19 | with the wildcard off, a non-empty candidate matches iff it equals the target ignoring case |
| ExtractorUtil.WildcardNeedsDot | SearchPlugins/ExtractorUtil.cs:21-27 | with the wildcard on, a longer candidate that has the target as a prefix matches iff the character after the prefix is '.' |
| ExtractorUtil.SubPackageExample | SearchPlugins/ExtractorUtil.cs:21-27 | "Foo.Bar" matches "foo" with the wildcard on; "Foobar" does not; "Foo.Bar" does not with it off |
| ExtractorUtil.WildcardMonotone | SearchPlugins/ExtractorUtil.cs:16-27 | turning the wildcard on never turns a match into a non-match |
| ExtractorUtil.MatchIgnoresCase | SearchPlugins/ExtractorUtil.cs:14 | two candidates equal ignoring case get the same verdict |
| ExtractorUtil.TryParsePackageVersion | SearchPlugins/ExtractorUtil.cs:35-38 | null exactly when the input is null or the parser refuses it; otherwise the parser's value |
| ExtractorUtil.ExtractOne | SearchPlugins/SdkProjPackageReferenceExtractor.cs:27-32 | one element yields at most one reference; it yields one iff its name matches and its version parses, and that reference is (name, parsed version) |
| ExtractorUtil.ExtractSound | SearchPlugins/PackagesConfigPackageReferenceExtractor.cs:16-21 | every extracted reference matches the target and comes from a candidate with that name and a version that parses to its version |
| ExtractorUtil.ExtractAppend | SearchPlugins/CentralPackageManagementPackageReferenceExtractor.cs:15-20 | extraction distributes over concatenation of the candidates, so the output keeps document order |
| ExtractorUtil.ExtractComplete | SearchPlugins/CentralPackageManagementPackageReferenceExtractor.cs:15-20 | every candidate whose name matches and whose version parses contributes its reference to the output |
| ExtractorUtil.ExtractKeepsDuplicates | SearchPlugins/PackagesConfigPackageReferenceExtractor.cs:16-21 | the same surviving element twice yields two references: duplicates are kept |
| ExtractorUtil.ClauseBody | SearchPlugins/PackagesConfigPackageReferenceExtractor.cs:23-42 | every search clause ends with its closing parenthesis |
| ExtractorUtil.WildcardOnlyAppends | SearchPlugins/CentralPackageManagementPackageReferenceExtractor.cs:31-41 | the clause without the wildcard, less its ')', followed by " OR " and the sub-package term and ')', is the clause with it: the flag only appends |
| ExtractorUtil.ExactTermPhrase | SearchPlugins/BindingRedirectAssemblyReferenceExtractor.cs:40-42 | the exact-match term, read back as a quoted search phrase, is the attribute text `tag"N"` |
| ExtractorUtil.WildcardTermPhrase | SearchPlugins/BindingRedirectAssemblyReferenceExtractor.cs:44-51 | the wildcard term, read back as a quoted search phrase, is the attribute text `tag"N.` |
| ExtractorUtil.PhrasesCoverMatches | SearchPlugins/BindingRedirectAssemblyReferenceExtractor.cs:27-51 | for every candidate the extractor accepts, its attribute text begins (ignoring case) with the exact phrase or, with the wildcard on, the sub-package phrase: the query finds what extraction keeps |
| BindingRedirectExtractor.Candidates | SearchPlugins/BindingRedirectAssemblyReferenceExtractor.cs:21-28 | the candidates are exactly the asm.v1 `dependentAssembly` children of asm.v1 `assemblyBinding` elements anywhere in the document |
| BindingRedirectExtractor.ExtractAssemblyReferences | SearchPlugins/BindingRedirectAssemblyReferenceExtractor.cs:27-33 | at most one reference per candidate; every name matches the target; every version is the parse of the `newVersion` of a candidate with that `assemblyIdentity` name |
| BindingRedirectExtractor.UnnamespacedYieldsNothing | SearchPlugins/BindingRedirectAssemblyReferenceExtractor.cs:21-28 | a document with no element in the asm.v1 namespace yields no references |
| BindingRedirectExtractor.IncompleteElementDropped | SearchPlugins/BindingRedirectAssemblyReferenceExtractor.cs:29-32 | an element missing the `assemblyIdentity` name or the `bindingRedirect` newVersion is dropped |
| BindingRedirectExtractor.ExtractionComplete | SearchPlugins/BindingRedirectAssemblyReferenceExtractor.cs:27-33 | every candidate with a matching name and a parsable version is in the output |
| BindingRedirectExtractor.GetSearchClause | SearchPlugins/BindingRedirectAssemblyReferenceExtractor.cs:35-55 | the appends produce `ext:config AND ("<assemblyIdentity name=\"N\""`, then ` OR "<assemblyIdentity name=\"N."` when the wildcard is on, then `)` |
| CentralPackageManagementExtractor.Candidates | SearchPlugins/CentralPackageManagementPackageReferenceExtractor.cs:15 | the candidates are exactly the un-namespaced `PackageVersion` elements at any depth |
| CentralPackageManagementExtractor.ExtractPackageReferences | SearchPlugins/CentralPackageManagementPackageReferenceExtractor.cs:14-20 | at most one reference per candidate; every name matches; every version is the parse of the trimmed `Version` of a candidate with that trimmed `Include` |
| CentralPackageManagementExtractor.ExtractionComplete | SearchPlugins/CentralPackageManagementPackageReferenceExtractor.cs:15-20 | every `PackageVersion` element with a matching `Include` and a parsable `Version` is in the output |
| CentralPackageManagementExtractor.GetSearchClause | SearchPlugins/CentralPackageManagementPackageReferenceExtractor.cs:22-42 | the appends produce `file:Directory.Packages.props AND ("<PackageVersion Include=\"N\""`, the optional sub-package term, then `)` |
| PackagesConfigExtractor.Candidates | SearchPlugins/PackagesConfigPackageReferenceExtractor.cs:16 | the candidates are exactly the `package` children of `packages` elements |
| PackagesConfigExtractor.ExtractPackageReferences | SearchPlugins/PackagesConfigPackageReferenceExtractor.cs:15-21 | at most one reference per candidate; every name matches; every version is the parse of the trimmed lowercase `version` of a candidate with that trimmed `id` |
| PackagesConfigExtractor.NoPackagesYieldsNothing | SearchPlugins/PackagesConfigPackageReferenceExtractor.cs:16 | a document without a `packages` element yields nothing |
| PackagesConfigExtractor.ExtractionComplete | SearchPlugins/PackagesConfigPackageReferenceExtractor.cs:16-21 | every candidate with a matching `id` and a parsable `version` is in the output |
| PackagesConfigExtractor.GetSearchClause | SearchPlugins/PackagesConfigPackageReferenceExtractor.cs:23-43 | the appends produce `file:packages.config AND ("<package id=\"N\""`, the optional sub-package term, then `)` |
| SdkProjExtractor.Candidates | SearchPlugins/SdkProjPackageReferenceExtractor.cs:27 | the candidates are exactly the un-namespaced `PackageReference` elements at any depth |
| SdkProjExtractor.ExtractPackageReferences | SearchPlugins/SdkProjPackageReferenceExtractor.cs:26-32 | at most one reference per candidate; every name matches; every version is the parse of the trimmed `Version` of a candidate with that trimmed `Include` |
| SdkProjExtractor.ExtractionComplete | SearchPlugins/SdkProjPackageReferenceExtractor.cs:27-32 | every `PackageReference` with a matching `Include` and a parsable `Version` is in the output |
| SdkProjExtractor.FrameworkTerms | SearchPlugins/SdkProjPackageReferenceExtractor.cs:57 | one term per framework, in order; each term, read back as a search phrase, asks for `<TargetFramework>` followed by its framework |
| SdkProjExtractor.GetSearchClause | SearchPlugins/SdkProjPackageReferenceExtractor.cs:34-61 | the appends produce the package clause, `) AND (`, the nine framework terms joined by " OR ", then `)` |
| SdkProjExtractor.FrameworkFilterIndependent | SearchPlugins/SdkProjPackageReferenceExtractor.cs:56-58 | every clause ends with the same framework filter and closing parenthesis, whatever package clause (so whatever name and wildcard flag) precedes it |
| SdkProjExtractor.FrameworkTermPhrase | SearchPlugins/SdkProjPackageReferenceExtractor.cs:13-24 | every one of the nine framework terms, read back as a phrase, is `<TargetFramework>` followed by that framework prefix |
| SdkProjExtractor.FrameworkExamples | SearchPlugins/SdkProjPackageReferenceExtractor.cs:13-24 | the phrases select netcoreapp2.1 and net472 but not net6.0, netstandard2.0 or net461 |
| SearchPlugin.Plugin.ExtractAssemblyReferences | SearchPlugins/IAssemblyReferenceExtractor.cs:8 | every reference an assembly extractor returns matches the target |
| SearchPlugin.Plugin.ExtractPackageReferences | SearchPlugins/IPackageReferenceExtractor.cs:8 | every reference a package extractor returns matches the target |
| AzdoCodeSearchPipeline.QueryTermsInPluginOrder | DevOps/AzdoCodeSearchPipeline.cs:49-55 | the query text is the four plugins' clauses, each in parentheses, joined by " OR ", in the order BindingRedirect, CPM, packages.config, SDK project |
| AzdoCodeSearchPipeline.GetMatchCount | DevOps/AzdoCodeSearchPipeline.cs:57-76 | the probe's result depends only on the service's answer to one request (skip 0, top 1); a failed request fails, a negative count throws "Invalid count returned.", any other count is returned |
| AzdoCodeSearchPipeline.MatchCountNonNegative | DevOps/AzdoCodeSearchPipeline.cs:70-75 | a successful count is never negative |
| AzdoCodeSearchPipeline.PaginateStep | DevOps/AzdoCodeSearchPipeline.cs:98-120 | one pass of the loop: a failed request ends it, an empty page ends it after that page, a non-empty page is followed by the pages for the reduced remaining count and advanced skip |
| AzdoCodeSearchPipeline.PaginateHead | DevOps/AzdoCodeSearchPipeline.cs:98-107 | a first page exists only if records are wanted and the request succeeds; it is requested with top = min(1000, remaining) at the current skip; an empty page is the last |
| AzdoCodeSearchPipeline.PageRequests | DevOps/AzdoCodeSearchPipeline.cs:98-120 | before each request, skip equals the number of records returned by earlier pages, and top is min(1000, records still wanted) |
| AzdoCodeSearchPipeline.PagesWanted | DevOps/AzdoCodeSearchPipeline.cs:98-107 | each request is made while fewer records than requested have been seen; every page but the last returned records |
| AzdoCodeSearchPipeline.PageRequestsValid | DevOps/AzdoCodeSearchPipeline.cs:98-101 | every request has top in [1, 1000] and skip ≥ 0, so it passes SearchCodeAsync's argument checks |
| AzdoCodeSearchPipeline.PageCountBound | DevOps/AzdoCodeSearchPipeline.cs:98-120 | the loop makes at most as many requests as records were asked for |
| AzdoCodeSearchPipeline.Postable | DevOps/AzdoCodeSearchPipeline.cs:109-116 | the posted records of a page are exactly its git records with at least one version |
| AzdoCodeSearchPipeline.PostedArePostable | DevOps/AzdoCodeSearchPipeline.cs:109-116 | everything posted is a git record with a branch, the condition the pipeline's Post asserts |
| AzdoCodeSearchPipeline.PostedCount | DevOps/AzdoCodeSearchPipeline.cs:109-119 | every record a page returned is either posted or dropped by the filter, so the records counted against the remaining total are the posted ones plus the dropped ones (and at least as many as were posted) |
| AzdoCodeSearchPipeline.Dropped | DevOps/AzdoCodeSearchPipeline.cs:109-116 | the records the filter drops: none of them comes from a git repository with a branch |
| AzdoCodeSearchPipeline.PostPage | DevOps/AzdoCodeSearchPipeline.cs:109-116 | the foreach appends the page's postable records to those already posted, in page order |
| AzdoCodeSearchPipeline.RequestPages | DevOps/AzdoCodeSearchPipeline.cs:93-120 | the while loop requests exactly the pages of Paginate and posts exactly their postable records in page order |
| AzdoCodeSearchPipeline.PreprocessRecords | DevOps/AzdoCodeSearchPipeline.cs:86-121 | the producer, for a valid record count, requests the query's pages from skip 0 and posts their postable records |
| AzdoCodeSearchPipeline.FetchRawFileText | DevOps/AzdoCodeSearchPipeline.cs:232-255 | a record without versions or a failed read gives null; otherwise the file reference (connection org, project, repository, path, first branch) and the text read for it |
| AzdoCodeSearchPipeline.ConvertToXml | DevOps/AzdoCodeSearchPipeline.cs:257-268 | null stays null; unparsable text gives null; otherwise the file reference is kept and the contents are the parsed document |
| AzdoCodeSearchPipeline.AssemblyExtractors | DevOps/AzdoCodeSearchPipeline.cs:279 | exactly the plugins that implement the assembly extractor interface |
| AzdoCodeSearchPipeline.PackageExtractors | DevOps/AzdoCodeSearchPipeline.cs:283 | exactly the plugins that implement the package extractor interface |
| AzdoCodeSearchPipeline.ExtractorsOfSearchPlugins | DevOps/AzdoCodeSearchPipeline.cs:49-55 | the binding-redirect plugin is the only assembly extractor; the other three are the package extractors, in plugin order |
| AzdoCodeSearchPipeline.ExtractPackageVersions | DevOps/AzdoCodeSearchPipeline.cs:270-291 | null stays null; otherwise the file reference is kept and every assembly and package reference matches the query's name and flag |
| AzdoCodeSearchPipeline.ExtractionByPlugin | DevOps/AzdoCodeSearchPipeline.cs:276-285 | the assembly references are the binding-redirect plugin's; the package references are the CPM, packages.config and SDK-project plugins' outputs concatenated in that order |
| AzdoCodeSearchPipeline.ProcessRecord | DevOps/AzdoCodeSearchPipeline.cs:184-212 | a result from fetch → parse → extract is for a file of the connection's organisation, and its package references match the query |
| AzdoCodeSearchPipeline.ProcessRecordSucceeds | DevOps/AzdoCodeSearchPipeline.cs:240-290 | a record with a branch yields a result iff its file can be read and parses as XML; the result is for that file |
| AzdoCodeSearchPipeline.ProcessAll | DevOps/AzdoCodeSearchPipeline.cs:177-212 | one result per posted record, in posting order; a non-null result is for the file its record names (its first branch), a file of the connection's organisation, and holds only matching package references |
| AzdoCodeSearchPipeline.ResultStreamSound | DevOps/AzdoCodeSearchPipeline.cs:78-84 | in whatever order the stream delivers its results, every non-null result is for the connection's organisation and holds only matching package references |
| Records.FileReference.ToFriendlyUrl | Records.cs:27-31 | the URL parses back to the same file reference |
| Records.FriendlyUrlRoundTrip | Records.cs:27-31 | parsing `https://dev.azure.com/{org}/{project}/_git/{repo}?path={path}&version=GB{branch}`, with the first three URL-encoded and the last two query-encoded, recovers all five fields |
| Records.FriendlyUrlInjective | Records.cs:27-31 | different file references have different friendly URLs |
| Records.Encoded | Records.cs:30 | each URL-encoded component contains only unreserved characters and percent escapes, and decodes back to the component |
| Records.QueryEncoded | Records.cs:30 | each query-encoded component contains only unreserved characters, '/' and percent escapes, and decodes back to the component |
| Records.FileContents.Transform | Records.cs:38-39 | keeps the file reference and applies the converter to the contents |
| Records.TransformCompose | Records.cs:38-39 | transforming by f then g equals transforming by g∘f |
| Records.TransformIdentity | Records.cs:38-39 | transforming by the identity changes nothing |
| Records.LookupResult.AsFileContents | Records.cs:42-48 | the inherited contents are exactly the pair (assembly references, package references) for the same file |
| Records.LookupResultFromContents | Records.cs:42-48 | a lookup result is recovered from its file-contents view |
| Records.WithMaxRecords | Records.cs:50-54 | `with { MaxRecordsToReturn = n }` sets that field and leaves the connection, package name and wildcard flag unchanged |
| GlobalUtils.CountMustEscape | GlobalUtils.cs:13 | counts the must-escape characters; zero iff there are none |
| GlobalUtils.DoEscape | GlobalUtils.cs:23-32 | the foreach loop produces the escaped text: a backslash before each control character, ',' and '"', every character copied |
| GlobalUtils.EscapedLength | GlobalUtils.cs:23-32 | the escaped text is as long as the input plus the number of must-escape characters |
| GlobalUtils.UnescapedEscaped | GlobalUtils.cs:23-32 | deleting the backslash before each must-escape character of the escaped text recovers the input |
| GlobalUtils.CsvEscape | GlobalUtils.cs:10-33 | null stays null; text without a control character, ',' or '"' is returned as it is; other text becomes backslash-quote, the escaped text, backslash-quote, and the input is recoverable from it |
| GlobalUtils.UrlEncode | GlobalUtils.cs:35-40 | null and empty input are returned as they are; any other input becomes text of unreserved characters and percent escapes that decodes back to it |
| GlobalUtils.UnescapeEscapeDataString | GlobalUtils.cs:39 | percent-decoding inverts EscapeDataString on every string: each character is its UTF-8 bytes, each byte '%' and two upper-case hex digits, unreserved characters left as they are |
| GlobalUtils.EscapeDataStringUnreserved | GlobalUtils.cs:39 | text made only of unreserved characters is left unchanged |
| GlobalUtils.Utf8RoundTrip | GlobalUtils.cs:39 | decoding the UTF-8 encoding of any character gives it back, and its lead byte announces its length |
| GlobalUtils.QueryEscapeIsReplace | GlobalUtils.cs:46 | replacing every "%2F" in the percent-encoded text turns exactly the escaped slashes back into '/' |
| GlobalUtils.UnescapeQueryEscape | GlobalUtils.cs:42-47 | query-encoded text still decodes back to the input |
| GlobalUtils.QueryEncode | GlobalUtils.cs:42-47 | null and empty input are returned as they are; otherwise the input percent-encoded with '/' kept literal, which decodes back to the input |
| AzdoConnection.VisualStudioOrgCorrect | DevOps/AzdoConnection.cs:55-59 | the visualstudio.com pattern yields org iff the input is `https://` + org + `.visualstudio.com` followed by nothing or by '/' and text without line breaks; a single final newline is also allowed, as .NET's `$` permits |
| AzdoConnection.DevAzureOrgCorrect | DevOps/AzdoConnection.cs:61-65 | the dev.azure.com pattern yields org iff the input is `https://dev`, any character, `azure`, any character, `com/` + org, then nothing or '/' and text without line breaks, optionally ending in one newline |
| AzdoConnection.DevAzureDotsAreWildcards | DevOps/AzdoConnection.cs:61 | the unescaped dots accept any non-newline character: `https://devXazureYcom/contoso/x` yields contoso |
| AzdoConnection.ExtractOrgName | DevOps/AzdoConnection.cs:42-70 | null or empty gives null; a bare name is returned first, as it is; every non-null result is a name of letters, digits and '-', or such a name with a final newline |
| AzdoConnection.ExtractOrgNameVisualStudio | DevOps/AzdoConnection.cs:55-59 | a visualstudio.com URL yields its organisation |
| AzdoConnection.ExtractOrgNameDevAzure | DevOps/AzdoConnection.cs:61-65 | a dev.azure.com URL that is not a visualstudio.com URL yields its organisation |
| AzdoConnection.ExtractOrgNameUnknown | DevOps/AzdoConnection.cs:67-69 | input matching none of the three forms gives null |
| AzdoConnection.BaseUri | DevOps/AzdoConnection.cs:33 | the base URI starts with `https://dev.azure.com/`, ends with `/`, and the organisation name reads back from between the two |
| AzdoConnection.BaseUriInjective | DevOps/AzdoConnection.cs:33 | different organisations get different base URIs |
| AzdoConnection.Connect | DevOps/AzdoConnection.cs:24-33 | the constructor trims its input and throws ArgumentException iff no organisation name can be extracted; otherwise the org name consists only of letters, digits and '-', and the base URI is built from it |
| AzdoConnection.ConnectRejectsBlank | DevOps/AzdoConnection.cs:26-30 | null input and input that is blank after trimming are rejected |
| AzdoConnection.CheckSearchArguments | DevOps/AzdoConnection.cs:105-113 | succeeds iff skip ≥ 0 and 1 ≤ top ≤ 1000; a negative skip throws for "skip" first; otherwise a bad top throws for "top" |
| AzdoConnection.SearchCode | DevOps/AzdoConnection.cs:103-140 | a failed argument check throws before any request; otherwise the result is the service's answer to the one request with these arguments |
| Program.ConnectPromptFirst | Program.cs:22-36 | the connection is made from the first line that yields one, and every line before it was rejected with an ArgumentException |
| Program.StripWildcard | Program.cs:56-60 | a name ending in ".*" loses those two characters and turns the flag on; any other name and the flag are left unchanged |
| Program.DottedNameCharacterised | Program.cs:63 | the name pattern holds iff the name is non-empty, made of letters, digits, '_', '-' and '.', neither starts nor ends with '.', and has no two adjacent dots |
| Program.PackageNameWithoutNewline | Program.cs:63 | for a name without a newline, the pattern is exactly the dotted-segment shape above |
| Program.ReadPackageLine | Program.cs:52-66 | one pass of the loop trims the line, strips a final ".*" (setting the flag) and accepts exactly the names AcceptedName accepts |
| Program.ReadPackageName | Program.cs:44-70 | the retry loop returns the name, the flag and the position after the accepted line, as PackagePrompt defines them; it reports no acceptance iff no line is accepted |
| Program.PackagePromptAccepts | Program.cs:52-66 | an accepted name matches the pattern, and the trimmed line it came from is the name or the name followed by ".*" |
| Program.PackagePromptFirst | Program.cs:47-70 | the prompt stops at the first acceptable line, and every earlier line was refused |
| Program.PackagePromptWildcard | Program.cs:45-60 | the flag is on iff some line read, including rejected ones, asked for it: it is never reset |
| Program.WildcardIsSticky | Program.cs:45-69 | a rejected `bad!.*`-style line followed by an acceptable plain name gives that name with the wildcard on |
| Program.ParseDecimal | Program.cs:92 | int.TryParse reads back the decimal text of every non-negative int32 value |
| Program.ParseSignedDecimal | Program.cs:92 | int.TryParse reads back what Int32.ToString writes, for every int32 value, negative ones included |
| Program.DropTrailingNulsSpec | Program.cs:92 | before parsing, int.TryParse sets aside exactly the run of NUL characters that ends the text: what remains is a prefix, everything cut is NUL, and what remains does not end in NUL |
| Program.TrailingNulAccepted | Program.cs:92 | int.TryParse accepts white space and then NUL characters after the number ("5\0" gives 5, so the prompt takes it), but not white space after a NUL |
| Program.RecordCountChoiceSpec | Program.cs:87-97 | one line gives the default min(1000, count) when null or empty, or its value when it parses into [1, 10000]; it is rejected iff it is non-empty and does not |
| Program.ReadRecordCountLine | Program.cs:87-97 | one pass of the loop accepts exactly what RecordCountChoice accepts, with that count |
| Program.ChooseRecordCount | Program.cs:83-99 | the retry loop returns the count and position RecordCountPrompt defines |
| Program.RecordCountPromptValid | Program.cs:83-99 | the count chosen is in (0, 10000], and is the default or the value of the accepted line |
| Program.PlanFromCount | Program.cs:81-101 | a failed probe ends the run with its exception; a count ≤ 0 ends it with no matches; otherwise the query gets, through `with` and with nothing else changed, the record count the prompt chooses for that match count, which is valid |
| Program.PlanRetrieval | Program.cs:77-101 | the count probe runs with a record limit of 1000: an unanswered probe is a remote failure, a negative count an "Invalid count returned." exception, zero means no matches, and a positive count leads to a retrieval for the same connection, name and wildcard flag with the prompt's record count |
| Program.CollectResults | Program.cs:104-111 | the loop keeps the non-null results in arrival order |
| Program.SomesMultiplicity | Program.cs:106-109 | each kept record appears as often as its non-null result |
| Program.SomesLength | Program.cs:106-109 | kept records plus null results account for every result |
| Program.SomesOrderIndependent | Program.cs:104-111 | the kept records, as a multiset, do not depend on the order the results arrive in |
| Program.UnprocessedCount | Program.cs:113-116 | the message appears iff fewer records were kept than requested, and N is the difference |
| Program.OutputFilenameShape | Program.cs:126 | the base is "results-", the lower-cased org, "-" and the lower-cased package name, with no upper-case letter |
| Program.StatisticsDeterminedByQuery | Program.cs:156-175 | when names and versions are compared by strict total orders, both statistics tables come out identical whatever order the pipeline delivers results in |
| Program.StatisticsCountsDeterminedByQuery | Program.cs:156-175 | whatever order the pipeline delivers results in, and whatever the comparisons (ties between distinct names included), every (name, version) key has the same hit count in both tables |
| Statistics.HitStatistics | Program.cs:156-159 | each (name, version) key's hit count is its number of occurrences; the counts sum to the number of references and are all positive |
| Statistics.HitStatisticsAscending | Program.cs:158 | under a strict total key order, rows are strictly ascending by name, then version |
| Statistics.AscendingUnique | Program.cs:157-159 | ascending rows with positive counts are determined by their counts: there is one statistics table per multiset of references |
| Statistics.HitStatisticsOrderIndependent | Program.cs:156-159 | under a strict total key order, the table depends only on the multiset of references, not their order |
| Statistics.KeyBeforeIsTotal | Program.cs:158 | ordering by name, then version, is a strict total order when both orders are |
| Statistics.KeyBeforeIsStrict | Program.cs:158 | `orderby` name then version, with versions deciding between names the comparison ties, is a strict order when names are compared by a strict weak order and versions by a strict order |
| Statistics.HitStatisticsSorted | Program.cs:157-158 | under any strict key order, ties between distinct keys included, no row's key comes before an earlier row's key and no key has two rows |
| Statistics.HitCountsOrderIndependent | Program.cs:157-159 | whatever the comparison, every key's hit count depends only on the multiset of references |
| Statistics.StatisticsSorted | Program.cs:156-175 | with a culture-style name order (a strict weak order) and strict version orders, both tables are sorted by name, then version, with one row per key |
| Statistics.AllReferencesMembership | Program.cs:156 | SelectMany yields exactly the references found in some record |
| Statistics.AllReferencesPermutation | Program.cs:156 | reordering the records permutes the flattened references |

## Left out

- Dataflow concurrency: the parallel blocks, `EnsureOrdered = false`, completion propagation, cancellation, the 20-second fetch timeout and `ReceiveAllAsync`. The pipeline is a sequential map of the three stages over the posted records. Its output is characterised only up to order, as a multiset (`AzdoCodeSearchPipeline.IsResultStream`).
- Producer completion through `ContinueWith`: a failed search request ends the loop. Records already posted are still processed, and the exception is not observed.
- Remote I/O: authentication, `VssConnection`, HTTP, the JSON request body, and fetching file contents. The service and the fetch are function parameters, and failures are `None`.
- JSON deserialisation of the search response. Records and responses are datatypes.
- `XDocument.Parse`, `Version.TryParse` and `SemanticVersion.TryParse` are function parameters. XML is an already-parsed element tree.
- `new Uri(...)` normalisation of the friendly URL and the base URI. Both are kept as plain strings.
- Unicode: case-insensitive comparison and lower-casing are ASCII only. `Uri.EscapeDataString` is modelled on Unicode scalar values, and UTF-16 surrogates are not modelled.
- Culture-sensitive ordering of names and versions in the statistics is an abstract order: a strict weak order for names and a strict order for versions.
- Program.StatisticsDeterminedByQuery: holds only when names and versions are compared by strict total orders.
  - A culture comparison can tie distinct names, such as a precomposed letter and its decomposed form.
  - A version comparison that ignores build metadata can tie distinct versions.
  - Rows whose keys tie come out in the order their groups first arrive, and the pipeline does not fix that order.
  - What holds for any comparison is stated by Program.StatisticsCountsDeterminedByQuery and Statistics.StatisticsSorted.
- Statistics.HitStatisticsAscending: needs a strict total key order; under ties Statistics.HitStatisticsSorted states what holds.
- Statistics.HitStatisticsOrderIndependent: needs a strict total key order; under ties only the counts are order-independent (Statistics.HitCountsOrderIndependent).
- Program.ParseInt32: the sign characters are the invariant culture's `+` and `-`; int.TryParse takes them from the current culture.
- Console and file output: the prompts and messages, the CSV row writing (Program.cs:129-150), the statistics rows' formatting (Program.cs:161, 174) and the floating-point progress percentage (Program.cs:110).
- Regular expressions are written as character-class predicates, not run by a regex engine.
- `Program.ConnectPromptFirst`: when the input runs out, the source keeps prompting forever. The model returns `None` instead, and reading past the end of input gives null as `Console.ReadLine` does.
- `SearchPlugin.Plugin.ExtractAssemblyReferences` and `SearchPlugin.Plugin.ExtractPackageReferences` state only that every reference matches. The per-plugin functions they call carry the full contracts.
- `AzdoCodeSearchPipeline.ProcessRecord` does not restate the assembly-reference property; `AzdoCodeSearchPipeline.ExtractPackageVersions` states it.

## Findings

| source | as written | input that shows it | evidently intended | confidence | as-written member | corrected member |
|---|---|---|---|---|---|---|
| Program.cs:92 against DevOps/AzdoCodeSearchPipeline.cs:59,80 | the prompt accepts record counts up to and including 10000, but both pipeline entry points assert `MaxRecordsToReturn < 10000` | typing `10000` at the record-count prompt | one bound for both: counts in [1, 10000], the assertion reading `<= 10000` | not executed | AzdoCodeSearchPipeline.AssertedRecordCount, Program.TenThousandViolatesAssertion | AzdoCodeSearchPipeline.ValidRecordCount, Program.RecordCountPromptValid |
