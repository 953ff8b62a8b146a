/** AzdoCodeSearchPipeline: the query text, the count probe, the
    pagination of search results, and the three per-file stages
    (fetch, parse, extract).

    The dataflow network that runs the stages concurrently is modelled by
    what it computes: every posted record goes through the three stages in
    sequence, and the results arrive in some order, so they are compared
    as multisets. The search service, the file fetch, the XML parser and
    the two version parsers are function parameters; a None from any of
    them stands for an exception the source catches or lets escape. */
module AzdoCodeSearchPipeline {
  import opened Common
  import opened Xml
  import opened Records
  import AzdoConnection
  import ExtractorUtil
  import opened SearchPlugin
  import BindingRedirectExtractor
  import CentralPackageManagementExtractor
  import PackagesConfigExtractor
  import SdkProjExtractor

  /** The plugins in the order that drives both the query text and the
      extraction. */
  const SearchPlugins: seq<Plugin> := [BindingRedirect, CentralPackageManagement, PackagesConfig, SdkProj]

  // ---------------------------------------------------------------------
  // GetQueryTerms

  function Parenthesized(clause: string): string {
    "(" + clause + ")"
  }

  /** The parenthesised clause of each plugin, in plugin order. */
  function Clauses(plugins: seq<Plugin>, clause: Plugin -> string): (r: seq<string>)
    ensures |r| == |plugins|
  {
    if plugins == [] then []
    else [Parenthesized(clause(plugins[0]))] + Clauses(plugins[1..], clause)
  }

  function QueryTerms(packageName: string, useWildcardSuffix: bool): string {
    Join(" OR ", Clauses(SearchPlugins, (p: Plugin) => p.SearchClause(packageName, useWildcardSuffix)))
  }

  lemma Join4(sep: string, a: string, b: string, c: string, d: string)
    ensures Join(sep, [a, b, c, d]) == a + sep + b + sep + c + sep + d
  {
    assert [a, b, c, d][1..] == [b, c, d];
    assert [b, c, d][1..] == [c, d];
    assert Join(sep, [c, d]) == c + sep + d;
    assert Join(sep, [b, c, d]) == b + sep + (c + sep + d);
    assert Join(sep, [a, b, c, d]) == a + sep + (b + sep + (c + sep + d));
  }

  lemma Clauses4(p0: Plugin, p1: Plugin, p2: Plugin, p3: Plugin, clause: Plugin -> string)
    ensures Clauses([p0, p1, p2, p3], clause) ==
      [Parenthesized(clause(p0)), Parenthesized(clause(p1)), Parenthesized(clause(p2)), Parenthesized(clause(p3))]
  {
    assert [p0, p1, p2, p3][1..] == [p1, p2, p3];
    assert [p1, p2, p3][1..] == [p2, p3];
    assert [p2, p3][1..] == [p3];
    assert Clauses([p3], clause) == [Parenthesized(clause(p3))];
    assert Clauses([p2, p3], clause) == [Parenthesized(clause(p2))] + Clauses([p3], clause);
    assert Clauses([p1, p2, p3], clause) == [Parenthesized(clause(p1))] + Clauses([p2, p3], clause);
  }

  /** The query is each plugin's clause in parentheses, joined by " OR ",
      in the fixed plugin order. */
  lemma QueryTermsInPluginOrder(packageName: string, useWildcardSuffix: bool)
    ensures QueryTerms(packageName, useWildcardSuffix) ==
      Parenthesized(BindingRedirect.SearchClause(packageName, useWildcardSuffix))
      + " OR " + Parenthesized(CentralPackageManagement.SearchClause(packageName, useWildcardSuffix))
      + " OR " + Parenthesized(PackagesConfig.SearchClause(packageName, useWildcardSuffix))
      + " OR " + Parenthesized(SdkProj.SearchClause(packageName, useWildcardSuffix))
  {
    var n, w := packageName, useWildcardSuffix;
    Clauses4(BindingRedirect, CentralPackageManagement, PackagesConfig, SdkProj, (p: Plugin) => p.SearchClause(n, w));
    Join4(" OR ", Parenthesized(BindingRedirect.SearchClause(n, w)),
      Parenthesized(CentralPackageManagement.SearchClause(n, w)),
      Parenthesized(PackagesConfig.SearchClause(n, w)),
      Parenthesized(SdkProj.SearchClause(n, w)));
  }

  // ---------------------------------------------------------------------
  // The search service's answers (the JSON models)

  datatype ProjectRecord = ProjectRecord(name: string)
  datatype RepositoryRecord = RepositoryRecord(name: string, kind: string)
  datatype VersionRecord = VersionRecord(branchName: string)
  datatype ResultRecord = ResultRecord(
    path: string, project: ProjectRecord, repository: RepositoryRecord, versions: seq<VersionRecord>)

  /** A page of search results: the total match count and the records. */
  datatype SearchResponse = SearchResponse(count: int, results: seq<ResultRecord>)

  type SearchService = AzdoConnection.SearchRequest -> Option<SearchResponse>

  /** The bound on MaxRecordsToReturn that both entry points assert: the
      assertion as written demands fewer than 10000. */
  predicate AssertedRecordCount(n: int) {
    0 < n < 10000
  }

  /** The bound the caller validates against, and the one the assertion
      evidently means: at most 10000. */
  predicate ValidRecordCount(n: int) {
    0 < n <= 10000
  }

  // ---------------------------------------------------------------------
  // GetMatchCountAsync

  /** The one request the count probe sends: the query text, skip 0, top 1. */
  function ProbeRequest(query: QueryParameters): AzdoConnection.SearchRequest {
    AzdoConnection.SearchRequest(AzdoConnection.SearchUri(query.connection.orgName),
      QueryTerms(query.packageName, query.useWildcardSuffixMatching), 0, 1)
  }

  /** GetMatchCountAsync: the count the service reports for the query;
      a negative count is an error. The result depends on the service's
      answer to the probe request alone. */
  function GetMatchCount(query: QueryParameters, service: SearchService): (r: Result<int, Exception>)
    requires ValidRecordCount(query.maxRecordsToReturn)
    ensures service(ProbeRequest(query)).None? ==> r == Failure(RemoteFailure)
    ensures service(ProbeRequest(query)).Some? ==>
      var count := service(ProbeRequest(query)).value.count;
      (count < 0 ==> r == Failure(GeneralException("Invalid count returned.")))
      && (count >= 0 ==> r == Success(count))
  {
    match AzdoConnection.SearchCode(query.connection, QueryTerms(query.packageName, query.useWildcardSuffixMatching), 0, 1, service)
    case Failure(e) => Failure(e)
    case Success(response) =>
      if response.count < 0 then Failure(GeneralException("Invalid count returned."))
      else Success(response.count)
  }

  /** A successful count is never negative. */
  lemma MatchCountNonNegative(query: QueryParameters, service: SearchService)
    requires ValidRecordCount(query.maxRecordsToReturn)
    requires GetMatchCount(query, service).Success?
    ensures GetMatchCount(query, service).value >= 0
  {
  }

  // ---------------------------------------------------------------------
  // PreprocessRecords: pagination

  const MaxAzdoRecordsPerQuery := 1000

  /** One page request and the records the service returned for it. */
  datatype Page = Page(skip: int, top: int, records: seq<ResultRecord>)

  /** A page request of the producer loop: (skip, top) to the service's
      answer, or the exception SearchCodeAsync raised. */
  type PageSearch = (int, int) -> Result<SearchResponse, Exception>

  /** The page requests of one query: SearchCodeAsync with the query text. */
  function SearchPages(conn: AzdoConnection.Connection, text: string, service: SearchService): PageSearch {
    (skip: int, top: int) => AzdoConnection.SearchCode(conn, text, skip, top, service)
  }

  function QuerySearch(query: QueryParameters, service: SearchService): PageSearch {
    SearchPages(query.connection, QueryTerms(query.packageName, query.useWildcardSuffixMatching), service)
  }

  /** The pages the producer loop requests, starting with `remaining`
      records still wanted and `skip` records already seen. It stops when
      nothing more is wanted, on an empty page, or when a request fails
      (the exception ends the producer; what it posted stays posted). */
  function Paginate(search: PageSearch, remaining: int, skip: int): seq<Page>
    decreases if remaining > 0 then remaining else 0
  {
    if remaining <= 0 then []
    else
      var top := Min(MaxAzdoRecordsPerQuery, remaining);
      match search(skip, top)
      case Failure(_) => []
      case Success(response) =>
        var records := response.results;
        if records == [] then [Page(skip, top, [])]
        else [Page(skip, top, records)] + Paginate(search, remaining - |records|, skip + |records|)
  }

  /** One step of the producer loop: the pages requested so far, the page
      just requested, and the pages still to come make up all the pages. */
  lemma PaginateStep(search: PageSearch, all: seq<Page>, pages: seq<Page>, remaining: int, skip: int)
    requires remaining > 0
    requires all == pages + Paginate(search, remaining, skip)
    ensures var top := Min(MaxAzdoRecordsPerQuery, remaining);
      && (search(skip, top).Failure? ==> all == pages)
      && (search(skip, top).Success? && search(skip, top).value.results == [] ==>
            all == pages + [Page(skip, top, [])])
      && (search(skip, top).Success? && search(skip, top).value.results != [] ==>
            var records := search(skip, top).value.results;
            all == pages + [Page(skip, top, records)] + Paginate(search, remaining - |records|, skip + |records|))
  {
    var top := Min(MaxAzdoRecordsPerQuery, remaining);
    if search(skip, top).Success? && search(skip, top).value.results != [] {
      var records := search(skip, top).value.results;
      var rest := Paginate(search, remaining - |records|, skip + |records|);
      assert Paginate(search, remaining, skip) == [Page(skip, top, records)] + rest;
      assert pages + ([Page(skip, top, records)] + rest) == pages + [Page(skip, top, records)] + rest;
    }
  }

  /** The number of records the pages returned. */
  function RecordCount(pages: seq<Page>): nat {
    if pages == [] then 0 else |pages[0].records| + RecordCount(pages[1..])
  }

  /** Only records from git repositories with at least one branch are posted. */
  predicate IsPostable(record: ResultRecord) {
    record.repository.kind == "git" && |record.versions| > 0
  }

  /** The postable records of one page, in order. */
  function Postable(records: seq<ResultRecord>): (r: seq<ResultRecord>)
    ensures forall x :: x in r <==> x in records && IsPostable(x)
  {
    if records == [] then []
    else
      var last := records[|records| - 1];
      assert forall x :: x in records <==> x in records[..|records| - 1] || x == last;
      Postable(records[..|records| - 1]) + (if IsPostable(last) then [last] else [])
  }

  /** Everything posted to the pipeline, page by page. */
  function Posted(pages: seq<Page>): seq<ResultRecord> {
    if pages == [] then [] else Posted(pages[..|pages| - 1]) + Postable(pages[|pages| - 1].records)
  }

  lemma PostedSnoc(pages: seq<Page>, p: Page)
    ensures Posted(pages + [p]) == Posted(pages) + Postable(p.records)
  {
    assert (pages + [p])[..|pages|] == pages;
  }

  /** Posts the postable records of one page, in order. */
  method PostPage(posted: seq<ResultRecord>, records: seq<ResultRecord>) returns (result: seq<ResultRecord>)
    ensures result == posted + Postable(records)
  {
    result := posted;
    var i := 0;
    while i < |records|
      invariant 0 <= i <= |records|
      invariant result == posted + Postable(records[..i])
    {
      assert records[..i + 1][..i] == records[..i];
      if IsPostable(records[i]) {
        result := result + [records[i]];
      }
      i := i + 1;
    }
    assert records[..|records|] == records;
  }

  /** The producer loop. Returns the records posted to the pipeline and
      the pages requested. */
  method RequestPages(search: PageSearch, maxRecordsToReturn: int) returns (posted: seq<ResultRecord>, pages: seq<Page>)
    ensures pages == Paginate(search, maxRecordsToReturn, 0)
    ensures posted == Posted(pages)
  {
    var recordsRemainingToReturn := maxRecordsToReturn;
    var skip := 0;
    ghost var all := Paginate(search, maxRecordsToReturn, 0);
    posted := [];
    pages := [];
    while recordsRemainingToReturn > 0
      invariant all == pages + Paginate(search, recordsRemainingToReturn, skip)
      invariant posted == Posted(pages)
      decreases recordsRemainingToReturn
    {
      var top := Min(MaxAzdoRecordsPerQuery, recordsRemainingToReturn);
      PaginateStep(search, all, pages, recordsRemainingToReturn, skip);
      var document := search(skip, top);
      if document.Failure? {
        break;
      }
      var records := document.value.results;
      PostedSnoc(pages, Page(skip, top, records));
      pages := pages + [Page(skip, top, records)];
      if |records| == 0 {
        break; // out of records
      }
      posted := PostPage(posted, records);
      recordsRemainingToReturn := recordsRemainingToReturn - |records|;
      skip := skip + |records|;
    }
  }

  /** PreprocessRecords: the query text, then the producer loop over
      SearchCodeAsync. */
  method PreprocessRecords(query: QueryParameters, service: SearchService) returns (posted: seq<ResultRecord>, pages: seq<Page>)
    requires ValidRecordCount(query.maxRecordsToReturn)
    ensures pages == Paginate(QuerySearch(query, service), query.maxRecordsToReturn, 0)
    ensures posted == Posted(pages)
  {
    var queryText := QueryTerms(query.packageName, query.useWildcardSuffixMatching);
    posted, pages := RequestPages(SearchPages(query.connection, queryText, service), query.maxRecordsToReturn);
  }

  /** The first page Paginate requests, and what follows it. */
  lemma PaginateHead(search: PageSearch, remaining: int, skip: int)
    ensures var pages := Paginate(search, remaining, skip);
      pages != [] ==>
        var top := Min(MaxAzdoRecordsPerQuery, remaining);
        && remaining > 0
        && search(skip, top).Success?
        && pages[0] == Page(skip, top, search(skip, top).value.results)
        && (pages[0].records == [] ==> pages == [pages[0]])
        && (pages[0].records != [] ==>
              pages == [pages[0]] + Paginate(search, remaining - |pages[0].records|, skip + |pages[0].records|))
  {
  }

  lemma RecordCountCons(p: Page, pages: seq<Page>)
    ensures RecordCount([p] + pages) == |p.records| + RecordCount(pages)
  {
    assert ([p] + pages)[1..] == pages;
  }

  /** Page i asks for min(1000, what is still wanted) records, skipping
      the records the pages before it returned. */
  ghost predicate RequestsFollow(pages: seq<Page>, remaining: int, skip: int) {
    forall i :: 0 <= i < |pages| ==>
      && pages[i].skip == skip + RecordCount(pages[..i])
      && pages[i].top == Min(MaxAzdoRecordsPerQuery, remaining - RecordCount(pages[..i]))
  }

  lemma {:induction false} PageRequests(search: PageSearch, remaining: int, skip: int)
    ensures RequestsFollow(Paginate(search, remaining, skip), remaining, skip)
    decreases if remaining > 0 then remaining else 0
  {
    var pages := Paginate(search, remaining, skip);
    PaginateHead(search, remaining, skip);
    if pages != [] {
      var p := pages[0];
      var rest: seq<Page> := [];
      if p.records != [] {
        rest := Paginate(search, remaining - |p.records|, skip + |p.records|);
        PageRequests(search, remaining - |p.records|, skip + |p.records|);
      }
      assert pages == [p] + rest;
      RequestsCons(p, rest, remaining, skip);
    }
  }

  /** A first page asking for min(1000, remaining) records at `skip`,
      followed by pages that follow on from what it returned. */
  lemma RequestsCons(p: Page, rest: seq<Page>, remaining: int, skip: int)
    requires p.skip == skip && p.top == Min(MaxAzdoRecordsPerQuery, remaining)
    requires RequestsFollow(rest, remaining - |p.records|, skip + |p.records|)
    ensures RequestsFollow([p] + rest, remaining, skip)
  {
    var pages := [p] + rest;
    forall i | 0 <= i < |pages|
      ensures pages[i].skip == skip + RecordCount(pages[..i])
      ensures pages[i].top == Min(MaxAzdoRecordsPerQuery, remaining - RecordCount(pages[..i]))
    {
      if i == 0 {
        assert pages[..0] == [];
      } else {
        ShiftedPage(p, rest, i);
      }
    }
  }

  /** Page i of `[p] + rest` is page i - 1 of `rest`, and the pages before
      it are `p` followed by the pages before it in `rest`. */
  lemma ShiftedPage(p: Page, rest: seq<Page>, i: int)
    requires 0 < i <= |rest|
    ensures ([p] + rest)[i] == rest[i - 1]
    ensures RecordCount(([p] + rest)[..i]) == |p.records| + RecordCount(rest[..i - 1])
  {
    assert ([p] + rest)[..i] == [p] + rest[..i - 1];
    RecordCountCons(p, rest[..i - 1]);
  }

  /** Every page is requested while records are still wanted, and every
      page but the last returned records. */
  lemma {:induction false} PagesWanted(search: PageSearch, remaining: int, skip: int)
    ensures var pages := Paginate(search, remaining, skip);
      && (forall i :: 0 <= i < |pages| ==> RecordCount(pages[..i]) < remaining)
      && (forall i :: 0 <= i < |pages| - 1 ==> pages[i].records != [])
    decreases if remaining > 0 then remaining else 0
  {
    var pages := Paginate(search, remaining, skip);
    PaginateHead(search, remaining, skip);
    if pages != [] && pages[0].records != [] {
      var n := |pages[0].records|;
      var rest := Paginate(search, remaining - n, skip + n);
      PagesWanted(search, remaining - n, skip + n);
      forall i | 0 <= i < |pages|
        ensures RecordCount(pages[..i]) < remaining
      {
        if i == 0 {
          assert pages[..0] == [];
        } else {
          assert pages[..i] == [pages[0]] + rest[..i - 1];
          RecordCountCons(pages[0], rest[..i - 1]);
        }
      }
      forall i | 0 <= i < |pages| - 1
        ensures pages[i].records != []
      {
        if i > 0 {
          assert pages[i] == rest[i - 1];
        }
      }
    } else if pages != [] {
      assert pages[..0] == [];
    }
  }

  /** Each request asks for between 1 and 1000 records, never skips a
      negative number, and so passes SearchCodeAsync's argument checks. */
  lemma PageRequestsValid(search: PageSearch, remaining: int)
    ensures var pages := Paginate(search, remaining, 0);
      forall i :: 0 <= i < |pages| ==>
        && 1 <= pages[i].top <= MaxAzdoRecordsPerQuery
        && pages[i].skip >= 0
        && AzdoConnection.CheckSearchArguments(pages[i].skip, pages[i].top).Success?
  {
    PageRequests(search, remaining, 0);
    PagesWanted(search, remaining, 0);
  }

  /** The loop makes at most as many requests as records were asked for. */
  lemma {:induction false} PageCountBound(search: PageSearch, remaining: int, skip: int)
    ensures |Paginate(search, remaining, skip)| <= (if remaining > 0 then remaining else 0)
    decreases if remaining > 0 then remaining else 0
  {
    var pages := Paginate(search, remaining, skip);
    PaginateHead(search, remaining, skip);
    if pages != [] && pages[0].records != [] {
      var n := |pages[0].records|;
      PageCountBound(search, remaining - n, skip + n);
    }
  }

  /** The records of one page the filter drops, in order. */
  function Unpostable(records: seq<ResultRecord>): (r: seq<ResultRecord>)
    ensures forall x :: x in r <==> x in records && !IsPostable(x)
  {
    if records == [] then []
    else
      var last := records[|records| - 1];
      assert forall x :: x in records <==> x in records[..|records| - 1] || x == last;
      Unpostable(records[..|records| - 1]) + (if IsPostable(last) then [] else [last])
  }

  /** Everything the filter dropped, page by page. */
  function Dropped(pages: seq<Page>): (r: seq<ResultRecord>)
    ensures forall x :: x in r ==> !IsPostable(x)
  {
    if pages == [] then [] else Dropped(pages[..|pages| - 1]) + Unpostable(pages[|pages| - 1].records)
  }

  /** Every record the pages returned is either posted or dropped by the
      filter: the records counted against the remaining total are the
      posted ones and the dropped ones together. */
  lemma {:induction false} PostedCount(pages: seq<Page>)
    ensures RecordCount(pages) == |Posted(pages)| + |Dropped(pages)|
    ensures |Posted(pages)| <= RecordCount(pages)
  {
    if pages != [] {
      var init := pages[..|pages| - 1];
      PostedCount(init);
      PostableCount(pages[|pages| - 1].records);
      RecordCountSnoc(init, pages[|pages| - 1]);
      assert init + [pages[|pages| - 1]] == pages;
    }
  }

  /** A page splits into its postable and its dropped records. */
  lemma {:induction false} PostableCount(records: seq<ResultRecord>)
    ensures |Postable(records)| + |Unpostable(records)| == |records|
  {
    if records != [] {
      PostableCount(records[..|records| - 1]);
    }
  }

  lemma {:induction false} RecordCountSnoc(pages: seq<Page>, p: Page)
    ensures RecordCount(pages + [p]) == RecordCount(pages) + |p.records|
  {
    if pages == [] {
      assert [p][1..] == [];
    } else {
      assert (pages + [p])[1..] == pages[1..] + [p];
      RecordCountSnoc(pages[1..], p);
    }
  }

  /** Every posted record is from a git repository and names a branch. */
  lemma {:induction false} PostedArePostable(pages: seq<Page>)
    ensures forall x :: x in Posted(pages) ==> IsPostable(x)
  {
    if pages != [] {
      PostedArePostable(pages[..|pages| - 1]);
    }
  }

  // ---------------------------------------------------------------------
  // The three stages

  /** FetchRawFileTextFromAzdoAsync: names the file from the record (the
      first version's branch) and reads it. A record without versions, or
      a failed read, gives null. */
  function FetchRawFileText(query: QueryParameters, record: ResultRecord,
                            fetch: FileReference -> Option<string>): (r: Option<FileContents<string>>)
    ensures record.versions == [] ==> r.None?
    ensures r.Some? ==>
      && r.value.fileReference == FileReference(query.connection.orgName, record.project.name,
                                                record.repository.name, record.path, record.versions[0].branchName)
      && Some(r.value.contents) == fetch(r.value.fileReference)
    ensures record.versions != [] ==>
      (r.Some? <==> fetch(FileReference(query.connection.orgName, record.project.name,
                                        record.repository.name, record.path, record.versions[0].branchName)).Some?)
  {
    if record.versions == [] then None
    else
      var fileReference := FileReference(query.connection.orgName, record.project.name,
                                         record.repository.name, record.path, record.versions[0].branchName);
      match fetch(fileReference)
      case None => None
      case Some(text) => Some(FileContents(fileReference, text))
  }

  /** ConvertRawAzdoResultBlobToXml: null stays null; text that does not
      parse gives null; otherwise the contents are parsed in place. */
  function ConvertToXml(fileContents: Option<FileContents<string>>,
                        parseXml: string -> Option<XDocument>): (r: Option<FileContents<XDocument>>)
    ensures fileContents.None? ==> r.None?
    ensures fileContents.Some? ==> (r.Some? <==> parseXml(fileContents.value.contents).Some?)
    ensures r.Some? ==> r.value.fileReference == fileContents.value.fileReference
                        && Some(r.value.contents) == parseXml(fileContents.value.contents)
  {
    match fileContents
    case None => None
    case Some(c) =>
      match parseXml(c.contents)
      case None => None
      case Some(doc) => Some(c.Transform(_ => doc))
  }

  /** The plugins with the assembly-extractor capability, in order. */
  function AssemblyExtractors(plugins: seq<Plugin>): (r: seq<Plugin>)
    ensures forall p :: p in r <==> p in plugins && p.ExtractsAssemblies()
  {
    if plugins == [] then []
    else
      assert forall p :: p in plugins <==> p == plugins[0] || p in plugins[1..];
      (if plugins[0].ExtractsAssemblies() then [plugins[0]] else []) + AssemblyExtractors(plugins[1..])
  }

  /** The plugins with the package-extractor capability, in order. */
  function PackageExtractors(plugins: seq<Plugin>): (r: seq<Plugin>)
    ensures forall p :: p in r <==> p in plugins && p.ExtractsPackages()
  {
    if plugins == [] then []
    else
      assert forall p :: p in plugins <==> p == plugins[0] || p in plugins[1..];
      (if plugins[0].ExtractsPackages() then [plugins[0]] else []) + PackageExtractors(plugins[1..])
  }

  /** LINQ SelectMany over a list of plugins. */
  function SelectMany<T>(plugins: seq<Plugin>, select: Plugin -> seq<T>): (r: seq<T>)
    ensures forall x :: x in r ==> exists p :: p in plugins && x in select(p)
  {
    if plugins == [] then []
    else select(plugins[0]) + SelectMany(plugins[1..], select)
  }

  lemma SelectMany1<T>(p0: Plugin, select: Plugin -> seq<T>)
    ensures SelectMany([p0], select) == select(p0)
  {
    assert [p0][1..] == [];
    assert SelectMany([p0], select) == select(p0) + [];
  }

  lemma SelectMany3<T>(p0: Plugin, p1: Plugin, p2: Plugin, select: Plugin -> seq<T>)
    ensures SelectMany([p0, p1, p2], select) == select(p0) + select(p1) + select(p2)
  {
    assert [p0, p1, p2][1..] == [p1, p2];
    assert [p1, p2][1..] == [p2];
    SelectMany1(p2, select);
    assert SelectMany([p1, p2], select) == select(p1) + SelectMany([p2], select);
  }

  /** The assembly references a plugin finds, when it is an assembly extractor. */
  function AssemblyReferencesOf<AV>(doc: XDocument, target: string, useWildcardSuffix: bool,
                                    parseVersion: string -> Option<AV>): Plugin -> seq<AssemblyReference<AV>>
  {
    (p: Plugin) => if p.ExtractsAssemblies() then p.ExtractAssemblyReferences(doc, target, useWildcardSuffix, parseVersion) else []
  }

  /** The package references a plugin finds, when it is a package extractor. */
  function PackageReferencesOf<PV>(doc: XDocument, target: string, useWildcardSuffix: bool,
                                   parseVersion: string -> Option<PV>): Plugin -> seq<PackageReference<PV>>
  {
    (p: Plugin) => if p.ExtractsPackages() then p.ExtractPackageReferences(doc, target, useWildcardSuffix, parseVersion) else []
  }

  /** ExtractPackageVersionsFromXml: null stays null; otherwise the
      assembly references of the assembly extractors and the package
      references of the package extractors, each in plugin order, for the
      same file. Nothing in extraction fails, so the catch is never taken. */
  function ExtractPackageVersions<AV, PV>(query: QueryParameters, fileXml: Option<FileContents<XDocument>>,
                                          parseAssemblyVersion: string -> Option<AV>,
                                          parsePackageVersion: string -> Option<PV>): (r: Option<LookupResult<AV, PV>>)
    ensures r.Some? <==> fileXml.Some?
    ensures r.Some? ==> r.value.fileReference == fileXml.value.fileReference
    ensures r.Some? ==> forall x :: x in r.value.assemblyReferences ==>
      ExtractorUtil.NameMatches(Some(x.name), query.packageName, query.useWildcardSuffixMatching)
    ensures r.Some? ==> forall x :: x in r.value.packageReferences ==>
      ExtractorUtil.NameMatches(Some(x.name), query.packageName, query.useWildcardSuffixMatching)
  {
    match fileXml
    case None => None
    case Some(f) =>
      var n, w := query.packageName, query.useWildcardSuffixMatching;
      Some(LookupResult(
        f.fileReference,
        SelectMany(AssemblyExtractors(SearchPlugins), AssemblyReferencesOf(f.contents, n, w, parseAssemblyVersion)),
        SelectMany(PackageExtractors(SearchPlugins), PackageReferencesOf(f.contents, n, w, parsePackageVersion))))
  }

  /** With the plugins fixed, the assembly references come from the
      binding-redirect plugin alone, and the package references are those
      of the Directory.Packages.props, packages.config and project-file
      plugins, in that order. */
  lemma ExtractionByPlugin<AV, PV>(query: QueryParameters, f: FileContents<XDocument>,
                                   parseAssemblyVersion: string -> Option<AV>, parsePackageVersion: string -> Option<PV>)
    ensures var r := ExtractPackageVersions(query, Some(f), parseAssemblyVersion, parsePackageVersion).value;
      var n, w := query.packageName, query.useWildcardSuffixMatching;
      && r.assemblyReferences == BindingRedirect.ExtractAssemblyReferences(f.contents, n, w, parseAssemblyVersion)
      && r.packageReferences ==
           CentralPackageManagement.ExtractPackageReferences(f.contents, n, w, parsePackageVersion)
         + PackagesConfig.ExtractPackageReferences(f.contents, n, w, parsePackageVersion)
         + SdkProj.ExtractPackageReferences(f.contents, n, w, parsePackageVersion)
  {
    var n, w := query.packageName, query.useWildcardSuffixMatching;
    ExtractorsOfSearchPlugins();
    var asm := AssemblyReferencesOf(f.contents, n, w, parseAssemblyVersion);
    var pkg := PackageReferencesOf(f.contents, n, w, parsePackageVersion);
    SelectMany1(BindingRedirect, asm);
    SelectMany3(CentralPackageManagement, PackagesConfig, SdkProj, pkg);
  }

  /** The binding-redirect plugin is the only assembly extractor; the other
      three are the package extractors, in plugin order. */
  lemma ExtractorsOfSearchPlugins()
    ensures AssemblyExtractors(SearchPlugins) == [BindingRedirect]
    ensures PackageExtractors(SearchPlugins) == [CentralPackageManagement, PackagesConfig, SdkProj]
  {
    var s4: seq<Plugin> := [SdkProj];
    var s3 := [PackagesConfig] + s4;
    var s2 := [CentralPackageManagement] + s3;
    assert SearchPlugins == [BindingRedirect] + s2;
    assert s4 == s4 + [];
    ExtractorsCons(SdkProj, []);
    ExtractorsCons(PackagesConfig, s4);
    ExtractorsCons(CentralPackageManagement, s3);
    ExtractorsCons(BindingRedirect, s2);
  }

  /** The capability filters take one plugin at a time. */
  lemma ExtractorsCons(p: Plugin, ps: seq<Plugin>)
    ensures AssemblyExtractors([p] + ps) == (if p.ExtractsAssemblies() then [p] else []) + AssemblyExtractors(ps)
    ensures PackageExtractors([p] + ps) == (if p.ExtractsPackages() then [p] else []) + PackageExtractors(ps)
  {
    assert ([p] + ps)[0] == p && ([p] + ps)[1..] == ps;
  }

  /** One posted record through fetch, parse and extract. */
  function ProcessRecord<AV, PV>(query: QueryParameters, record: ResultRecord,
                                 fetch: FileReference -> Option<string>, parseXml: string -> Option<XDocument>,
                                 parseAssemblyVersion: string -> Option<AV>,
                                 parsePackageVersion: string -> Option<PV>): (r: Option<LookupResult<AV, PV>>)
    ensures r.Some? ==> record.versions != [] && r.value.fileReference == RecordFile(query, record)
    ensures r.Some? ==> r.value.fileReference.organization == query.connection.orgName
    ensures r.Some? ==> forall x :: x in r.value.packageReferences ==>
      ExtractorUtil.NameMatches(Some(x.name), query.packageName, query.useWildcardSuffixMatching)
  {
    ExtractPackageVersions(query, ConvertToXml(FetchRawFileText(query, record, fetch), parseXml),
                           parseAssemblyVersion, parsePackageVersion)
  }

  /** A record yields a result exactly when it names a branch, its file
      can be read and the text parses as XML; the result is for that file. */
  lemma ProcessRecordSucceeds<AV, PV>(query: QueryParameters, record: ResultRecord,
                                      fetch: FileReference -> Option<string>, parseXml: string -> Option<XDocument>,
                                      parseAssemblyVersion: string -> Option<AV>,
                                      parsePackageVersion: string -> Option<PV>)
    requires record.versions != []
    ensures var f := FileReference(query.connection.orgName, record.project.name, record.repository.name,
                                   record.path, record.versions[0].branchName);
      var r := ProcessRecord(query, record, fetch, parseXml, parseAssemblyVersion, parsePackageVersion);
      && (r.Some? <==> fetch(f).Some? && parseXml(fetch(f).value).Some?)
      && (r.Some? ==> r.value.fileReference == f)
  {
  }

  /** The file a search result names: its branch is the first version's. */
  function RecordFile(query: QueryParameters, record: ResultRecord): FileReference
    requires record.versions != []
  {
    FileReference(query.connection.orgName, record.project.name, record.repository.name,
                  record.path, record.versions[0].branchName)
  }

  /** The results of the pipeline for the posted records, one per record
      (null where a stage failed), in posting order. A non-null result is
      for the file its record names, a file of the connection's
      organisation, and holds only matching package references. */
  function ProcessAll<AV, PV>(query: QueryParameters, posted: seq<ResultRecord>,
                              fetch: FileReference -> Option<string>, parseXml: string -> Option<XDocument>,
                              parseAssemblyVersion: string -> Option<AV>,
                              parsePackageVersion: string -> Option<PV>): (r: seq<Option<LookupResult<AV, PV>>>)
    ensures |r| == |posted|
    ensures forall i :: 0 <= i < |r| && r[i].Some? ==>
      posted[i].versions != [] && r[i].value.fileReference == RecordFile(query, posted[i])
    ensures forall x :: x in r && x.Some? ==>
      && x.value.fileReference.organization == query.connection.orgName
      && forall ref :: ref in x.value.packageReferences ==>
           ExtractorUtil.NameMatches(Some(ref.name), query.packageName, query.useWildcardSuffixMatching)
  {
    seq(|posted|, i requires 0 <= i < |posted| =>
      ProcessRecord(query, posted[i], fetch, parseXml, parseAssemblyVersion, parsePackageVersion))
  }

  /** GetResultsAsync: the stream of results is some ordering of the
      results for the posted records. */
  ghost predicate IsResultStream<AV, PV>(results: seq<Option<LookupResult<AV, PV>>>, query: QueryParameters,
                                         service: SearchService, fetch: FileReference -> Option<string>,
                                         parseXml: string -> Option<XDocument>,
                                         parseAssemblyVersion: string -> Option<AV>,
                                         parsePackageVersion: string -> Option<PV>)
  {
    var pages := Paginate(QuerySearch(query, service), query.maxRecordsToReturn, 0);
    multiset(results) == multiset(ProcessAll(query, Posted(pages), fetch, parseXml, parseAssemblyVersion, parsePackageVersion))
  }

  /** Whatever order the stream has, every non-null result is for a file of
      the connection's organisation, and every package reference in it
      matches the query. */
  lemma ResultStreamSound<AV, PV>(results: seq<Option<LookupResult<AV, PV>>>, query: QueryParameters,
                                  service: SearchService, fetch: FileReference -> Option<string>,
                                  parseXml: string -> Option<XDocument>,
                                  parseAssemblyVersion: string -> Option<AV>,
                                  parsePackageVersion: string -> Option<PV>)
    requires IsResultStream(results, query, service, fetch, parseXml, parseAssemblyVersion, parsePackageVersion)
    ensures forall r :: r in results && r.Some? ==>
      && r.value.fileReference.organization == query.connection.orgName
      && forall x :: x in r.value.packageReferences ==>
           ExtractorUtil.NameMatches(Some(x.name), query.packageName, query.useWildcardSuffixMatching)
  {
    var pages := Paginate(QuerySearch(query, service), query.maxRecordsToReturn, 0);
    var all := ProcessAll(query, Posted(pages), fetch, parseXml, parseAssemblyVersion, parsePackageVersion);
    forall r | r in results
      ensures r in all
    {
      assert r in multiset(results);
    }
  }
}
