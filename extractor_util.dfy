/** ExtractorUtil: the name-match policy every extractor applies, the
    version-parse wrapper, and the parts the four extractor plugins share:
    the select-match-parse comprehension over candidate elements and the
    shape of a search clause. */
module ExtractorUtil {
  import opened Common
  import opened Xml
  import opened Records

  // ---------------------------------------------------------------------
  // PackageOrAssemblyNameMatches

  /** Does the candidate name found in a file match the name the user asked
      for? The candidate must start with the target, ignoring case; it then
      matches when it is exactly as long, or, with the wildcard on, when the
      next character is '.'. */
  function NameMatches(candidate: Option<string>, target: string, useWildcardSuffix: bool): bool {
    if candidate.Some? && candidate.value != [] && StartsWithIgnoreCase(candidate.value, target) then
      if |candidate.value| == |target| then true                      // exact match
      else if useWildcardSuffix && |candidate.value| > |target|
        && candidate.value[|target|] == '.' then true                 // wildcard suffix match
      else false
    else false
  }

  /** Starting with `target.` is starting with target and then a '.'. */
  lemma StartsWithDot(c: string, target: string)
    ensures StartsWithIgnoreCase(c, target + ".") <==>
      StartsWithIgnoreCase(c, target) && |c| > |target| && c[|target|] == '.'
  {
    var m := |target|;
    if m < |c| {
      assert forall i :: 0 <= i < m ==> c[..m + 1][i] == c[..m][i];
      assert c[..m + 1][m] == c[m];
      assert (target + ".")[m] == '.';
      if c[m] != '.' {
        assert !CharEqualsIgnoreCase(c[..m + 1][m], (target + ".")[m]);
      }
    }
  }

  /** The policy in one line: a non-empty candidate matches when it equals
      the target ignoring case or, with the wildcard on, starts with the
      target and a '.'. */
  lemma NameMatchesCharacterised(candidate: Option<string>, target: string, useWildcardSuffix: bool)
    ensures NameMatches(candidate, target, useWildcardSuffix) <==>
      && candidate.Some? && candidate.value != []
      && (|| EqualsIgnoreCase(candidate.value, target)
          || (useWildcardSuffix && StartsWithIgnoreCase(candidate.value, target + ".")))
  {
    if candidate.Some? {
      var c := candidate.value;
      StartsWithDot(c, target);
      if |c| == |target| {
        assert c[..|target|] == c;
      }
      if EqualsIgnoreCase(c, target) {
        assert c[..|target|] == c;
      }
    }
  }

  /** A null or empty candidate never matches. */
  lemma NullOrEmptyNeverMatches(candidate: Option<string>, target: string, useWildcardSuffix: bool)
    requires candidate.None? || candidate == Some("")
    ensures !NameMatches(candidate, target, useWildcardSuffix)
  {
  }

  /** A match needs the target as a prefix, ignoring case; so a candidate
      shorter than the target never matches. */
  lemma MatchNeedsPrefix(candidate: string, target: string, useWildcardSuffix: bool)
    requires NameMatches(Some(candidate), target, useWildcardSuffix)
    ensures StartsWithIgnoreCase(candidate, target)
    ensures |candidate| >= |target|
  {
    if !EqualsIgnoreCase(candidate, target) {
      assert forall i :: 0 <= i < |target| ==> candidate[..|target|][i] == candidate[..|target| + 1][i];
    } else {
      assert candidate[..|target|] == candidate;
    }
  }

  /** A candidate equal to the target up to case matches whatever the flag. */
  lemma ExactMatchIgnoresFlag(candidate: string, target: string, useWildcardSuffix: bool)
    requires candidate != [] && EqualsIgnoreCase(candidate, target)
    ensures NameMatches(Some(candidate), target, useWildcardSuffix)
  {
  }

  /** With the wildcard off, matching is equality ignoring case. */
  lemma WildcardOffIsEquality(candidate: string, target: string)
    requires candidate != []
    ensures NameMatches(Some(candidate), target, false) <==> EqualsIgnoreCase(candidate, target)
  {
  }

  /** With the wildcard on, a longer candidate that starts with the target
      matches exactly when the next character is '.'. */
  lemma WildcardNeedsDot(candidate: string, target: string)
    requires |candidate| > |target| && StartsWithIgnoreCase(candidate, target)
    ensures NameMatches(Some(candidate), target, true) <==> candidate[|target|] == '.'
  {
    if candidate[|target|] == '.' {
      assert forall i :: 0 <= i < |target| ==> candidate[..|target| + 1][i] == candidate[..|target|][i];
      assert EqualsIgnoreCase(candidate[..|target| + 1], target + ".");
    } else {
      assert !CharEqualsIgnoreCase(candidate[..|target| + 1][|target|], '.');
    }
  }

  /** "Foo.Bar" is a sub-package of "foo"; "Foobar" is not. */
  lemma SubPackageExample()
    ensures NameMatches(Some("Foo.Bar"), "foo", true)
    ensures !NameMatches(Some("Foobar"), "foo", true)
    ensures !NameMatches(Some("Foo.Bar"), "foo", false)
  {
    assert StartsWithIgnoreCase("Foo.Bar", "foo") by {
      assert "Foo.Bar"[..3] == "Foo";
    }
    WildcardNeedsDot("Foo.Bar", "foo");
    assert StartsWithIgnoreCase("Foobar", "foo") by {
      assert "Foobar"[..3] == "Foo";
    }
    WildcardNeedsDot("Foobar", "foo");
  }

  /** Turning the wildcard on never loses a match. */
  lemma WildcardMonotone(candidate: Option<string>, target: string)
    ensures NameMatches(candidate, target, false) ==> NameMatches(candidate, target, true)
  {
  }

  lemma EqualsIgnoreCaseTrans(a: string, b: string, c: string)
    requires EqualsIgnoreCase(a, b) && EqualsIgnoreCase(b, c)
    ensures EqualsIgnoreCase(a, c)
  {
  }

  /** The policy sees names only up to case: candidates that differ only in
      case match alike. */
  lemma MatchIgnoresCase(c1: string, c2: string, target: string, useWildcardSuffix: bool)
    requires EqualsIgnoreCase(c1, c2)
    ensures NameMatches(Some(c1), target, useWildcardSuffix) == NameMatches(Some(c2), target, useWildcardSuffix)
  {
    var n := |target| + 1;
    if n <= |c1| {
      assert EqualsIgnoreCase(c1[..n], c2[..n]);
      if StartsWithIgnoreCase(c1, target + ".") { EqualsIgnoreCaseTrans(c2[..n], c1[..n], target + "."); }
      if StartsWithIgnoreCase(c2, target + ".") { EqualsIgnoreCaseTrans(c1[..n], c2[..n], target + "."); }
    }
    if EqualsIgnoreCase(c1, target) { EqualsIgnoreCaseTrans(c2, c1, target); }
    if EqualsIgnoreCase(c2, target) { EqualsIgnoreCaseTrans(c1, c2, target); }
  }

  // ---------------------------------------------------------------------
  // TryParsePackageVersion

  /** TryParsePackageVersion: the library parser's result, or null when it
      fails; null input fails. It never throws. */
  function TryParsePackageVersion<PV>(versionString: Option<string>, parse: string -> Option<PV>): (r: Option<PV>)
    ensures r.None? <==> versionString.None? || parse(versionString.value).None?
    ensures r.Some? ==> parse(versionString.value) == r
  {
    match versionString
    case None => None
    case Some(s) => parse(s)
  }

  // ---------------------------------------------------------------------
  // The extraction comprehension
  //
  //   from e in candidates
  //   let name = nameOf(e)
  //   where NameMatches(name, target, flag)
  //   let version = tryParse(versionOf(e))
  //   where version is not null
  //   select new Reference(name, version)

  /** What the comprehension yields for one candidate element: one reference or nothing. */
  function ExtractOne<V>(e: XElement, nameOf: XElement -> Option<string>, versionOf: XElement -> Option<string>,
                         parse: string -> Option<V>, target: string, useWildcardSuffix: bool): (r: seq<Reference<V>>)
    ensures |r| <= 1
    ensures |r| == 1 <==>
      (NameMatches(nameOf(e), target, useWildcardSuffix) && TryParsePackageVersion(versionOf(e), parse).Some?)
    ensures |r| == 1 ==> r[0] == Reference(nameOf(e).value, TryParsePackageVersion(versionOf(e), parse).value)
  {
    var name := nameOf(e);
    if NameMatches(name, target, useWildcardSuffix) then
      match TryParsePackageVersion(versionOf(e), parse)
      case None => []
      case Some(v) => [Reference(name.value, v)]
    else []
  }

  /** The comprehension over all candidates, in their order. */
  function Extract<V>(candidates: seq<XElement>, nameOf: XElement -> Option<string>, versionOf: XElement -> Option<string>,
                      parse: string -> Option<V>, target: string, useWildcardSuffix: bool): (r: seq<Reference<V>>)
    ensures |r| <= |candidates|
  {
    if candidates == [] then []
    else
      ExtractOne(candidates[0], nameOf, versionOf, parse, target, useWildcardSuffix)
      + Extract(candidates[1..], nameOf, versionOf, parse, target, useWildcardSuffix)
  }

  /** Every extracted reference matches the target and comes from a
      candidate with that name and a version that parses to its version. */
  lemma {:induction false} ExtractSound<V>(candidates: seq<XElement>, nameOf: XElement -> Option<string>,
                                          versionOf: XElement -> Option<string>, parse: string -> Option<V>,
                                          target: string, useWildcardSuffix: bool)
    ensures var r := Extract(candidates, nameOf, versionOf, parse, target, useWildcardSuffix);
      && (forall x :: x in r ==> NameMatches(Some(x.name), target, useWildcardSuffix))
      && (forall x :: x in r ==>
            exists e :: e in candidates && nameOf(e) == Some(x.name)
              && TryParsePackageVersion(versionOf(e), parse) == Some(x.version))
  {
    if candidates != [] {
      ExtractSound(candidates[1..], nameOf, versionOf, parse, target, useWildcardSuffix);
      assert forall e :: e in candidates[1..] ==> e in candidates;
    }
  }

  /** Extraction distributes over concatenation: the output keeps the
      candidates' order, and each candidate contributes on its own. */
  lemma {:induction false} ExtractAppend<V>(a: seq<XElement>, b: seq<XElement>, nameOf: XElement -> Option<string>,
                                           versionOf: XElement -> Option<string>, parse: string -> Option<V>,
                                           target: string, useWildcardSuffix: bool)
    ensures Extract(a + b, nameOf, versionOf, parse, target, useWildcardSuffix)
      == Extract(a, nameOf, versionOf, parse, target, useWildcardSuffix)
       + Extract(b, nameOf, versionOf, parse, target, useWildcardSuffix)
  {
    if a == [] {
      assert a + b == b;
    } else {
      assert (a + b)[1..] == a[1..] + b;
      ExtractAppend(a[1..], b, nameOf, versionOf, parse, target, useWildcardSuffix);
    }
  }

  /** Every candidate whose name matches and whose version parses appears
      in the output. */
  lemma {:induction false} ExtractComplete<V>(candidates: seq<XElement>, e: XElement, nameOf: XElement -> Option<string>,
                                             versionOf: XElement -> Option<string>, parse: string -> Option<V>,
                                             target: string, useWildcardSuffix: bool)
    requires e in candidates
    requires NameMatches(nameOf(e), target, useWildcardSuffix)
    requires TryParsePackageVersion(versionOf(e), parse).Some?
    ensures Reference(nameOf(e).value, TryParsePackageVersion(versionOf(e), parse).value)
      in Extract(candidates, nameOf, versionOf, parse, target, useWildcardSuffix)
  {
    if candidates[0] != e {
      ExtractComplete(candidates[1..], e, nameOf, versionOf, parse, target, useWildcardSuffix);
    }
  }

  /** A candidate that appears k times contributes k references: duplicates are kept. */
  lemma ExtractKeepsDuplicates<V>(e: XElement, nameOf: XElement -> Option<string>,
                                  versionOf: XElement -> Option<string>, parse: string -> Option<V>,
                                  target: string, useWildcardSuffix: bool)
    requires NameMatches(nameOf(e), target, useWildcardSuffix)
    requires TryParsePackageVersion(versionOf(e), parse).Some?
    ensures |Extract([e, e], nameOf, versionOf, parse, target, useWildcardSuffix)| == 2
  {
    assert [e, e][1..] == [e];
  }

  // ---------------------------------------------------------------------
  // Search clauses

  /** The code-search term that finds an element whose name attribute is
      exactly n: `"<tag\"n\""` (the backslashes are literal characters of the
      search syntax, escaping the quotes of the XML attribute). */
  function ExactTerm(tag: string, n: string): string {
    "\"" + tag + "\\\"" + n + "\\\"\""
  }

  /** The term that finds attributes that start with `n.`: `"<tag\"n."`. */
  function WildcardTerm(tag: string, n: string): string {
    "\"" + tag + "\\\"" + n + ".\""
  }

  /** The shape every plugin's clause shares: the file filter, then the
      exact term, then, with the wildcard on, the sub-package term, in
      parentheses. */
  function ClauseBody(filter: string, tag: string, n: string, useWildcardSuffix: bool): (r: string)
    ensures |r| >= 1 && r[|r| - 1] == ')'
  {
    filter + " AND (" + ExactTerm(tag, n)
      + (if useWildcardSuffix then " OR " + WildcardTerm(tag, n) else "")
      + ")"
  }

  /** The wildcard flag only appends a term: the clause without it, less its
      closing parenthesis, begins the clause with it. */
  lemma WildcardOnlyAppends(filter: string, tag: string, n: string)
    ensures var plain := ClauseBody(filter, tag, n, false);
      var wild := ClauseBody(filter, tag, n, true);
      plain[..|plain| - 1] + " OR " + WildcardTerm(tag, n) + ")" == wild
  {
    var plain := ClauseBody(filter, tag, n, false);
    var head := filter + " AND (" + ExactTerm(tag, n);
    assert plain == head + ")";
    assert plain[..|plain| - 1] == head;
  }

  /** The phrase a term asks the search service for, with the escaping of
      the search syntax undone: `"` stands where the term has `\"`. */
  function Unquote(term: string): Option<string> {
    if |term| < 2 || term[0] != '"' || term[|term| - 1] != '"' then None
    else Some(UnescapeQuotes(term[1..|term| - 1]))
  }

  /** Replaces each `\"` by `"`. */
  function UnescapeQuotes(s: string): string {
    if |s| >= 2 && s[0] == '\\' && s[1] == '"' then "\"" + UnescapeQuotes(s[2..])
    else if s == [] then []
    else [s[0]] + UnescapeQuotes(s[1..])
  }

  predicate NoQuoteOrBackslash(s: string) {
    forall i :: 0 <= i < |s| ==> s[i] != '"' && s[i] != '\\'
  }

  lemma {:induction false} UnescapeQuotesPlain(s: string, rest: string)
    requires NoQuoteOrBackslash(s)
    ensures UnescapeQuotes(s + rest) == s + UnescapeQuotes(rest)
  {
    if s != [] {
      var t := s + rest;
      assert t[0] == s[0] && s[0] != '\\';
      assert t[1..] == s[1..] + rest;
      calc {
        UnescapeQuotes(t);
        [t[0]] + UnescapeQuotes(t[1..]);
        { UnescapeQuotesPlain(s[1..], rest); }
        [s[0]] + (s[1..] + UnescapeQuotes(rest));
        { assert [s[0]] + s[1..] == s; }
        s + UnescapeQuotes(rest);
      }
    } else {
      assert s + rest == rest;
    }
  }

  lemma UnescapeQuoteThen(rest: string)
    ensures UnescapeQuotes("\\\"" + rest) == "\"" + UnescapeQuotes(rest)
  {
    assert ("\\\"" + rest)[2..] == rest;
  }

  lemma UnquoteOf(inner: string)
    ensures Unquote("\"" + inner + "\"") == Some(UnescapeQuotes(inner))
  {
    var t := "\"" + inner + "\"";
    assert t[1..|t| - 1] == inner;
  }

  lemma UnescapeExact(tag: string, n: string)
    requires NoQuoteOrBackslash(tag) && NoQuoteOrBackslash(n)
    ensures UnescapeQuotes(tag + ("\\\"" + (n + "\\\""))) == tag + ("\"" + (n + "\""))
  {
    UnescapeQuotesPlain(tag, "\\\"" + (n + "\\\""));
    UnescapeQuoteThen(n + "\\\"");
    UnescapeQuotesPlain(n, "\\\"");
    UnescapeQuoteThen([]);
    assert UnescapeQuotes([]) == [];
  }

  /** The exact term asks for `tag"n"`, the text of an attribute whose value
      is n, provided neither tag nor n holds a quote or a backslash. */
  lemma ExactTermPhrase(tag: string, n: string)
    requires NoQuoteOrBackslash(tag) && NoQuoteOrBackslash(n)
    ensures Unquote(ExactTerm(tag, n)) == Some(tag + "\"" + n + "\"")
  {
    var inner := tag + ("\\\"" + (n + "\\\""));
    assert ExactTerm(tag, n) == "\"" + inner + "\"";
    UnquoteOf(inner);
    UnescapeExact(tag, n);
    assert tag + ("\"" + (n + "\"")) == tag + "\"" + n + "\"";
  }

  /** The wildcard term asks for `tag"n.`, the start of an attribute whose
      value begins with `n.`. */
  lemma WildcardTermPhrase(tag: string, n: string)
    requires NoQuoteOrBackslash(tag) && NoQuoteOrBackslash(n)
    ensures Unquote(WildcardTerm(tag, n)) == Some(tag + "\"" + n + ".")
  {
    var inner := tag + ("\\\"" + (n + "."));
    assert WildcardTerm(tag, n) == "\"" + inner + "\"";
    UnquoteOf(inner);
    UnescapeWildcard(tag, n);
    assert tag + ("\"" + (n + ".")) == tag + "\"" + n + ".";
  }

  lemma UnescapeWildcard(tag: string, n: string)
    requires NoQuoteOrBackslash(tag) && NoQuoteOrBackslash(n)
    ensures UnescapeQuotes(tag + ("\\\"" + (n + "."))) == tag + ("\"" + (n + "."))
  {
    UnescapeQuotesPlain(tag, "\\\"" + (n + "."));
    UnescapeQuoteThen(n + ".");
    assert NoQuoteOrBackslash(n + ".");
    UnescapeQuotesPlain(n + ".", []);
    assert n + "." + [] == n + ".";
  }

  /** The search phrases cover the local match policy: for a candidate name
      the extractor would accept, the attribute text `tag"candidate"` begins
      (ignoring case) with the phrase of the exact term or, with the wildcard
      on, of the sub-package term. */
  lemma PhrasesCoverMatches(tag: string, target: string, candidate: string, useWildcardSuffix: bool)
    requires NameMatches(Some(candidate), target, useWildcardSuffix)
    ensures || StartsWithIgnoreCase(tag + "\"" + candidate + "\"", tag + "\"" + target + "\"")
            || (useWildcardSuffix && StartsWithIgnoreCase(tag + "\"" + candidate + "\"", tag + "\"" + target + "."))
  {
    var pre := tag + "\"";
    if EqualsIgnoreCase(candidate, target) {
      var x := pre + candidate + "\"";
      var y := pre + target + "\"";
      assert |x| == |y| && x[..|y|] == x;
      forall i | 0 <= i < |y| ensures CharEqualsIgnoreCase(x[i], y[i]) {
        if i < |pre| {
          assert x[i] == pre[i] && y[i] == pre[i];
        } else if i < |pre| + |candidate| {
          assert x[i] == candidate[i - |pre|] && y[i] == target[i - |pre|];
        }
      }
    } else {
      var x := pre + candidate + "\"";
      var y := pre + target + ".";
      var m := |target| + 1;
      assert candidate[..m] == (target + ".")[..m] || EqualsIgnoreCase(candidate[..m], target + ".");
      forall i | 0 <= i < |y| ensures CharEqualsIgnoreCase(x[..|y|][i], y[i]) {
        if i < |pre| {
          assert x[i] == pre[i] && y[i] == pre[i];
        } else {
          assert x[i] == candidate[i - |pre|] && y[i] == (target + ".")[i - |pre|];
          assert candidate[i - |pre|] == candidate[..m][i - |pre|];
        }
      }
    }
  }
}
