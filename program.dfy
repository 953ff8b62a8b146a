/** Program: the console front end. It reads a connection, a package name
    and a record count from the console, runs the pipeline, keeps the
    non-null results and writes per-reference hit statistics.

    The console is the sequence of lines it would deliver; a read past
    the end gives null, as Console.ReadLine does at end of input. */
module Program {
  import opened Common
  import opened Records
  import AzdoConnection
  import AzdoCodeSearchPipeline
  import Statistics
  import Xml

  /** Console.ReadLine on the input lines, at position i. */
  function ReadLine(lines: seq<Option<string>>, i: nat): Option<string> {
    if i < |lines| then lines[i] else None
  }

  // ---------------------------------------------------------------------
  // The connection prompt

  /** A prompt that repeats until a line is accepted by `accept`: the
      accepted value and the position after its line; None when no line
      from i on is accepted. */
  function FirstAccepted<T>(lines: seq<Option<string>>, i: nat, accept: Option<string> -> Result<T, Exception>)
    : (r: Option<(T, nat)>)
    ensures r.Some? ==>
      && i < r.value.1 <= |lines|
      && accept(lines[r.value.1 - 1]) == Success(r.value.0)
      && forall j :: i <= j < r.value.1 - 1 ==> accept(lines[j]).Failure?
    ensures r.None? ==> forall j :: i <= j < |lines| ==> accept(lines[j]).Failure?
    decreases |lines| - i
  {
    if i >= |lines| then None
    else
      match accept(lines[i])
      case Success(v) => Some((v, i + 1))
      case Failure(_) => FirstAccepted(lines, i + 1, accept)
  }

  /** The connection prompt repeats until a line yields a connection; the
      result is that connection and the position after its line. None
      when no line from i on yields one (the source then prompts forever). */
  function ConnectPrompt(lines: seq<Option<string>>, i: nat): (r: Option<(AzdoConnection.Connection, nat)>) {
    FirstAccepted(lines, i, AzdoConnection.Connect)
  }

  /** The connection is made from the first line that yields one; every
      line before it was rejected with an ArgumentException. */
  lemma ConnectPromptFirst(lines: seq<Option<string>>, i: nat)
    ensures var r := ConnectPrompt(lines, i);
      && (r.Some? ==>
            && i < r.value.1 <= |lines|
            && AzdoConnection.Connect(lines[r.value.1 - 1]) == Success(r.value.0)
            && forall j :: i <= j < r.value.1 - 1 ==> AzdoConnection.Connect(lines[j]).error.ArgumentException?)
      && (r.None? ==> forall j :: i <= j < |lines| ==> AzdoConnection.Connect(lines[j]).error.ArgumentException?)
  {
  }

  // ---------------------------------------------------------------------
  // The package-name prompt

  predicate IsNameChar(c: char) {
    IsAsciiLetterOrDigit(c) || c == '_' || c == '-'
  }

  /** The length of the longest prefix of name characters. */
  function NameRun(s: string): (k: nat)
    ensures k <= |s|
    ensures forall i :: 0 <= i < k ==> IsNameChar(s[i])
    ensures k < |s| ==> !IsNameChar(s[k])
  {
    if s == [] || !IsNameChar(s[0]) then 0 else 1 + NameRun(s[1..])
  }

  /** `[a-zA-Z0-9_-]+(\.[a-zA-Z0-9_-]+)*` over the whole string. */
  predicate DottedName(s: string)
    decreases |s|
  {
    var k := NameRun(s);
    k > 0 && (k == |s| || (s[k] == '.' && DottedName(s[k + 1..])))
  }

  /** The package-name pattern: the segments, then the end of the string,
      where (in .NET) `$` also matches just before a final newline. */
  predicate IsPackageName(s: string) {
    DottedName(s) || (|s| > 0 && s[|s| - 1] == '\n' && DottedName(s[..|s| - 1]))
  }

  /** Non-empty, only name characters and dots, no dot at either end and
      no two dots in a row. */
  predicate WellDotted(s: string) {
    && |s| > 0
    && (forall i :: 0 <= i < |s| ==> IsNameChar(s[i]) || s[i] == '.')
    && s[0] != '.' && s[|s| - 1] != '.'
    && (forall i :: 0 <= i < |s| - 1 ==> s[i] != '.' || s[i + 1] != '.')
  }

  lemma {:induction false} DottedNameSound(s: string)
    requires DottedName(s)
    ensures WellDotted(s)
    decreases |s|
  {
    var k := NameRun(s);
    if k < |s| {
      var t := s[k + 1..];
      DottedNameSound(t);
      assert s == s[..k] + ['.'] + t;
      forall i | 0 <= i < |s|
        ensures IsNameChar(s[i]) || s[i] == '.'
      {
        if i > k {
          assert s[i] == t[i - k - 1];
        }
      }
      assert s[|s| - 1] == t[|t| - 1];
      forall i | 0 <= i < |s| - 1
        ensures s[i] != '.' || s[i + 1] != '.'
      {
        if i > k {
          assert s[i] == t[i - k - 1] && s[i + 1] == t[i - k];
        } else if i == k {
          assert s[i + 1] == t[0];
        }
      }
    }
  }

  lemma {:induction false} DottedNameComplete(s: string)
    requires WellDotted(s)
    ensures DottedName(s)
    decreases |s|
  {
    var k := NameRun(s);
    assert IsNameChar(s[0]);
    if k < |s| {
      assert s[k] == '.';
      assert k < |s| - 1;
      var t := s[k + 1..];
      assert t[0] == s[k + 1];
      assert t[|t| - 1] == s[|s| - 1];
      forall i | 0 <= i < |t|
        ensures IsNameChar(t[i]) || t[i] == '.'
      {
        assert t[i] == s[k + 1 + i];
      }
      forall i | 0 <= i < |t| - 1
        ensures t[i] != '.' || t[i + 1] != '.'
      {
        assert t[i] == s[k + 1 + i] && t[i + 1] == s[k + 2 + i];
      }
      DottedNameComplete(t);
    }
  }

  /** The pattern means: non-empty dot-separated segments of letters,
      digits, '_' and '-'. */
  lemma DottedNameCharacterised(s: string)
    ensures DottedName(s) <==> WellDotted(s)
  {
    if DottedName(s) {
      DottedNameSound(s);
    }
    if WellDotted(s) {
      DottedNameComplete(s);
    }
  }

  /** A line read from the console has no newline in it, and for such a
      line the end-of-string quirk of `$` plays no part. */
  lemma PackageNameWithoutNewline(s: string)
    requires '\n' !in s
    ensures IsPackageName(s) <==> WellDotted(s)
  {
    DottedNameCharacterised(s);
    if |s| > 0 {
      assert s[|s| - 1] in s;
    }
  }

  /** What the prompt settled on: the name, the wildcard flag, and the
      position after the accepted line. */
  datatype PackageChoice = PackageChoice(name: string, wildcard: bool, next: nat)

  /** A trimmed line ending in ".*" loses those two characters and turns
      the wildcard flag on; otherwise the flag is kept. */
  function StripWildcard(t: string, wildcard: bool): (r: (string, bool))
    ensures EndsWithOrdinal(t, ".*") ==> r.1 && r.0 + ".*" == t
    ensures !EndsWithOrdinal(t, ".*") ==> r == (t, wildcard)
  {
    if EndsWithOrdinal(t, ".*") then (t[..|t| - 2], true) else (t, wildcard)
  }

  /** Whether a line, trimmed, is non-empty and ends in ".*". */
  predicate AsksForWildcard(line: Option<string>) {
    var t := TrimNullable(line);
    t.Some? && t.value != [] && EndsWithOrdinal(t.value, ".*")
  }

  /** The name one pass accepts: the trimmed, non-empty line without a
      final ".*", if that matches the pattern. */
  function AcceptedName(line: Option<string>): Option<string> {
    var t := TrimNullable(line);
    if t.None? || t.value == [] then None
    else
      var stripped := StripWildcard(t.value, false).0;
      if IsPackageName(stripped) then Some(stripped) else None
  }

  /** `name` matches the pattern and is what is left of the trimmed line:
      all of it, or all but a final ".*". */
  predicate NameFromLine(line: Option<string>, name: string) {
    && IsPackageName(name)
    && TrimNullable(line).Some?
    && (TrimNullable(line).value == name || TrimNullable(line).value == name + ".*")
  }

  /** What one pass accepts comes from its line as NameFromLine says. */
  lemma AcceptedNameSpec(line: Option<string>)
    ensures AcceptedName(line).Some? ==> NameFromLine(line, AcceptedName(line).value)
  {
  }

  /** A prompt that reads the lines from i until `accept` takes one. The
      flag is on once it was on or some line read `asks` for it; nothing
      turns it off. None when no line from i on is accepted (the source
      then prompts forever). */
  function PromptLoop(lines: seq<Option<string>>, i: nat, wildcard: bool,
                      accept: Option<string> -> Option<string>, asks: Option<string> -> bool)
    : Option<PackageChoice>
    decreases |lines| - i
  {
    if i >= |lines| then None
    else
      var w := wildcard || asks(lines[i]);
      if accept(lines[i]).Some? then Some(PackageChoice(accept(lines[i]).value, w, i + 1))
      else PromptLoop(lines, i + 1, w, accept, asks)
  }

  /** The package-name prompt from position i with the flag as it stands. */
  function PackagePrompt(lines: seq<Option<string>>, i: nat, wildcard: bool): Option<PackageChoice> {
    PromptLoop(lines, i, wildcard, AcceptedName, AsksForWildcard)
  }

  /** The accepted name is what `accept` takes from the line before `next`. */
  lemma {:induction false} PromptLoopAccepts(lines: seq<Option<string>>, i: nat, wildcard: bool,
                                            accept: Option<string> -> Option<string>, asks: Option<string> -> bool)
    ensures var r := PromptLoop(lines, i, wildcard, accept, asks);
      r.Some? ==> i < r.value.next <= |lines| && accept(lines[r.value.next - 1]) == Some(r.value.name)
    decreases |lines| - i
  {
    if i < |lines| && accept(lines[i]).None? {
      PromptLoopAccepts(lines, i + 1, wildcard || asks(lines[i]), accept, asks);
    }
  }

  /** Whatever holds of every line `accept` takes and the name it yields
      holds of the line before `next` and the accepted name. */
  lemma PromptLoopYields(lines: seq<Option<string>>, i: nat, wildcard: bool,
                         accept: Option<string> -> Option<string>, asks: Option<string> -> bool,
                         ok: (Option<string>, string) -> bool)
    requires forall line :: accept(line).Some? ==> ok(line, accept(line).value)
    ensures var r := PromptLoop(lines, i, wildcard, accept, asks);
      r.Some? ==> i < r.value.next <= |lines| && ok(lines[r.value.next - 1], r.value.name)
  {
    PromptLoopAccepts(lines, i, wildcard, accept, asks);
  }

  /** Every line before the accepted one was refused; when none is accepted,
      every line was. */
  lemma {:induction false} PromptLoopRefuses(lines: seq<Option<string>>, i: nat, wildcard: bool,
                                            accept: Option<string> -> Option<string>, asks: Option<string> -> bool)
    ensures var r := PromptLoop(lines, i, wildcard, accept, asks);
      && (r.Some? ==> i < r.value.next <= |lines| && forall j :: i <= j < r.value.next - 1 ==> accept(lines[j]).None?)
      && (r.None? ==> forall j :: i <= j < |lines| ==> accept(lines[j]).None?)
    decreases |lines| - i
  {
    if i < |lines| && accept(lines[i]).None? {
      PromptLoopRefuses(lines, i + 1, wildcard || asks(lines[i]), accept, asks);
    }
  }

  /** The flag of an accepted name is on exactly when it was on at the
      start or some line read so far asks for it. */
  lemma {:induction false} PromptLoopFlag(lines: seq<Option<string>>, i: nat, wildcard: bool,
                                         accept: Option<string> -> Option<string>, asks: Option<string> -> bool)
    ensures var r := PromptLoop(lines, i, wildcard, accept, asks);
      r.Some? ==>
        && i < r.value.next
        && (r.value.wildcard <==> wildcard || exists j :: i <= j < r.value.next && j < |lines| && asks(lines[j]))
    decreases |lines| - i
  {
    var r := PromptLoop(lines, i, wildcard, accept, asks);
    if i < |lines| && r.Some? {
      var w := wildcard || asks(lines[i]);
      if accept(lines[i]).None? {
        PromptLoopFlag(lines, i + 1, w, accept, asks);
        if r.value.wildcard && !wildcard && !asks(lines[i]) {
          var j :| i + 1 <= j < r.value.next && j < |lines| && asks(lines[j]);
        }
      }
      if asks(lines[i]) {
        assert i <= i < r.value.next && i < |lines| && asks(lines[i]);
      }
    }
  }

  /** An accepted name matches the pattern and comes from the line just
      before `next`: that line, trimmed, is the name or the name followed
      by ".*". Every line before it was refused. */
  lemma PackagePromptAccepts(lines: seq<Option<string>>, i: nat, wildcard: bool)
    ensures var r := PackagePrompt(lines, i, wildcard);
      r.Some? ==> i < r.value.next <= |lines| && NameFromLine(lines[r.value.next - 1], r.value.name)
  {
    forall line
      ensures AcceptedName(line).Some? ==> NameFromLine(line, AcceptedName(line).value)
    {
      AcceptedNameSpec(line);
    }
    PromptLoopYields(lines, i, wildcard, AcceptedName, AsksForWildcard, NameFromLine);
  }

  /** The prompt stops at the first line it accepts: every line before it
      was refused, and when the input runs out every line was. */
  lemma PackagePromptFirst(lines: seq<Option<string>>, i: nat, wildcard: bool)
    ensures var r := PackagePrompt(lines, i, wildcard);
      && (r.Some? ==> i < r.value.next <= |lines| && forall j :: i <= j < r.value.next - 1 ==> AcceptedName(lines[j]).None?)
      && (r.None? ==> forall j :: i <= j < |lines| ==> AcceptedName(lines[j]).None?)
  {
    PromptLoopRefuses(lines, i, wildcard, AcceptedName, AsksForWildcard);
  }

  /** The flag of an accepted name is on exactly when it was on at the
      start or some line read so far, trimmed, ended in ".*": it is never
      reset, not even by a rejected line. */
  lemma PackagePromptWildcard(lines: seq<Option<string>>, i: nat, wildcard: bool)
    ensures var r := PackagePrompt(lines, i, wildcard);
      r.Some? ==> (r.value.wildcard <==> wildcard || exists j :: i <= j < r.value.next && j < |lines| && AsksForWildcard(lines[j]))
  {
    PromptLoopFlag(lines, i, wildcard, AcceptedName, AsksForWildcard);
  }

  /** One pass of a prompt loop, at a line that exists. */
  lemma PromptLoopUnfold(lines: seq<Option<string>>, i: nat, wildcard: bool,
                         accept: Option<string> -> Option<string>, asks: Option<string> -> bool)
    requires i < |lines|
    ensures var w := wildcard || asks(lines[i]);
      PromptLoop(lines, i, wildcard, accept, asks) ==
        if accept(lines[i]).Some? then Some(PackageChoice(accept(lines[i]).value, w, i + 1))
        else PromptLoop(lines, i + 1, w, accept, asks)
  {
  }

  /** What one pass of the loop body decides at line i, when the prompt
      from `start` is the prompt from i: an accepted name ends the prompt
      there; otherwise the prompt from `start` is the prompt from the next
      line with the updated flag. */
  lemma PackagePromptStep(lines: seq<Option<string>>, start: nat, i: nat, wildcard: bool,
                          isValid: bool, name: string, performWildcardMatch: bool)
    requires i < |lines|
    requires PackagePrompt(lines, start, false) == PackagePrompt(lines, i, wildcard)
    requires isValid <==> AcceptedName(lines[i]).Some?
    requires isValid ==> name == AcceptedName(lines[i]).value
    requires performWildcardMatch == (wildcard || AsksForWildcard(lines[i]))
    ensures isValid ==> PackagePrompt(lines, start, false) == Some(PackageChoice(name, performWildcardMatch, i + 1))
    ensures !isValid ==> PackagePrompt(lines, start, false) == PackagePrompt(lines, i + 1, performWildcardMatch)
  {
    PromptLoopUnfold(lines, i, wildcard, AcceptedName, AsksForWildcard);
  }

  /** Past the last line nothing is accepted. */
  lemma PackagePromptEnd(lines: seq<Option<string>>, i: nat, wildcard: bool)
    requires i >= |lines|
    ensures PackagePrompt(lines, i, wildcard).None?
  {
  }

  /** One pass of the retry loop's body: trim the line, strip a final ".*"
      (turning the flag on) and test the rest against the pattern. */
  method ReadPackageLine(line: Option<string>, wildcard: bool)
      returns (isValid: bool, packageName: string, performWildcardMatch: bool)
    ensures isValid <==> AcceptedName(line).Some?
    ensures isValid ==> packageName == AcceptedName(line).value
    ensures performWildcardMatch == (wildcard || AsksForWildcard(line))
  {
    performWildcardMatch := wildcard;
    packageName := "";
    isValid := false;
    var trimmed := TrimNullable(line);
    if trimmed.Some? && trimmed.value != [] {
      packageName := trimmed.value;
      if EndsWithOrdinal(packageName, ".*") {
        packageName := packageName[..|packageName| - 2];
        performWildcardMatch := true;
      }
      isValid := IsPackageName(packageName);
    }
  }

  /** The retry loop of the package-name prompt. `accepted` is false when
      the input ran out first. */
  method ReadPackageName(lines: seq<Option<string>>, start: nat)
      returns (accepted: bool, packageName: string, performWildcardMatch: bool, next: nat)
    ensures accepted ==> PackagePrompt(lines, start, false) == Some(PackageChoice(packageName, performWildcardMatch, next))
    ensures !accepted ==> PackagePrompt(lines, start, false).None?
  {
    performWildcardMatch := false;
    packageName := "";
    accepted := false;
    next := start;
    while next < |lines| && !accepted
      invariant start <= next
      invariant accepted ==> PackagePrompt(lines, start, false) == Some(PackageChoice(packageName, performWildcardMatch, next))
      invariant !accepted ==> PackagePrompt(lines, start, false) == PackagePrompt(lines, next, performWildcardMatch)
      decreases |lines| - next
    {
      var wildcard := performWildcardMatch;
      accepted, packageName, performWildcardMatch := ReadPackageLine(lines[next], wildcard);
      PackagePromptStep(lines, start, next, wildcard, accepted, packageName, performWildcardMatch);
      next := next + 1;
    }
    if !accepted {
      PackagePromptEnd(lines, next, performWildcardMatch);
    }
  }

  lemma TrimUnpadded(s: string)
    requires s != [] && !IsWhiteSpace(s[0]) && !IsWhiteSpace(s[|s| - 1])
    ensures Trim(s) == s
  {
    assert TrimStart(s) == s;
    assert TrimEnd(s) == s;
  }

  /** A line that needs no trimming, does not end in ".*" and matches the
      pattern is accepted as it stands and does not ask for the wildcard. */
  lemma PlainNameAccepted(line: string)
    requires WellDotted(line)
    requires !IsWhiteSpace(line[0]) && !IsWhiteSpace(line[|line| - 1])
    ensures AcceptedName(Some(line)) == Some(line)
  {
    TrimUnpadded(line);
    DottedNameCharacterised(line);
    var last := line[|line| - 1];
    assert IsNameChar(last);
    assert !EndsWithOrdinal(line, ".*") by {
      if |line| >= 2 {
        assert line[|line| - 2..][1] == last;
      }
    }
    assert StripWildcard(line, false).0 == line;
  }

  /** A line that needs no trimming and ends in ".*" asks for the wildcard,
      even when what precedes the ".*" is rejected. */
  lemma WildcardLineRejected(name: string)
    requires name != [] && !IsWhiteSpace(name[0])
    requires !IsPackageName(name)
    ensures AcceptedName(Some(name + ".*")).None? && AsksForWildcard(Some(name + ".*"))
  {
    var line := name + ".*";
    TrimUnpadded(line);
    assert line[|line| - 2..] == ".*";
    assert line[..|line| - 2] == name;
  }

  /** Two prompts: a rejected line that asks for the wildcard, then an
      accepted name. */
  lemma {:induction false} SecondLineAccepted(lines: seq<Option<string>>, name: string,
                                              accept: Option<string> -> Option<string>,
                                              asks: Option<string> -> bool)
    requires |lines| == 2
    requires accept(lines[0]).None? && asks(lines[0])
    requires accept(lines[1]) == Some(name)
    ensures PromptLoop(lines, 0, false, accept, asks) == Some(PackageChoice(name, true, 2))
  {
    assert PromptLoop(lines, 0, false, accept, asks) == PromptLoop(lines, 1, true, accept, asks);
  }

  /** A rejected wildcard line (say "bad!.*") turns the flag on, and a later
      plain name is then accepted with the flag still on. */
  lemma WildcardIsSticky(rejected: string, name: string)
    requires rejected != [] && !IsWhiteSpace(rejected[0]) && !IsPackageName(rejected)
    requires WellDotted(name) && !IsWhiteSpace(name[0]) && !IsWhiteSpace(name[|name| - 1])
    ensures PackagePrompt([Some(rejected + ".*"), Some(name)], 0, false) == Some(PackageChoice(name, true, 2))
  {
    WildcardLineRejected(rejected);
    PlainNameAccepted(name);
    SecondLineAccepted([Some(rejected + ".*"), Some(name)], name, AcceptedName, AsksForWildcard);
  }

  /** "bad!" is not a package name, so "bad!.*" is a line of that kind. */
  lemma BangIsNotPackageName()
    ensures !IsPackageName("bad!")
  {
    DottedNameCharacterised("bad!");
    assert !IsNameChar("bad!"[3]);
  }

  // ---------------------------------------------------------------------
  // int.TryParse

  /** The white space NumberStyles.Integer allows around the number. */
  predicate IsParseWhite(c: char) {
    '\t' <= c <= '\r' || c == ' '
  }

  function StripParseWhite(s: string): (r: string)
    ensures |r| <= |s|
    ensures r == [] || (!IsParseWhite(r[0]) && !IsParseWhite(r[|r| - 1]))
    decreases |s|
  {
    if s == [] then []
    else if IsParseWhite(s[0]) then StripParseWhite(s[1..])
    else if IsParseWhite(s[|s| - 1]) then StripParseWhite(s[..|s| - 1])
    else s
  }

  predicate AllDigits(s: string) {
    forall i :: 0 <= i < |s| ==> IsAsciiDigit(s[i])
  }

  function DigitsValue(s: string): (v: nat)
    requires AllDigits(s)
  {
    if s == [] then 0 else 10 * DigitsValue(s[..|s| - 1]) + (s[|s| - 1] as int - '0' as int)
  }

  const Int32Min := -0x8000_0000
  const Int32Max := 0x7FFF_FFFF

  /** The text before the NUL characters that end `s`. */
  function DropTrailingNuls(s: string): (r: string)
    ensures |r| <= |s|
  {
    if s != [] && s[|s| - 1] == '\0' then DropTrailingNuls(s[..|s| - 1]) else s
  }

  /** Only NUL characters are dropped, and all of those that end the text. */
  lemma {:induction false} DropTrailingNulsSpec(s: string)
    ensures var r := DropTrailingNuls(s);
      && r == s[..|r|]
      && (forall i :: |r| <= i < |s| ==> s[i] == '\0')
      && (r == [] || r[|r| - 1] != '\0')
  {
    if s != [] && s[|s| - 1] == '\0' {
      DropTrailingNulsSpec(s[..|s| - 1]);
    }
  }

  /** int.TryParse: optional white space, an optional sign, one or more
      ASCII digits, optional white space, then any number of NUL
      characters; the value must fit in 32 bits. */
  function ParseInt32(s: string): (r: Option<int>)
    ensures r.Some? ==> Int32Min <= r.value <= Int32Max
  {
    var t := StripParseWhite(DropTrailingNuls(s));
    if t == [] then None
    else
      var negative := t[0] == '-';
      var digits := if t[0] == '-' || t[0] == '+' then t[1..] else t;
      if digits == [] || !AllDigits(digits) then None
      else
        var v: int := if negative then -(DigitsValue(digits) as int) else DigitsValue(digits);
        if Int32Min <= v <= Int32Max then Some(v) else None
  }

  /** The decimal form of a natural number (Int32.ToString for n >= 0). */
  function Decimal(n: nat): (r: string)
    ensures |r| > 0 && AllDigits(r)
  {
    if n < 10 then ['0' + n as char]
    else Decimal(n / 10) + ['0' + (n % 10) as char]
  }

  lemma {:induction false} DecimalValue(n: nat)
    ensures DigitsValue(Decimal(n)) == n
  {
    if n >= 10 {
      DecimalValue(n / 10);
      var d := Decimal(n);
      assert d[..|d| - 1] == Decimal(n / 10);
    }
  }

  /** TryParse reads back what ToString writes. */
  lemma ParseDecimal(n: nat)
    requires n <= Int32Max
    ensures ParseInt32(Decimal(n)) == Some(n)
  {
    var d := Decimal(n);
    DecimalValue(n);
    assert DropTrailingNuls(d) == d;
    assert !IsParseWhite(d[0]) && !IsParseWhite(d[|d| - 1]);
    assert StripParseWhite(d) == d;
  }

  /** Int32.ToString: a minus sign before the decimal form of the magnitude
      of a negative value. */
  function SignedDecimal(n: int): string {
    if n < 0 then "-" + Decimal(-n) else Decimal(n)
  }

  /** TryParse reads back what ToString writes, for every int32 value. */
  lemma ParseSignedDecimal(n: int)
    requires Int32Min <= n <= Int32Max
    ensures ParseInt32(SignedDecimal(n)) == Some(n)
  {
    if n < 0 {
      DecimalValue(-n);
      ParseNegative(Decimal(-n));
    } else {
      ParseDecimal(n);
    }
  }

  lemma ParseNegative(digits: string)
    requires digits != [] && AllDigits(digits) && DigitsValue(digits) <= -Int32Min
    ensures ParseInt32("-" + digits) == Some(-(DigitsValue(digits) as int))
  {
    var d := "-" + digits;
    assert d[1..] == digits;
    assert DropTrailingNuls(d) == d;
    assert !IsParseWhite(d[0]) && !IsParseWhite(d[|d| - 1]);
    assert StripParseWhite(d) == d;
  }

  /** NUL characters after the number, and white space before them, are
      accepted: "5\0" at the record-count prompt asks for five records. */
  lemma TrailingNulAccepted()
    ensures ParseInt32("5\0") == Some(5)
    ensures ParseInt32(" 5 \0\0") == Some(5)
    ensures ParseInt32("5\0 ").None?
    ensures RecordCountChoice(Some("5\0"), 1) == Some(5)
  {
    assert DropTrailingNuls("5\0") == "5";
    assert DropTrailingNuls(" 5 \0\0") == " 5 ";
    assert StripParseWhite(" 5 ") == "5";
    assert DropTrailingNuls("5\0 ") == "5\0 ";
    assert StripParseWhite("5\0 ") == "5\0";
    assert !AllDigits("5\0");
  }

  // ---------------------------------------------------------------------
  // The record-count prompt

  /** The count shown as default: at most 1000. */
  function DefaultRecordCount(matchCount: int): int {
    Min(1000, matchCount)
  }

  /** What the record-count prompt makes of one line: a null or empty line
      takes the default; a line that parses to a value in [1, 10000] gives
      that value; any other line is rejected (None) and the prompt repeats. */
  function RecordCountChoice(line: Option<string>, matchCount: int): Option<int> {
    if line.None? || line.value == [] then Some(DefaultRecordCount(matchCount))
    else
      var parsed := ParseInt32(line.value);
      if parsed.None? || parsed.value <= 0 || parsed.value > 10000 then None else parsed
  }

  /** A count the prompt takes from one line is valid for the pipeline and
      is the default or the line's value; rejected lines are exactly the
      non-empty ones that do not parse to a value in [1, 10000]. */
  lemma RecordCountChoiceSpec(line: Option<string>, matchCount: int)
    requires matchCount > 0
    ensures var c := RecordCountChoice(line, matchCount);
      && (c.Some? ==>
            && AzdoCodeSearchPipeline.ValidRecordCount(c.value)
            && (c.value == DefaultRecordCount(matchCount) || (line.Some? && ParseInt32(line.value) == c)))
      && (c.None? <==>
            && line.Some? && line.value != []
            && (ParseInt32(line.value).None? || !(0 < ParseInt32(line.value).value <= 10000)))
  {
  }

  /** The record-count prompt from position i: the count and the position
      after the line it came from. Reading past the end gives null, which
      takes the default, so the prompt always ends. */
  function RecordCountPrompt(lines: seq<Option<string>>, i: nat, matchCount: int): (int, nat)
    decreases |lines| - i
  {
    var c := RecordCountChoice(ReadLine(lines, i), matchCount);
    if c.Some? then (c.value, i + 1)
    else RecordCountPrompt(lines, i + 1, matchCount)
  }

  /** The prompt's count is valid for the pipeline, and is the default or
      the value of the line just before the returned position. */
  lemma {:induction false} RecordCountPromptValid(lines: seq<Option<string>>, i: nat, matchCount: int)
    requires matchCount > 0
    ensures var r := RecordCountPrompt(lines, i, matchCount);
      && AzdoCodeSearchPipeline.ValidRecordCount(r.0)
      && r.1 > i
      && (r.0 == DefaultRecordCount(matchCount)
          || (r.1 - 1 < |lines| && lines[r.1 - 1].Some? && ParseInt32(lines[r.1 - 1].value) == Some(r.0)))
    decreases |lines| - i
  {
    var line := ReadLine(lines, i);
    var c := RecordCountChoice(line, matchCount);
    RecordCountChoiceSpec(line, matchCount);
    if c.Some? {
      assert RecordCountPrompt(lines, i, matchCount) == (c.value, i + 1);
      if c.value != DefaultRecordCount(matchCount) {
        assert line == lines[i];
      }
    } else {
      assert RecordCountPrompt(lines, i, matchCount) == RecordCountPrompt(lines, i + 1, matchCount);
      RecordCountPromptValid(lines, i + 1, matchCount);
    }
  }

  /** One pass of the record-count loop's body. */
  method ReadRecordCountLine(recordCountStr: Option<string>, matchCount: int)
      returns (isValid: bool, numRecordsToRetrieve: int)
    ensures isValid <==> RecordCountChoice(recordCountStr, matchCount).Some?
    ensures isValid ==> numRecordsToRetrieve == RecordCountChoice(recordCountStr, matchCount).value
  {
    numRecordsToRetrieve := Min(1000, matchCount);
    isValid := true;
    if recordCountStr.Some? && recordCountStr.value != [] {
      var parsed := ParseInt32(recordCountStr.value);
      if parsed.None? || parsed.value <= 0 || parsed.value > 10000 {
        isValid := false;
      } else {
        numRecordsToRetrieve := parsed.value;
      }
    }
  }

  /** The retry loop of the record-count prompt. */
  method ChooseRecordCount(lines: seq<Option<string>>, start: nat, matchCount: int)
      returns (numRecordsToRetrieve: int, next: nat)
    ensures (numRecordsToRetrieve, next) == RecordCountPrompt(lines, start, matchCount)
  {
    var i := start;
    while true
      invariant start <= i
      invariant RecordCountPrompt(lines, start, matchCount) == RecordCountPrompt(lines, i, matchCount)
      decreases |lines| - i
    {
      var isValid;
      isValid, numRecordsToRetrieve := ReadRecordCountLine(ReadLine(lines, i), matchCount);
      if !isValid {
        i := i + 1;
        continue;
      }
      return numRecordsToRetrieve, i + 1;
    }
  }

  /** Typing 10000 is accepted, although the pipeline asserts that the
      count is below 10000. */
  lemma TenThousandViolatesAssertion()
    ensures RecordCountPrompt([Some(Decimal(10000))], 0, 1).0 == 10000
    ensures !AzdoCodeSearchPipeline.AssertedRecordCount(10000)
  {
    ParseDecimal(10000);
  }

  // ---------------------------------------------------------------------
  // From the count probe to the query

  /** How the run proceeds after the count probe. */
  datatype Plan = SearchFailed(error: Exception) | NoMatches | Retrieve(query: QueryParameters, next: nat)

  /** What the run does with the result of the count probe: a failed probe
      ends the run, a count that is not positive ends it with "no matches",
      and otherwise the record count is asked for and set on the query. */
  function PlanFromCount(query: QueryParameters, count: Result<int, Exception>,
                         lines: seq<Option<string>>, i: nat): (r: Plan)
    ensures count.Failure? <==> r.SearchFailed?
    ensures r.SearchFailed? ==> r.error == count.error
    ensures count.Success? && count.value <= 0 <==> r.NoMatches?
    ensures r.Retrieve? ==>
      && r.query == WithMaxRecords(query, r.query.maxRecordsToReturn)
      && AzdoCodeSearchPipeline.ValidRecordCount(r.query.maxRecordsToReturn)
      && r.next > i
    ensures r.Retrieve? ==> (r.query.maxRecordsToReturn, r.next) == RecordCountPrompt(lines, i, count.value)
  {
    match count
    case Failure(e) => SearchFailed(e)
    case Success(matchCount) =>
      if matchCount <= 0 then NoMatches
      else
        RecordCountPromptValid(lines, i, matchCount);
        var choice := RecordCountPrompt(lines, i, matchCount);
        Retrieve(WithMaxRecords(query, choice.0), choice.1)
  }

  /** Why a count probe fails: no answer, or a negative count. */
  function ProbeError(response: Option<AzdoCodeSearchPipeline.SearchResponse>): Exception {
    if response.None? then RemoteFailure else GeneralException("Invalid count returned.")
  }

  /** The plan for a count probe answered by `response`. */
  lemma PlanOfResponse(query: QueryParameters, count: Result<int, Exception>,
                       response: Option<AzdoCodeSearchPipeline.SearchResponse>,
                       lines: seq<Option<string>>, i: nat)
    requires count.Success? <==> response.Some? && response.value.count >= 0
    requires count.Success? ==> count.value == response.value.count
    requires count.Failure? ==> count.error == ProbeError(response)
    ensures var r := PlanFromCount(query, count, lines, i);
      && (r.SearchFailed? <==> response.None? || response.value.count < 0)
      && (r.SearchFailed? ==> r.error == ProbeError(response))
      && (r.NoMatches? <==> response.Some? && response.value.count == 0)
      && (r.Retrieve? <==> response.Some? && response.value.count > 0)
      && (r.Retrieve? ==>
            && r.query.connection == query.connection && r.query.packageName == query.packageName
            && r.query.useWildcardSuffixMatching == query.useWildcardSuffixMatching
            && (r.query.maxRecordsToReturn, r.next) == RecordCountPrompt(lines, i, response.value.count))
  {
  }

  /** The query the count probe is run with: a record limit of 1000. */
  function ProbeQuery(conn: AzdoConnection.Connection, packageName: string, wildcard: bool): QueryParameters {
    QueryParameters(conn, packageName, wildcard, 1000)
  }

  /** The count probe and what follows it: the service's count for the
      query decides the plan, and a retrieval keeps the connection, the
      package name and the wildcard flag, with the record count the prompt
      chooses for that match count. */
  function PlanRetrieval(conn: AzdoConnection.Connection, packageName: string, wildcard: bool,
                         lines: seq<Option<string>>, i: nat,
                         service: AzdoCodeSearchPipeline.SearchService): (r: Plan)
    ensures var response := service(AzdoCodeSearchPipeline.ProbeRequest(ProbeQuery(conn, packageName, wildcard)));
      && (r.SearchFailed? <==> response.None? || response.value.count < 0)
      && (r.SearchFailed? ==> r.error == ProbeError(response))
      && (r.NoMatches? <==> response.Some? && response.value.count == 0)
      && (r.Retrieve? <==> response.Some? && response.value.count > 0)
      && (r.Retrieve? ==>
            && r.query.connection == conn && r.query.packageName == packageName
            && r.query.useWildcardSuffixMatching == wildcard
            && (r.query.maxRecordsToReturn, r.next) == RecordCountPrompt(lines, i, response.value.count))
  {
    var query := ProbeQuery(conn, packageName, wildcard);
    var count := AzdoCodeSearchPipeline.GetMatchCount(query, service);
    PlanOfResponse(query, count, service(AzdoCodeSearchPipeline.ProbeRequest(query)), lines, i);
    PlanFromCount(query, count, lines, i)
  }

  // ---------------------------------------------------------------------
  // Collecting results

  /** The non-null results, in arrival order. */
  function Somes<T>(results: seq<Option<T>>): seq<T> {
    if results == [] then []
    else
      var last := results[|results| - 1];
      Somes(results[..|results| - 1]) + (if last.Some? then [last.value] else [])
  }

  /** The await-foreach loop: null results are skipped, the others kept. */
  method CollectResults<T>(results: seq<Option<T>>) returns (allRecordsList: seq<T>)
    ensures allRecordsList == Somes(results)
  {
    allRecordsList := [];
    var i := 0;
    while i < |results|
      invariant 0 <= i <= |results|
      invariant allRecordsList == Somes(results[..i])
    {
      assert results[..i + 1][..i] == results[..i];
      var record := results[i];
      if record.Some? {
        allRecordsList := allRecordsList + [record.value];
      }
      i := i + 1;
    }
    assert results[..|results|] == results;
  }

  /** Each kept record appears as often as its non-null result did. */
  lemma {:induction false} SomesMultiplicity<T>(results: seq<Option<T>>, x: T)
    ensures multiset(Somes(results))[x] == multiset(results)[Some(x)]
  {
    if results != [] {
      var init, last := results[..|results| - 1], results[|results| - 1];
      var kept := if last.Some? then [last.value] else [];
      SomesMultiplicity(init, x);
      assert results == init + [last];
      assert multiset(results) == multiset(init) + multiset{last};
      assert multiset(Somes(results)) == multiset(Somes(init)) + multiset(kept);
    }
  }

  /** Every result is either kept or null. */
  lemma {:induction false} SomesLength<T>(results: seq<Option<T>>)
    ensures |Somes(results)| + multiset(results)[None] == |results|
  {
    if results != [] {
      var init, last := results[..|results| - 1], results[|results| - 1];
      SomesLength(init);
      assert results == init + [last];
      assert multiset(results) == multiset(init) + multiset{last};
    }
  }

  /** The kept records do not depend on the order the results arrive in. */
  lemma SomesOrderIndependent<T>(a: seq<Option<T>>, b: seq<Option<T>>)
    requires multiset(a) == multiset(b)
    ensures forall x :: multiset(Somes(a))[x] == multiset(Somes(b))[x]
    ensures |Somes(a)| == |Somes(b)|
  {
    forall x: T
      ensures multiset(Somes(a))[x] == multiset(Somes(b))[x]
    {
      SomesMultiplicity(a, x);
      SomesMultiplicity(b, x);
      assert multiset(a)[Some(x)] == multiset(b)[Some(x)];
    }
    SomesLength(a);
    SomesLength(b);
    assert |a| == |multiset(a)| == |multiset(b)| == |b|;
  }

  /** "N record(s) could not be processed": reported only when fewer
      records were kept than asked for, with N the difference. */
  function UnprocessedCount(requested: int, collected: int): (r: Option<int>)
    ensures r.Some? <==> collected < requested
    ensures r.Some? ==> r.value > 0 && collected + r.value == requested
  {
    if collected < requested then Some(requested - collected) else None
  }

  // ---------------------------------------------------------------------
  // The output file names

  /** `results-{org}-{package}`, lower-cased. */
  function OutputFilenameBase(orgName: string, packageName: string): string {
    ToLowerAsciiString("results-" + orgName + "-" + packageName)
  }

  /** The base is the prefix "results-", then the lower-cased org, a dash
      and the lower-cased package name; it has no upper-case letter. */
  lemma OutputFilenameShape(orgName: string, packageName: string)
    ensures OutputFilenameBase(orgName, packageName) ==
      "results-" + ToLowerAsciiString(orgName) + "-" + ToLowerAsciiString(packageName)
    ensures forall c :: c in OutputFilenameBase(orgName, packageName) ==> !IsAsciiUpper(c)
  {
    var s := "results-" + orgName + "-" + packageName;
    var r := "results-" + ToLowerAsciiString(orgName) + "-" + ToLowerAsciiString(packageName);
    assert |r| == |s|;
    forall i | 0 <= i < |s|
      ensures ToLowerAsciiString(s)[i] == r[i]
    {
      if i < 8 {
        assert s[i] == "results-"[i] && r[i] == "results-"[i];
      } else if i < 8 + |orgName| {
        assert s[i] == orgName[i - 8];
      } else if i == 8 + |orgName| {
        assert s[i] == '-';
      } else {
        assert s[i] == packageName[i - 9 - |orgName|];
      }
    }
  }

  // ---------------------------------------------------------------------
  // The statistics files

  /** Whatever order the pipeline delivers results in, and whatever the
      comparisons (ties between distinct names included), every
      (name, version) key has the same hit count in both runs' tables. */
  lemma StatisticsCountsDeterminedByQuery<AV(!new), PV(!new)>(
      results1: seq<Option<LookupResult<AV, PV>>>, results2: seq<Option<LookupResult<AV, PV>>>,
      query: QueryParameters, service: AzdoCodeSearchPipeline.SearchService,
      fetch: FileReference -> Option<string>, parseXml: string -> Option<Xml.XDocument>,
      parseAssemblyVersion: string -> Option<AV>, parsePackageVersion: string -> Option<PV>,
      nameBefore: (string, string) -> bool,
      assemblyVersionBefore: (AV, AV) -> bool, packageVersionBefore: (PV, PV) -> bool)
    requires AzdoCodeSearchPipeline.IsResultStream(results1, query, service, fetch, parseXml,
                                                   parseAssemblyVersion, parsePackageVersion)
    requires AzdoCodeSearchPipeline.IsResultStream(results2, query, service, fetch, parseXml,
                                                   parseAssemblyVersion, parsePackageVersion)
    ensures forall k :: Statistics.CountOf(Statistics.PackageStatistics(Somes(results1), nameBefore, packageVersionBefore), k)
                     == Statistics.CountOf(Statistics.PackageStatistics(Somes(results2), nameBefore, packageVersionBefore), k)
    ensures forall k :: Statistics.CountOf(Statistics.AssemblyStatistics(Somes(results1), nameBefore, assemblyVersionBefore), k)
                     == Statistics.CountOf(Statistics.AssemblyStatistics(Somes(results2), nameBefore, assemblyVersionBefore), k)
  {
    var a, b := Somes(results1), Somes(results2);
    SomesOrderIndependent(results1, results2);
    var pkgs := (o: LookupResult<AV, PV>) => o.packageReferences;
    var asms := (o: LookupResult<AV, PV>) => o.assemblyReferences;
    Statistics.AllReferencesOrderIndependent(a, b, pkgs);
    Statistics.AllReferencesOrderIndependent(a, b, asms);
  }

  /** Whatever order the pipeline delivers its results in, the two
      statistics files come out the same: they depend only on the query and
      on the services the pipeline consults. */
  lemma StatisticsDeterminedByQuery<AV(!new), PV(!new)>(
      results1: seq<Option<LookupResult<AV, PV>>>, results2: seq<Option<LookupResult<AV, PV>>>,
      query: QueryParameters, service: AzdoCodeSearchPipeline.SearchService,
      fetch: FileReference -> Option<string>, parseXml: string -> Option<Xml.XDocument>,
      parseAssemblyVersion: string -> Option<AV>, parsePackageVersion: string -> Option<PV>,
      nameBefore: (string, string) -> bool,
      assemblyVersionBefore: (AV, AV) -> bool, packageVersionBefore: (PV, PV) -> bool)
    requires AzdoCodeSearchPipeline.IsResultStream(results1, query, service, fetch, parseXml,
                                                   parseAssemblyVersion, parsePackageVersion)
    requires AzdoCodeSearchPipeline.IsResultStream(results2, query, service, fetch, parseXml,
                                                   parseAssemblyVersion, parsePackageVersion)
    requires Statistics.StrictTotalOrder(nameBefore)
    requires Statistics.StrictTotalOrder(assemblyVersionBefore)
    requires Statistics.StrictTotalOrder(packageVersionBefore)
    ensures Statistics.PackageStatistics(Somes(results1), nameBefore, packageVersionBefore)
         == Statistics.PackageStatistics(Somes(results2), nameBefore, packageVersionBefore)
    ensures Statistics.AssemblyStatistics(Somes(results1), nameBefore, assemblyVersionBefore)
         == Statistics.AssemblyStatistics(Somes(results2), nameBefore, assemblyVersionBefore)
  {
    var a, b := Somes(results1), Somes(results2);
    SomesOrderIndependent(results1, results2);
    var pkgs := (o: LookupResult<AV, PV>) => o.packageReferences;
    var asms := (o: LookupResult<AV, PV>) => o.assemblyReferences;
    Statistics.AllReferencesOrderIndependent(a, b, pkgs);
    Statistics.AllReferencesOrderIndependent(a, b, asms);
    Statistics.KeyBeforeIsTotal(nameBefore, packageVersionBefore);
    Statistics.KeyBeforeIsTotal(nameBefore, assemblyVersionBefore);
    Statistics.HitStatisticsOrderIndependent(
      Statistics.AllReferences(a, pkgs), Statistics.AllReferences(b, pkgs),
      (x: Reference<PV>, y: Reference<PV>) => Statistics.KeyBefore(nameBefore, packageVersionBefore, x, y));
    Statistics.HitStatisticsOrderIndependent(
      Statistics.AllReferences(a, asms), Statistics.AllReferences(b, asms),
      (x: Reference<AV>, y: Reference<AV>) => Statistics.KeyBefore(nameBefore, assemblyVersionBefore, x, y));
  }
}
