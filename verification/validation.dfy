/** The linter of src/validation.rs: it classifies a file as an assembly or a
    module from its name and content, runs per-line rules over it, and
    prints a report per issue found. Matching a rule against a line is the
    hand-written `Patterns.Matches`. */
module Validation {
  import opened Common
  import opened Text
  import opened Patterns
  import opened Modules

  datatype Severity = Information | Warning | Error

  /** The `Display` text of a severity. */
  function SeverityName(s: Severity): string {
    match s
    case Information => "Information"
    case Warning => "Warning"
    case Error => "Error"
  }

  /** A rule: the pattern that signals the issue, what to print, and whether
      the pattern is matched against the whole text instead of line by line. */
  datatype IssueDefinition = IssueDefinition(
    pattern: Pattern,
    description: string,
    severity: Severity,
    multiline: bool)

  /** One issue found in a file. Some issues concern the whole file and have no line. */
  datatype IssueReport = IssueReport(
    lineNumber: Option<nat>,
    description: string,
    severity: Severity)

  const ASSEMBLY_TESTS: seq<IssueDefinition> := [
    IssueDefinition(NestedAssemblyInclude, "This assembly includes another assembly.", Error, false),
    IssueDefinition(LevelOffset, "Unsupported level offset configuration.", Error, false),
    IssueDefinition(DotAdditionalResources, "In assemblies, 'Additional resources' must use the == syntax.", Error, false)
  ]

  const MODULE_TESTS: seq<IssueDefinition> := [
    IssueDefinition(HeadingAdditionalResources, "In modules, 'Additional resources' must use the dot syntax.", Error, false)
  ]

  const TITLE_TESTS: seq<IssueDefinition> := [
    IssueDefinition(TitleInlineAnchor, "The title contains an inline anchor.", Error, false),
    IssueDefinition(TitleAttribute, "The title contains an attribute.", Error, false)
  ]

  const MISSING_ID: string := "The module is missing an ID."
  const MISSING_VARIABLE: string := "The module is missing the module type variable."
  const VARIABLE_AFTER_ID: string := "The module type variable is located after the module ID."
  const SNIPPET_INCLUDE: string := "This module includes a file that appears to be a snippet. This is supported."
  const OTHER_INCLUDE: string := "This module includes a file that does not appear to be a snippet."

  // ---------------------------------------------------------------------
  // Printing reports

  /** `IssueReport`'s `Display`: `<Severity> at line N: <description>`, or
      `<Severity>: <description>` for an issue without a line. */
  function ShowReport(r: IssueReport): (s: string)
    ensures StartsWith(s, SeverityName(r.severity))
    ensures EndsWith(s, r.description)
  {
    var stamp := match r.lineNumber
      case Some(n) => SeverityName(r.severity) + " at line " + Decimal(n) + ": "
      case None => SeverityName(r.severity) + ": ";
    ConcatEnds(stamp, r.description);
    assert StartsWith(stamp, SeverityName(r.severity)) by {
      assert stamp[..|SeverityName(r.severity)|] == SeverityName(r.severity);
    }
    stamp + r.description
  }

  /** A concatenation ends with its second part and starts with whatever its
      first part starts with. */
  lemma ConcatEnds(a: string, b: string)
    ensures EndsWith(a + b, b)
    ensures forall p | StartsWith(a, p) :: StartsWith(a + b, p)
  {
    assert (a + b)[|a + b| - |b|..] == b;
    forall p | StartsWith(a, p)
      ensures StartsWith(a + b, p)
    {
      assert (a + b)[..|p|] == a[..|p|];
    }
  }

  /** The longest run of decimal digits at the start of `s`. */
  function DigitRun(s: string): (d: string)
    ensures StartsWith(s, d)
    ensures forall k | 0 <= k < |d| :: IsDigit(d[k])
    ensures |d| == |s| || !IsDigit(s[|d|])
  {
    if |s| > 0 && IsDigit(s[0]) then [s[0]] + DigitRun(s[1..]) else []
  }

  lemma {:induction false} DigitRunOfDigits(d: string, rest: string)
    requires forall k | 0 <= k < |d| :: IsDigit(d[k])
    requires |rest| > 0 && !IsDigit(rest[0])
    ensures DigitRun(d + rest) == d
    decreases |d|
  {
    if |d| > 0 {
      assert (d + rest)[1..] == d[1..] + rest;
      DigitRunOfDigits(d[1..], rest);
    } else {
      assert d + rest == rest;
    }
  }

  /** Read back what `ShowReport` prints for a given severity, if the line
      starts with that severity's name. */
  function ParseWithSeverity(line: string, sev: Severity): Option<IssueReport> {
    var name := SeverityName(sev);
    if !StartsWith(line, name) then None
    else
      var rest := line[|name|..];
      if StartsWith(rest, ": ") then Some(IssueReport(None, rest[2..], sev))
      else if StartsWith(rest, " at line ") then
        var tail := rest[9..];
        var digits := DigitRun(tail);
        if |digits| > 0 && StartsWith(tail[|digits|..], ": ") then
          Some(IssueReport(Some(DecimalValue(digits)), tail[|digits| + 2..], sev))
        else None
      else None
  }

  /** A reader for printed reports, independent of `ShowReport`. */
  function ParseReport(line: string): Option<IssueReport> {
    var info := ParseWithSeverity(line, Information);
    if info.Some? then info
    else
      var warning := ParseWithSeverity(line, Warning);
      if warning.Some? then warning else ParseWithSeverity(line, Error)
  }

  /** A printed report reads back as the same report: the printed form loses
      nothing, and two different reports never print alike. */
  lemma ParseShowReport(r: IssueReport)
    ensures ParseReport(ShowReport(r)) == Some(r)
  {
    var s := ShowReport(r);
    var name := SeverityName(r.severity);
    assert s[..|name|] == name;
    assert StartsWith(s, name);
    var rest := s[|name|..];
    match r.lineNumber {
      case None =>
        assert rest == ": " + r.description;
        assert rest[..2] == ": ";
      case Some(n) =>
        var d := Decimal(n);
        assert rest == " at line " + (d + (": " + r.description));
        assert rest[..9] == " at line ";
        var tail := rest[9..];
        assert tail == d + (": " + r.description);
        DigitRunOfDigits(d, ": " + r.description);
        assert tail[|d|..] == ": " + r.description;
        assert tail[|d|..][..2] == ": ";
        DecimalRoundTrip(n);
    }
    assert ParseWithSeverity(s, r.severity) == Some(r);
    SeverityNamesDistinct(s, r.severity);
  }

  /** No severity name starts a text that another one starts. */
  lemma SeverityNamesDistinct(s: string, sev: Severity)
    requires StartsWith(s, SeverityName(sev))
    ensures forall other | other != sev :: !StartsWith(s, SeverityName(other))
  {
    forall other | other != sev
      ensures !StartsWith(s, SeverityName(other))
    {
      assert SeverityName(sev)[0] == s[0];
      assert SeverityName(other)[0] != s[0];
    }
  }

  /** `report_issues`: nothing for a clean file; otherwise a `File:` header
      and one bulleted line per report, in the order found. */
  function ReportIssues(issues: seq<IssueReport>, filePath: string): (out: seq<string>)
    ensures |issues| == 0 <==> out == []
    ensures |issues| > 0 ==> |out| == |issues| + 1 && out[0] == "File: " + filePath
    ensures forall i | 0 <= i < |issues| :: out[i + 1] == "  * " + ShowReport(issues[i])
  {
    if |issues| == 0 then []
    else ["File: " + filePath] + seq(|issues|, i requires 0 <= i < |issues| => "  * " + ShowReport(issues[i]))
  }

  /** Every bulleted line of the output reads back as the report it prints. */
  lemma ReportIssuesReadBack(issues: seq<IssueReport>, filePath: string, i: nat)
    requires i < |issues|
    ensures var line := ReportIssues(issues, filePath)[i + 1];
      StartsWith(line, "  * ") && ParseReport(line[4..]) == Some(issues[i])
  {
    var line := ReportIssues(issues, filePath)[i + 1];
    assert line[..4] == "  * ";
    assert line[4..] == ShowReport(issues[i]);
    ParseShowReport(issues[i]);
  }

  // ---------------------------------------------------------------------
  // Classifying a file

  /** The name prefix and the type-variable line that signal each module
      type, in the order they are tried. */
  const MOD_PATTERNS: seq<(string, string, ContentType)> := [
    ("con", ":_module-type: CONCEPT", Concept),
    ("proc", ":_module-type: PROCEDURE", Procedure),
    ("ref", ":_module-type: REFERENCE", Reference)
  ]

  predicate AssemblyName(baseName: string) {
    StartsWith(baseName, "assembly_") || StartsWith(baseName, "assembly-")
  }

  predicate ConceptSignal(baseName: string, content: string) {
    StartsWith(baseName, "con") || Contains(content, ":_module-type: CONCEPT")
  }

  predicate ProcedureSignal(baseName: string, content: string) {
    StartsWith(baseName, "proc") || Contains(content, ":_module-type: PROCEDURE")
  }

  predicate ReferenceSignal(baseName: string, content: string) {
    StartsWith(baseName, "ref") || Contains(content, ":_module-type: REFERENCE")
  }

  /** The loop over `MOD_PATTERNS` from entry `k`: the type of the first entry
      whose prefix starts the name or whose variable occurs in the content. */
  function FirstSignal(baseName: string, content: string, k: nat): (r: Option<ContentType>)
    requires k <= |MOD_PATTERNS|
    ensures r.Some? ==> exists i | k <= i < |MOD_PATTERNS| :: r.value == MOD_PATTERNS[i].2
    decreases |MOD_PATTERNS| - k
  {
    if k == |MOD_PATTERNS| then None
    else if StartsWith(baseName, MOD_PATTERNS[k].0) || Contains(content, MOD_PATTERNS[k].1) then
      Some(MOD_PATTERNS[k].2)
    else FirstSignal(baseName, content, k + 1)
  }

  /** `determine_mod_type`: an assembly by its name, otherwise the first of
      concept, procedure and reference whose name prefix or type variable
      matches, otherwise undetermined. */
  function DetermineModType(baseName: string, content: string): (r: Option<ContentType>)
    ensures r == Some(Assembly) <==> AssemblyName(baseName)
    ensures r == Some(Concept) <==> !AssemblyName(baseName) && ConceptSignal(baseName, content)
    ensures r == Some(Procedure) <==>
      && !AssemblyName(baseName)
      && !ConceptSignal(baseName, content)
      && ProcedureSignal(baseName, content)
    ensures r == Some(Reference) <==>
      && !AssemblyName(baseName)
      && !ConceptSignal(baseName, content)
      && !ProcedureSignal(baseName, content)
      && ReferenceSignal(baseName, content)
    ensures r.None? <==>
      && !AssemblyName(baseName)
      && !ConceptSignal(baseName, content)
      && !ProcedureSignal(baseName, content)
      && !ReferenceSignal(baseName, content)
    ensures r != Some(Snippet)
  {
    if AssemblyName(baseName) then Some(Assembly) else FirstSignal(baseName, content, 0)
  }

  /** A type variable in the content beats a file-name prefix that comes
      later in the order: a `proc_` file that says it is a concept is one. */
  lemma ConceptVariableBeatsPrefix(baseName: string, content: string)
    requires !AssemblyName(baseName)
    requires Contains(content, ":_module-type: CONCEPT")
    ensures DetermineModType(baseName, content) == Some(Concept)
  {
  }

  /** An assembly file name decides, whatever the content says. */
  lemma AssemblyNameDecides(baseName: string, content: string)
    requires AssemblyName(baseName)
    ensures DetermineModType(baseName, content) == Some(Assembly)
  {
  }

  // ---------------------------------------------------------------------
  // Per-line rules

  /** The reports are in strictly increasing line order. */
  predicate Increasing(reports: seq<IssueReport>) {
    forall i, j | 0 <= i < j < |reports| ::
      reports[i].lineNumber.Some? && reports[j].lineNumber.Some? &&
      reports[i].lineNumber.value < reports[j].lineNumber.value
  }

  /** Some report names the line at index `i`, whose number is `i + 1`. */
  predicate Reported(reports: seq<IssueReport>, i: nat) {
    exists j | 0 <= j < |reports| :: reports[j].lineNumber == Some(i + 1)
  }

  /** What a per-line rule says about one line: nothing, or the description
      and severity of the issue it finds there. */
  type Verdict = Option<(string, Severity)>

  /** Every report names a line of `lines[k..]` the rule flags, with the
      rule's verdict on that line. */
  predicate FromRule(rule: string -> Verdict, lines: seq<string>, k: nat, reports: seq<IssueReport>) {
    forall j | 0 <= j < |reports| ::
      && reports[j].lineNumber.Some?
      && k + 1 <= reports[j].lineNumber.value <= |lines|
      && rule(lines[reports[j].lineNumber.value - 1]) == Some((reports[j].description, reports[j].severity))
  }

  /** Every line of `lines[k..]` the rule flags is reported. */
  predicate CoversRule(rule: string -> Verdict, lines: seq<string>, k: nat, reports: seq<IssueReport>) {
    forall i | k <= i < |lines| && rule(lines[i]).Some? :: Reported(reports, i)
  }

  /** The loop `for (index, line) in content.lines().enumerate()` shared by
      the per-line checks, from line `k` on: one report per flagged line,
      numbered from 1, in line order. */
  function ScanLines(rule: string -> Verdict, lines: seq<string>, k: nat): (r: seq<IssueReport>)
    requires k <= |lines|
    ensures FromRule(rule, lines, k, r)
    ensures Increasing(r)
    ensures CoversRule(rule, lines, k, r)
    decreases |lines| - k
  {
    if k == |lines| then []
    else
      var rest := ScanLines(rule, lines, k + 1);
      match rule(lines[k])
      case Some(found) =>
        var report := IssueReport(Some(k + 1), found.0, found.1);
        ScanMatch(rule, lines, k, rest, report);
        [report] + rest
      case None =>
        ScanSkip(rule, lines, k, rest);
        rest
  }

  lemma ScanSkip(rule: string -> Verdict, lines: seq<string>, k: nat, rest: seq<IssueReport>)
    requires k < |lines| && rule(lines[k]).None?
    requires FromRule(rule, lines, k + 1, rest) && CoversRule(rule, lines, k + 1, rest)
    ensures FromRule(rule, lines, k, rest) && CoversRule(rule, lines, k, rest)
  {
  }

  lemma ScanMatch(rule: string -> Verdict, lines: seq<string>, k: nat, rest: seq<IssueReport>, report: IssueReport)
    requires k < |lines| && rule(lines[k]) == Some((report.description, report.severity))
    requires report.lineNumber == Some(k + 1)
    requires FromRule(rule, lines, k + 1, rest) && Increasing(rest) && CoversRule(rule, lines, k + 1, rest)
    ensures FromRule(rule, lines, k, [report] + rest)
    ensures Increasing([report] + rest)
    ensures CoversRule(rule, lines, k, [report] + rest)
  {
    var r := [report] + rest;
    ConsFromRule(rule, lines, k, rest, report, r);
    assert forall j | 0 <= j < |rest| :: rest[j].lineNumber.Some? && rest[j].lineNumber.value >= k + 2;
    ConsIncreasing(lines, k, rest, report, r);
    ConsCovers(rule, lines, k, rest, report, r);
  }

  lemma ConsFromRule(rule: string -> Verdict, lines: seq<string>, k: nat, rest: seq<IssueReport>, report: IssueReport, r: seq<IssueReport>)
    requires k < |lines| && rule(lines[k]) == Some((report.description, report.severity))
    requires report.lineNumber == Some(k + 1)
    requires FromRule(rule, lines, k + 1, rest)
    requires r == [report] + rest
    ensures FromRule(rule, lines, k, r)
  {
    forall j | 0 <= j < |r|
      ensures r[j].lineNumber.Some? && k + 1 <= r[j].lineNumber.value <= |lines|
      ensures rule(lines[r[j].lineNumber.value - 1]) == Some((r[j].description, r[j].severity))
    {
      if j > 0 {
        assert r[j] == rest[j - 1];
      }
    }
  }

  lemma ConsIncreasing(lines: seq<string>, k: nat, rest: seq<IssueReport>, report: IssueReport, r: seq<IssueReport>)
    requires report.lineNumber == Some(k + 1)
    requires forall j | 0 <= j < |rest| :: rest[j].lineNumber.Some? && rest[j].lineNumber.value >= k + 2
    requires Increasing(rest)
    requires r == [report] + rest
    ensures Increasing(r)
  {
    forall i, j | 0 <= i < j < |r|
      ensures r[i].lineNumber.Some? && r[j].lineNumber.Some? && r[i].lineNumber.value < r[j].lineNumber.value
    {
      assert r[j] == rest[j - 1];
      if i > 0 {
        assert r[i] == rest[i - 1];
      }
    }
  }

  lemma ConsCovers(rule: string -> Verdict, lines: seq<string>, k: nat, rest: seq<IssueReport>, report: IssueReport, r: seq<IssueReport>)
    requires report.lineNumber == Some(k + 1)
    requires CoversRule(rule, lines, k + 1, rest)
    requires r == [report] + rest
    ensures CoversRule(rule, lines, k, r)
  {
    forall i | k <= i < |lines| && rule(lines[i]).Some?
      ensures Reported(r, i)
    {
      if i == k {
        assert r[0].lineNumber == Some(i + 1);
      } else {
        assert Reported(rest, i);
        var j :| 0 <= j < |rest| && rest[j].lineNumber == Some(i + 1);
        assert r[j + 1] == rest[j];
      }
    }
  }

  /** `line_from_byte_no`'s count for the start of line `i`: one for every
      line before it, plus the bytes of those lines. */
  function LineStart(lines: seq<string>, i: nat): (s: nat)
    requires i <= |lines|
    ensures s >= i
  {
    if i == 0 then 0 else LineStart(lines, i - 1) + ByteLen(lines[i - 1]) + 1
  }

  /** The byte numbers `line_from_byte_no` attributes to line `i` (0-based):
      the count after each of its bytes, which runs two ahead of the byte's
      offset in the text. */
  predicate InLine(lines: seq<string>, i: nat, b: nat)
    requires i < |lines|
  {
    LineStart(lines, i) + 2 <= b <= LineStart(lines, i) + ByteLen(lines[i]) + 1
  }

  lemma {:induction false} LineStartMonotone(lines: seq<string>, i: nat, j: nat)
    requires i < j <= |lines|
    ensures LineStart(lines, i) + ByteLen(lines[i]) + 1 <= LineStart(lines, j)
    decreases j - i
  {
    if j > i + 1 {
      LineStartMonotone(lines, i, j - 1);
    }
  }

  /** No byte number is attributed to two lines. */
  lemma InLineUnique(lines: seq<string>, i: nat, j: nat, b: nat)
    requires i < |lines| && j < |lines|
    requires InLine(lines, i, b) && InLine(lines, j, b)
    ensures i == j
  {
    if i < j {
      LineStartMonotone(lines, i, j);
    } else if j < i {
      LineStartMonotone(lines, j, i);
    }
  }

  /** The line (1-based) `line_from_byte_no` reports for byte number `b`,
      searching from line `i`. */
  function LineOfByte(lines: seq<string>, b: nat, i: nat): (r: Option<nat>)
    requires i <= |lines|
    ensures r.Some? ==> i + 1 <= r.value <= |lines| && InLine(lines, r.value - 1, b)
    ensures r.None? ==> forall k | i <= k < |lines| :: !InLine(lines, k, b)
    decreases |lines| - i
  {
    if i == |lines| then None
    else if InLine(lines, i, b) then Some(i + 1)
    else LineOfByte(lines, b, i + 1)
  }

  /** The byte numbers 0 and 1 belong to no line, and neither does an empty line. */
  lemma LineOfByteBounds(lines: seq<string>, b: nat)
    ensures b <= 1 ==> LineOfByte(lines, b, 0).None?
    ensures var r := LineOfByte(lines, b, 0); r.Some? ==> lines[r.value - 1] != []
  {
  }

  /** `line_from_byte_no` as written: count one per line and one per byte of
      it, and stop at the byte whose count equals `byteNo`. */
  method LineFromByteNo(content: string, byteNo: nat) returns (r: Option<nat>)
    ensures r.Some? ==> 1 <= r.value <= |Lines(content)|
    ensures r.Some? ==> InLine(Lines(content), r.value - 1, byteNo)
    ensures r.None? ==> forall i | 0 <= i < |Lines(content)| :: !InLine(Lines(content), i, byteNo)
  {
    var lines := Lines(content);
    var total: nat := 0;
    var i := 0;
    while i < |lines|
      invariant 0 <= i <= |lines|
      invariant total == LineStart(lines, i)
      invariant forall k | 0 <= k < i :: !InLine(lines, k, byteNo)
    {
      total := total + 1;
      var j := 0;
      var n := ByteLen(lines[i]);
      while j < n
        invariant 0 <= j <= n
        invariant total == LineStart(lines, i) + 1 + j
        invariant !(LineStart(lines, i) + 2 <= byteNo <= total)
      {
        total := total + 1;
        if total == byteNo {
          return Some(i + 1);
        }
        j := j + 1;
      }
      i := i + 1;
    }
    return None;
  }

  /** `check_for_issue`. A multi-line rule is matched against the whole text
      by the regex engine, which is not modelled: `matchStarts` are the byte
      offsets where its matches start, each turned into a line number by
      `line_from_byte_no`. */
  function CheckForIssue(issue: IssueDefinition, content: string, matchStarts: seq<nat>): (r: seq<IssueReport>)
    ensures Copied(issue, r)
    ensures issue.multiline ==> |r| == |matchStarts|
    ensures issue.multiline ==> forall j | 0 <= j < |r| :: r[j].lineNumber == LineOfByte(Lines(content), matchStarts[j], 0)
    ensures !issue.multiline ==> Located(r) && FindsLines(issue.pattern, Lines(content), r)
  {
    if issue.multiline then
      seq(|matchStarts|, j requires 0 <= j < |matchStarts| =>
        IssueReport(LineOfByte(Lines(content), matchStarts[j], 0), issue.description, issue.severity))
    else ScanLines(RuleOf(issue), Lines(content), 0)
  }

  /** Every report carries the description and severity of `issue`. */
  predicate Copied(issue: IssueDefinition, reports: seq<IssueReport>) {
    forall j | 0 <= j < |reports| :: reports[j].description == issue.description && reports[j].severity == issue.severity
  }

  /** Every report has a line number. */
  predicate Located(reports: seq<IssueReport>) {
    forall j | 0 <= j < |reports| :: reports[j].lineNumber.Some?
  }

  /** One report per line `p` matches, numbered from 1, in line order. */
  predicate FindsLines(p: Pattern, lines: seq<string>, reports: seq<IssueReport>) {
    && Increasing(reports)
    && (forall j | 0 <= j < |reports| ::
          && reports[j].lineNumber.Some?
          && 1 <= reports[j].lineNumber.value <= |lines|
          && Matches(p, lines[reports[j].lineNumber.value - 1]))
    && (forall i | 0 <= i < |lines| && Matches(p, lines[i]) :: Reported(reports, i))
  }

  /** A single-line rule as a verdict on one line. */
  function RuleOf(issue: IssueDefinition): string -> Verdict {
    line => if Matches(issue.pattern, line) then Some((issue.description, issue.severity)) else None
  }

  // ---------------------------------------------------------------------
  // Structural checks of modules

  /** The index of the last line of `lines[..k]` that `p` matches: what the
      loop of `check_metadata_variable` leaves in its position variables. */
  function LastMatch(p: Pattern, lines: seq<string>, k: nat): (r: Option<nat>)
    requires k <= |lines|
    ensures r.Some? ==> r.value < k && Matches(p, lines[r.value])
    ensures r.Some? ==> forall i | r.value < i < k :: !Matches(p, lines[i])
    ensures r.None? <==> forall i | 0 <= i < k :: !Matches(p, lines[i])
    decreases k
  {
    if k == 0 then None
    else if Matches(p, lines[k - 1]) then Some(k - 1)
    else LastMatch(p, lines, k - 1)
  }

  /** One step of the loop: a matching line becomes the recorded position,
      any other line leaves the position as it was. */
  function Record(p: Pattern, lines: seq<string>, k: nat, pos: Option<nat>): (r: Option<nat>)
    requires k < |lines| && pos == LastMatch(p, lines, k)
    ensures r == LastMatch(p, lines, k + 1)
  {
    if Matches(p, lines[k]) then Some(k) else pos
  }

  /** The loop of `check_metadata_variable` as written: walk the lines
      forward and record the index of every line that matches. */
  method MetadataPositions(content: string) returns (variable: Option<nat>, id: Option<nat>)
    ensures variable == LastMatch(ModuleTypeVariable, Lines(content), |Lines(content)|)
    ensures id == LastMatch(ModuleId, Lines(content), |Lines(content)|)
  {
    var lines := Lines(content);
    variable, id := None, None;
    var index := 0;
    while index < |lines|
      invariant 0 <= index <= |lines|
      invariant variable == LastMatch(ModuleTypeVariable, lines, index)
      invariant id == LastMatch(ModuleId, lines, index)
    {
      variable := Record(ModuleTypeVariable, lines, index, variable);
      id := Record(ModuleId, lines, index, id);
      index := index + 1;
    }
  }

  /** The reports of `check_metadata_variable` for the given positions of
      the last ID line and the last type-variable line. */
  function MetadataReports(id: Option<nat>, variable: Option<nat>): (r: seq<IssueReport>)
    ensures |r| <= 2
    ensures forall j | 0 <= j < |r| :: r[j].severity == Error
    ensures IssueReport(None, MISSING_ID, Error) in r <==> id.None?
    ensures IssueReport(None, MISSING_VARIABLE, Error) in r <==> variable.None?
    ensures forall n :: IssueReport(Some(n), VARIABLE_AFTER_ID, Error) in r <==>
      id.Some? && variable.Some? && id.value < variable.value && n == variable.value
    ensures forall j | 0 <= j < |r| :: r[j].lineNumber.None? <==> r[j].description != VARIABLE_AFTER_ID
    ensures forall j | 0 <= j < |r| && r[j].lineNumber.None? ::
      r[j].description == MISSING_ID || r[j].description == MISSING_VARIABLE
    ensures forall i, j | 0 <= i < j < |r| :: r[i] != r[j]
  {
    (if id.None? then [IssueReport(None, MISSING_ID, Error)] else [])
    + (if variable.None? then [IssueReport(None, MISSING_VARIABLE, Error)] else [])
    + (if id.Some? && variable.Some? && id.value < variable.value
       then [IssueReport(Some(variable.value), VARIABLE_AFTER_ID, Error)]
       else [])
  }

  /** `check_metadata_variable`: an Error without a line for a missing ID and
      for a missing module type variable, and an Error when the last ID line
      comes before the last type-variable line. That report carries the
      variable line's 0-based index, unlike every other report, which
      carries a 1-based line number. */
  function CheckMetadataVariable(content: string): (r: seq<IssueReport>)
    ensures var lines := Lines(content);
      && |r| <= 2
      && (forall j | 0 <= j < |r| :: r[j].severity == Error)
      && (forall j | 0 <= j < |r| && r[j].lineNumber.None? ::
            r[j].description == MISSING_ID || r[j].description == MISSING_VARIABLE)
      && (forall j | 0 <= j < |r| && r[j].lineNumber.Some? :: r[j].description == VARIABLE_AFTER_ID)
      && (forall i, j | 0 <= i < j < |r| :: r[i] != r[j])
      && (IssueReport(None, MISSING_ID, Error) in r <==> forall i | 0 <= i < |lines| :: !Matches(ModuleId, lines[i]))
      && (IssueReport(None, MISSING_VARIABLE, Error) in r <==>
            forall i | 0 <= i < |lines| :: !Matches(ModuleTypeVariable, lines[i]))
  {
    var lines := Lines(content);
    MetadataReports(LastMatch(ModuleId, lines, |lines|), LastMatch(ModuleTypeVariable, lines, |lines|))
  }

  /** The positional report names the last type-variable line by its 0-based
      index, and exactly when some ID line exists and all of them come
      before that line. */
  lemma VariableAfterId(content: string, n: nat)
    ensures var lines := Lines(content);
      IssueReport(Some(n), VARIABLE_AFTER_ID, Error) in CheckMetadataVariable(content) <==>
        && n < |lines|
        && Matches(ModuleTypeVariable, lines[n])
        && (forall i | n < i < |lines| :: !Matches(ModuleTypeVariable, lines[i]))
        && (exists i | 0 <= i < n :: Matches(ModuleId, lines[i]))
        && (forall i | n <= i < |lines| :: !Matches(ModuleId, lines[i]))
  {
    var lines := Lines(content);
    var id := LastMatch(ModuleId, lines, |lines|);
    var variable := LastMatch(ModuleTypeVariable, lines, |lines|);
    if id.Some? && variable.Some? && id.value < variable.value && n == variable.value {
      assert Matches(ModuleId, lines[id.value]);
    }
  }

  /** The verdict of `check_include_except_snip` on one line: a line that
      includes an `.adoc` file is reported, as Information when the included
      text looks like a snippet and as an Error otherwise. */
  function IncludeVerdict(line: string): (v: Verdict)
    ensures v.Some? <==> Matches(AnyInclude, line)
    ensures v.Some? ==> (v.value.1 == Information <==> SnippetInclude(IncludeMatch(line)))
    ensures v.Some? ==> v.value.0 == (if v.value.1 == Information then SNIPPET_INCLUDE else OTHER_INCLUDE)
  {
    if Matches(AnyInclude, line) then
      Some(if SnippetInclude(IncludeMatch(line)) then (SNIPPET_INCLUDE, Information) else (OTHER_INCLUDE, Error))
    else None
  }

  /** `check_include_except_snip`: one report per line that includes an
      `.adoc` file, numbered from 1, in line order. */
  function CheckIncludeExceptSnip(content: string): (r: seq<IssueReport>)
    ensures Located(r)
    ensures var lines := Lines(content);
      && Increasing(r)
      && (forall j | 0 <= j < |r| ::
            && r[j].lineNumber.Some?
            && 1 <= r[j].lineNumber.value <= |lines|
            && Matches(AnyInclude, lines[r[j].lineNumber.value - 1])
            && (r[j].severity == Information <==> SnippetInclude(IncludeMatch(lines[r[j].lineNumber.value - 1])))
            && r[j].severity != Warning
            && r[j].description == if r[j].severity == Information then SNIPPET_INCLUDE else OTHER_INCLUDE)
      && (forall i | 0 <= i < |lines| && Matches(AnyInclude, lines[i]) :: Reported(r, i))
  {
    ScanLines(IncludeVerdict, Lines(content), 0)
  }

  // ---------------------------------------------------------------------
  // Composition per file type

  /** The reports `check` gives for each rule of `defs[k..]`, rule after
      rule: the `iter().map(..).flatten()` of a rule table. */
  function RuleByRule(check: IssueDefinition -> seq<IssueReport>, defs: seq<IssueDefinition>, k: nat): seq<IssueReport>
    requires k <= |defs|
    decreases |defs| - k
  {
    if k == |defs| then [] else check(defs[k]) + RuleByRule(check, defs, k + 1)
  }

  /** The rules of `b` after those of `a` report as `b` does alone. */
  lemma {:induction false} RuleByRuleShift(check: IssueDefinition -> seq<IssueReport>, a: seq<IssueDefinition>, b: seq<IssueDefinition>, j: nat)
    requires j <= |b|
    ensures RuleByRule(check, a + b, |a| + j) == RuleByRule(check, b, j)
    decreases |b| - j
  {
    if j < |b| {
      RuleByRuleShift(check, a, b, j + 1);
      assert (a + b)[|a| + j] == b[j];
    }
  }

  /** Two tables run one after the other report as the first and then the second. */
  lemma {:induction false} RuleByRuleSplit(check: IssueDefinition -> seq<IssueReport>, a: seq<IssueDefinition>, b: seq<IssueDefinition>, k: nat)
    requires k <= |a|
    ensures RuleByRule(check, a + b, k) == RuleByRule(check, a, k) + RuleByRule(check, b, 0)
    decreases |a| - k
  {
    if k == |a| {
      RuleByRuleShift(check, a, b, 0);
    } else {
      RuleByRuleSplit(check, a, b, k + 1);
      assert (a + b)[k] == a[k];
      var head, tail, more := check(a[k]), RuleByRule(check, a, k + 1), RuleByRule(check, b, 0);
      assert head + (tail + more) == (head + tail) + more;
    }
  }

  /** If every rule's reports are copies of it at lines of the text, so are
      the table's. */
  lemma {:induction false} RuleByRuleWithin(check: IssueDefinition -> seq<IssueReport>, defs: seq<IssueDefinition>, k: nat, count: nat)
    requires k <= |defs|
    requires forall d :: Copied(d, check(d)) && WithinLines(check(d), count)
    ensures FromTable(defs, k, RuleByRule(check, defs, k)) && WithinLines(RuleByRule(check, defs, k), count)
    decreases |defs| - k
  {
    if k < |defs| {
      RuleByRuleWithin(check, defs, k + 1, count);
      TableJoinWithin(defs, k, count, check(defs[k]), RuleByRule(check, defs, k + 1));
    }
  }

  /** If every rule reports exactly the lines it flags, the table reports a
      line exactly when one of its rules flags it. */
  lemma {:induction false} RuleByRuleComplete(check: IssueDefinition -> seq<IssueReport>, defs: seq<IssueDefinition>, k: nat, lines: seq<string>)
    requires k <= |defs|
    requires forall d :: Copied(d, check(d)) && WithinLines(check(d), |lines|) && RuleComplete(d, lines, check(d))
    ensures TableComplete(defs, k, lines, RuleByRule(check, defs, k))
    decreases |defs| - k
  {
    if k < |defs| {
      RuleByRuleComplete(check, defs, k + 1, lines);
      RuleByRuleWithin(check, defs, k + 1, |lines|);
      TableJoin(defs, k, lines, check(defs[k]), RuleByRule(check, defs, k + 1));
    }
  }

  /** `check_for_issue` on the text, with no match offsets. */
  function RulesCheck(content: string): IssueDefinition -> seq<IssueReport> {
    d => CheckForIssue(d, content, [])
  }

  /** Each rule reports copies of itself, at lines of the text, exactly at
      the lines it flags. */
  lemma RulesCheckReports(content: string)
    ensures forall d ::
      && Copied(d, RulesCheck(content)(d))
      && WithinLines(RulesCheck(content)(d), |Lines(content)|)
      && RuleComplete(d, Lines(content), RulesCheck(content)(d))
  {
    forall d
      ensures Copied(d, RulesCheck(content)(d))
      ensures WithinLines(RulesCheck(content)(d), |Lines(content)|)
      ensures RuleComplete(d, Lines(content), RulesCheck(content)(d))
    {
      RuleReports(d, content);
    }
  }

  /** The reports of the rules `defs[k..]`, rule after rule, unsorted. No
      shipped rule is multi-line, so none gets any match offsets. Every
      report copies one of the rules and names a line of the text. */
  function TableReports(defs: seq<IssueDefinition>, content: string, k: nat): (r: seq<IssueReport>)
    requires k <= |defs|
    ensures FromTable(defs, k, r)
    ensures WithinLines(r, |Lines(content)|)
  {
    RulesCheckReports(content);
    RuleByRuleWithin(RulesCheck(content), defs, k, |Lines(content)|);
    RuleByRule(RulesCheck(content), defs, k)
  }

  /** A line gets a report with a given description and severity exactly
      when a single-line rule of `defs[k..]` with that description and
      severity flags it. */
  lemma TableReportsComplete(defs: seq<IssueDefinition>, content: string, k: nat)
    requires k <= |defs|
    ensures TableComplete(defs, k, Lines(content), TableReports(defs, content, k))
  {
    RulesCheckReports(content);
    RuleByRuleComplete(RulesCheck(content), defs, k, Lines(content));
  }

  /** The reports of a table of one rule are that rule's reports. */
  lemma TableReportsOne(d: IssueDefinition, content: string)
    ensures TableReports([d], content, 0) == CheckForIssue(d, content, [])
  {
    assert RuleByRule(RulesCheck(content), [d], 1) == [];
    assert CheckForIssue(d, content, []) + [] == CheckForIssue(d, content, []);
  }

  /** Rule after rule: the reports of two tables run one after the other are
      the reports of the first table followed by those of the second. */
  lemma TableReportsSplit(a: seq<IssueDefinition>, b: seq<IssueDefinition>, content: string, k: nat)
    requires k <= |a|
    ensures TableReports(a + b, content, k) == TableReports(a, content, k) + TableReports(b, content, 0)
  {
    RuleByRuleSplit(RulesCheck(content), a, b, k);
  }

  /** Every report of `defs[k..]` carries the description and severity of one of them. */
  predicate FromTable(defs: seq<IssueDefinition>, k: nat, reports: seq<IssueReport>) {
    forall j | 0 <= j < |reports| :: exists d | k <= d < |defs| :: Copied(defs[d], [reports[j]])
  }

  /** Every report names one of the `count` lines, numbered from 1. */
  predicate WithinLines(reports: seq<IssueReport>, count: nat) {
    forall j | 0 <= j < |reports| ::
      reports[j].lineNumber.Some? && 1 <= reports[j].lineNumber.value <= count
  }

  /** The single-line rule `issue`, of description `desc` and severity
      `sev`, flags `line`. */
  predicate RuleFlags(issue: IssueDefinition, line: string, desc: string, sev: Severity) {
    && !issue.multiline
    && Matches(issue.pattern, line)
    && issue.description == desc
    && issue.severity == sev
  }

  /** Some single-line rule of `defs[k..]` with description `desc` and
      severity `sev` flags `line`. */
  predicate TableFlags(defs: seq<IssueDefinition>, k: nat, line: string, desc: string, sev: Severity) {
    exists d | k <= d < |defs| :: RuleFlags(defs[d], line, desc, sev)
  }

  /** A line of `lines` has a report with description `desc` and severity
      `sev` exactly when the rule flags it. */
  ghost predicate RuleComplete(issue: IssueDefinition, lines: seq<string>, r: seq<IssueReport>) {
    forall n, desc, sev | 1 <= n <= |lines| ::
      IssueReport(Some(n), desc, sev) in r <==> RuleFlags(issue, lines[n - 1], desc, sev)
  }

  /** A line of `lines` has a report with description `desc` and severity
      `sev` exactly when some single-line rule of `defs[k..]` with that
      description and severity flags it. */
  ghost predicate TableComplete(defs: seq<IssueDefinition>, k: nat, lines: seq<string>, r: seq<IssueReport>) {
    forall n, desc, sev | 1 <= n <= |lines| ::
      IssueReport(Some(n), desc, sev) in r <==> TableFlags(defs, k, lines[n - 1], desc, sev)
  }

  /** No rule of `defs[k..]` is multi-line. */
  predicate SingleLine(defs: seq<IssueDefinition>, k: nat) {
    forall d | k <= d < |defs| :: !defs[d].multiline
  }

  /** A per-line scan reports a line with a verdict exactly when the rule
      gives that verdict on the line. */
  lemma ScanReportsLine(rule: string -> Verdict, lines: seq<string>, r: seq<IssueReport>, n: nat, desc: string, sev: Severity)
    requires FromRule(rule, lines, 0, r) && CoversRule(rule, lines, 0, r)
    requires 1 <= n <= |lines|
    ensures IssueReport(Some(n), desc, sev) in r <==> rule(lines[n - 1]) == Some((desc, sev))
  {
    var x := IssueReport(Some(n), desc, sev);
    if x in r {
      var j :| 0 <= j < |r| && r[j] == x;
    }
    if rule(lines[n - 1]) == Some((desc, sev)) {
      assert Reported(r, n - 1);
      var j :| 0 <= j < |r| && r[j].lineNumber == Some(n);
      assert r[j] == x;
    }
  }

  /** The reports of one rule given no match offsets: copies of the rule at
      lines of the text, one for each line it flags. */
  lemma RuleReports(issue: IssueDefinition, content: string)
    ensures var r := CheckForIssue(issue, content, []); var lines := Lines(content);
      && Copied(issue, r)
      && WithinLines(r, |lines|)
      && RuleComplete(issue, lines, r)
  {
    RuleReportsWithin(issue, content);
    RuleReportsComplete(issue, content);
  }

  lemma RuleReportsComplete(issue: IssueDefinition, content: string)
    ensures RuleComplete(issue, Lines(content), CheckForIssue(issue, content, []))
  {
    if !issue.multiline {
      var lines := Lines(content);
      var r := ScanLines(RuleOf(issue), lines, 0);
      assert CheckForIssue(issue, content, []) == r;
      ScanComplete(issue, lines, r);
    }
  }

  /** The scan of a single-line rule reports exactly the lines it flags. */
  lemma ScanComplete(issue: IssueDefinition, lines: seq<string>, r: seq<IssueReport>)
    requires !issue.multiline
    requires FromRule(RuleOf(issue), lines, 0, r) && CoversRule(RuleOf(issue), lines, 0, r)
    ensures RuleComplete(issue, lines, r)
  {
    forall n, desc, sev | 1 <= n <= |lines|
      ensures IssueReport(Some(n), desc, sev) in r <==> RuleFlags(issue, lines[n - 1], desc, sev)
    {
      ScanReportsLine(RuleOf(issue), lines, r, n, desc, sev);
    }
  }

  lemma RuleReportsWithin(issue: IssueDefinition, content: string)
    ensures var r := CheckForIssue(issue, content, []);
      Copied(issue, r) && WithinLines(r, |Lines(content)|)
  {
    var r := CheckForIssue(issue, content, []);
    if issue.multiline {
      assert |r| == 0;
    } else {
      assert FindsLines(issue.pattern, Lines(content), r);
    }
  }

  /** Prepending copies of rule `k` at lines of the text to reports of the
      rules after it gives reports of `defs[k..]` at lines of the text. */
  lemma TableJoinWithin(defs: seq<IssueDefinition>, k: nat, count: nat, head: seq<IssueReport>, rest: seq<IssueReport>)
    requires k < |defs|
    requires Copied(defs[k], head) && WithinLines(head, count)
    requires FromTable(defs, k + 1, rest) && WithinLines(rest, count)
    ensures FromTable(defs, k, head + rest)
    ensures WithinLines(head + rest, count)
  {
    var r := head + rest;
    forall j | 0 <= j < |r|
      ensures exists d | k <= d < |defs| :: Copied(defs[d], [r[j]])
      ensures r[j].lineNumber.Some? && 1 <= r[j].lineNumber.value <= count
    {
      if j < |head| {
        assert r[j] == head[j];
        assert Copied(defs[k], [r[j]]);
      } else {
        assert r[j] == rest[j - |head|];
      }
    }
  }

  /** Prepending the reports of rule `k` to those of the rules after it
      gives the reports of `defs[k..]`. */
  lemma TableJoin(defs: seq<IssueDefinition>, k: nat, lines: seq<string>, head: seq<IssueReport>, rest: seq<IssueReport>)
    requires k < |defs|
    requires Copied(defs[k], head) && WithinLines(head, |lines|)
    requires RuleComplete(defs[k], lines, head)
    requires FromTable(defs, k + 1, rest) && WithinLines(rest, |lines|)
    requires TableComplete(defs, k + 1, lines, rest)
    ensures FromTable(defs, k, head + rest)
    ensures WithinLines(head + rest, |lines|)
    ensures TableComplete(defs, k, lines, head + rest)
  {
    var r := head + rest;
    TableJoinWithin(defs, k, |lines|, head, rest);
    forall n, desc, sev | 1 <= n <= |lines|
      ensures IssueReport(Some(n), desc, sev) in r <==> TableFlags(defs, k, lines[n - 1], desc, sev)
    {
      var line := lines[n - 1];
      if TableFlags(defs, k, line, desc, sev) {
        var d :| k <= d < |defs| && RuleFlags(defs[d], line, desc, sev);
        if d != k {
          assert TableFlags(defs, k + 1, line, desc, sev);
        }
      }
      if RuleFlags(defs[k], line, desc, sev) {
        assert TableFlags(defs, k, line, desc, sev);
      }
      if TableFlags(defs, k + 1, line, desc, sev) {
        var d :| k + 1 <= d < |defs| && RuleFlags(defs[d], line, desc, sev);
        assert TableFlags(defs, k, line, desc, sev);
      }
    }
  }

  /** A table whose rules all have severity `sev` only reports at `sev`. */
  lemma TableSeverity(defs: seq<IssueDefinition>, reports: seq<IssueReport>, sev: Severity)
    requires FromTable(defs, 0, reports)
    requires forall d | 0 <= d < |defs| :: defs[d].severity == sev
    ensures forall j | 0 <= j < |reports| :: reports[j].severity == sev
  {
    forall j | 0 <= j < |reports|
      ensures reports[j].severity == sev
    {
      var d :| 0 <= d < |defs| && Copied(defs[d], [reports[j]]);
      assert [reports[j]][0] == reports[j];
    }
  }

  /** The rules run on assemblies, in order. */
  const ASSEMBLY_RULES: seq<IssueDefinition> := ASSEMBLY_TESTS + TITLE_TESTS

  /** The rules run on modules, in order, before the structural checks. */
  const MODULE_RULES: seq<IssueDefinition> := MODULE_TESTS + TITLE_TESTS

  /** Every shipped rule is a single-line Error rule. */
  lemma ShippedRules()
    ensures SingleLine(ASSEMBLY_RULES, 0) && SingleLine(MODULE_RULES, 0)
    ensures forall d | 0 <= d < |ASSEMBLY_RULES| :: ASSEMBLY_RULES[d].severity == Error
    ensures forall d | 0 <= d < |MODULE_RULES| :: MODULE_RULES[d].severity == Error
  {
    assert |ASSEMBLY_RULES| == 5 && |MODULE_RULES| == 3;
  }

  /** `assembly_tests`: the assembly rules, then the title rules. Every
      report is an Error at some line, and every line a rule flags is
      reported with that rule's description. */
  function AssemblyTests(content: string): (r: seq<IssueReport>)
    ensures r == TableReports(ASSEMBLY_RULES, content, 0)
    ensures r == TableReports(ASSEMBLY_TESTS, content, 0) + TableReports(TITLE_TESTS, content, 0)
    ensures ShippedReports(ASSEMBLY_RULES, Lines(content), r)
  {
    TableReportsSplit(ASSEMBLY_TESTS, TITLE_TESTS, content, 0);
    ShippedRules();
    ShippedTable(ASSEMBLY_RULES, content);
    TableReports(ASSEMBLY_RULES, content, 0)
  }

  /** What the reports of a table of single-line Error rules over `lines`
      are: Errors at lines of the text, and a line gets a report with a
      description exactly when a rule with that description flags it. */
  ghost predicate ShippedReports(defs: seq<IssueDefinition>, lines: seq<string>, r: seq<IssueReport>) {
    && WithinLines(r, |lines|)
    && (forall j | 0 <= j < |r| :: r[j].severity == Error)
    && TableComplete(defs, 0, lines, r)
    && (forall n, d | 1 <= n <= |lines| && 0 <= d < |defs| && Matches(defs[d].pattern, lines[n - 1]) ::
          IssueReport(Some(n), defs[d].description, Error) in r)
  }

  /** The reports of a table of single-line Error rules. */
  lemma ShippedTable(defs: seq<IssueDefinition>, content: string)
    requires SingleLine(defs, 0) && forall d | 0 <= d < |defs| :: defs[d].severity == Error
    ensures ShippedReports(defs, Lines(content), TableReports(defs, content, 0))
  {
    var lines := Lines(content);
    var r := TableReports(defs, content, 0);
    TableReportsComplete(defs, content, 0);
    TableSeverity(defs, r, Error);
    ShippedFlags(defs, lines, r);
  }

  /** With single-line Error rules, every line a rule flags is reported. */
  lemma ShippedFlags(defs: seq<IssueDefinition>, lines: seq<string>, r: seq<IssueReport>)
    requires SingleLine(defs, 0) && forall d | 0 <= d < |defs| :: defs[d].severity == Error
    requires TableComplete(defs, 0, lines, r)
    ensures forall n, d | 1 <= n <= |lines| && 0 <= d < |defs| && Matches(defs[d].pattern, lines[n - 1]) ::
      IssueReport(Some(n), defs[d].description, Error) in r
  {
    forall n, d | 1 <= n <= |lines| && 0 <= d < |defs| && Matches(defs[d].pattern, lines[n - 1])
      ensures IssueReport(Some(n), defs[d].description, Error) in r
    {
      assert RuleFlags(defs[d], lines[n - 1], defs[d].description, Error);
    }
  }

  /** `module_tests`: the module rules, the title rules, the metadata check
      and the include check, concatenated in that order. The rule part
      reports every line a rule flags, and the include part every line that
      includes a file. Only the metadata check reports issues without a
      line, and only the include check reports Information. */
  function ModuleTests(content: string): (r: seq<IssueReport>)
    ensures var table := TableReports(MODULE_RULES, content, 0);
      var metadata := CheckMetadataVariable(content);
      && |table| + |metadata| <= |r|
      && r[..|table|] == table
      && table == TableReports(MODULE_TESTS, content, 0) + TableReports(TITLE_TESTS, content, 0)
      && r[|table|..|table| + |metadata|] == metadata
      && r[|table| + |metadata|..] == CheckIncludeExceptSnip(content)
      && ShippedReports(MODULE_RULES, Lines(content), r[..|table|])
    ensures var lines := Lines(content);
      forall i | 0 <= i < |lines| && IncludeVerdict(lines[i]).Some? ::
        IssueReport(Some(i + 1), IncludeVerdict(lines[i]).value.0, IncludeVerdict(lines[i]).value.1) in r
    ensures forall j | 0 <= j < |r| && r[j].lineNumber.None? ::
      r[j].description == MISSING_ID || r[j].description == MISSING_VARIABLE
    ensures forall j | 0 <= j < |r| && r[j].severity == Information :: r[j].description == SNIPPET_INCLUDE
  {
    var table := TableReports(MODULE_RULES, content, 0);
    var metadata := CheckMetadataVariable(content);
    var includes := CheckIncludeExceptSnip(content);
    TableReportsSplit(MODULE_TESTS, TITLE_TESTS, content, 0);
    ShippedRules();
    ShippedTable(MODULE_RULES, content);
    ModuleParts(table, metadata, includes);
    var r := table + metadata + includes;
    ThreeParts(table, metadata, includes);
    IncludesReported(content, includes, r);
    r
  }

  /** The three parts of a concatenation are its slices. */
  lemma ThreeParts<T>(a: seq<T>, b: seq<T>, c: seq<T>)
    ensures var r := a + b + c;
      && r[..|a|] == a
      && r[|a|..|a| + |b|] == b
      && r[|a| + |b|..] == c
  {
  }

  /** Every line the include check flags is reported with its verdict, in
      any list that ends with the include check's reports. */
  lemma IncludesReported(content: string, includes: seq<IssueReport>, r: seq<IssueReport>)
    requires includes == CheckIncludeExceptSnip(content)
    requires |includes| <= |r| && r[|r| - |includes|..] == includes
    ensures var lines := Lines(content);
      forall i | 0 <= i < |lines| && IncludeVerdict(lines[i]).Some? ::
        IssueReport(Some(i + 1), IncludeVerdict(lines[i]).value.0, IncludeVerdict(lines[i]).value.1) in r
  {
    var lines := Lines(content);
    assert includes == ScanLines(IncludeVerdict, lines, 0);
    ScanCovered(IncludeVerdict, lines, includes, r);
  }

  /** Every line a rule flags is reported with its verdict, in any list that
      ends with the scan's reports. */
  lemma ScanCovered(rule: string -> Verdict, lines: seq<string>, reports: seq<IssueReport>, r: seq<IssueReport>)
    requires FromRule(rule, lines, 0, reports) && CoversRule(rule, lines, 0, reports)
    requires |reports| <= |r| && r[|r| - |reports|..] == reports
    ensures forall i | 0 <= i < |lines| && rule(lines[i]).Some? ::
      IssueReport(Some(i + 1), rule(lines[i]).value.0, rule(lines[i]).value.1) in r
  {
    forall i | 0 <= i < |lines| && rule(lines[i]).Some?
      ensures IssueReport(Some(i + 1), rule(lines[i]).value.0, rule(lines[i]).value.1) in r
    {
      var v := rule(lines[i]).value;
      ScanReportsLine(rule, lines, reports, i + 1, v.0, v.1);
      var j :| 0 <= j < |reports| && reports[j] == IssueReport(Some(i + 1), v.0, v.1);
      assert r[|r| - |reports| + j] == reports[j];
    }
  }

  lemma ModuleParts(table: seq<IssueReport>, metadata: seq<IssueReport>, includes: seq<IssueReport>)
    requires Located(table) && forall j | 0 <= j < |table| :: table[j].severity == Error
    requires forall j | 0 <= j < |metadata| :: metadata[j].severity == Error
    requires forall j | 0 <= j < |metadata| && metadata[j].lineNumber.None? ::
      metadata[j].description == MISSING_ID || metadata[j].description == MISSING_VARIABLE
    requires Located(includes)
    requires forall j | 0 <= j < |includes| && includes[j].severity == Information :: includes[j].description == SNIPPET_INCLUDE
    ensures var r := table + metadata + includes;
      && (forall j | 0 <= j < |r| && r[j].lineNumber.None? ::
            r[j].description == MISSING_ID || r[j].description == MISSING_VARIABLE)
      && (forall j | 0 <= j < |r| && r[j].severity == Information :: r[j].description == SNIPPET_INCLUDE)
  {
    var r := table + metadata + includes;
    forall j | 0 <= j < |r|
      ensures r[j].lineNumber.None? ==> r[j].description == MISSING_ID || r[j].description == MISSING_VARIABLE
      ensures r[j].severity == Information ==> r[j].description == SNIPPET_INCLUDE
    {
      if j < |table| {
        assert r[j] == table[j];
      } else if j < |table| + |metadata| {
        assert r[j] == metadata[j - |table|];
      } else {
        assert r[j] == includes[j - |table| - |metadata|];
      }
    }
  }

  /** `validate` once the file is read: classify it, run the tests of its
      type, and print the reports. A file that cannot be read, or whose
      type cannot be determined, prints nothing. */
  function Validate(fileName: string, baseName: string, read: Result<string>): (out: seq<string>)
    ensures read.Err? ==> out == []
    ensures read.Ok? && DetermineModType(baseName, read.value).None? ==> out == []
    ensures read.Ok? && DetermineModType(baseName, read.value) == Some(Assembly) ==>
      out == ReportIssues(AssemblyTests(read.value), fileName)
    ensures read.Ok? && DetermineModType(baseName, read.value).Some? && DetermineModType(baseName, read.value) != Some(Assembly) ==>
      out == ReportIssues(ModuleTests(read.value), fileName)
  {
    match read
    case Err(_) => []
    case Ok(content) =>
      var modType := DetermineModType(baseName, content);
      var reports :=
        if modType == Some(Assembly) then AssemblyTests(content)
        else if modType.Some? then ModuleTests(content)
        else [];
      ReportIssues(reports, fileName)
  }

  // ---------------------------------------------------------------------
  // Generated files seen by the linter

  /** A file name generated with prefixes classifies back as the type it was
      generated for, unless the content carries the marker of a type that
      comes earlier in the order. Snippets are never recognised. */
  lemma GeneratedNameClassifies(input: Input, content: string)
    requires input.options.filePrefixes
    requires input.modType != Snippet
    requires input.modType == Procedure ==> !Contains(content, ":_module-type: CONCEPT")
    requires input.modType == Reference ==>
      !Contains(content, ":_module-type: CONCEPT") && !Contains(content, ":_module-type: PROCEDURE")
    ensures DetermineModType(FileName(input), content) == Some(input.modType)
  {
    FileNameParts(input);
    PrefixClassifies(input.modType, FileName(input), content);
  }

  lemma PrefixClassifies(t: ContentType, f: string, content: string)
    requires StartsWith(f, Prefix(t))
    requires t != Snippet
    requires t == Procedure ==> !Contains(content, ":_module-type: CONCEPT")
    requires t == Reference ==>
      !Contains(content, ":_module-type: CONCEPT") && !Contains(content, ":_module-type: PROCEDURE")
    ensures DetermineModType(f, content) == Some(t)
  {
    var p := Prefix(t);
    assert f[..|p|] == p;
    assert f[0] == p[0];
    match t
    case Assembly =>
      assert f[..9] == "assembly_";
    case Concept =>
      assert f[..3] == p[..3] == "con";
    case Procedure =>
      assert f[..4] == p[..4] == "proc";
    case Reference =>
      assert f[..3] == p[..3] == "ref";
  }

  /** The include statement generated for a module is a line that
      includes an `.adoc` file. */
  lemma GeneratedIncludeMatches(input: Input, components: seq<string>)
    ensures Matches(AnyInclude, IncludeStatement(input, components))
  {
    FileNameParts(input);
    StatementMatches(IncludeDir(input.modType, components), FileName(input));
  }

  lemma StatementMatches(d: string, f: string)
    requires EndsWith(f, ".adoc")
    ensures Matches(AnyInclude, IncludeLine(d, f))
    ensures HasAt(IncludeLine(d, f), 9 + |d| + 1 + |f| - 5, ".adoc")
  {
    var s := IncludeLine(d, f);
    var at := 9 + |d| + 1 + |f| - 5;
    assert s[..9] == "include::";
    assert s[at..at + 5] == f[|f| - 5..];
    assert HasAt(s, at, ".adoc");
  }

  /** The include statement generated for a snippet with file prefixes is one
      the linter accepts in a module: it is reported as Information. */
  lemma GeneratedSnippetIncludeAccepted(input: Input, components: seq<string>)
    requires input.modType == Snippet && input.options.filePrefixes
    ensures IncludeVerdict(IncludeStatement(input, components)) == Some((SNIPPET_INCLUDE, Information))
  {
    FileNameParts(input);
    SnippetStatementAccepted(IncludeDir(input.modType, components), FileName(input));
  }

  lemma SnippetStatementAccepted(d: string, f: string)
    requires StartsWith(f, "snip_") && EndsWith(f, ".adoc") && |f| >= 10
    ensures IncludeVerdict(IncludeLine(d, f)) == Some((SNIPPET_INCLUDE, Information))
  {
    var s := IncludeLine(d, f);
    StatementMatches(d, f);
    var m := IncludeMatch(s);
    var slash := 9 + |d|;
    var at := slash + 1 + |f| - 5;
    assert s[slash..slash + 6] == "/" + f[..5];
    assert HasAt(s, slash, "/snip_");
    IncludeMatchReaches(s, at);
    assert m == s[..|m|];
    assert m[slash..slash + 6] == s[slash..slash + 6];
    assert m[at..at + 5] == s[at..at + 5];
    assert SnippetPartEndsAt(m, slash + 6);
    assert HasAt(m, at, ".adoc");
    assert OccursFrom(m, ".adoc", slash + 6);
    assert SnippetInclude(m);
  }

  /** The greedy match runs at least to the end of every `.adoc` of the line. */
  lemma IncludeMatchReaches(line: string, at: nat)
    requires Matches(AnyInclude, line) && HasAt(line, at, ".adoc")
    ensures at + 5 <= |IncludeMatch(line)|
  {
    var last := LastAt(line, ".adoc", |line|);
    assert at <= last;
  }
}
