/** The regular expressions the linter uses, each written out by hand as a
    predicate on one line of text (a line never contains `'\n'`, so the regex
    `.` matches any of its characters). The predicates follow Rust `regex`
    semantics for `Regex::find`: a pattern matches a line when some substring
    of the line, respecting the `^` anchor, is in the pattern's language. */
module Patterns {
  import opened Text

  /** Rust regex `\s`: the Unicode White_Space property. */
  predicate IsSpace(c: char) {
    var n := c as int;
    || 0x09 <= n <= 0x0D
    || n == 0x20
    || n == 0x85
    || n == 0xA0
    || n == 0x1680
    || 0x2000 <= n <= 0x200A
    || n == 0x2028
    || n == 0x2029
    || n == 0x202F
    || n == 0x205F
    || n == 0x3000
  }

  /** The end of the run of `\s` characters that starts at `i`: what a greedy
      `\s*` consumes from `i`. */
  function SkipSpaces(s: string, i: nat): (j: nat)
    requires i <= |s|
    ensures i <= j <= |s|
    ensures forall k | i <= k < j :: IsSpace(s[k])
    ensures j == |s| || !IsSpace(s[j])
    decreases |s| - i
  {
    if i < |s| && IsSpace(s[i]) then SkipSpaces(s, i + 1) else i
  }

  /** `open`, then one or more non-`\s` characters, then `close`, with `open`
      at index `p` and `close` at index `q`: the `\[\[\S+\]\]` and `\{\S+\}`
      fragments of the title patterns. */
  predicate Enclosed(s: string, p: int, q: int, open: string, close: string) {
    && HasAt(s, p, open)
    && HasAt(s, q, close)
    && p + |open| < q
    && forall k | p + |open| <= k < q :: !IsSpace(s[k])
  }

  /** The patterns of validation.rs. */
  datatype Pattern =
    | NestedAssemblyInclude      // ^include::.*assembly[_-].*\.adoc
    | LevelOffset                // ^:leveloffset:\s*\+\d*
    | DotAdditionalResources     // ^\.Additional resources
    | HeadingAdditionalResources // ^==\s*Additional resources
    | TitleInlineAnchor          // ^=\s+.*\[\[\S+\]\].*
    | TitleAttribute             // ^=\s+.*\{\S+\}.*
    | ModuleTypeVariable         // :_module-type:\s*(?:PROCEDURE|CONCEPT|REFERENCE)
    | ModuleId                   // ^\[id=
    | AnyInclude                 // ^include::.*\.adoc

  /** `assembly_` or `assembly-` at index `i`. */
  predicate AssemblyWordAt(line: string, i: int) {
    HasAt(line, i, "assembly_") || HasAt(line, i, "assembly-")
  }

  /** `:_module-type:`, optional white space and a module type name at index `i`. */
  predicate TypeVariableAt(line: string, i: int) {
    && HasAt(line, i, ":_module-type:")
    && var j := SkipSpaces(line, i + 14);
       HasAt(line, j, "PROCEDURE") || HasAt(line, j, "CONCEPT") || HasAt(line, j, "REFERENCE")
  }

  /** The line starts with `=`, then at least one white-space character:
      the `^=\s+` part of both title patterns. */
  predicate TitleStart(line: string) {
    |line| >= 2 && line[0] == '=' && IsSpace(line[1])
  }

  predicate Matches(p: Pattern, line: string) {
    match p
    case NestedAssemblyInclude =>
      && StartsWith(line, "include::")
      && exists i | 9 <= i <= |line| :: AssemblyWordAt(line, i) && OccursFrom(line, ".adoc", i + 9)
    case LevelOffset =>
      && StartsWith(line, ":leveloffset:")
      && var j := SkipSpaces(line, 13); j < |line| && line[j] == '+'
    case DotAdditionalResources =>
      StartsWith(line, ".Additional resources")
    case HeadingAdditionalResources =>
      && StartsWith(line, "==")
      && HasAt(line, SkipSpaces(line, 2), "Additional resources")
    case TitleInlineAnchor =>
      && TitleStart(line)
      && exists p, q | 2 <= p <= q <= |line| :: Enclosed(line, p, q, "[[", "]]")
    case TitleAttribute =>
      && TitleStart(line)
      && exists p, q | 2 <= p <= q <= |line| :: Enclosed(line, p, q, "{", "}")
    case ModuleTypeVariable =>
      exists i | 0 <= i <= |line| :: TypeVariableAt(line, i)
    case ModuleId =>
      StartsWith(line, "[id=")
    case AnyInclude =>
      StartsWith(line, "include::") && OccursFrom(line, ".adoc", 9)
  }

  /** The greatest index `i <= k` at which `w` occurs in `s`, or -1. */
  function LastAt(s: string, w: string, k: int): (r: int)
    requires k >= -1
    ensures -1 <= r <= k
    ensures r >= 0 ==> HasAt(s, r, w)
    ensures forall i | r < i <= k :: !HasAt(s, i, w)
    decreases k
  {
    if k == -1 then -1
    else if HasAt(s, k, w) then k
    else LastAt(s, w, k - 1)
  }

  /** The text `^include::.*\.adoc` finds in a line: with a greedy `.*` it
      runs up to the end of the last `.adoc`. */
  function IncludeMatch(line: string): (m: string)
    requires Matches(AnyInclude, line)
    ensures StartsWith(line, m) && EndsWith(m, ".adoc") && StartsWith(m, "include::")
    ensures |m| >= 14
  {
    var last := LastAt(line, ".adoc", |line|);
    assert last >= 9;
    line[..last + 5]
  }

  // The `((snip|.*/snip)[_-]|common-content/)` group of the snippet pattern,
  // starting at index 9 and ending just before index `j`.
  predicate SnippetPartEndsAt(s: string, j: int) {
    || (j == 14 && (HasAt(s, 9, "snip_") || HasAt(s, 9, "snip-")))
    || (j >= 15 && (HasAt(s, j - 6, "/snip_") || HasAt(s, j - 6, "/snip-")))
    || (j == 24 && HasAt(s, 9, "common-content/"))
  }

  // ^include::((snip|.*/snip)[_-]|common-content/).*\.adoc
  predicate SnippetInclude(s: string) {
    && StartsWith(s, "include::")
    && exists j | 9 <= j <= |s| :: SnippetPartEndsAt(s, j) && OccursFrom(s, ".adoc", j)
  }
}
