/** The naming logic of src/module.rs: the ID derived from a title, file
    names and anchors with their type prefixes, and include statements whose
    directory is found among the components of the target path. */
module Modules {
  import opened Common
  import opened Text
  import opened Config

  /** All possible types of the AsciiDoc module. */
  datatype ContentType = Assembly | Concept | Procedure | Reference | Snippet

  /** The human-readable name `Display` prints for a type. */
  function TypeName(t: ContentType): string {
    match t
    case Assembly => "assembly"
    case Concept => "concept"
    case Procedure => "procedure"
    case Reference => "reference"
    case Snippet => "snippet"
  }

  /** The user's request for one module, before anything is derived from it. */
  datatype Input = Input(
    modType: ContentType,
    title: string,
    options: Options,
    includes: Option<seq<string>>)

  /** `Input::new`: a module that includes nothing. */
  function NewInput(modType: ContentType, title: string, options: Options): Input {
    Input(modType, title, options, None)
  }

  /** `Input::include`: attach the include statements of a populated assembly. */
  function WithIncludes(input: Input, statements: seq<string>): Input {
    input.(includes := Some(statements))
  }

  predicate IsUpper(c: char) {
    'A' <= c <= 'Z'
  }

  predicate IsAsciiAlphanumeric(c: char) {
    'a' <= c <= 'z' || 'A' <= c <= 'Z' || '0' <= c <= '9'
  }

  /** The characters an ID may contain. */
  predicate IsIdChar(c: char) {
    'a' <= c <= 'z' || '0' <= c <= '9' || c == '-'
  }

  /** The ASCII part of `to_lowercase`. */
  function LowerAscii(s: string): (r: string)
    ensures |r| == |s|
    ensures forall c | c in r :: !IsUpper(c)
    ensures forall k | 0 <= k < |s| :: !IsUpper(s[k]) ==> r[k] == s[k]
    ensures forall k | 0 <= k < |s| :: IsUpper(s[k]) ==> r[k] == (s[k] as int + 32) as char
  {
    seq(|s|, k requires 0 <= k < |s| =>
      if IsUpper(s[k]) then (s[k] as int - 'A' as int + 'a' as int) as char else s[k])
  }

  /** The replacements `Input::id` performs, in order. Semantic markup such
      as `[command]` comes before the bare brackets so it is removed whole. */
  const SUBSTITUTIONS: seq<(string, string)> := [
    (" ", "-"), ("(", ""), (")", ""), ("?", ""), ("!", ""), ("'", ""), ("\"", ""),
    ("#", ""), ("%", ""), ("&", ""), ("*", ""), (",", "-"), (".", "-"), ("/", "-"),
    (":", "-"), (";", ""), ("@", "-at-"), ("\\", ""), ("`", ""), ("$", ""), ("^", ""),
    ("|", ""), ("=", "-"),
    ("[package]", ""), ("[option]", ""), ("[parameter]", ""), ("[variable]", ""),
    ("[command]", ""), ("[replaceable]", ""), ("[filename]", ""), ("[literal]", ""),
    ("[systemitem]", ""), ("[application]", ""), ("[function]", ""), ("[gui]", ""),
    ("[", ""), ("]", ""),
    ("{", ""), ("}", "")
  ]

  /** Every pattern is non-empty and starts with a character no ID contains;
      no replacement text holds an upper-case letter. */
  predicate WellFormedSubstitutions(subs: seq<(string, string)>) {
    forall k | 0 <= k < |subs| ::
      && |subs[k].0| > 0
      && !IsIdChar(subs[k].0[0])
      && forall c | c in subs[k].1 :: !IsUpper(c)
  }

  lemma SubstitutionsWellFormed()
    ensures WellFormedSubstitutions(SUBSTITUTIONS)
  {
    var subs := SUBSTITUTIONS;
    assert forall k | 0 <= k < 23 :: |subs[k].0| == 1 && !IsIdChar(subs[k].0[0]) && forall c | c in subs[k].1 :: !IsUpper(c);
    assert forall k | 23 <= k < |subs| :: |subs[k].0| > 0 && subs[k].0[0] in "[]{}" && subs[k].1 == "";
  }

  /** Every replacement text is made of ID characters. */
  predicate IdReplacements(subs: seq<(string, string)>) {
    forall k | 0 <= k < |subs| :: forall c | c in subs[k].1 :: IsIdChar(c)
  }

  /** The replacement texts of the table are `-`, `-at-` and the empty text. */
  lemma ReplacementsAreIds()
    ensures IdReplacements(SUBSTITUTIONS)
  {
    var subs := SUBSTITUTIONS;
    assert forall k | 0 <= k < |subs| :: subs[k].1 in ["-", "", "-at-"];
  }

  /** Perform the replacements `subs[k..]` one after the other on the whole text. */
  function ApplySubstitutions(s: string, subs: seq<(string, string)>, k: nat): (r: string)
    requires WellFormedSubstitutions(subs) && k <= |subs|
    ensures (forall c | c in s :: !IsUpper(c)) ==> forall c | c in r :: !IsUpper(c)
    decreases |subs| - k
  {
    if k == |subs| then s
    else
      ReplaceChars(s, subs[k].0, subs[k].1);
      ApplySubstitutions(Replace(s, subs[k].0, subs[k].1), subs, k + 1)
  }

  /** The replacements do happen: after `subs[k..]`, no character matched by
      a one-character pattern survives, and the only characters brought in
      are ID characters. */
  lemma {:induction false} SubstitutionsApplied(s: string, subs: seq<(string, string)>, k: nat)
    requires WellFormedSubstitutions(subs) && IdReplacements(subs) && k <= |subs|
    ensures var r := ApplySubstitutions(s, subs, k);
      && (forall j | k <= j < |subs| && |subs[j].0| == 1 :: subs[j].0[0] !in r)
      && (forall c | c in r :: c in s || IsIdChar(c))
    decreases |subs| - k
  {
    if k < |subs| {
      var t := Replace(s, subs[k].0, subs[k].1);
      SubstitutionStep(s, subs, k);
      SubstitutionsApplied(t, subs, k + 1);
    }
  }

  /** Nothing else is lost: a character that occurs in no pattern of
      `subs[k..]` occurs in the result at least as often as in the text. */
  lemma {:induction false} SubstitutionsKeep(s: string, subs: seq<(string, string)>, k: nat, c: char)
    requires WellFormedSubstitutions(subs) && k <= |subs|
    requires forall j | k <= j < |subs| :: c !in subs[j].0
    ensures multiset(s)[c] <= multiset(ApplySubstitutions(s, subs, k))[c]
    decreases |subs| - k
  {
    if k < |subs| {
      var t := Replace(s, subs[k].0, subs[k].1);
      ReplaceKeeps(s, subs[k].0, subs[k].1, c);
      SubstitutionsKeep(t, subs, k + 1, c);
    }
  }

  /** One replacement brings in only ID characters, and a one-character
      pattern leaves none of its character behind. */
  lemma SubstitutionStep(s: string, subs: seq<(string, string)>, k: nat)
    requires WellFormedSubstitutions(subs) && IdReplacements(subs) && k < |subs|
    ensures forall c | c in Replace(s, subs[k].0, subs[k].1) :: c in s || IsIdChar(c)
    ensures |subs[k].0| == 1 ==> subs[k].0[0] !in Replace(s, subs[k].0, subs[k].1)
  {
    ReplaceChars(s, subs[k].0, subs[k].1);
    if |subs[k].0| == 1 {
      ReplaceRemoves(s, subs[k].0[0], subs[k].1);
      assert [subs[k].0[0]] == subs[k].0;
    }
  }

  /** Replacing a single character by text without it leaves none of it. */
  lemma {:induction false} ReplaceRemoves(s: string, c: char, rep: string)
    requires c !in rep
    ensures c !in Replace(s, [c], rep)
    decreases |s|
  {
    if |s| >= 1 {
      if s[..1] == [c] {
        ReplaceRemoves(s[1..], c, rep);
      } else {
        assert s[0] != c;
        ReplaceRemoves(s[1..], c, rep);
      }
    }
  }

  /** Replace every character that is not ASCII alphanumeric with a dash. */
  function DashNonAlphanumeric(s: string): (r: string)
    ensures |r| == |s|
    ensures forall k | 0 <= k < |r| :: r[k] == s[k] || r[k] == '-'
    ensures forall k | 0 <= k < |s| :: IsAsciiAlphanumeric(s[k]) ==> r[k] == s[k]
    ensures forall k | 0 <= k < |s| :: !IsAsciiAlphanumeric(s[k]) ==> r[k] == '-'
    ensures forall c | c in r :: IsAsciiAlphanumeric(c) || c == '-'
  {
    seq(|s|, k requires 0 <= k < |s| => if IsAsciiAlphanumeric(s[k]) then s[k] else '-')
  }

  /** A string of ID characters without a double dash and without a trailing dash. */
  predicate IsIdShaped(s: string) {
    && (forall c | c in s :: IsIdChar(c))
    && !Contains(s, "--")
    && !EndsWith(s, "-")
  }

  /** Dropping the last character of a text without `--` that ends with a dash
      leaves a text without `--` that does not end with a dash. */
  lemma DropTrailingDash(t: string)
    requires !Contains(t, "--") && EndsWith(t, "-")
    ensures !Contains(t[..|t| - 1], "--") && !EndsWith(t[..|t| - 1], "-")
  {
    var u := t[..|t| - 1];
    forall i | 0 <= i <= |u|
      ensures !HasAt(u, i, "--")
    {
      if HasAt(u, i, "--") {
        assert t[i..i + 2] == u[i..i + 2];
        assert HasAt(t, i, "--");
      }
    }
    if |u| >= 1 && u[|u| - 1] == '-' {
      assert t[|t| - 2..|t|] == "--";
      assert HasAt(t, |t| - 2, "--");
    }
  }

  /** Every character of the dashed text is an ID character when the text
      it came from had no upper-case letter. */
  lemma DashedIdChars(s: string)
    requires forall c | c in s :: !IsUpper(c)
    ensures forall c | c in DashNonAlphanumeric(s) :: IsIdChar(c)
  {
    var r := DashNonAlphanumeric(s);
    forall k | 0 <= k < |r|
      ensures IsIdChar(r[k])
    {
      assert r[k] in r;
      if r[k] != '-' {
        assert r[k] == s[k] && s[k] in s;
      }
    }
  }

  /** The steps of `Input::id` after the replacements: collapse dashes and
      drop one trailing dash. Only dashes are lost: every other character
      stays, in order. */
  function TidyDashes(dashed: string): (r: string)
    requires forall c | c in dashed :: IsIdChar(c)
    ensures IsIdShaped(r)
    ensures Without(r, '-') == Without(dashed, '-')
  {
    var single := Squeeze(dashed, "--", "-");
    SqueezeChars(dashed, "--", "-");
    SqueezeWithout(dashed, "--", "-", '-');
    if EndsWith(single, "-") then
      DropTrailingDash(single);
      var u := single[..|single| - 1];
      assert forall c | c in u :: c in single;
      assert single == u + "-";
      WithoutConcat(u, "-", '-');
      u
    else single
  }

  /** `Input::id`: the ID derived from the title. It contains only lower-case
      ASCII letters, digits and dashes, never two dashes in a row, and does
      not end with a dash; apart from dashes, it is the replaced title. */
  function Id(title: string): (r: string)
    ensures IsIdShaped(r)
    ensures Without(r, '-') == Without(Replaced(title), '-')
  {
    TidyDashes(Replaced(title))
  }

  /** The steps of `Input::id` up to the tidying of dashes: lower-case the
      title, perform the replacements, and turn what is left that is not
      ASCII alphanumeric into dashes. */
  function Replaced(title: string): (r: string)
    ensures forall c | c in r :: IsIdChar(c)
  {
    SubstitutionsWellFormed();
    var replaced := ApplySubstitutions(LowerAscii(title), SUBSTITUTIONS, 0);
    DashedIdChars(replaced);
    DashNonAlphanumeric(replaced)
  }

  /** A replacement whose pattern starts with a character absent from `s` changes nothing. */
  lemma ReplaceMissingFirst(s: string, pat: string, rep: string)
    requires |pat| > 0 && pat[0] !in s
    ensures Replace(s, pat, rep) == s
  {
    forall i | 0 <= i <= |s|
      ensures !HasAt(s, i, pat)
    {
      if i + |pat| <= |s| {
        assert s[i] in s;
        assert s[i..i + |pat|][0] == s[i];
      }
    }
    ReplaceAbsent(s, pat, rep);
  }

  lemma {:induction false} SubstitutionsKeepIds(s: string, subs: seq<(string, string)>, k: nat)
    requires WellFormedSubstitutions(subs) && k <= |subs|
    requires forall c | c in s :: IsIdChar(c)
    ensures ApplySubstitutions(s, subs, k) == s
    decreases |subs| - k
  {
    if k < |subs| {
      assert subs[k].0[0] !in s;
      ReplaceMissingFirst(s, subs[k].0, subs[k].1);
      SubstitutionsKeepIds(s, subs, k + 1);
    }
  }

  /** IDs are exactly the fixed points of `Id`: deriving an ID from an ID gives
      it back, and any text `Id` leaves unchanged is ID-shaped. */
  lemma IdFixedPoints(s: string)
    ensures Id(s) == s <==> IsIdShaped(s)
  {
    if IsIdShaped(s) {
      ReplacedKeepsIds(s);
      assert Squeeze(s, "--", "-") == s;
    }
  }

  lemma ReplacedKeepsIds(s: string)
    requires forall c | c in s :: IsIdChar(c)
    ensures Replaced(s) == s
  {
    SubstitutionsWellFormed();
    LowerKeepsIds(s);
    SubstitutionsKeepIds(s, SUBSTITUTIONS, 0);
    DashKeepsIds(s);
  }

  lemma LowerKeepsIds(s: string)
    requires forall c | c in s :: IsIdChar(c)
    ensures LowerAscii(s) == s
  {
    forall k | 0 <= k < |s|
      ensures IsIdChar(s[k])
    {
      assert s[k] in s;
    }
  }

  lemma DashKeepsIds(s: string)
    requires forall c | c in s :: IsIdChar(c)
    ensures DashNonAlphanumeric(s) == s
  {
    forall k | 0 <= k < |s|
      ensures IsIdChar(s[k])
    {
      assert s[k] in s;
    }
  }

  /** Deriving the ID twice is the same as deriving it once. */
  lemma IdIdempotent(title: string)
    ensures Id(Id(title)) == Id(title)
  {
    IdFixedPoints(Id(title));
  }

  /** `Input::prefix`: the file and anchor prefix of each type. */
  function Prefix(t: ContentType): string {
    match t
    case Assembly => "assembly_"
    case Concept => "con_"
    case Procedure => "proc_"
    case Reference => "ref_"
    case Snippet => "snip_"
  }

  /** `Input::file_name` */
  function FileName(input: Input): string {
    (if input.options.filePrefixes then Prefix(input.modType) else "") + Id(input.title) + ".adoc"
  }

  /** `Input::anchor` */
  function Anchor(input: Input): string {
    (if input.options.anchorPrefixes then Prefix(input.modType) else "") + Id(input.title)
  }

  /** The prefixes are pairwise different and none is a prefix of another,
      so the prefix of a file name tells its type. */
  lemma PrefixesDistinguishTypes(t: ContentType, u: ContentType, s: string)
    requires StartsWith(s, Prefix(t)) && StartsWith(s, Prefix(u))
    ensures t == u
  {
    assert Prefix(t)[0] == s[0] == Prefix(u)[0];
  }

  /** The file name splits back into the prefix, the ID and `.adoc`, and an
      anchor is a file name without its extension when both use prefixes
      alike. */
  lemma FileNameParts(input: Input)
    ensures var f := FileName(input); var p := if input.options.filePrefixes then Prefix(input.modType) else "";
      && StartsWith(f, p) && EndsWith(f, ".adoc")
      && f[|p|..|f| - 5] == Id(input.title)
    ensures input.options.filePrefixes == input.options.anchorPrefixes ==>
      FileName(input) == Anchor(input) + ".adoc"
  {
    var f := FileName(input);
    var p := if input.options.filePrefixes then Prefix(input.modType) else "";
    assert f == p + Id(input.title) + ".adoc";
    assert f[|p|..|f| - 5] == Id(input.title);
  }

  /** The first directory of an include path for each type. */
  function IncludeRoot(t: ContentType): string {
    match t
    case Assembly => "assemblies"
    case Snippet => "snippets"
    case _ => "modules"
  }

  /** `rposition`: the last index at which `x` occurs in `xs`, or -1. */
  function LastPosition(xs: seq<string>, x: string): (r: int)
    ensures -1 <= r < |xs|
    ensures r >= 0 ==> xs[r] == x
    ensures forall k | r < k < |xs| :: xs[k] != x
    ensures r == -1 <==> x !in xs
  {
    if |xs| == 0 then -1
    else if xs[|xs| - 1] == x then |xs| - 1
    else LastPosition(xs[..|xs| - 1], x)
  }

  /** `Input::infer_include_dir`, given the components of the target path:
      the components from the last one that equals the type's include root
      to the end, or nothing when the root does not occur. */
  function InferIncludeDir(t: ContentType, components: seq<string>): (r: Option<seq<string>>)
    ensures r.None? <==> IncludeRoot(t) !in components
    ensures r.Some? ==>
      && 0 < |r.value| <= |components|
      && r.value == components[|components| - |r.value|..]
      && r.value[0] == IncludeRoot(t)
      && IncludeRoot(t) !in r.value[1..]
  {
    var position := LastPosition(components, IncludeRoot(t));
    if position >= 0 then Some(components[position..]) else None
  }

  /** The directory the include statement names: the inferred path, or the
      placeholder `<path>`. */
  function IncludeDir(t: ContentType, components: seq<string>): string {
    match InferIncludeDir(t, components)
    case Some(path) => Join(path, "/")
    case None => "<path>"
  }

  /** The AsciiDoc include directive for file `fileName` in directory `dir`,
      one level down. */
  function IncludeLine(dir: string, fileName: string): string {
    "include::" + dir + "/" + fileName + "[leveloffset=+1]"
  }

  /** `Input::include_statement` */
  function IncludeStatement(input: Input, components: seq<string>): string {
    IncludeLine(IncludeDir(input.modType, components), FileName(input))
  }

  /** The include statement consists of `include::`, the directory, a slash,
      the file name and the level offset, in that order. */
  lemma IncludeStatementParts(input: Input, components: seq<string>)
    ensures var s := IncludeStatement(input, components); var d := IncludeDir(input.modType, components);
      && StartsWith(s, "include::" + d + "/")
      && EndsWith(s, FileName(input) + "[leveloffset=+1]")
      && |s| == 9 + |d| + 1 + |FileName(input)| + 16
  {
    var d := IncludeDir(input.modType, components);
    var f := FileName(input);
    var head := "include::" + d + "/";
    var tail := f + "[leveloffset=+1]";
    var s := IncludeStatement(input, components);
    assert s == head + tail;
    ConcatParts(head, tail);
  }

  lemma ConcatParts(a: string, b: string)
    ensures StartsWith(a + b, a) && EndsWith(a + b, b)
  {
    assert (a + b)[..|a|] == a;
    assert (a + b)[|a + b| - |b|..] == b;
  }
}
