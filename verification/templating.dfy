/** The text of a generated module, after src/templating.rs: the values handed
    to the template of each type, the block of include statements of a
    populated assembly, and the clean-up that follows rendering. The template
    engine and the comment-stripping regular expressions are parameters. */
module Templating {
  import opened Common
  import opened Text
  import opened Config
  import opened Modules

  /** The source demands a non-empty include list: a populated assembly
      always includes something. */
  predicate IncludesNonEmpty(input: Input) {
    input.includes.Some? ==> |input.includes.value| > 0
  }

  /** A list of lines with an empty line between each two neighbours. */
  function Spaced(xs: seq<string>): (r: seq<string>)
    ensures |xs| == 0 ==> r == []
    ensures |xs| > 0 ==> |r| == 2 * |xs| - 1 && r[|r| - 1] == xs[|xs| - 1]
    decreases |xs|
  {
    if |xs| <= 1 then xs else [xs[0], ""] + Spaced(xs[1..])
  }

  /** The even lines of a spaced list are the pieces, the odd ones are empty. */
  lemma {:induction false} SpacedAt(xs: seq<string>, i: nat)
    requires i < |Spaced(xs)|
    ensures Spaced(xs)[i] == if i % 2 == 0 then xs[i / 2] else ""
    decreases i
  {
    if i >= 2 {
      SpacedAt(xs[1..], i - 2);
    }
  }

  /** Joining with a doubled separator is joining the spaced list with the
      separator: a blank line is a newline, an empty line and a newline. */
  lemma {:induction false} JoinSpaced(xs: seq<string>, sep: string)
    ensures Join(xs, sep + sep) == Join(Spaced(xs), sep)
    decreases |xs|
  {
    if |xs| >= 2 {
      var rest := Spaced(xs[1..]);
      JoinSpaced(xs[1..], sep);
      var a := Spaced(xs);
      var b := a[1..];
      assert a[0] == xs[0] && b[0] == [] && b[1..] == rest;
      var x, j := xs[0], Join(rest, sep);
      assert Join(b, sep) == [] + sep + j;
      assert Join(a, sep) == x + sep + ([] + sep + j);
      assert Join(xs, sep + sep) == x + (sep + sep) + j;
    }
  }

  /** `Input::includes_block`: the include statements separated by blank
      lines, or a placeholder when the assembly includes nothing. */
  function IncludesBlock(input: Input): (r: string)
    requires IncludesNonEmpty(input)
    ensures input.includes.None? ==> (r == "" <==> !input.options.examples)
    ensures input.includes.None? && input.options.examples ==> r == "Include modules here."
    ensures input.includes.Some? ==> StartsWith(r, input.includes.value[0])
  {
    match input.includes
    case Some(statements) =>
      var r := Join(statements, "\n\n");
      JoinStarts(statements, "\n\n");
      r
    case None =>
      if input.options.examples then "Include modules here." else ""
  }

  lemma JoinStarts(xs: seq<string>, sep: string)
    requires |xs| >= 1
    ensures StartsWith(Join(xs, sep), xs[0])
  {
    if |xs| >= 2 {
      assert Join(xs, sep) == xs[0] + (sep + Join(xs[1..], sep));
    }
  }

  /** The lines of a blank-line join are the spaced pieces. */
  lemma LinesOfSpacedJoin(xs: seq<string>)
    requires |xs| > 0
    requires forall k | 0 <= k < |xs| :: xs[k] != "" && '\n' !in xs[k]
    ensures Lines(Join(xs, "\n\n")) == Spaced(xs)
  {
    var spaced := Spaced(xs);
    SpacedNoNewline(xs);
    LinesOfJoin(spaced);
    JoinSpaced(xs, "\n");
    assert "\n" + "\n" == "\n\n";
  }

  lemma SpacedNoNewline(xs: seq<string>)
    requires |xs| > 0
    requires forall k | 0 <= k < |xs| :: xs[k] != "" && '\n' !in xs[k]
    ensures IsLineList(Spaced(xs))
  {
    var spaced := Spaced(xs);
    forall i | 0 <= i < |spaced|
      ensures '\n' !in spaced[i]
    {
      SpacedAt(xs, i);
    }
  }

  /** Every include statement of a populated assembly stands on a line of its
      own, and a blank line separates each two of them. */
  lemma IncludesBlockLines(input: Input)
    requires input.includes.Some? && |input.includes.value| > 0
    requires forall k | 0 <= k < |input.includes.value| ::
      input.includes.value[k] != "" && '\n' !in input.includes.value[k]
    ensures var xs := input.includes.value; var lines := Lines(IncludesBlock(input));
      && |lines| == 2 * |xs| - 1
      && (forall k | 0 <= k < |xs| :: lines[2 * k] == xs[k])
      && (forall k | 0 <= k < |xs| - 1 :: lines[2 * k + 1] == "")
  {
    var xs := input.includes.value;
    LinesOfSpacedJoin(xs);
    var spaced := Spaced(xs);
    forall k | 0 <= k < |xs|
      ensures spaced[2 * k] == xs[k]
    {
      SpacedAt(xs, 2 * k);
      assert (2 * k) % 2 == 0 && (2 * k) / 2 == k;
    }
    forall k | 0 <= k < |xs| - 1
      ensures spaced[2 * k + 1] == ""
    {
      SpacedAt(xs, 2 * k + 1);
      assert (2 * k + 1) % 2 == 1;
    }
  }

  /** The values a template receives. Snippets have no anchor, and only
      assemblies receive the include statements. */
  datatype Fields = Fields(
    modType: ContentType,
    anchor: Option<string>,
    title: string,
    includeStatements: Option<string>,
    examples: bool)

  /** The template struct `Input::text` fills in for the input's type. */
  function TemplateFields(input: Input): (f: Fields)
    requires input.modType == Assembly ==> IncludesNonEmpty(input)
    ensures f.modType == input.modType && f.title == input.title
    ensures f.examples == input.options.examples
    ensures f.anchor.Some? <==> input.modType != Snippet
    ensures f.anchor.Some? ==> f.anchor.value == Anchor(input)
    ensures f.includeStatements.Some? <==> input.modType == Assembly
    ensures f.includeStatements.Some? ==> f.includeStatements.value == IncludesBlock(input)
  {
    var anchor := if input.modType == Snippet then None else Some(Anchor(input));
    var includes := if input.modType == Assembly then Some(IncludesBlock(input)) else None;
    Fields(input.modType, anchor, input.title, includes, input.options.examples)
  }

  /** The loop that replaces two blank lines by one until none are left. */
  function CollapseBlankLines(doc: string): (r: string)
    ensures !Contains(r, "\n\n\n")
    ensures |r| <= |doc|
    ensures !Contains(doc, "\n\n\n") ==> r == doc
  {
    Squeeze(doc, "\n\n\n", "\n\n")
  }

  /** Collapsing twice is collapsing once. */
  lemma CollapseIdempotent(doc: string)
    ensures CollapseBlankLines(CollapseBlankLines(doc)) == CollapseBlankLines(doc)
  {
  }

  /** The collapse removes newlines and nothing else: with the newlines taken
      out, the document is unchanged. */
  lemma CollapseKeepsText(doc: string)
    ensures Without(CollapseBlankLines(doc), '\n') == Without(doc, '\n')
  {
    SqueezeWithout(doc, "\n\n\n", "\n\n", '\n');
  }

  /** The tail of `Input::text`: collapse blank lines and end with a blank
      line. Nothing but newlines changes. */
  function FinishText(doc: string): (r: string)
    ensures EndsWith(r, "\n\n")
    ensures !Contains(r[..|r| - 2], "\n\n\n")
    ensures Without(r, '\n') == Without(doc, '\n')
  {
    var body := CollapseBlankLines(doc);
    CollapseKeepsText(doc);
    WithoutConcat(body, "\n\n", '\n');
    assert Without("\n\n", '\n') == [];
    assert (body + "\n\n")[..|body + "\n\n"| - 2] == body;
    body + "\n\n"
  }

  /** `Input::text`: render the template, strip the comments unless the
      options keep them, then finish the text. */
  function RenderText(input: Input, render: Fields -> string, strip: string -> string): (r: string)
    requires input.modType == Assembly ==> IncludesNonEmpty(input)
    ensures EndsWith(r, "\n\n")
    ensures !Contains(r[..|r| - 2], "\n\n\n")
    ensures var doc := render(TemplateFields(input));
      Without(r, '\n') == Without(if input.options.comments then doc else strip(doc), '\n')
  {
    var rendered := render(TemplateFields(input));
    FinishText(if input.options.comments then rendered else strip(rendered))
  }

  /** With comments kept, the comment stripping never runs: the text is the
      collapsed rendering followed by a blank line, whatever `strip` does. */
  lemma RenderTextWithComments(input: Input, render: Fields -> string, strip: string -> string, other: string -> string)
    requires input.modType == Assembly ==> IncludesNonEmpty(input)
    requires input.options.comments
    ensures RenderText(input, render, strip) == RenderText(input, render, other)
    ensures RenderText(input, render, strip) == CollapseBlankLines(render(TemplateFields(input))) + "\n\n"
  {
  }

  /** A rendering without two blank lines in a row only gains the final blank line. */
  lemma RenderTextTail(input: Input, render: Fields -> string, strip: string -> string)
    requires input.modType == Assembly ==> IncludesNonEmpty(input)
    requires var doc := render(TemplateFields(input));
      !Contains(if input.options.comments then doc else strip(doc), "\n\n\n")
    ensures var doc := render(TemplateFields(input));
      RenderText(input, render, strip) == (if input.options.comments then doc else strip(doc)) + "\n\n"
  {
  }

  /** A generated module: everything derived from its input, including the
      rendered text. */
  datatype Module = Module(
    modType: ContentType,
    title: string,
    anchor: string,
    fileName: string,
    includeStatement: string,
    includes: Option<seq<string>>,
    text: string)

  /** `Module::from(input)`, with `components` the components of the target
      directory and `render` and `strip` as in `RenderText`. A module keeps
      its input's type, title and includes, takes its anchor, file name and
      include statement from the input, and its text is the input's rendered
      text, which ends with a blank line. */
  function FromInput(input: Input, components: seq<string>, render: Fields -> string, strip: string -> string): (m: Module)
    requires input.modType == Assembly ==> IncludesNonEmpty(input)
    ensures m.modType == input.modType && m.title == input.title && m.includes == input.includes
    ensures m.anchor == Anchor(input) && m.fileName == FileName(input)
    ensures m.includeStatement == IncludeStatement(input, components)
    ensures m.text == RenderText(input, render, strip)
    ensures EndsWith(m.text, "\n\n")
  {
    Module(input.modType, input.title, Anchor(input), FileName(input),
           IncludeStatement(input, components), input.includes, RenderText(input, render, strip))
  }

  /** `Module::new`: a module that includes nothing. */
  function NewModule(t: ContentType, title: string, options: Options, components: seq<string>,
                     render: Fields -> string, strip: string -> string): (m: Module)
    ensures m.modType == t && m.title == title && m.includes.None?
    ensures m.fileName == FileName(NewInput(t, title, options))
    ensures m.includeStatement == IncludeStatement(NewInput(t, title, options), components)
    ensures m.text == RenderText(NewInput(t, title, options), render, strip)
  {
    FromInput(NewInput(t, title, options), components, render, strip)
  }
}
