/** The planning part of `run` in src/lib.rs: which modules are generated,
    in which order, what the populated assembly includes, and which files
    are linted. Writing files, logging and resolving the target directory
    are left to the caller: `components` are the components of the
    canonical target directory, `render` and `strip` are the template
    engine and the comment stripping, and `read` and `baseName` stand for
    reading a file and taking the last component of its path. */
module Runner {
  import opened Common
  import opened Text
  import opened CmdLine
  import opened Config
  import opened Modules
  import opened Templating
  import opened Validation

  /** The argument names `process_module_type` accepts. */
  predicate IsTypeArgument(s: string) {
    s == "assembly" || s == "include-in" || s == "concept" ||
    s == "procedure" || s == "reference" || s == "snippet"
  }

  /** The type an argument name stands for. Any other name is unreachable in
      the source, so it is excluded by the precondition. */
  function TypeOfArgument(s: string): (t: ContentType)
    requires IsTypeArgument(s)
    ensures s == "include-in" ==> t == Assembly
    ensures s != "include-in" ==> TypeName(t) == s
  {
    if s == "assembly" || s == "include-in" then Assembly
    else if s == "concept" then Concept
    else if s == "procedure" then Procedure
    else if s == "reference" then Reference
    else Snippet
  }

  /** Every type's printed name is an argument name that maps back to it. */
  lemma TypeOfArgumentRoundTrip(t: ContentType)
    ensures IsTypeArgument(TypeName(t)) && TypeOfArgument(TypeName(t)) == t
  {
  }

  /** `process_module_type`: one module per title, in title order, all of
      the argument's type and none populated. */
  function ProcessModuleType(titles: seq<string>, typeArgument: string, options: Options, components: seq<string>,
                             render: Fields -> string, strip: string -> string): (r: seq<Module>)
    requires IsTypeArgument(typeArgument)
    ensures ModulesFor(r, titles, TypeOfArgument(typeArgument))
    ensures forall i | 0 <= i < |r| ::
      && r[i].fileName == FileName(NewInput(r[i].modType, titles[i], options))
      && r[i].includeStatement == IncludeStatement(NewInput(r[i].modType, titles[i], options), components)
  {
    var t := TypeOfArgument(typeArgument);
    seq(|titles|, i requires 0 <= i < |titles| => NewModule(t, titles[i], options, components, render, strip))
  }

  /** One non-populated module of type `t` per title, in title order. */
  predicate ModulesFor(modules: seq<Module>, titles: seq<string>, t: ContentType) {
    && |modules| == |titles|
    && forall i | 0 <= i < |modules| ::
         modules[i].title == titles[i] && modules[i].modType == t && modules[i].includes.None?
  }

  /** The type arguments `run` visits, in order. */
  const TYPE_ORDER: seq<string> := ["assembly", "concept", "procedure", "reference", "snippet"]

  /** The position of a type in `TYPE_ORDER`. */
  function Rank(t: ContentType): (n: nat)
    ensures n < |TYPE_ORDER| && TYPE_ORDER[n] == TypeName(t)
  {
    match t
    case Assembly => 0
    case Concept => 1
    case Procedure => 2
    case Reference => 3
    case Snippet => 4
  }

  /** The titles the action lists for a type argument of `TYPE_ORDER`. */
  function TitlesOf(action: Action, typeArgument: string): seq<string> {
    match typeArgument
    case "assembly" => action.assembly
    case "concept" => action.concept
    case "procedure" => action.procedure
    case "reference" => action.reference
    case _ => action.snippet
  }

  /** The titles of type `t` in a module list, in order. */
  function TitlesOfType(modules: seq<Module>, t: ContentType): (r: seq<string>)
    ensures |r| <= |modules|
  {
    if |modules| == 0 then []
    else (if modules[0].modType == t then [modules[0].title] else []) + TitlesOfType(modules[1..], t)
  }

  lemma {:induction false} TitlesOfTypeConcat(a: seq<Module>, b: seq<Module>, t: ContentType)
    ensures TitlesOfType(a + b, t) == TitlesOfType(a, t) + TitlesOfType(b, t)
    decreases |a|
  {
    if |a| > 0 {
      assert (a + b)[1..] == a[1..] + b;
      TitlesOfTypeConcat(a[1..], b, t);
    } else {
      assert a + b == b;
    }
  }

  /** In a list of modules of one type, the titles of that type are all the
      titles, and there are none of any other type. */
  lemma {:induction false} TitlesOfOneType(modules: seq<Module>, u: ContentType, t: ContentType)
    requires forall i | 0 <= i < |modules| :: modules[i].modType == u
    ensures TitlesOfType(modules, t) ==
      if t == u then seq(|modules|, i requires 0 <= i < |modules| => modules[i].title) else []
    decreases |modules|
  {
    if |modules| > 0 {
      TitlesOfOneType(modules[1..], u, t);
    }
  }

  /** The modules are grouped by type, in the order of `TYPE_ORDER`. */
  predicate InTypeOrder(modules: seq<Module>) {
    forall i, j | 0 <= i < j < |modules| :: Rank(modules[i].modType) <= Rank(modules[j].modType)
  }

  /** The loop of `run` over `TYPE_ORDER[k..]`: the non-populated modules. */
  function ProcessTypes(action: Action, options: Options, components: seq<string>,
                        render: Fields -> string, strip: string -> string, k: nat): (r: seq<Module>)
    requires k <= |TYPE_ORDER|
    ensures forall i | 0 <= i < |r| :: Rank(r[i].modType) >= k && r[i].includes.None?
    ensures InTypeOrder(r)
    ensures forall t: ContentType ::
      TitlesOfType(r, t) == if Rank(t) >= k then TitlesOf(action, TypeName(t)) else []
    decreases |TYPE_ORDER| - k
  {
    if k == |TYPE_ORDER| then []
    else
      var arg := TYPE_ORDER[k];
      var titles := TitlesOf(action, arg);
      var here := ProcessModuleType(titles, arg, options, components, render, strip);
      var rest := ProcessTypes(action, options, components, render, strip, k + 1);
      ProcessTypesStep(action, k, titles, here, rest);
      here + rest
  }

  lemma ProcessTypesStep(action: Action, k: nat, titles: seq<string>, here: seq<Module>, rest: seq<Module>)
    requires k < |TYPE_ORDER| && titles == TitlesOf(action, TYPE_ORDER[k])
    requires ModulesFor(here, titles, TypeOfArgument(TYPE_ORDER[k]))
    requires forall i | 0 <= i < |rest| :: Rank(rest[i].modType) >= k + 1 && rest[i].includes.None?
    requires InTypeOrder(rest)
    requires forall t: ContentType ::
      TitlesOfType(rest, t) == if Rank(t) >= k + 1 then TitlesOf(action, TypeName(t)) else []
    ensures InTypeOrder(here + rest)
    ensures forall t: ContentType ::
      TitlesOfType(here + rest, t) == if Rank(t) >= k then TitlesOf(action, TypeName(t)) else []
    ensures forall i | 0 <= i < |here + rest| :: Rank((here + rest)[i].modType) >= k && (here + rest)[i].includes.None?
  {
    var u := TypeOfArgument(TYPE_ORDER[k]);
    assert Rank(u) == k;
    StepOrder(k, u, here, rest);
    forall t: ContentType
      ensures TitlesOfType(here + rest, t) == if Rank(t) >= k then TitlesOf(action, TypeName(t)) else []
    {
      StepTitles(action, k, u, t, titles, here, rest);
    }
  }

  lemma StepOrder(k: nat, u: ContentType, here: seq<Module>, rest: seq<Module>)
    requires Rank(u) == k
    requires forall i | 0 <= i < |here| :: here[i].modType == u && here[i].includes.None?
    requires forall i | 0 <= i < |rest| :: Rank(rest[i].modType) >= k + 1 && rest[i].includes.None?
    requires InTypeOrder(rest)
    ensures InTypeOrder(here + rest)
    ensures forall i | 0 <= i < |here + rest| :: Rank((here + rest)[i].modType) >= k && (here + rest)[i].includes.None?
  {
    var r := here + rest;
    assert forall i | 0 <= i < |here| :: r[i] == here[i];
    assert forall i | |here| <= i < |r| :: r[i] == rest[i - |here|];
    forall i, j | 0 <= i < j < |r|
      ensures Rank(r[i].modType) <= Rank(r[j].modType)
    {
      if j < |here| {
        assert r[i] == here[i] && r[j] == here[j];
      } else if i < |here| {
        assert r[i] == here[i] && r[j] == rest[j - |here|];
      } else {
        assert r[i] == rest[i - |here|] && r[j] == rest[j - |here|];
      }
    }
  }

  lemma StepTitles(action: Action, k: nat, u: ContentType, t: ContentType, titles: seq<string>, here: seq<Module>, rest: seq<Module>)
    requires k < |TYPE_ORDER| && Rank(u) == k && titles == TitlesOf(action, TYPE_ORDER[k])
    requires |here| == |titles|
    requires forall i | 0 <= i < |here| :: here[i].title == titles[i] && here[i].modType == u
    requires TitlesOfType(rest, t) == if Rank(t) >= k + 1 then TitlesOf(action, TypeName(t)) else []
    ensures TitlesOfType(here + rest, t) == if Rank(t) >= k then TitlesOf(action, TypeName(t)) else []
  {
    TitlesOfTypeConcat(here, rest, t);
    TitlesOfOneType(here, u, t);
    if t == u {
      assert seq(|here|, i requires 0 <= i < |here| => here[i].title) == titles;
    }
  }

  /** The include statements of a module list, in order. */
  function IncludeStatements(modules: seq<Module>): (r: seq<string>)
    ensures |r| == |modules|
    ensures forall i | 0 <= i < |r| :: r[i] == modules[i].includeStatement
  {
    seq(|modules|, i requires 0 <= i < |modules| => modules[i].includeStatement)
  }

  /** The error `run` stops with when a populated assembly would include nothing. */
  const NOTHING_TO_INCLUDE: string := "The populated assembly includes no other files."

  /** What `run` does: the modules it writes, in order, the lines the
      linter prints, and the error it stops with, if any. */
  datatype Outcome = Outcome(written: seq<Module>, printed: seq<string>, error: Option<string>)

  /** The lines the linter prints for `files`, one file after the other. */
  function ValidateAll(files: seq<string>, read: string -> Result<string>, baseName: string -> string): seq<string> {
    if |files| == 0 then []
    else Validate(files[0], baseName(files[0]), read(files[0])) + ValidateAll(files[1..], read, baseName)
  }

  /** The end of `run` once the non-populated modules are known: the
      populated assembly, if requested, includes every one of them, and
      nothing to include is an error that stops the run after the other
      modules are written. */
  function Finish(nonPopulated: seq<Module>, includeIn: Option<string>, options: Options,
                  components: seq<string>, render: Fields -> string, strip: string -> string,
                  printed: seq<string>): (r: Outcome)
    ensures |nonPopulated| <= |r.written| <= |nonPopulated| + 1
    ensures r.written[..|nonPopulated|] == nonPopulated
    ensures r.error.Some? <==> includeIn.Some? && nonPopulated == []
    ensures r.error.Some? ==> r.error.value == NOTHING_TO_INCLUDE && r.printed == [] && r.written == []
    ensures r.error.None? ==> r.printed == printed
    ensures |r.written| == |nonPopulated| + 1 <==> r.error.None? && includeIn.Some?
    ensures |r.written| == |nonPopulated| + 1 ==>
      var populated := r.written[|r.written| - 1];
      && populated.modType == Assembly
      && populated.title == includeIn.value
      && populated.includes == Some(IncludeStatements(nonPopulated))
      && |populated.includes.value| > 0
  {
    match includeIn
    case None =>
      assert nonPopulated[..|nonPopulated|] == nonPopulated;
      Outcome(nonPopulated, printed, None)
    case Some(title) =>
      var statements := IncludeStatements(nonPopulated);
      if |statements| == 0 then
        Outcome(nonPopulated, [], Some(NOTHING_TO_INCLUDE))
      else
        var populated := FromInput(WithIncludes(NewInput(Assembly, title, options), statements), components, render, strip);
        var written := nonPopulated + [populated];
        assert written[..|nonPopulated|] == nonPopulated;
        assert written[|written| - 1] == populated;
        Outcome(written, printed, None)
  }

  /** `run`: write the modules of every type in `TYPE_ORDER`, then the
      populated assembly including all of them, then lint the files to
      validate. */
  function Run(action: Action, options: Options, components: seq<string>,
               render: Fields -> string, strip: string -> string, read: string -> Result<string>, baseName: string -> string): (r: Outcome)
    ensures var nonPopulated := ProcessTypes(action, options, components, render, strip, 0);
      && |nonPopulated| <= |r.written| <= |nonPopulated| + 1
      && r.written[..|nonPopulated|] == nonPopulated
      && (r.error.Some? <==> action.includeIn.Some? && nonPopulated == [])
      && (r.error.None? ==> r.printed == ValidateAll(action.validate, read, baseName))
      && (|r.written| == |nonPopulated| + 1 <==> r.error.None? && action.includeIn.Some?)
      && (|r.written| == |nonPopulated| + 1 ==>
            r.written[|r.written| - 1].includes == Some(IncludeStatements(nonPopulated)))
    ensures r.error.Some? ==> r.error.value == NOTHING_TO_INCLUDE && r.printed == [] && r.written == []
  {
    Finish(ProcessTypes(action, options, components, render, strip, 0), action.includeIn, options, components, render, strip,
           ValidateAll(action.validate, read, baseName))
  }

  /** No titles of any type means no modules. */
  predicate NoTitles(action: Action) {
    action.assembly == [] && action.concept == [] && action.procedure == [] &&
    action.reference == [] && action.snippet == []
  }

  /** There are non-populated modules exactly when some title is given. */
  lemma ProcessTypesEmpty(action: Action, options: Options, components: seq<string>,
                          render: Fields -> string, strip: string -> string)
    ensures ProcessTypes(action, options, components, render, strip, 0) == [] <==> NoTitles(action)
  {
    var r := ProcessTypes(action, options, components, render, strip, 0);
    assert forall t: ContentType :: TitlesOfType(r, t) == TitlesOf(action, TypeName(t));
    EmptyIffNoTitles(action, r);
  }

  lemma EmptyIffNoTitles(action: Action, r: seq<Module>)
    requires forall t: ContentType :: TitlesOfType(r, t) == TitlesOf(action, TypeName(t))
    ensures r == [] <==> NoTitles(action)
  {
    if r == [] {
      assert action.assembly == TitlesOfType(r, Assembly);
      assert action.concept == TitlesOfType(r, Concept);
      assert action.procedure == TitlesOfType(r, Procedure);
      assert action.reference == TitlesOfType(r, Reference);
      assert action.snippet == TitlesOfType(r, Snippet);
    } else {
      var t := r[0].modType;
      assert TitlesOfType(r, t) == [r[0].title] + TitlesOfType(r[1..], t);
      assert TitlesOf(action, TypeName(t)) != [];
    }
  }

  /** A populated assembly fails exactly when no title of any type is given. */
  lemma NothingToIncludeError(action: Action, options: Options, components: seq<string>,
                              render: Fields -> string, strip: string -> string, read: string -> Result<string>, baseName: string -> string)
    ensures Run(action, options, components, render, strip, read, baseName).error.Some? <==>
      action.includeIn.Some? && NoTitles(action)
  {
    ProcessTypesEmpty(action, options, components, render, strip);
  }
}
