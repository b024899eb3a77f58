/** The parsed command line of src/cmd_line.rs: what to generate, the
    common options, and the guard that something must be requested. */
module CmdLine {
  import opened Common

  /** The verbosity level; `Default` is the one chosen when no flag is given. */
  datatype Verbosity = Verbose | Quiet | Default

  /** Whether generated files keep their explanatory comments. */
  datatype Comments = NoComments | Comments

  /** `Verbosity::default()`, the `#[default]` variant. */
  const DEFAULT_VERBOSITY: Verbosity := Default

  /** `Comments::default()`, the `#[default]` variant. */
  const DEFAULT_COMMENTS: Comments := NoComments

  datatype CommonOptions = CommonOptions(
    anchorPrefixes: bool,
    noExamples: bool,
    noFilePrefixes: bool,
    simplified: bool,
    targetDir: string,
    verbosity: Verbosity,
    comments: Comments)

  /** The files to generate: titles per content type, an optional populated
      assembly, and the hidden `--validate` paths that no longer do anything. */
  datatype Action = Action(
    assembly: seq<string>,
    concept: seq<string>,
    procedure: seq<string>,
    reference: seq<string>,
    snippet: seq<string>,
    includeIn: Option<string>,
    validate: seq<string>)

  datatype Cli = Cli(action: Action, commonOptions: CommonOptions)

  /** The common options when no flag is given: every switch off, the target
      directory falls back to `.`, and verbosity and comments take their defaults. */
  const DEFAULT_COMMON_OPTIONS: CommonOptions :=
    CommonOptions(false, false, false, false, ".", DEFAULT_VERBOSITY, DEFAULT_COMMENTS)

  /** The message of the guard on `Action`. */
  const SOME_FILES: string := "Specify at least one file to generate or validate."

  /** The command requests at least one file: a title of some type, a path
      to validate, or a populated assembly. */
  function AtLeastOneFile(action: Action): (r: bool)
    ensures !r <==>
      && action.assembly == []
      && action.concept == []
      && action.procedure == []
      && action.reference == []
      && action.snippet == []
      && action.validate == []
      && action.includeIn == None
  {
    || |action.assembly| > 0
    || |action.concept| > 0
    || |action.procedure| > 0
    || |action.reference| > 0
    || |action.snippet| > 0
    || |action.validate| > 0
    || action.includeIn.Some?
  }

  /** The parser's `guard(at_least_one_file, SOME_FILES)`: the action is
      accepted as it is, or refused with the guard's message. */
  function GuardAction(action: Action): (r: Result<Action>)
    ensures r.Ok? ==> r.value == action
    ensures r.Err? ==> r.message == SOME_FILES
    ensures r.Err? <==>
      && action.assembly == [] && action.concept == [] && action.procedure == []
      && action.reference == [] && action.snippet == [] && action.validate == []
      && action.includeIn.None?
  {
    if AtLeastOneFile(action) then Ok(action) else Err(SOME_FILES)
  }
}
