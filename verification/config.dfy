/** The global options of src/config.rs and their merge with the command line. */
module Config {
  import opened CmdLine

  /** The options every generator function reads. */
  datatype Options = Options(
    comments: bool,
    filePrefixes: bool,
    anchorPrefixes: bool,
    examples: bool,
    targetDir: string,
    simplified: bool,
    verbosity: Verbosity)

  /** `Options::new`: the negative command-line switches become positive options. */
  function New(cli: Cli): (o: Options)
    ensures o.comments <==> cli.commonOptions.comments == Comments.Comments
    ensures o.filePrefixes == !cli.commonOptions.noFilePrefixes
    ensures o.anchorPrefixes == cli.commonOptions.anchorPrefixes
    ensures o.examples == !cli.commonOptions.noExamples
    ensures o.targetDir == cli.commonOptions.targetDir
    ensures o.simplified == cli.commonOptions.simplified
    ensures o.verbosity == cli.commonOptions.verbosity
  {
    var c := cli.commonOptions;
    Options(
      match c.comments
      case Comments => true
      case NoComments => false,
      !c.noFilePrefixes,
      c.anchorPrefixes,
      !c.noExamples,
      c.targetDir,
      c.simplified,
      c.verbosity)
  }

  /** The command-line options that `New` turns into `o`: `New` loses nothing. */
  function ToCommonOptions(o: Options): CommonOptions {
    CommonOptions(
      o.anchorPrefixes,
      !o.examples,
      !o.filePrefixes,
      o.simplified,
      o.targetDir,
      o.verbosity,
      if o.comments then Comments.Comments else NoComments)
  }

  /** `New` is a bijection between common options and options. */
  lemma NewRoundTrip(o: Options, cli: Cli)
    ensures New(Cli(cli.action, ToCommonOptions(o))) == o
    ensures ToCommonOptions(New(cli)) == cli.commonOptions
  {
  }

  const NO_ACTION: Action := Action([], [], [], [], [], Common.None, [])

  /** `Options::default()`: the options of a command line without flags. */
  function DefaultOptions(): (o: Options)
    ensures !o.comments && o.filePrefixes && !o.anchorPrefixes && o.examples
    ensures !o.simplified && o.verbosity == Default && o.targetDir == "."
  {
    New(Cli(NO_ACTION, DEFAULT_COMMON_OPTIONS))
  }

  /** `update_from_non_default`: each of the six switches takes the command
      line's value when it differs from the default and keeps `self`'s
      otherwise; the target directory always comes from the command line.
      Because the defaults are fixed, the command line can only move a switch
      AWAY from its default: an option the configuration file turned on stays on. */
  function UpdateFromNonDefault(self: Options, cli: Options): (r: Options)
    ensures r.comments == (self.comments || cli.comments)
    ensures r.filePrefixes == (self.filePrefixes && cli.filePrefixes)
    ensures r.anchorPrefixes == (self.anchorPrefixes || cli.anchorPrefixes)
    ensures r.examples == (self.examples && cli.examples)
    ensures r.simplified == (self.simplified || cli.simplified)
    ensures r.verbosity == (if cli.verbosity == Default then self.verbosity else cli.verbosity)
    ensures r.targetDir == cli.targetDir
  {
    var d := DefaultOptions();
    Options(
      if cli.comments != d.comments then cli.comments else self.comments,
      if cli.filePrefixes != d.filePrefixes then cli.filePrefixes else self.filePrefixes,
      if cli.anchorPrefixes != d.anchorPrefixes then cli.anchorPrefixes else self.anchorPrefixes,
      if cli.examples != d.examples then cli.examples else self.examples,
      cli.targetDir,
      if cli.simplified != d.simplified then cli.simplified else self.simplified,
      if cli.verbosity != d.verbosity then cli.verbosity else self.verbosity)
  }

  /** The six switches of `cli` all hold their default values. */
  predicate AllDefault(cli: Options) {
    var d := DefaultOptions();
    && cli.comments == d.comments
    && cli.filePrefixes == d.filePrefixes
    && cli.anchorPrefixes == d.anchorPrefixes
    && cli.examples == d.examples
    && cli.simplified == d.simplified
    && cli.verbosity == d.verbosity
  }

  /** A command line without switches changes nothing but the target directory. */
  lemma UpdateWithDefaults(self: Options, cli: Options)
    requires AllDefault(cli)
    ensures UpdateFromNonDefault(self, cli) == self.(targetDir := cli.targetDir)
  {
  }

  /** A switch the command line sets away from its default always wins. */
  lemma UpdateNonDefaultWins(self: Options, cli: Options)
    ensures var d := DefaultOptions(); var r := UpdateFromNonDefault(self, cli);
      && (cli.comments != d.comments ==> r.comments == cli.comments)
      && (cli.filePrefixes != d.filePrefixes ==> r.filePrefixes == cli.filePrefixes)
      && (cli.anchorPrefixes != d.anchorPrefixes ==> r.anchorPrefixes == cli.anchorPrefixes)
      && (cli.examples != d.examples ==> r.examples == cli.examples)
      && (cli.simplified != d.simplified ==> r.simplified == cli.simplified)
      && (cli.verbosity != d.verbosity ==> r.verbosity == cli.verbosity)
  {
  }

  /** Merging the same command line twice is the same as merging it once. */
  lemma UpdateIdempotent(self: Options, cli: Options)
    ensures UpdateFromNonDefault(UpdateFromNonDefault(self, cli), cli) == UpdateFromNonDefault(self, cli)
  {
  }

  /** `CARGO_PKG_NAME` of the crate. */
  const PKG_NAME: string := "newdoc"

  /** `config_file_name`: `.newdoc.toml` when hidden, `newdoc.toml` otherwise. */
  function ConfigFileName(hidden: bool): (r: string)
    ensures |r| == |PKG_NAME| + 5 + (if hidden then 1 else 0)
    ensures hidden <==> r[0] == '.'
    ensures r[|r| - 5..] == ".toml"
    ensures r[|r| - 5 - |PKG_NAME|..|r| - 5] == PKG_NAME
  {
    (if hidden then "." else "") + PKG_NAME + ".toml"
  }
}
