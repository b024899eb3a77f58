# newdoc, modelled in Dafny

newdoc generates AsciiDoc modules (assemblies, concepts, procedures,
references and snippets) from titles given on the command line, and it
lints existing modules. This project models its core. It covers:

- the linter of `src/validation.rs`: classifying a file, the per-line rules,
  the metadata and include checks, and the printed report;
- the naming logic of `src/module.rs`: the ID derived from a title, the file
  name, the anchor, and the include statement with its inferred directory;
- the parts of `src/templating.rs` that are not the template engine: the
  block of include statements, the values passed to each template, the
  blank-line collapse and the closing blank line;
- the options of `src/config.rs` and their merge with the command line;
- the planning in `src/lib.rs`: which modules `run` writes and in what
  order, the populated assembly, and the files it lints;
- the parsed command line of `src/cmd_line.rs` and its guard.

Files and modules, one per source file:

- `common.dfy` (`Common`): `Option` and `Result`.
- `text.dfy` (`Text`): the standard-library string operations the program
  relies on, with Rust's semantics. These are `str::replace` (leftmost,
  non-overlapping), `str::lines`, `join`, `split`, `contains`, decimal
  printing and UTF-8 byte lengths.
- `patterns.dfy` (`Patterns`): each regular expression of the linter, written
  out as a predicate on one line.
- `cmd_line.dfy` (`CmdLine`), `config.dfy` (`Config`), `modules.dfy`
  (`Modules`), `templating.dfy` (`Templating`), `validation.dfy`
  (`Validation`) and `runner.dfy` (`Runner`, for `src/lib.rs`): one each.
- `module_examples.dfy` (`ModuleExamples`): the ID examples of
  `Input::id`'s documentation and the unit tests of `src/module.rs`, proved
  for the model. It also holds the step-by-step lemmas those proofs need.

Where the environment comes in, it is a parameter:

- the components of the canonicalised target directory;
- the rendered template (`render`) and the comment-stripping regular
  expressions (`strip`);
- the file reader (`read`) and the last path component (`baseName`);
- the start offsets of a multi-line rule's matches.

## Model

| member | source | states |
|---|---|---|
| CmdLine.GuardAction | src/cmd_line.rs:133-144 | the action passes unchanged unless it names no title, no file to validate and no populated assembly; then it is refused with the `SOME_FILES` message |
| Config.New | src/config.rs:51-68 | the negative switches `--no-file-prefixes` and `--no-examples` become positive options; the comments choice becomes a boolean; everything else is copied |
| Config.NewRoundTrip | src/config.rs:51-68 | `Options::new` loses nothing: it is a bijection between the common command-line options and `Options` |
| Config.DefaultOptions | src/config.rs:107-114 | the defaults: no comments, file prefixes on, anchor prefixes off, examples on, not simplified, default verbosity, target `.` |
| Config.UpdateFromNonDefault | src/config.rs:73-104 | a switch takes the command line's value only when it differs from the default. So the command line can turn comments, anchor prefixes and simplified ON, and file prefixes and examples OFF, but never the reverse; the target directory always comes from the command line |
| Config.UpdateWithDefaults | src/config.rs:73-104 | a command line whose switches are all at their defaults changes nothing but the target directory |
| Config.UpdateNonDefaultWins | src/config.rs:73-104 | every switch the command line sets away from its default wins over the configuration file |
| Config.UpdateIdempotent | src/config.rs:73-104 | merging the same command line twice equals merging it once |
| Config.ConfigFileName | src/config.rs:120-127 | the name is `newdoc.toml`, with a leading dot exactly when hidden |
| Modules.LowerAscii | src/module.rs:117 | lower-casing keeps the length, turns each ASCII capital into its own lower-case letter and changes no other character |
| Modules.SubstitutionsWellFormed | src/module.rs:121-171 | every search pattern of the replacement table is non-empty and starts with a character no ID contains; no replacement text holds a capital letter |
| Modules.ReplacementsAreIds | src/module.rs:121-171 | every replacement text of the table (`-`, the empty text, `-at-`) is made of ID characters |
| Modules.ApplySubstitutions | src/module.rs:121-171 | applying the replacements in order to a text without capitals brings in no capital letter |
| Modules.SubstitutionsApplied | src/module.rs:121-171 | after the replacements, applied in order, no character of a one-character pattern (space, brackets, `@`, …) is left, and every other character comes from the input or is an ID character |
| Modules.SubstitutionsKeep | src/module.rs:121-171 | nothing else is lost: a character that occurs in no pattern of the remaining replacements occurs in the result at least as often as in the input |
| Modules.SubstitutionsKeepIds | src/module.rs:121-171 | text made only of ID characters passes through every replacement unchanged |
| Modules.DashNonAlphanumeric | src/module.rs:172-177 | same length; every ASCII alphanumeric character is kept in place and every other character becomes `-` |
| Modules.DashKeepsIds | src/module.rs:172-177 | text made only of ID characters is left unchanged by the dash mapping |
| Modules.TidyDashes | src/module.rs:179-189 | after the `--` loop and the removal of one trailing dash, the text has no double dash and does not end with a dash; only dashes are lost, so with dashes deleted, input and output agree |
| Modules.Id | src/module.rs:114-192 | every ID is made of lower-case ASCII letters, digits and dashes, with no double dash and no trailing dash; with dashes deleted, it is the lower-cased, replaced and dashed title, so every letter and digit survives in order |
| Modules.Replaced | src/module.rs:114-177 | after lower-casing, the replacements and the dash mapping, only ID characters remain |
| Modules.IdFixedPoints | src/module.rs:114-192 | `Id(s) == s` exactly when `s` is already ID-shaped, in both directions |
| Modules.IdIdempotent | src/module.rs:114-192 | deriving the ID of an ID gives it back |
| Modules.DropTrailingDash | src/module.rs:185-189 | dropping a final dash from text without `--` leaves text that neither contains `--` nor ends with a dash |
| Modules.PrefixesDistinguishTypes | src/module.rs:232-240 | no two types share a prefix and no prefix starts another, so a prefixed name determines its type |
| Modules.FileNameParts | src/module.rs:199-229 | the file name is the optional prefix, the ID and `.adoc`; the anchor is the optional prefix and the ID; when both prefix switches agree, the file name is the anchor plus `.adoc` |
| Modules.LastPosition | src/module.rs:288 | `rposition`: the last index holding the component, or -1 exactly when the component does not occur |
| Modules.InferIncludeDir | src/module.rs:261-299 | `None` exactly when the type's root directory is not a component; otherwise the components from the LAST occurrence of the root to the end |
| Modules.IncludeStatementParts | src/module.rs:243-256 | the statement is `include::`, the inferred directory or `<path>`, `/`, the file name and `[leveloffset=+1]`, in that order |
| Templating.IncludesBlock | src/templating.rs:84-96 | with no includes, the block is `Include modules here.` when examples are on and empty otherwise; with includes, it starts with the first statement |
| Templating.IncludesBlockLines | src/templating.rs:84-96 | the block's lines are the include statements at the even positions and empty lines between them |
| Templating.TemplateFields | src/templating.rs:101-134 | every type gets its title and examples switch; every type but snippets gets the anchor; only assemblies get the include block |
| Templating.CollapseBlankLines | src/templating.rs:162-170 | the loop ends with no two blank lines in a row, never lengthens the text, and leaves alone text that needs no collapsing |
| Templating.CollapseIdempotent | src/templating.rs:162-170 | collapsing twice equals collapsing once |
| Templating.CollapseKeepsText | src/templating.rs:162-170 | the collapse only removes newlines: with newlines deleted, input and output agree |
| Templating.FinishText | src/templating.rs:162-174 | the text ends with a blank line, has no two blank lines in a row before it, and keeps every character other than a newline |
| Templating.RenderText | src/templating.rs:101-175 | the generated text keeps all of the rendering's non-newline characters, taken after comment stripping when comments are off, and ends with one blank line |
| Templating.RenderTextWithComments | src/templating.rs:136-137 | with comments kept, the stripping never runs: the text is the collapsed rendering plus a blank line, whatever the stripper does |
| Templating.RenderTextTail | src/templating.rs:162-174 | a rendering with no two blank lines in a row only gains the closing blank line |
| Templating.FromInput | src/module.rs:302-331 | a module keeps its input's type, title and includes, takes its anchor, file name and include statement from `Input::anchor`, `Input::file_name` and `Input::include_statement`, and its text is `Input::text` of the input, so it ends with a blank line and carries every property of `RenderText` |
| Templating.NewModule | src/module.rs:337-340 | `Module::new` has the requested type and title, includes nothing, and takes its file name, include statement and text from `Input::new` |
| ModuleExamples.NewModuleNames | src/module.rs:199-256 | given the ID of a title, a new module's anchor, file name and include statement are spelled out from the prefix switches and the inferred directory |
| ModuleExamples.ProblematicId | src/module.rs:103-112 | `A test -- with #problematic ? characters` gets the ID `a-test-with-problematic-characters` |
| ModuleExamples.SpecialId | src/module.rs:384-387 | `A testing assembly with /special-characters*` gets the ID `a-testing-assembly-with-special-characters` |
| ModuleExamples.DetectedId | src/module.rs:413-428 | `Testing the detected path` gets the ID `testing-the-detected-path` |
| ModuleExamples.BasicAssemblyFields | src/module.rs:346-393 | with the basic options, the assembly's type, title, anchor, file name `assembly_…adoc`, include statement under `<path>` and empty includes are as the test expects |
| ModuleExamples.DetectedPath | src/module.rs:413-428 | under a target directory ending in `repo/modules/topic`, whatever comes before it, a procedure's include statement is `include::modules/topic/proc_testing-the-detected-path.adoc[leveloffset=+1]` |
| ModuleExamples.MarkupRemovedWhole | src/module.rs:144-159 | between two pieces of ID characters, `[command]` disappears entirely, word included: the ID is the one of the text without it, because bare brackets are removed only after the markup words |
| ModuleExamples.AtBecomesWord | src/module.rs:137 | between two pieces of ID characters, an `@` gives the same ID as `-at-` in its place |
| Validation.ShowReport | src/validation.rs:97-107 | the printed report starts with the severity's name and ends with the description |
| Validation.ParseShowReport | src/validation.rs:78-107 | a printed report reads back, with an independent reader, as the same report, so two different reports never print alike |
| Validation.SeverityNamesDistinct | src/validation.rs:78-88 | no severity name starts a text another one starts |
| Validation.ReportIssues | src/validation.rs:139-146 | nothing is printed for a clean file; otherwise a `File:` header, then one `  * ` line per report, in order |
| Validation.ReportIssuesReadBack | src/validation.rs:139-146 | every bulleted line reads back as the report at that position |
| Validation.DetermineModType | src/validation.rs:148-180 | an assembly name decides first. Otherwise the first of concept, procedure and reference whose name prefix or type variable is present wins. Nothing else, and never a snippet, is recognised; each case is an if-and-only-if |
| Validation.ConceptVariableBeatsPrefix | src/validation.rs:148-180 | a `:_module-type: CONCEPT` line makes any non-assembly file a concept, whatever its name prefix |
| Validation.AssemblyNameDecides | src/validation.rs:153-155 | an `assembly_` or `assembly-` name makes the file an assembly, whatever its content |
| Validation.ScanLines | src/validation.rs:236-248 | the loop reports exactly the lines the rule flags: each with the rule's verdict, numbered from 1, in increasing order, with none missed |
| Validation.LineOfByte | src/validation.rs:347-374 | when a line is found, it is the only line the counting attributes the byte number to; when none is found, no line has it |
| Validation.LineFromByteNo | src/validation.rs:347-374 | the loop as written finds that same line or reports none |
| Validation.LineOfByteBounds | src/validation.rs:358-373 | because of the counting as written, byte numbers 0 and 1 belong to no line, and no empty line is ever reported |
| Validation.InLineUnique | src/validation.rs:358-373 | no byte number is attributed to two lines |
| Validation.CheckForIssue | src/validation.rs:220-250 | every report copies the rule's description and severity. A multi-line rule gives one report per match, located by the byte counting. A single-line rule gives one report per matching line, numbered from 1, in line order |
| Validation.LastMatch | src/validation.rs:265-272 | the last matching line before the bound, or none exactly when no line before it matches |
| Validation.MetadataPositions | src/validation.rs:258-272 | the loop leaves the index of the last type-variable line and of the last ID line |
| Validation.MetadataReports | src/validation.rs:276-305 | at most two Errors. `The module is missing an ID.` appears exactly when there is no ID line, and the missing-variable report exactly when there is no type-variable line |
| Validation.CheckMetadataVariable | src/validation.rs:255-308 | at most two Errors, none repeated. The two line-less Errors appear exactly when no line is an ID, or no line is a type variable; every located report is the variable-after-ID Error |
| Validation.VariableAfterId | src/validation.rs:276-305 | the "variable after the ID" Error carries the 0-based index of the last type-variable line, as written. It appears exactly when an ID line exists and all ID lines come before that line |
| Validation.IncludeVerdict | src/validation.rs:311-342 | a line is flagged exactly when it matches `^include::.*\.adoc`. The flag is Information with the snippet message exactly when the matched text looks like a snippet, and an Error otherwise |
| Validation.CheckIncludeExceptSnip | src/validation.rs:311-342 | one located report per including line, in line order, with Information exactly for snippet includes |
| Validation.IncludeMatchReaches | src/validation.rs:312-321 | the greedy match reaches past every `.adoc` on the line |
| Validation.TableReports | src/validation.rs:183-216 | every report of a rule table copies one of its rules and names a line of the text |
| Validation.TableReportsComplete | src/validation.rs:183-216 | a line gets a report with a description and severity exactly when a single-line rule of the table with that description and severity flags it |
| Validation.TableReportsSplit | src/validation.rs:183-197 | rule after rule: two tables run one after the other report what the first reports, followed by what the second reports |
| Validation.TableReportsOne | src/validation.rs:185-187 | a table of one rule reports exactly what `check_for_issue` reports for that rule, so with the split every table is the per-rule reports laid end to end in table order |
| Validation.RuleByRuleSplit | src/validation.rs:183-197 | for any per-rule check, the flattened reports of two concatenated tables are the first table's followed by the second's |
| Validation.ShippedRules | src/validation.rs:13-61 | every shipped rule is a single-line Error rule |
| Validation.AssemblyTests | src/validation.rs:183-198 | exactly the reports of the assembly rules followed by those of the title rules; only Errors, each at a line of the text; a line is reported with a description exactly when a rule with that description flags it, so every flagged line of every rule is reported |
| Validation.ModuleTests | src/validation.rs:200-216 | exactly the reports of the module rules, then the title rules, then the metadata check, then the include check, in that order. Every line a rule flags and every line that includes a file is reported; the only line-less reports are the missing ID and missing variable ones; the only Information is the snippet-include message |
| Validation.Validate | src/validation.rs:109-136 | an unreadable or unclassified file prints nothing. An assembly is reported with the assembly tests, any other recognised type with the module tests |
| Validation.GeneratedNameClassifies | src/module.rs:199-240 | a file name newdoc generates with prefixes classifies back as its own type, unless content signals for an earlier type override it; snippets are never recognised |
| Validation.GeneratedIncludeMatches | src/module.rs:243-256 | every include statement newdoc generates is a line the include check flags |
| Validation.GeneratedSnippetIncludeAccepted | src/validation.rs:311-342 | the include statement generated for a prefixed snippet is accepted in a module as Information |
| Runner.TypeOfArgument | src/lib.rs:172-179 | `include-in` and `assembly` mean an assembly; any other accepted name is the printed name of its type |
| Runner.TypeOfArgumentRoundTrip | src/lib.rs:172-179 | every type's printed name is accepted and maps back to that type |
| Runner.ProcessModuleType | src/lib.rs:167-184 | one module per title, in title order, all of the argument's type, none populated, each named as `Input::new` names it |
| Runner.ProcessTypes | src/lib.rs:115-123 | the modules come grouped by type in the order assembly, concept, procedure, reference, snippet. Per type, their titles are exactly that type's titles on the command line, in order |
| Runner.TitlesOfTypeConcat | src/lib.rs:121 | appending modules appends their titles of each type |
| Runner.IncludeStatements | src/lib.rs:135-138 | one include statement per module, in order |
| Runner.Finish | src/lib.rs:126-152 | without `include-in` only the non-populated modules are written. With it, an assembly with that title is written last, including every other module's statement; an empty list instead stops the run with `The populated assembly includes no other files.` |
| Runner.Run | src/lib.rs:104-163 | written modules start with the non-populated ones in type order; the populated assembly, if any, comes last; the lint output is that of the files to validate, one after the other |
| Runner.ProcessTypesEmpty | src/lib.rs:115-123 | no non-populated module exists exactly when no title is given |
| Runner.NothingToIncludeError | src/lib.rs:140-144 | the run fails exactly when a populated assembly is requested and no title of any type is given |
| Text.SqueezeIdempotent | src/module.rs:181-183 | the `while contains { replace }` loop ends in a fixed point: running it again changes nothing |
| Text.ReplaceShrinks | src/module.rs:181-183 | a replacement by something shorter never lengthens the text, and shortens it when the pattern occurs, so the loop terminates |
| Text.LinesRoundTrip | src/validation.rs:236 | the lines `str::lines` gives, joined with newlines, rebuild the text |
| Text.DecimalRoundTrip | src/validation.rs:99-100 | the printed line number reads back as the number |

## Left out

- Reading, writing and canonicalising files: `write_file` and everything in
  `src/write.rs`, `fs::read_to_string`, `Path::canonicalize` and
  `Path::file_name`. The model takes the results as parameters.
- Logging and verbosity (`src/logging.rs`, the `log::` calls): they do not
  change what is generated or printed on standard output.
- The template engine and the comment-stripping regular expressions of
  `Input::text` (src/templating.rs:136-160). They are the parameters
  `render` and `strip`. No property depends on their insides beyond what
  is stated above.
- The multi-line regular-expression engine: a multi-line rule receives the
  start offsets of its matches. No shipped rule is multi-line.
- `merge_configs`, `home_conf_file` and `git_conf_file`
  (src/config.rs:130-184): they discover TOML files and merge them with
  figment. Only the final step, `update_from_non_default`, is modelled.
- The argument parser's construction in `src/cmd_line.rs` (`get_args`,
  bpaf attributes) and `src/main.rs`. The parsed `Cli` value is modelled,
  with the defaults the attributes give.
- `lib.rs`'s older `Options::new` from clap `ArgMatches`
  (src/lib.rs:56-96). The model uses the `Options` of `src/config.rs`
  throughout, and reads the titles from the `Action`.
- `validation.rs` imports an older `ModuleType` enum. The model uses
  `ContentType`. `run` applies `wrap_err_with` to `validate`, which as
  written returns nothing; the model treats linting as never failing.
- Modules.LowerAscii: lower-cases ASCII letters only. Rust's `to_lowercase`
  also lower-cases other scripts. For almost every character the result
  is the same ID, because the dash mapping turns any non-ASCII character
  into a dash. The exceptions are the two characters whose lower case is
  ASCII: U+212A KELVIN SIGN becomes `k` in Rust, and U+0130 becomes `i`
  followed by a combining dot. Rust keeps that letter in the ID, while the
  model turns the character into a dash (Rust's ID of `\u{212A}` is `k`,
  the model's is empty).
- Runner.Run: lints the files given with `validate`, as src/lib.rs:155-158
  does. The current `Action` type documents that option as removed and
  without effect (src/cmd_line.rs:98-102); the model follows `run`'s code
  against that doc comment.
- Validation.TableReports: a multi-line rule in a rule table receives no
  match offsets and so reports nothing. No shipped rule is multi-line; a
  multi-line rule on its own is modelled by `Validation.CheckForIssue`.
- Text.Lines: splits on `'\n'` only. A `'\r'` before a newline stays in the
  line, while `str::lines` would remove it.
- Validation.LineOfByte: a line's bytes are counted with UTF-8 lengths,
  but the text itself is a sequence of characters, not of bytes.
- The integration tests (`tests/integration.rs`): they compare generated
  files with stored ones through the template engine, which is a parameter
  here.
- `check_module_builder_and_new` (src/module.rs:395-411): `Module::new`
  is defined here as `Module::from(Input::new(…))`, so the test holds by
  definition.
- The `unimplemented!()` branch of `process_module_type`
  (src/lib.rs:178): `run` never reaches it, so `Runner.TypeOfArgument`
  requires an accepted name.
