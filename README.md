# Faucet command options and logger, modelled in Dafny

This project models two parts of the Faucet plugin library and proves properties of them.

**Command options** (`io.vevox.vx.lib.cmd`). A `vxCommand` keeps a registry of flags and
switches. Flags take a value and switches do not, and each option has a name and may have a
one-character short name. `parse` turns an argument line into a `CommandOptions`. That result
holds the positional arguments (the text before the first option, split at spaces), the value
of each flag given, and the set of switches given.

An option is found by the pattern ` -([^ ]+)`. A lookahead then accepts the match only when the
rest of the line has balanced double quotes. A group starting with a second dash (`--name`) is
skipped. Any other group is read character by character: each character must be the short name
of a registered option. A flag character must stand alone, and its value is read after the
match by `getStringFrom`: either a quoted string or the next word. A flag may be given only
once, and its value must pass the flag's validator.

The module also covers:
- the name rule `isValidCommandArg`;
- the `CommandFlag` and `CommandSwitch` values, with their constructors, factories and
  name-based `equals`;
- the messages of `CommandException` and its subclasses.

**Logger** (`co.mcsp.vxlib.logging`). A `vxLogger` has a non-empty name, a final optional parent
and a table of transports keyed by transport name. `log(level, message)` hands the message to
every local transport whose level the message reaches, then calls `log` on the parent.
`LoggingLevel` orders the six levels from SILLY to ERROR and gives each a chat colour.

Modules, one per file:

| file | module | what it holds |
|---|---|---|
| `outcomes.dfy` | `Outcomes` | `Option`, `Result` and the `IllegalArgument` exception value |
| `java_text.dfy` | `JavaText` | Java `int` wrap-around, `int` printing, `String.split(" ")` and `String.join(" ", …)` |
| `command_exception.dfy` | `CommandExceptions` | `CommandException` kinds and their messages |
| `command_args.dfy` | `CommandArgs` | name rule, `Flag`/`Switch` values, constructors, factories, equality |
| `option_scanner.dfy` | `OptionScanner` | the option pattern and lookahead, `find()` resumption, reading a flag value |
| `command.dfy` | `Commands` | `class Command` (the registry and `parse` as methods) and `ParseSpec`, the specification function of `parse` |
| `parse_properties.dfy` | `ParseProperties` | what `parse` computes, option by option: when it succeeds, which flags and switches it returns, which error it throws |
| `logging_level.dfy` | `LoggingLevels` | `LoggingLevel`, its order and `color()` |
| `logger.dfy` | `Loggers` | `Transport` as a value, `class Logger` with a ghost delivery log |

The stateful parts are classes.
- `Command` keeps its registry in two map fields. Its `Parse` method is proved to return
  exactly `ParseSpec`. The lemmas of `ParseProperties` characterise `ParseSpec`.
- `Logger` keeps its transport table in a map field. It records what each transport received in
  a ghost map from transport name to messages. `Log` is proved against the ghost function
  `Delivered` for every logger in the parent chain.

Where the documentation of the library and its code disagree, the model follows the code:
- An option at the very start of the line is not recognised, because the pattern needs a space
  before the dash. A line such as `-t 5` is therefore parsed as positional arguments
  (`ParseProperties.LineWithoutSpaceIsPositional`, `OptionScanner.NoSpaceNoMatches`).
- A `--name` option is found, and it marks the end of the positional arguments, but it does
  nothing else: it sets nothing, and an unregistered name raises no error.
- Registering an option whose name is already registered throws; it is not a silent no-op
  (`Commands.RegisterFlagTwice`).
- `split(" ")` drops trailing empty pieces. It keeps empty pieces between two spaces.
- When a message goes up the parent chain, each logger tags its own copies with itself, not
  with the logger that was first called.
- The greedy group `([^ ]+)` gives back characters until the lookahead succeeds. The model keeps
  this backtracking: `GroupEnd` is the longest group within the word after which the rest of
  the line is balanced. The group is therefore not always the whole word.

## Model

| member | source | states |
|---|---|---|
| JavaText.AddInt32 | src/main/java/io/vevox/vx/lib/cmd/CommandException.java:38 | `index + 1` on a Java `int`: the exact sum when it fits, otherwise the sum shifted by 2^32 |
| JavaText.AddInt32Injective | src/main/java/io/vevox/vx/lib/cmd/CommandException.java:38 | adding 1 maps different indices to different shown numbers, wrap-around included |
| JavaText.AddInt32Wraps | src/main/java/io/vevox/vx/lib/cmd/CommandException.java:38 | the largest index is shown as `Integer.MIN_VALUE` |
| JavaText.NatDigits | src/main/java/io/vevox/vx/lib/cmd/CommandException.java:26 | the printed digits of a number are non-empty decimal digits without a leading zero |
| JavaText.DecimalString | src/main/java/io/vevox/vx/lib/cmd/CommandException.java:26 | `%d` of an `int`: a minus sign for a negative number, then the digits of its magnitude |
| JavaText.NatDigitsRoundTrip | src/main/java/io/vevox/vx/lib/cmd/CommandException.java:26 | reading the digits back gives the number |
| JavaText.DecimalRoundTrip | src/main/java/io/vevox/vx/lib/cmd/CommandException.java:26 | `%d` printing of an `int` is inverted by reading the sign and the digits |
| JavaText.DecimalStringInjective | src/main/java/io/vevox/vx/lib/cmd/CommandException.java:38 | different numbers print differently |
| JavaText.IndexOfSpace | src/main/java/io/vevox/vx/lib/cmd/vxCommand.java:110 | the first space, or the length when there is none |
| JavaText.Split | src/main/java/io/vevox/vx/lib/cmd/vxCommand.java:175 | `split(" ")`: a text without a space is its only piece; otherwise the pieces between single spaces, with trailing empty pieces dropped |
| JavaText.Join | src/main/java/io/vevox/vx/lib/cmd/vxCommand.java:181 | `String.join(" ", …)`: the elements with one space between consecutive ones |
| JavaText.Pieces | src/main/java/io/vevox/vx/lib/cmd/vxCommand.java:175 | splitting at each space gives at least one piece |
| JavaText.DropTrailingEmpty | src/main/java/io/vevox/vx/lib/cmd/vxCommand.java:175 | a prefix of the pieces that ends in a non-empty piece, with only empty pieces removed |
| JavaText.PiecesHaveNoSpace | src/main/java/io/vevox/vx/lib/cmd/vxCommand.java:175 | no piece holds a space |
| JavaText.JoinPieces | src/main/java/io/vevox/vx/lib/cmd/vxCommand.java:181 | joining the pieces with single spaces gives the text back |
| JavaText.JoinDropTrailingEmpty | src/main/java/io/vevox/vx/lib/cmd/vxCommand.java:175 | dropping trailing empty pieces removes only trailing spaces from the joined text |
| JavaText.JoinSnoc | src/main/java/io/vevox/vx/lib/cmd/vxCommand.java:181 | `String.join(" ", …)` puts exactly one space before the last element |
| JavaText.SplitSpec | src/main/java/io/vevox/vx/lib/cmd/vxCommand.java:175 | `split(" ")` gives space-free pieces that join back to the text minus trailing spaces; a last empty piece happens only for the empty text |
| JavaText.FirstSpace | src/main/java/io/vevox/vx/lib/cmd/vxCommand.java:110 | the first space of `x + " " + r` is right after a space-free `x` |
| JavaText.SplitFirstPiece | src/main/java/io/vevox/vx/lib/cmd/vxCommand.java:110 | `split(" ")[0]` of a text that does not start with a space is its first word |
| JavaText.DropTrailingEmptyKeepsFirst | src/main/java/io/vevox/vx/lib/cmd/vxCommand.java:110 | a non-empty first piece survives the removal of trailing empty pieces |
| JavaText.PiecesCons | src/main/java/io/vevox/vx/lib/cmd/vxCommand.java:175 | a space-free word before a space is the first piece |
| JavaText.PiecesOfWord | src/main/java/io/vevox/vx/lib/cmd/vxCommand.java:175 | a space-free text is its only piece |
| JavaText.SplitKeepsInnerEmptyPiece | src/main/java/io/vevox/vx/lib/cmd/vxCommand.java:175 | two consecutive spaces yield an empty argument between them |
| JavaText.SplitDropsTrailingEmptyPieces | src/main/java/io/vevox/vx/lib/cmd/vxCommand.java:175 | trailing spaces yield no arguments |
| JavaText.SplitCornerCases | src/main/java/io/vevox/vx/lib/cmd/vxCommand.java:175 | `"".split(" ")` is one empty argument and `" ".split(" ")` is none |
| CommandExceptions.Message | src/main/java/io/vevox/vx/lib/cmd/CommandException.java:14-75 | `getMessage()` of each kind: the given text, the one-based index and the quoted argument, the one-based index, the permission, the player notice, the command name |
| CommandExceptions.DecimalStringHasNoSpace | src/main/java/io/vevox/vx/lib/cmd/CommandException.java:26 | a printed index holds no space |
| CommandExceptions.MissingArgumentMessageInjective | src/main/java/io/vevox/vx/lib/cmd/CommandException.java:36-40 | the message of a missing-argument exception determines its index |
| CommandExceptions.UnknownArgumentMessageInjective | src/main/java/io/vevox/vx/lib/cmd/CommandException.java:24-28 | the message of an unknown-argument exception determines its index and its argument |
| CommandExceptions.PermissionMessageInjective | src/main/java/io/vevox/vx/lib/cmd/CommandException.java:48-52 | the message of an insufficient-permissions exception determines the permission |
| CommandExceptions.UnknownArgumentIsOneBased | src/main/java/io/vevox/vx/lib/cmd/CommandException.java:24-28 | index 1 is shown as argument 2, with the argument quoted |
| CommandExceptions.MessagesAreOneBased | src/main/java/io/vevox/vx/lib/cmd/CommandException.java:36-40 | indices are shown one-based: index 0 is "Argument 1 is missing" |
| CommandArgs.AllNameChars | src/main/java/io/vevox/vx/lib/cmd/CommandDelegator.java:28-30 | the character loop accepts exactly when every remaining character is a digit, a lower-case letter or a dash |
| CommandArgs.IsValidCommandArg | src/main/java/io/vevox/vx/lib/cmd/CommandDelegator.java:25-31 | a name is valid exactly when it is non-empty, does not start with a dash and uses only digits, lower-case letters and dashes |
| CommandArgs.InvalidName | src/main/java/io/vevox/vx/lib/cmd/arg/CommandFlag.java:73-74 | the `IllegalArgumentException` for a bad name: the name in single quotes, then `is not valid command name` |
| CommandArgs.NameExamples | src/main/java/io/vevox/vx/lib/cmd/CommandDelegator.java:25-31 | `toggle` and `use-optional-config` are valid; `UseOptionalConfig`, the empty name and `-toggle` are not |
| CommandArgs.LeadingDashIsInvalid | src/main/java/io/vevox/vx/lib/cmd/CommandDelegator.java:27 | no name starting with a dash is valid |
| CommandArgs.NoShortNameIsNotAlphanumeric | src/main/java/io/vevox/vx/lib/cmd/arg/CommandFlag.java:43-48 | the default short name `(char) 0` is not alphanumeric, so it means "no short name" |
| CommandArgs.NewFlag | src/main/java/io/vevox/vx/lib/cmd/arg/CommandFlag.java:72-78 | throws exactly on an invalid name, with that name in the message; otherwise stores every argument |
| CommandArgs.NewSwitch | src/main/java/io/vevox/vx/lib/cmd/arg/CommandSwitch.java:50-55 | the same for switches |
| CommandArgs.NewFlagWithoutShortName | src/main/java/io/vevox/vx/lib/cmd/arg/CommandFlag.java:61-63 | as `NewFlag`, with the non-alphanumeric short name `(char) 0` |
| CommandArgs.NewSwitchWithoutShortName | src/main/java/io/vevox/vx/lib/cmd/arg/CommandSwitch.java:41-43 | as `NewSwitch`, with the non-alphanumeric short name `(char) 0` |
| CommandArgs.CreateFlag | src/main/java/io/vevox/vx/lib/cmd/CommandDelegator.java:33-46 | a flag without short name whose validation and documentation messages are the given strings; fails exactly on an invalid name |
| CommandArgs.CreateFlagWithShortName | src/main/java/io/vevox/vx/lib/cmd/CommandDelegator.java:48-61 | the same with the given short name |
| CommandArgs.CreateSwitch | src/main/java/io/vevox/vx/lib/cmd/CommandDelegator.java:63-70 | a switch without short name with the given documentation message; fails exactly on an invalid name |
| CommandArgs.CreateSwitchWithShortName | src/main/java/io/vevox/vx/lib/cmd/CommandDelegator.java:72-79 | the same with the given short name |
| CommandArgs.FlagEquals | src/main/java/io/vevox/vx/lib/cmd/arg/CommandFlag.java:94-97 | `equals` of a flag: the other object is a flag with the same name |
| CommandArgs.SwitchEquals | src/main/java/io/vevox/vx/lib/cmd/arg/CommandSwitch.java:64-67 | `equals` of a switch: the other object is a switch with the same name |
| CommandArgs.FlagEqualityIsByName | src/main/java/io/vevox/vx/lib/cmd/arg/CommandFlag.java:94-97 | flags are equal exactly when their names are; the relation is an equivalence; no flag equals a switch |
| CommandArgs.SwitchEqualityIsByName | src/main/java/io/vevox/vx/lib/cmd/arg/CommandSwitch.java:64-67 | switches are equal exactly when their names are; the relation is an equivalence; no switch equals a flag |
| OptionScanner.BalancedFrom | src/main/java/io/vevox/vx/lib/cmd/vxCommand.java:125 | the lookahead as a two-mode scanner: a backslash hides the next character, a double quote opens or closes a quoted region, and the rest is accepted when it ends outside a region |
| OptionScanner.BalancedModesExclusive | src/main/java/io/vevox/vx/lib/cmd/vxCommand.java:125 | no rest of a line is balanced both from inside and from outside a quoted region |
| OptionScanner.BalancedSkipsPlain | src/main/java/io/vevox/vx/lib/cmd/vxCommand.java:125 | characters other than quotes and backslashes do not change the lookahead's verdict |
| OptionScanner.TokenEnd | src/main/java/io/vevox/vx/lib/cmd/vxCommand.java:125 | the end of the non-space run is the next space or the end of the line |
| OptionScanner.GroupEnd | src/main/java/io/vevox/vx/lib/cmd/vxCommand.java:125 | the greedy group with backtracking ends at the largest end within the word where the lookahead succeeds, and there is none when no end does |
| OptionScanner.IntroducerAt | src/main/java/io/vevox/vx/lib/cmd/vxCommand.java:125 | the pattern matches at a position: a space, a dash, and a group of non-space characters after which the lookahead succeeds |
| OptionScanner.MatchEnd | src/main/java/io/vevox/vx/lib/cmd/vxCommand.java:155 | `m.end()` lies after the group's first character, within the word, at a balanced point |
| OptionScanner.Group | src/main/java/io/vevox/vx/lib/cmd/vxCommand.java:134 | `m.group(1)` is non-empty, starts right after the dash and holds no space |
| OptionScanner.NextIntroducer | src/main/java/io/vevox/vx/lib/cmd/vxCommand.java:130 | `find()` reports the first match at or after the resume point, and there is none before it |
| OptionScanner.Matches | src/main/java/io/vevox/vx/lib/cmd/vxCommand.java:130 | the successive `find()` results are matches at or after the start, in strictly increasing order |
| OptionScanner.NoIntroducerInsideMatch | src/main/java/io/vevox/vx/lib/cmd/vxCommand.java:130 | no match starts inside another one |
| OptionScanner.MatchesAreAllIntroducers | src/main/java/io/vevox/vx/lib/cmd/vxCommand.java:124-130 | the positions the `find()` loop visits are exactly the positions where the pattern matches |
| OptionScanner.NoSpaceNoMatches | src/main/java/io/vevox/vx/lib/cmd/vxCommand.java:125 | a line without a space holds no option, so a leading `-x` is never an option |
| OptionScanner.LastWordIsAnOption | src/main/java/io/vevox/vx/lib/cmd/vxCommand.java:125 | a dash-word at the end of the line is always an option, and its group is the whole word |
| OptionScanner.PlainLineOptions | src/main/java/io/vevox/vx/lib/cmd/vxCommand.java:125 | in a line without quotes or backslashes, options are exactly the ` -x` positions, and each group is the whole word |
| OptionScanner.DocumentedLineMatches | src/main/java/io/vevox/vx/lib/cmd/vxCommand.java:124-134 | in `a b -r -t 6s` the options are `-r` and `-t` |
| OptionScanner.QuotedDashTextIsNotAnOption | src/main/java/io/vevox/vx/lib/cmd/vxCommand.java:125 | a dash-word inside a quoted region, with a balanced rest after the region, is not an option |
| OptionScanner.SkipSpaces | src/main/java/io/vevox/vx/lib/cmd/vxCommand.java:102 | the first non-space at or after the index, with only spaces before it |
| OptionScanner.ClosingQuote | src/main/java/io/vevox/vx/lib/cmd/vxCommand.java:106-107 | `find(1)` reports the first double quote not preceded by a backslash |
| OptionScanner.FlagValue | src/main/java/io/vevox/vx/lib/cmd/vxCommand.java:98-116 | reading a value fails with `MissingArgumentException(0)` exactly when only spaces, or spaces and a dash, follow |
| OptionScanner.FlagValueShape | src/main/java/io/vevox/vx/lib/cmd/vxCommand.java:105-110 | a quoted value has only escaped quotes; an unquoted one is a non-empty word starting with neither a quote nor a dash |
| OptionScanner.QuotedValueRoundTrip | src/main/java/io/vevox/vx/lib/cmd/vxCommand.java:105-108 | a value with escaped quotes, written between double quotes, is read back exactly |
| OptionScanner.WordValueRoundTrip | src/main/java/io/vevox/vx/lib/cmd/vxCommand.java:110 | a word followed by a space or the end of the line is read back exactly |
| Commands.UnknownOption | src/main/java/io/vevox/vx/lib/cmd/vxCommand.java:149 | `Unknown flag or switch: ` followed by the character |
| Commands.FlagUsedAsSwitch | src/main/java/io/vevox/vx/lib/cmd/vxCommand.java:152 | `Flag used as switch: ` followed by the character |
| Commands.FlagRequiresArgument | src/main/java/io/vevox/vx/lib/cmd/vxCommand.java:160 | `Flag `, the character, then ` requires argument` |
| Commands.DuplicateFlag | src/main/java/io/vevox/vx/lib/cmd/vxCommand.java:156 | `Duplicate flag ` followed by the flag's name |
| Commands.ValidationFailed | src/main/java/io/vevox/vx/lib/cmd/vxCommand.java:157 | the flag's validation message |
| Commands.ParseChars | src/main/java/io/vevox/vx/lib/cmd/vxCommand.java:143-169 | the character loop over a short-named group: each character's checks in the source's order, a flag's value read after the match, switches collected |
| Commands.ParseMatches | src/main/java/io/vevox/vx/lib/cmd/vxCommand.java:130-172 | the `find()` loop over the matches, skipping `--name` groups and stopping at the first error |
| Commands.ParseSpec | src/main/java/io/vevox/vx/lib/cmd/vxCommand.java:118-178 | `parse`: the match loop from no flags and no switches, and the text before the first match split at spaces |
| Commands.FlagNameOf | src/main/java/io/vevox/vx/lib/cmd/vxCommand.java:80-84 | `getFlag(char)`: a registered flag with that short name |
| Commands.SwitchNameOf | src/main/java/io/vevox/vx/lib/cmd/vxCommand.java:92-96 | `getSwitch(char)`: a registered switch with that short name |
| Commands.FlagCharIsUnique | src/main/java/io/vevox/vx/lib/cmd/vxCommand.java:32-38 | because registration refuses a taken short name, an alphanumeric short name identifies one flag and no switch |
| Commands.SwitchCharIsUnique | src/main/java/io/vevox/vx/lib/cmd/vxCommand.java:40-46 | an alphanumeric short name identifies one switch and no flag |
| Commands.Command.constructor | src/main/java/io/vevox/vx/lib/cmd/vxCommand.java:25-30 | a new command has no options |
| Commands.Command.GetFlag | src/main/java/io/vevox/vx/lib/cmd/vxCommand.java:74-78 | finds a flag exactly when one is registered under the name |
| Commands.Command.GetSwitch | src/main/java/io/vevox/vx/lib/cmd/vxCommand.java:86-90 | finds a switch exactly when one is registered under the name |
| Commands.Command.GetFlagByChar | src/main/java/io/vevox/vx/lib/cmd/vxCommand.java:80-84 | finds a flag exactly when some flag has the short name, and then returns one |
| Commands.Command.GetSwitchByChar | src/main/java/io/vevox/vx/lib/cmd/vxCommand.java:92-96 | finds a switch exactly when some switch has the short name, and then returns one |
| Commands.Command.HasName | src/main/java/io/vevox/vx/lib/cmd/vxCommand.java:64-66 | a flag or a switch has the name |
| Commands.Command.HasChar | src/main/java/io/vevox/vx/lib/cmd/vxCommand.java:68-71 | the character is alphanumeric and some flag or switch has it as short name |
| Commands.Command.RegisterFlag | src/main/java/io/vevox/vx/lib/cmd/vxCommand.java:32-38 | succeeds exactly when neither the name nor the short name is taken, then adds only that flag and keeps the registry invariant; otherwise throws and changes nothing |
| Commands.Command.RegisterSwitch | src/main/java/io/vevox/vx/lib/cmd/vxCommand.java:40-46 | the same for switches |
| Commands.Command.GetStringFrom | src/main/java/io/vevox/vx/lib/cmd/vxCommand.java:98-116 | the method returns exactly `FlagValue` |
| Commands.Command.ParseGroup | src/main/java/io/vevox/vx/lib/cmd/vxCommand.java:143-169 | the character loop returns exactly `ParseChars` |
| Commands.Command.Parse | src/main/java/io/vevox/vx/lib/cmd/vxCommand.java:118-178 | the method returns exactly `ParseSpec` of its registry and line |
| Commands.Command.ParseArgs | src/main/java/io/vevox/vx/lib/cmd/vxCommand.java:180-182 | parsing several arguments is parsing them joined by single spaces |
| Commands.RegisterFlagTwice | src/main/java/io/vevox/vx/lib/cmd/vxCommand.java:32-38 | a second registration of the same flag is refused, and the registry stays as the first one left it |
| ParseProperties.GroupSwitchesMembers | src/main/java/io/vevox/vx/lib/cmd/vxCommand.java:163-166 | the switches a group names are the switches of its switch characters |
| ParseProperties.SwitchGroup | src/main/java/io/vevox/vx/lib/cmd/vxCommand.java:148-167 | a group that names no single flag succeeds exactly when every character is a switch's short name; the error is the one for its first bad character |
| ParseProperties.SwitchGroupAccepted | src/main/java/io/vevox/vx/lib/cmd/vxCommand.java:163-166 | an accepted group is made of switch characters and adds exactly their switches |
| ParseProperties.SwitchGroupRejected | src/main/java/io/vevox/vx/lib/cmd/vxCommand.java:148-167 | a rejected group has a first character that is not a switch's short name, and the error names it: `Flag used as switch` for a flag's character, otherwise `Unknown flag or switch` |
| ParseProperties.FlagGroup | src/main/java/io/vevox/vx/lib/cmd/vxCommand.java:150-161 | a single flag character succeeds exactly when a value follows, the flag is new and the validator accepts; the checks come in that order |
| ParseProperties.FlagsOfKeys | src/main/java/io/vevox/vx/lib/cmd/vxCommand.java:158 | every flag in the result was given by an option, and that option's position is returned |
| ParseProperties.ParseMatchesSpec | src/main/java/io/vevox/vx/lib/cmd/vxCommand.java:130-172 | the match loop succeeds exactly when every option is acceptable and no flag repeats, and it then returns the flags and switches of the options |
| ParseProperties.LongOptionStep | src/main/java/io/vevox/vx/lib/cmd/vxCommand.java:136-140 | a `--name` option changes nothing |
| ParseProperties.FlagOptionStep | src/main/java/io/vevox/vx/lib/cmd/vxCommand.java:150-161 | one loop step over a flag option keeps the loop's statement true |
| ParseProperties.FlagOptionStored | src/main/java/io/vevox/vx/lib/cmd/vxCommand.java:158 | an accepted flag option stores its value under the flag's name |
| ParseProperties.FlagOptionSetsNoSwitch | src/main/java/io/vevox/vx/lib/cmd/vxCommand.java:150-161 | a flag option sets no switch |
| ParseProperties.FlagNotGivenLater | src/main/java/io/vevox/vx/lib/cmd/vxCommand.java:156 | when no flag repeats, a flag given first is not given again later |
| ParseProperties.SwitchOptionStep | src/main/java/io/vevox/vx/lib/cmd/vxCommand.java:163-167 | one loop step over a switch group keeps the loop's statement true |
| ParseProperties.AllAcceptedMeans | src/main/java/io/vevox/vx/lib/cmd/vxCommand.java:130-172 | every match is acceptable exactly when each of them is |
| ParseProperties.FlagsUniqueMeans | src/main/java/io/vevox/vx/lib/cmd/vxCommand.java:156 | no flag repeats exactly when no two matches name the same flag |
| ParseProperties.FlagsUniqueSound | src/main/java/io/vevox/vx/lib/cmd/vxCommand.java:156 | when no flag repeats, no match names a flag already given and no two matches name the same flag |
| ParseProperties.FlagsUniqueComplete | src/main/java/io/vevox/vx/lib/cmd/vxCommand.java:156 | the converse: matches naming pairwise different new flags repeat no flag |
| ParseProperties.FlagsOfValues | src/main/java/io/vevox/vx/lib/cmd/vxCommand.java:155-158 | each flag option's value is the value stored for its flag |
| ParseProperties.FlagValueStored | src/main/java/io/vevox/vx/lib/cmd/vxCommand.java:155-158 | the same for one flag option |
| ParseProperties.FlagNotUsed | src/main/java/io/vevox/vx/lib/cmd/vxCommand.java:156 | when no flag repeats, no flag option names a flag that was already given |
| ParseProperties.SwitchesOfMembers | src/main/java/io/vevox/vx/lib/cmd/vxCommand.java:166 | a switch is in the result exactly when one of the matches sets it |
| ParseProperties.SwitchOfSome | src/main/java/io/vevox/vx/lib/cmd/vxCommand.java:166 | a switch in the result comes from a match, whose position is returned |
| ParseProperties.SwitchOfEach | src/main/java/io/vevox/vx/lib/cmd/vxCommand.java:166 | every switch a match sets is in the result |
| ParseProperties.MatchesArePositions | src/main/java/io/vevox/vx/lib/cmd/vxCommand.java:130 | the matches of a line are exactly its option positions |
| ParseProperties.ParseSpecMeans | src/main/java/io/vevox/vx/lib/cmd/vxCommand.java:118-178 | `parse` over the whole line succeeds exactly when its matches are accepted and unique, and it returns their flags and switches |
| ParseProperties.EveryOptionAccepted | src/main/java/io/vevox/vx/lib/cmd/vxCommand.java:130-172 | every match is accepted exactly when every option position is |
| ParseProperties.NoFlagTwice | src/main/java/io/vevox/vx/lib/cmd/vxCommand.java:156 | no flag repeats in the matches exactly when no two option positions name the same flag |
| ParseProperties.ParseSucceedsIff | src/main/java/io/vevox/vx/lib/cmd/vxCommand.java:118-178 | `parse` succeeds exactly on lines whose options are each acceptable and name no flag twice |
| ParseProperties.ParsedFlagValues | src/main/java/io/vevox/vx/lib/cmd/vxCommand.java:155-158 | every flag option of a parsed line has its value in the result |
| ParseProperties.ParsedFlagsGiven | src/main/java/io/vevox/vx/lib/cmd/vxCommand.java:154-158 | every flag in the result was given by an option, and its value passed that flag's validator |
| ParseProperties.ParsedFlagGiven | src/main/java/io/vevox/vx/lib/cmd/vxCommand.java:154-158 | the same for one flag |
| ParseProperties.FlagOfMatches | src/main/java/io/vevox/vx/lib/cmd/vxCommand.java:154-158 | the same, stated over the matches: the match that gave the flag is returned |
| ParseProperties.ParsedSwitches | src/main/java/io/vevox/vx/lib/cmd/vxCommand.java:163-167 | the switches of a parsed line are exactly those its options set, and all are registered |
| ParseProperties.ParsedSwitch | src/main/java/io/vevox/vx/lib/cmd/vxCommand.java:163-167 | the same for one switch name |
| ParseProperties.SwitchOfLine | src/main/java/io/vevox/vx/lib/cmd/vxCommand.java:163-167 | the same, stated over the matches |
| ParseProperties.SwitchesAtRegistered | src/main/java/io/vevox/vx/lib/cmd/vxCommand.java:165 | an option sets only registered switches |
| ParseProperties.SwitchesAtMembers | src/main/java/io/vevox/vx/lib/cmd/vxCommand.java:148-167 | the switches an option sets are those of its switch characters, and a `--name` option sets none |
| ParseProperties.ArgsBeforeFirstOption | src/main/java/io/vevox/vx/lib/cmd/vxCommand.java:174-176 | the positional arguments are the text before the first option, split at spaces |
| ParseProperties.LineWithoutOptions | src/main/java/io/vevox/vx/lib/cmd/vxCommand.java:174-176 | with no option the whole line is positional, and no flag or switch is set |
| ParseProperties.LineWithoutSpaceIsPositional | src/main/java/io/vevox/vx/lib/cmd/vxCommand.java:174-175 | a line without spaces is a single positional argument |
| ParseProperties.ParseMatchesErrors | src/main/java/io/vevox/vx/lib/cmd/vxCommand.java:149-160 | every error of the match loop is one of the five parse errors |
| ParseProperties.ParseErrors | src/main/java/io/vevox/vx/lib/cmd/vxCommand.java:149-160 | every error `parse` throws is one of the five parse errors |
| ParseProperties.FirstFailure | src/main/java/io/vevox/vx/lib/cmd/vxCommand.java:130-169 | a failing match loop fails at a short-named option that the matches before it let through, with the error its group raises from what they collected; the index is returned |
| ParseProperties.FailsFirstHere | src/main/java/io/vevox/vx/lib/cmd/vxCommand.java:148-161 | a failing first option is the first failure |
| ParseProperties.FailsFirstAfterLong | src/main/java/io/vevox/vx/lib/cmd/vxCommand.java:136-140 | a skipped `--name` option moves the first failure one match on |
| ParseProperties.FailsFirstAfterShort | src/main/java/io/vevox/vx/lib/cmd/vxCommand.java:141-169 | an option that goes through moves the first failure one match on, from what it collected |
| ParseProperties.FromStart | src/main/java/io/vevox/vx/lib/cmd/vxCommand.java:120-121 | matches that go through from no flags and no switches collect exactly their own flags and switches, each acceptable and without a repeated flag |
| ParseProperties.ParseFirstFailure | src/main/java/io/vevox/vx/lib/cmd/vxCommand.java:118-169 | the error `parse` throws is the error of its first failing option in `find()` order, given the flags and switches of the options before it, which are each acceptable and name no flag twice |
| LoggingLevels.Ordinal | src/main/java/co/mcsp/vxlib/logging/LoggingLevel.java:21-46 | `ordinal()` is the level's position in `values()` |
| LoggingLevels.OrdinalIsBijective | src/main/java/co/mcsp/vxlib/logging/LoggingLevel.java:21-46 | different levels have different ordinals, and every ordinal below six belongs to a level |
| LoggingLevels.DocumentedOrder | src/main/java/co/mcsp/vxlib/logging/LoggingLevel.java:9-11 | SILLY < DEBUG < VERBOSE < INFO < WARNING < ERROR |
| LoggingLevels.AtLeast | src/main/java/co/mcsp/vxlib/logging/vxLogger.java:120 | a message passes a threshold when its level's ordinal is at least the threshold's |
| LoggingLevels.AtLeastIsTotalOrder | src/main/java/co/mcsp/vxlib/logging/LoggingLevel.java:9-11 | comparing ordinals is a total order, with SILLY lowest and ERROR highest |
| LoggingLevels.Color | src/main/java/co/mcsp/vxlib/logging/LoggingLevel.java:52-66 | `color()` never reaches the RESET fallback |
| LoggingLevels.ColorsOfLevels | src/main/java/co/mcsp/vxlib/logging/LoggingLevel.java:54-63 | SILLY, VERBOSE and INFO are white, DEBUG light purple, WARNING yellow and ERROR red; warning colours mark exactly the levels from WARNING up |
| Loggers.Accepts | src/main/java/co/mcsp/vxlib/logging/vxLogger.java:120 | a transport takes a message whose level is at least its own |
| Loggers.Delivered | src/main/java/co/mcsp/vxlib/logging/vxLogger.java:119-121 | the log after one message: each accepting transport has it appended, the others are unchanged |
| Loggers.TransportTable | src/main/java/co/mcsp/vxlib/logging/vxLogger.java:83 | the table built by adding the initial transports one at a time |
| Loggers.DeliveryMeans | src/main/java/co/mcsp/vxlib/logging/vxLogger.java:119-121 | delivery keeps every earlier message and adds the message to exactly the transports whose level it reaches |
| Loggers.DeliveryRespectsLevels | src/main/java/co/mcsp/vxlib/logging/vxLogger.java:120 | delivery keeps every transport's log free of messages below its level, the level being the one the transport had when each message was delivered |
| Loggers.DeliveredEverywhere | src/main/java/co/mcsp/vxlib/logging/vxLogger.java:119-121 | once every transport has had its turn, in any order, the log is the delivered log |
| Loggers.DeliveredToOne | src/main/java/co/mcsp/vxlib/logging/vxLogger.java:119-121 | with one transport, delivery appends the message or does nothing |
| Loggers.TransportTableKeys | src/main/java/co/mcsp/vxlib/logging/vxLogger.java:83 | the table built from the initial transports is keyed by exactly their names |
| Loggers.TransportTableValues | src/main/java/co/mcsp/vxlib/logging/vxLogger.java:83 | with distinct names, each initial transport is stored under its own name |
| Loggers.TransportTableStep | src/main/java/co/mcsp/vxlib/logging/vxLogger.java:83 | adding the next initial transport fails exactly when its name is already taken, which means the names are not distinct; otherwise it extends the table by that one entry |
| Loggers.Logger.AboveIsShallower | src/main/java/co/mcsp/vxlib/logging/vxLogger.java:77-81 | the parent chain is finite and never contains the logger itself |
| Loggers.Logger.Init | src/main/java/co/mcsp/vxlib/logging/vxLogger.java:77-81 | stores the name and the parent, with no transports |
| Loggers.Logger.Create | src/main/java/co/mcsp/vxlib/logging/vxLogger.java:77-84 | an empty name fails with its message; a repeated initial transport name fails with the duplicate message; otherwise the new logger holds exactly the initial transports |
| Loggers.Logger.Add | src/main/java/co/mcsp/vxlib/logging/vxLogger.java:95-103 | a name already present is refused and nothing changes; otherwise exactly that entry is added and the logger itself is returned |
| Loggers.Logger.DeliverLocally | src/main/java/co/mcsp/vxlib/logging/vxLogger.java:119-121 | the loop over the transports, in any order, leaves the delivered log and does not change the table |
| Loggers.Logger.Log | src/main/java/co/mcsp/vxlib/logging/vxLogger.java:116-124 | every logger in the chain delivers the message to its accepting transports, tagged with itself, and no table changes |
| Loggers.Logger.Silly | src/main/java/co/mcsp/vxlib/logging/vxLogger.java:152-154 | `log` at SILLY |
| Loggers.Logger.Debug | src/main/java/co/mcsp/vxlib/logging/vxLogger.java:181-183 | `log` at DEBUG |
| Loggers.Logger.Verbose | src/main/java/co/mcsp/vxlib/logging/vxLogger.java:210-212 | `log` at VERBOSE |
| Loggers.Logger.Info | src/main/java/co/mcsp/vxlib/logging/vxLogger.java:239-241 | `log` at INFO |
| Loggers.Logger.Warning | src/main/java/co/mcsp/vxlib/logging/vxLogger.java:268-270 | `log` at WARNING |
| Loggers.Logger.Error | src/main/java/co/mcsp/vxlib/logging/vxLogger.java:297-299 | `log` at ERROR |
| Loggers.ExampleLoggers | src/main/java/co/mcsp/vxlib/logging/vxLogger.java:77-84 | a plugin logger with a console transport and a child logger with a file transport, both created without error |
| Loggers.LogThroughExample | src/main/java/co/mcsp/vxlib/logging/vxLogger.java:116-124 | in the example pair, a message always reaches the child's file and reaches the parent's console exactly when it is at least INFO, each copy tagged with the logger that delivers it |
| Loggers.FanOutExample | src/main/java/co/mcsp/vxlib/logging/vxLogger.java:116-124 | after a DEBUG line and then a WARNING line from the child, its file holds both lines in order and the parent's INFO console holds only the WARNING line |

## Left out

- I/O and the host game server are not modelled: the plugin glue, `CommandDelegator.onCommand`,
  the `plugin.getCommand` call in the `vxCommand` constructor, and `TransportConsole`.
- What a transport does in `receive` is outside the model. Only the delivery is recorded, in the
  ghost log.
- The formatted `log(level, fmt, args...)` and its six shortcut overloads are not modelled. They
  go through `String.format`, which is a library call.
- `Loggers.Logger.Create` stands for the four `vxLogger` constructors. The three convenience
  ones call it with no parent and/or no transports.
- Null checks (`Validate.notNull`, `@NotNull`) are not modelled. Dafny values are never null.
- `CommandDelegator.isAlphanumeric` is not part of this model. Its documented meaning,
  `[0-9A-Za-z]`, is used instead.
- Java's `HashSet` and `HashMap` are not modelled. Options are keyed by name, which is what
  their `equals` compares (they do not override `hashCode`). Iteration order is unspecified:
  the loops pick any remaining key.
- A transport object shared by several loggers is not modelled. Each logger records only what
  it delivered itself.
- Validators are modelled as pure total functions. They have no side effects and throw no
  exceptions.
- Line terminators in the argument line are treated as ordinary characters. In Java's regex
  the `.` of `\\.` does not match one, and `$` also matches just before a final one.
- `OptionScanner.DocumentedLineMatches` states the option positions of the documented example
  line, not the full `parse` result for it. The general lemmas of `ParseProperties` give that
  result.
- Commands.UnknownOption: strings are sequences of Unicode scalar values, not UTF-16 code units.
  Java's `toCharArray()` splits a character outside the Basic Multilingual Plane into two
  surrogates, so for such a character in a group Java reports a lone high surrogate. The model
  names the whole character. The same holds for `FlagUsedAsSwitch`, `FlagRequiresArgument` and
  every other per-character step of the scanner.
- JavaText.DecimalString: prints ASCII digits and an ASCII minus sign. Java's `String.format("%d", …)`
  uses the default locale's zero digit and minus sign, so under another locale the messages of
  `UnknownArgumentException` and `MissingArgumentException` can differ.
- Loggers.Transport: a transport's `name()` and `level()` are taken as fixed once it is added
  to a logger. `Transport` is an interface whose level may have a setter, and `log` reads
  `level()` afresh on every call. A transport whose level changes after it is added is not
  modelled. `RespectsLevels` and `Loggers.DeliveryRespectsLevels` therefore hold only for
  transports whose level does not change. Each single `log` call still filters by the level
  at that moment, as `Delivered` does.
