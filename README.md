# FizzBuzz configuration and round evaluation, in Dafny

FizzBuzz is a console program that plays a generalised game of FizzBuzz. For each round from 1
to `Rounds`, it prints either the replacement texts of the divisors that match the round or the
round's number. The texts come in ascending divisor order, joined by a space. All the rounds go
on one line, joined by ", ".

A divisor matches a round when it divides the round. When `MatchByContains` holds, it also
matches when its decimal text occurs in the round's. The configuration (`AppConfig`) comes from
the arguments. The program has two providers for it:

- `AppConfigProvider` validates the configuration tree that the .NET configuration library
  builds from `key=value` and `divisors:<n>=<text>` arguments. It raises
  `AppConfigValidationException` on the first problem it finds. This is the provider `Main` uses.
- `CommandLineConfigProvider` parses the raw argument list itself, `rounds=<n>` and
  `divisor=<n>=<text>`. It raises `AppConfigLoadingException`.

## Modules

- `Wrappers`: `Option` and `Result`.
- `Text`: the ordinal string operations of the .NET base library that the core uses:
  `Int32.ToString`, `StartsWith`, `Contains`, `string.Join` and trimming.
- `Framework`: `int.TryParse` over Int32, `bool.TryParse` and `string.IsNullOrWhiteSpace`.
  `int.TryParse` and `Int32.ToString` use the current culture; the model takes it to be the
  invariant one.
- `Config`: `AppConfig`, the error datatype and the divisor dictionary.
  - The error datatype has one constructor per exception that can escape loading: validation,
    loading, and the `ArgumentException` that `Dictionary.Add` throws on a repeated key.
  - A `Dictionary<int, string>` that is only ever added to becomes the sequence of its entries
    in insertion order, which is the order .NET enumerates it in. `ToMap` is its map view.
    `AddAll` is the `foreach` loop that adds parsed entries one at a time.
- `AppConfigProvider`:
  - the configuration tree, as a map from top-level keys to sections, each with an optional
    value and its children;
  - the unknown-key check;
  - the three `Parse…Config` steps, in source order;
  - `Load`, the constructor.
- `CommandLineConfigProvider`:
  - the two anchored regular expressions, matched character by character (the .NET `$` also
    holds before a final line feed, and `.` does not match a line feed);
  - the rounds and divisor parsing;
  - the class with its constructor, `GetConfig` and the `ParseDivisorArguments` loop.
- `Program`: the body of `Main` after configuration:
  - the help check;
  - the `Where`/`OrderBy`/`Select` pipeline of one round;
  - the round loop, as the method `EvaluateRounds`;
  - the outcome of a run.
- `Oracles`: the expected values of the repository's unit and output tests, stated on the
  model. It also holds `ClassicFizzBuzz`, a textbook definition of the game written
  independently of the dictionary machinery, which the default configuration is proved to equal.

## Model

| member | source | states |
|---|---|---|
| Text.DecimalRoundTrip | FizzBuzz/Program.cs:68 | reading back the decimal text `ToString` writes for a non-negative number gives the number |
| Text.ContainsIsOccurrence | FizzBuzz/Program.cs:60 | ordinal `Contains` holds exactly when the searched text occurs at some index |
| Text.IntToDecimal | FizzBuzz/Program.cs:68 | `Int32.ToString` of a round: its contract states that the text is never empty; `Framework.TryParseInt32OfDecimal` states its inverse over all of Int32, negatives included, and `Text.DecimalRoundTrip` the non-negative case |
| Text.TrimAround | FizzBuzz/Config/AppConfigProvider.cs:178 | trimming removes exactly the trimmable characters around a core whose first and last characters are kept |
| Framework.TryParseInt32OfDecimal | FizzBuzz/Config/AppConfigProvider.cs:116 | `int.TryParse` of the decimal text of any Int32 gives that Int32 back |
| Framework.TryParseInt32 | FizzBuzz/Config/AppConfigProvider.cs:116 | `int.TryParse` (number white space around an optional sign and decimal digits) only ever yields an Int32; the lemmas on the next rows state which texts parse to what |
| Framework.ParseTrimmedInt32 | FizzBuzz/Config/AppConfigProvider.cs:116 | what `int.TryParse` makes of the trimmed text: an optional sign and one or more digits whose signed value must fit in an Int32, and nothing else |
| Framework.TryParseInt32OfDigits | FizzBuzz/Config/CommandLineConfigProvider.cs:101 | a bare digit run parses to its value exactly when the value fits in an Int32, and fails otherwise |
| Framework.TryParseInt32RejectsStray | FizzBuzz/Config/AppConfigProvider.cs:116-117 | a character that is not a digit, a sign or number white space makes `int.TryParse` fail wherever it stands |
| Framework.TryParseBoolOfToString | FizzBuzz/Config/AppConfigProvider.cs:178 | `bool.TryParse` reads back "True" and "False" as the booleans they name |
| Framework.TryParseBool | FizzBuzz/Config/AppConfigProvider.cs:178 | `bool.TryParse` trims white space and null characters and compares with "True" and "False" ignoring ASCII case; the lemmas around this row state its results |
| Framework.TryParseBoolOfAnyCase | FizzBuzz/Config/AppConfigProvider.cs:178 | any case variant of "true" or "false", with white space or null characters around it, parses to that boolean |
| Framework.TryParseBoolRejects | FizzBuzz/Config/AppConfigProvider.cs:178-179 | a text whose first character after trimming is not a T or an F, in either case, is not a boolean |
| Framework.TryParseBoolRejectsFirst | FizzBuzz/Config/AppConfigProvider.cs:178-179 | a text that starts with a character that is neither trimmed nor a T or F, in either case, is not a boolean |
| Config.EntryInToMap | FizzBuzz/Config/AppConfig.cs:18 | when keys are distinct, an entry is in the dictionary exactly when its key maps to its value |
| Config.Add | FizzBuzz/Config/AppConfigProvider.cs:159 | `Dictionary.Add` fails with the duplicate key exactly when the key is present; otherwise the map gains exactly that pair and keys stay distinct |
| Config.AddAll | FizzBuzz/Config/AppConfigProvider.cs:148-160 | the `foreach` over parsed items that calls `Dictionary.Add` on each (also FizzBuzz/Config/CommandLineConfigProvider.cs:123-143); `Config.AddAllSucceeds` and `Config.AddAllFirstFault` state its results |
| Config.AddAllSucceeds | FizzBuzz/Config/AppConfigProvider.cs:148-162 | loading succeeds exactly when every item parses and no key repeats, and then yields the parsed entries in item order |
| Config.AddAllFirstFault | FizzBuzz/Config/AppConfigProvider.cs:148-160 | a failed load reports the error of the first item that does not parse or whose key was already added, after all earlier items were added |
| AppConfigProvider.ParseRoundsConfig | FizzBuzz/Config/AppConfigProvider.cs:109-123 | null exactly when the rounds section does not exist; any value returned is an Int32 of at least 1 |
| AppConfigProvider.ValidateDivisorChild | FizzBuzz/Config/AppConfigProvider.cs:150-157 | an accepted child has an Int32 key of at least 1 and a value that is not null or white space, and the entry carries that value |
| AppConfigProvider.DivisorConfig | FizzBuzz/Config/AppConfigProvider.cs:131-163 | null exactly when the divisors section does not exist |
| AppConfigProvider.ParseDivisorConfig | FizzBuzz/Config/AppConfigProvider.cs:146-162 | the `foreach` loop over the children returns what the specification function `DivisorConfig` gives, error cases included |
| AppConfigProvider.ParseMatchByContainsConfig | FizzBuzz/Config/AppConfigProvider.cs:171-182 | null exactly when the matchByContains section does not exist |
| AppConfigProvider.IsUnknownKey | FizzBuzz/Config/AppConfigProvider.cs:74-77 | a top-level key is unknown when it is none of the configuration item names and not "divisors:"; `AppConfigProvider.UnknownKeyWins` states its effect |
| AppConfigProvider.LoadedConfig | FizzBuzz/Config/AppConfigProvider.cs:71-87 | the constructor's validation: the unknown-key check first, then rounds, divisors and matchByContains in that order, each absent one taking its default; the lemmas below state its results |
| AppConfigProvider.Load | FizzBuzz/Config/AppConfigProvider.cs:71-87 | the constructor yields the configuration, or the exception, that `LoadedConfig` describes |
| AppConfigProvider.UnknownKeyWins | FizzBuzz/Config/AppConfigProvider.cs:74-78 | a top-level key outside rounds, divisors, matchByContains and help gives "Unknown argument", whatever else the tree holds |
| AppConfigProvider.RoundsConfigOfDecimal | FizzBuzz/Config/AppConfigProvider.cs:116-122 | a rounds value reading as an Int32 is "must be greater than 0" below 1, and is used as is otherwise |
| AppConfigProvider.RoundsConfigNotANumber | FizzBuzz/Config/AppConfigProvider.cs:116-117 | a rounds section with no value, or with a stray character, gives "not a number" |
| AppConfigProvider.DivisorsWithoutChildren | FizzBuzz/Config/AppConfigProvider.cs:138-139 | a divisors section with a value but no children gives "argument malformed" |
| AppConfigProvider.DivisorChildOfDecimal | FizzBuzz/Config/AppConfigProvider.cs:150-157 | a child keyed by an Int32 is rejected below 1, rejected with blank text, and accepted otherwise, in that order |
| AppConfigProvider.DivisorKeyNotANumber | FizzBuzz/Config/AppConfigProvider.cs:150-151 | a child whose key holds a character that is not a digit, a sign or number white space is rejected with the not-an-integer validation error, whatever its text |
| AppConfigProvider.DigitsChild | FizzBuzz/Config/AppConfigProvider.cs:150-157 | a child keyed by any digit run, leading zeros included, is accepted with the digits' value when it is a positive Int32 and the text is not blank |
| AppConfigProvider.DivisorConfigLoadsChildren | FizzBuzz/Config/AppConfigProvider.cs:138-162 | an existing divisors section loads exactly when it has children that all validate with distinct keys, into one entry per child in child order |
| AppConfigProvider.DivisorConfigFirstFault | FizzBuzz/Config/AppConfigProvider.cs:148-160 | a failing divisors section reports the first child that does not validate or repeats an earlier key |
| AppConfigProvider.MatchByContainsOfToString | FizzBuzz/Config/AppConfigProvider.cs:178-181 | a matchByContains value of "True" or "False" gives that boolean |
| AppConfigProvider.MatchByContainsOfAnyCase | FizzBuzz/Config/AppConfigProvider.cs:178-181 | a matchByContains value holding any case variant of "true" or "false", with white space around it, gives that boolean |
| AppConfigProvider.LoadedConfigValid | FizzBuzz.Tests/AppConfigProviderTests.cs:27-31 | every accepted configuration has rounds of at least 1, at least one divisor, distinct positive keys and non-blank texts |
| AppConfigProvider.LoadedDefaults | FizzBuzz/Config/AppConfigProvider.cs:81-86 | each absent setting takes its default (100, 3 "Fizz" and 5 "Buzz", false), and each present one, the divisors included, takes the value parsed from it |
| AppConfigProvider.EmptyRootDefaults | FizzBuzz/Config/AppConfigProvider.cs:13-27 | an empty tree gives 100 rounds, the divisors 3 "Fizz" and 5 "Buzz", and no contains matching |
| AppConfigProvider.RepeatedDivisorKey | FizzBuzz/Config/AppConfigProvider.cs:159 | children "3" and "03" fail in `Dictionary.Add` with key 3, which is not a validation error |
| AppConfigProvider.RepeatedKeyChildren | FizzBuzz/Config/AppConfigProvider.cs:148-160 | loading the children "3" and "03" stops at the second with the duplicate key 3 |
| CommandLineConfigProvider.WithPrefix | FizzBuzz/Config/CommandLineConfigProvider.cs:88 | the filter keeps exactly the arguments with the prefix, and no more than there were |
| CommandLineConfigProvider.IsUnknownArgument | FizzBuzz/Config/CommandLineConfigProvider.cs:71-72 | an argument is unknown when it starts with neither "divisor=" nor "rounds="; `CommandLineConfigProvider.UnknownArgumentWins` states its effect |
| CommandLineConfigProvider.ConfigFromArgs | FizzBuzz/Config/CommandLineConfigProvider.cs:68-80 | `GetConfig` on values: the unknown-argument check, then rounds and divisors, with `MatchByContains` always false; the lemmas below state its results |
| CommandLineConfigProvider.MatchRoundsArg | FizzBuzz/Config/CommandLineConfigProvider.cs:14 | a captured rounds group is a non-empty run of ASCII digits |
| CommandLineConfigProvider.MatchDivisorArg | FizzBuzz/Config/CommandLineConfigProvider.cs:19 | a captured key is a non-empty digit run and a captured text has no line feed |
| CommandLineConfigProvider.MatchRoundsArgIff | FizzBuzz/Config/CommandLineConfigProvider.cs:14 | the rounds pattern captures `digits` exactly when the argument is "rounds=" and one or more digits, optionally followed by one final line feed |
| CommandLineConfigProvider.MatchDivisorArgIff | FizzBuzz/Config/CommandLineConfigProvider.cs:19 | the divisor pattern captures `key` and `text` exactly when the argument is "divisor=", the digits, "=", a text without line feeds and at most a final line feed |
| CommandLineConfigProvider.ParseRoundCountArgument | FizzBuzz/Config/CommandLineConfigProvider.cs:86-108 | null exactly when no argument starts with "rounds="; any value returned is an Int32 of at least 1; every failure is a loading error |
| CommandLineConfigProvider.ParseDivisorArg | FizzBuzz/Config/CommandLineConfigProvider.cs:125-142 | an accepted argument has an Int32 key of at least 1; every failure is a loading error |
| CommandLineConfigProvider.DivisorArguments | FizzBuzz/Config/CommandLineConfigProvider.cs:114-146 | null exactly when no argument starts with "divisor=" |
| CommandLineConfigProvider.CommandLineConfigProvider.constructor | FizzBuzz/Config/CommandLineConfigProvider.cs:51-54 | a null argument array is kept as an empty one, and any other array as it is |
| CommandLineConfigProvider.CommandLineConfigProvider.GetConfig | FizzBuzz/Config/CommandLineConfigProvider.cs:68-80 | returns or throws what `ConfigFromArgs` of the stored arguments gives |
| CommandLineConfigProvider.CommandLineConfigProvider.ParseDivisorArguments | FizzBuzz/Config/CommandLineConfigProvider.cs:114-146 | the `foreach` loop over the divisor arguments returns what `DivisorArguments` gives, error cases included |
| CommandLineConfigProvider.WithPrefixTwo | FizzBuzz/Config/CommandLineConfigProvider.cs:93-94 | two arguments with the prefix make the filter hold at least two |
| CommandLineConfigProvider.WithPrefixOne | FizzBuzz/Config/CommandLineConfigProvider.cs:88 | when only one argument has the prefix, the filter holds exactly that one |
| CommandLineConfigProvider.WithPrefixNone | FizzBuzz/Config/CommandLineConfigProvider.cs:88-91 | without an argument that has the prefix, the filter is empty |
| CommandLineConfigProvider.UnknownArgumentWins | FizzBuzz/Config/CommandLineConfigProvider.cs:71-73 | an argument starting with neither "divisor=" nor "rounds=" gives "Unknown arguments given", whatever else is passed |
| CommandLineConfigProvider.DuplicateRoundsRejected | FizzBuzz/Config/CommandLineConfigProvider.cs:93-94 | two rounds arguments give "Duplicate rounds argument", even when both are well formed |
| CommandLineConfigProvider.RoundsArgOfDecimal | FizzBuzz/Config/CommandLineConfigProvider.cs:96-107 | a single "rounds=<n>" gives n; zero is "must be greater than 0" and a value beyond Int32 is "not a number" |
| CommandLineConfigProvider.RoundsArgMalformed | FizzBuzz/Config/CommandLineConfigProvider.cs:96-99 | any character after "rounds=" that is neither a digit nor a final line feed makes the argument malformed |
| CommandLineConfigProvider.RoundsArgNoMatch | FizzBuzz/Config/CommandLineConfigProvider.cs:14 | such a character defeats the rounds pattern |
| CommandLineConfigProvider.DivisorArgOfDecimal | FizzBuzz/Config/CommandLineConfigProvider.cs:125-142 | "divisor=<n>=<text>" gives the entry n to text; zero is "must be greater than 0" and a key beyond Int32 is "not a number" |
| CommandLineConfigProvider.DivisorArgOfDigits | FizzBuzz/Config/CommandLineConfigProvider.cs:133-142 | a key written with leading zeros gives the value of its digits |
| CommandLineConfigProvider.DivisorArgIsKnown | FizzBuzz/Config/CommandLineConfigProvider.cs:71-72 | an argument built from "divisor=" is known and is not a rounds argument |
| CommandLineConfigProvider.DivisorArgWithoutKey | FizzBuzz/Config/CommandLineConfigProvider.cs:127-128 | a divisor argument with no digit after "divisor=" is malformed |
| CommandLineConfigProvider.RepeatedDivisorArguments | FizzBuzz/Config/CommandLineConfigProvider.cs:142 | "divisor=3=a" followed by "divisor=03=b" fails in `Dictionary.Add` with key 3, not with `AppConfigLoadingException` |
| CommandLineConfigProvider.RepeatedDivisorLoad | FizzBuzz/Config/CommandLineConfigProvider.cs:123-143 | the divisor loop over those two arguments stops at the second with the duplicate key 3 |
| CommandLineConfigProvider.DivisorArgumentsLoad | FizzBuzz/Config/CommandLineConfigProvider.cs:116-145 | divisor arguments load exactly when each parses and their keys are distinct, into exactly the parsed pairs in argument order |
| CommandLineConfigProvider.DivisorArgumentsFirstFault | FizzBuzz/Config/CommandLineConfigProvider.cs:123-143 | failed divisor arguments report the first one that does not parse or repeats a key |
| CommandLineConfigProvider.ConfigFromArgsDefaults | FizzBuzz/Config/CommandLineConfigProvider.cs:75-79 | without a rounds argument the count is 100, without divisor arguments the divisors are the defaults, and contains matching is always off |
| CommandLineConfigProvider.ConfigFromArgsValid | FizzBuzz.Tests/CommandLineConfigProviderTests.cs:20-22 | every accepted configuration has rounds of at least 1, at least one divisor, distinct positive Int32 keys and no contains matching |
| Program.MatchingEntries | FizzBuzz/Program.cs:58-60 | an entry is kept exactly when its key divides the round or, with contains matching on, its decimal text occurs in the round's; distinct keys stay distinct |
| Program.Matches | FizzBuzz/Program.cs:59-60 | the `Where` condition: the key divides the round or, with contains matching on, the key's decimal text occurs in the round's |
| Program.InsertByKey | FizzBuzz/Program.cs:61 | insertion adds exactly the one entry |
| Program.OrderByKey | FizzBuzz/Program.cs:61 | the sort is a permutation of its input |
| Program.InsertSorted | FizzBuzz/Program.cs:61 | insertion keeps a listing sorted by key, and strictly ascending when the key is new |
| Program.OrderSorted | FizzBuzz/Program.cs:61 | the sort orders by key, strictly when keys are distinct |
| Program.AscendingUnique | FizzBuzz/Program.cs:61 | two strictly ascending listings of the same entries are equal |
| Program.Values | FizzBuzz/Program.cs:62 | the selected texts are the entries' values, one for one, in order |
| Program.RoundTextAscending | FizzBuzz/Program.cs:57-68 | a round prints the matching divisors' texts in ascending key order, joined by a space, or its decimal number when none matches |
| Program.RoundText | FizzBuzz/Program.cs:57-68 | one round's text: the matching entries, ordered by key, their values joined by a space, or the round's number when none match; `Program.RoundTextAscending` and `Program.RoundTextIgnoresEnumerationOrder` state what it prints |
| Program.RoundTextIgnoresEnumerationOrder | FizzBuzz/Program.cs:58-63 | dictionaries holding the same pairs print the same round, whatever order they enumerate in |
| Program.GameLines | FizzBuzz/Program.cs:55 | a game has exactly `Rounds` lines, none when `Rounds` is below 1 |
| Program.EvaluateRounds | FizzBuzz/Program.cs:53-69 | the loop yields `Rounds` texts, and text i is what round i + 1 prints |
| Program.EvaluatedGame | FizzBuzz/Program.cs:53-69 | any such list of texts is the game's lines |
| Program.Outcome | FizzBuzz/Program.cs:14-71 | a run exits with code 1 and the exception's message exactly when loading fails; it shows help exactly when loading succeeds and the arguments are exactly "help"; otherwise it prints the game's lines joined by ", " |
| Program.Run | FizzBuzz/Program.cs:14-71 | `Main`, with the loop run as a method, ends as `Outcome` describes |
| Program.IsHelpRequest | FizzBuzz/Program.cs:35 | the help check: exactly one argument, and it is "help"; `Program.Outcome` and `Oracles.HelpAnswered` state its effect |
| Oracles.DefaultRoundIsClassic | FizzBuzz.Tests.Ui/ProgramOutputTests.cs:43-45 | with the default divisors, every round prints what the textbook game does |
| Oracles.DefaultGameIsClassic | FizzBuzz.Tests.Ui/ProgramOutputTests.cs:43-45 | with the default divisors and any round count, the game is the textbook game |
| Oracles.ClassicBlock | FizzBuzz.Tests.Ui/ProgramOutputTests.cs:48 | five more rounds of the textbook game extend its lines by those rounds' texts |
| Oracles.FifteenRounds | FizzBuzz.Tests.Ui/ProgramOutputTests.cs:48 | the fifteen textbook rounds are 1, 2, Fizz, 4, Buzz, …, 14, Fizz Buzz |
| Oracles.RoundsOnlyRun | FizzBuzz.Tests.Ui/ProgramOutputTests.cs:48 | a lone rounds setting of n prints the n textbook rounds joined by ", " |
| Oracles.UnknownParameterExits | FizzBuzz.Tests.Ui/ProgramOutputTests.cs:67-90 | "notavalidparam=true" ends the run with code 1 and "Unknown argument" |
| Oracles.HelpAnswered | FizzBuzz/Program.cs:35 | a lone "help" argument prints the help and plays no round |
| Oracles.TestDivisorsRound | FizzBuzz.Tests.Ui/ProgramOutputTests.cs:56-62 | with the divisors 4, 10 and 19, each round prints the matching texts in that order, or its number |
| Oracles.RoundFortyTestDivisors | FizzBuzz.Tests.Ui/ProgramOutputTests.cs:57 | round 40 prints "Test4 Test10" |
| Oracles.SingleTestDivisorRound | FizzBuzz.Tests.Ui/ProgramOutputTests.cs:51-52 | with the single divisor 4, a round prints "Test4" when 4 divides it and its number otherwise |
| Oracles.SingleTestDivisorTreeLoads | FizzBuzz.Tests.Ui/ProgramOutputTests.cs:51 | the tree of "divisors:4=Test4" loads to 100 rounds of that one divisor without contains matching |
| Oracles.TestDivisorGameLines | FizzBuzz.Tests.Ui/ProgramOutputTests.cs:56-62 | the game of n rounds over the divisors 4, 10 and 19 is, line by line, what `Oracles.TestDivisorsRound` says each round prints |
| Oracles.TestChildrenLoad | FizzBuzz.Tests.Ui/ProgramOutputTests.cs:56 | the children "4" Test4, "10" Test10 and "19" Test19 each validate, and together give the divisors 4, 10 and 19 in that order |
| Oracles.TestDivisorsSection | FizzBuzz.Tests.Ui/ProgramOutputTests.cs:56 | a divisors section holding those children loads to those divisors |
| Oracles.TestDivisorsTreeLoads | FizzBuzz.Tests.Ui/ProgramOutputTests.cs:56-57 | the tree of "divisors:4=Test4 divisors:10=Test10 divisors:19=Test19" loads to 100 rounds of those divisors without contains matching |
| Oracles.TestDivisorsRun | FizzBuzz.Tests.Ui/ProgramOutputTests.cs:56-57 | that run prints the 100 lines of those divisors joined by ", " |
| Oracles.ContainsMatchingTreeLoads | FizzBuzz.Tests.Ui/ProgramOutputTests.cs:61 | the tree of "rounds=100 matchByContains=true" and the three divisors loads to 100 rounds of them with contains matching |
| Oracles.ContainsMatchingRun | FizzBuzz.Tests.Ui/ProgramOutputTests.cs:61-62 | that run prints the 100 contains-matching lines joined by ", " |
| Oracles.RoundFourteenByContains | FizzBuzz.Tests.Ui/ProgramOutputTests.cs:61-62 | round 14 prints "14" without contains matching and "Test4" with it |
| Oracles.FortiesByContains | FizzBuzz.Tests.Ui/ProgramOutputTests.cs:62 | with contains matching, rounds 41 to 49 print "Test4" |
| Oracles.MatchByContainsNotABool | FizzBuzz.Tests/AppConfigProviderTests.cs:71 | "not a bool" for matchByContains gives "is not a boolean value" |
| Oracles.DivisorsWithoutIndexRejected | FizzBuzz.Tests/AppConfigProviderTests.cs:70 | "divisors=Fizz" is rejected as malformed |
| Oracles.EmptyDivisorTextRejected | FizzBuzz.Tests/AppConfigProviderTests.cs:64 | the tree provider rejects an empty divisor text as missing |
| Oracles.DivisorKeyNotANumberRejected | FizzBuzz.Tests/AppConfigProviderTests.cs:68 | the tree of "divisors:not a number=Fizz" is rejected with the not-an-integer validation error |
| Oracles.RoundsNotANumberMalformed | FizzBuzz.Tests/CommandLineConfigProviderTests.cs:53 | the command-line provider rejects "rounds=not a number" as malformed |
| Oracles.EmptyDivisorTextKept | FizzBuzz.Tests/CommandLineConfigProviderTests.cs:37 | "divisor=5=" gives the key 5 with an empty text |
| Oracles.DivisorTextWithEqualsKept | FizzBuzz.Tests/CommandLineConfigProviderTests.cs:36 | "divisor=5=Buzz=Zzub" gives the key 5 with the text "Buzz=Zzub" |

## Where the code and the documented behaviour differ

The model follows the code in each case.

- The command-line provider accepts an empty divisor text ("divisor=5="). Only the
  configuration-tree provider rejects a blank text.
- A repeated divisor key ("3" and "03") fails in `Dictionary.Add` with an `ArgumentException`,
  in both providers. It is not a validation or loading error.
- The command-line provider raises `AppConfigLoadingException`, not the validation exception.
- The command-line provider never sets `MatchByContains`.
- The divisor argument form is `divisors:<n>=<text>` for the configuration-tree provider and
  `divisor=<n>=<text>` for the command-line provider.

## Left out

- Console output, `Environment.Exit` and the help text, including the item descriptions and
  usage lines, are I/O. A run ends in one of the `RunOutcome` values instead.
- `ConfigItemMeta` and `GetConfigItemDescriptions` carry only text. The model keeps the four
  item names that the unknown-key check uses.
- `IConfigProvider` and `IAppConfigProvider` are interfaces without logic.
- The `AddCommandLine` tokenizer of the .NET configuration library is foreign code. `Run` takes
  the tree it would build as one input and the raw arguments as another. A lone "help" has no
  '=', so it gives an empty tree.
- The library compares configuration keys without regard to case. The model compares them
  exactly.
- `StartsWith` with the current culture is modelled as an ordinal comparison. This is a
  simplification. A culture-sensitive comparison ignores characters that have no collation
  weight, such as the soft hyphen U+00AD. So in the source "ro\u00ADunds=5" starts with
  "rounds=" and is reported as a malformed rounds argument. In the model it starts with
  neither prefix and is reported as an unknown argument.
- `int.TryParse` and `Int32.ToString` read and write with the current culture. The model takes
  that culture to be the invariant one. A culture with other sign characters (for example
  U+2212 as the negative sign) would parse and print signed numbers differently.
- The `CommandLineConfigProvider` constructor keeps a reference to the caller's array, so a
  later change the caller makes to that array is seen by `GetConfig`. The model stores the
  argument list as a value. That aliasing is not modelled.
- A null element of the argument array makes `StartsWith` throw `NullReferenceException` in
  the source. The model has no null strings, so that path is not modelled.
- `bool.TryParse` folds case for ASCII letters only. It matches "True" and "False", so no other
  letters matter.
- A '\0' at the end of an `int.TryParse` input is not modelled: that input fails to parse here
  instead of being accepted.
- `Program.EvaluateRounds` does not model the round counter overflowing when `Rounds` is
  `int.MaxValue`. The `List<string>` would run out of capacity long before that.
- Some branches cannot be reached, so the model has no code for them: the failed `TryGetValue`
  of a regex group, with its "Malformed divisor number/text argument" messages, and the second
  `!configItems.Any()` check in `ParseDivisorConfig`. The unknown-key check's comparison of the
  path with "divisors:" is modelled literally, although a top-level key never holds a ':'.
- `Environment.NewLine` after the printed line is part of console output.
- `Program.OrderSorted` does not state the stability of `OrderBy` among equal keys, because no
  dictionary holds equal keys.
- The configuration library lists the children of "divisors" in numeric key order, so the
  oracles give the test children as "4", "10", "19". The printed rounds do not depend on that
  order, by `Program.RoundTextIgnoresEnumerationOrder`.
- The 100-round expected outputs of the UI tests are not written out as literals. They follow,
  round by round, from `Oracles.DefaultGameIsClassic`, `Oracles.SingleTestDivisorRound` and
  `Oracles.TestDivisorsRound`.
- `Oracles.FifteenRounds` states the fifteen round texts as a list. The joined string compared
  in the test is that list joined by ", ".
