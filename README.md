# Command-line argument table (getarg)

This project models the command-line option table that the `getarg_tests` suite exercises, and proves its properties in Dafny.

- **Parsing.** `ParseParameters` turns an argument vector into a table of options.
- **Typed lookups.** `GetBoolArg`, `GetArg` with a string default and `GetArg` with an integer default read the table. Each falls back to the caller's default.
- **Test helper.** `ResetArgs` splits a command line on whitespace, puts a dummy program name in front, and parses the result.

The rules the model follows:

- **Program name.** `argv[0]` is never read.
- **Value split.** Each later token is cut at its first `=` into a name and a value. The value is empty when there is no `=`.
- **Dash count.** A name with one or two leading dashes is an option. It is stored under its one-dash spelling, so `--lyc` and `-lyc` fill the same entry. Other tokens are skipped.
- **Later wins.** A later option overwrites an earlier one with the same key. Each parse replaces the whole table.
- **Negation.** `-nolyc` is stored under its own key. Only `GetBoolArg("-lyc")` consults it, and only when `-lyc` itself is absent. It then reads the inverse of the `-nolyc` value. So `-lyc` beats `-nolyc` in any order.
- **Absent names.** Every lookup of an absent name returns the caller's default. The one-argument `GetBoolArg` is the default `false`.
- **Bare flags.** A bare flag reads as the empty value. The boolean lookup gives true, the string lookup `""` and the integer lookup 0.

How value text is read as a number or a truth value is a parameter, `Lookup.Reading`. The tests fix it only in four places:

- a digit string reads as its value;
- text with no digit at all reads 0 (`NaN`, `NotANumber`);
- `"0"` is false;
- `"1"` is true.

`Lookup.Lawful` states exactly these four rules. Every lemma assumes only them.

Two lawful readings are given:

- a leading-digits one, which reads the digits at the front of the text (no whitespace or sign is skipped);
- a strict one, which reads only plain digit strings and treats only `"0"` as false.

They are proved to disagree on `-x=eleven` as a boolean and on `-x=12abc` as an integer. So the model pins neither case.

Modules:

- `Text`: whitespace tokenising, for `boost::split` with token compression.
- `Decimal`: digit strings and the two example readings.
- `Parsing`: token reading and the table fold, for `ParseParameters`.
- `Lookup`: the three accessors and general lemmas about them.
- `Args`: the table object, `Parse` and `ResetArgs`.
- `GetArgTests`: the test cases, generalised over flag name, dash count and default. Values are generalised too (any value, any digit string, any text without a digit) wherever the expected result does not rest on the literal `0` or `1`.

## Model

| member | source | states |
|---|---|---|
| `Text.Split` | src/test/getarg_tests.cpp:13 | Splitting gives at least one token, and no token holds whitespace. Only the first and last tokens can be empty. The first is empty exactly when the text is empty or starts with whitespace. |
| `Text.JoinSplit` | src/test/getarg_tests.cpp:13 | For every text, joining its tokens with single spaces gives the text with each run of whitespace (spaces, tabs, newlines, vertical tabs, form feeds, carriage returns) squeezed to one space. So the tokens are the text's non-whitespace stretches in order, cut at every run (token compression). |
| `Text.SplitJoin` | src/test/getarg_tests.cpp:13 | For tokens of that shape, splitting their single-space join gives the same tokens back. This is the round trip `ResetArgs("-lyc -nolyc")` relies on. |
| `Args.ResetArgs` | src/test/getarg_tests.cpp:9-24 | Afterwards the object's table is `ResetTable(s)`, whatever it held before. |
| `Args.ProgramNameSkipped` | src/test/getarg_tests.cpp:15-16 | The inserted dummy program name is never read: `ResetTable(s)` is the table of the tokens of `s` alone. |
| `Args.ArgTable.Parse` | src/test/getarg_tests.cpp:23 | The loop leaves the table equal to `TableOf(argv[1..])`. The previous contents play no part. |
| `Parsing.SplitAtEq` | src/test/getarg_tests.cpp:100-110 | The name holds no `=` and is a prefix of the token. With an `=` present, the token is name + `=` + value, so the cut is at the first `=`. Without one, the name is the whole token and the value is empty. |
| `Parsing.SplitAtEqJoin` | src/test/getarg_tests.cpp:104-110 | Cutting `name=value` gives back exactly that name and value when the name has no `=`, even when the value contains `=` or is empty. |
| `Parsing.KeyOf` | src/test/getarg_tests.cpp:133-141 | A name is an option exactly when it has one or two leading dashes. Its key is the one-dash spelling, so the name is the key or `-` + key. |
| `Parsing.EntryOf` | src/test/getarg_tests.cpp:96-110 | A token is an option exactly when it starts with `-` and does not start with `---`. A recognised token has a one-dash key without `=`. Its name is the key or the key with one more dash. Its value is the text after the first `=`, or empty when there is no `=`. |
| `Parsing.BareToken` | src/test/getarg_tests.cpp:96-98 | `-f` and `--f` are both read as key `-f` with the empty value. |
| `Parsing.ValuedToken` | src/test/getarg_tests.cpp:104-110 | `-f=v` and `--f=v` are both read as key `-f` with value `v`, verbatim. |
| `Parsing.DoubleDashSame` | src/test/getarg_tests.cpp:77-86 | Doubling the leading dash of any token never changes how it is read. |
| `Parsing.DoubledDashesSameTable` | src/test/getarg_tests.cpp:133-141 | Writing any options of a command line with two dashes instead of one gives the same table. |
| `Parsing.TableOf` | src/test/getarg_tests.cpp:23 | Every key in a parsed table is a one-dash option name without `=`. |
| `Parsing.InTableIffSet` | src/test/getarg_tests.cpp:33-39 | A key is in the table exactly when some token sets that exact key. |
| `Parsing.LastOccurrenceWins` | src/test/getarg_tests.cpp:124-126 | Each key holds the value of the last token that sets it. Tokens for other keys, wherever they stand, do not matter. |
| `Decimal.DigitsRoundTrip` | src/test/getarg_tests.cpp:124-126 | Writing a natural number in decimal and reading the digits back gives the number. |
| `Decimal.PrefixNumberOfDigits` | src/test/getarg_tests.cpp:128-130 | The leading-digits reading gives a digit string's value, and 0 for text with no digit. |
| `Lookup.ReadingsAreLawful` | src/test/getarg_tests.cpp:114-130 | Both example readings satisfy every reading rule the tests fix. |
| `Lookup.ReadingsDiffer` | src/test/getarg_tests.cpp:108-110 | The two lawful readings disagree on `eleven` as a truth value and on `12abc` as a number. The tests leave both open. |
| `Lookup.NegatedKey` | src/test/getarg_tests.cpp:51-60 | Exactly the dashed names have a negated key (`-f` has `-nof`). A negated key is never the name itself, and the negated key of a table key is again a table key. |
| `Lookup.NegatedKeyInjective` | src/test/getarg_tests.cpp:51-60 | Two names with the same negated key are the same name, so `-nolyc` negates `-lyc` and nothing else. |
| `Lookup.Truth` | src/test/getarg_tests.cpp:41-49 | A present option set without a value reads true. Under any lawful reading, `1` reads true and `0` reads false. |
| `Lookup.GetBool` | src/test/getarg_tests.cpp:28-60 | Lookup order: the name's own entry decides if present; otherwise the negated entry decides, inverted; the default decides only when neither is present. |
| `Lookup.GetStr` | src/test/getarg_tests.cpp:92-110 | A present name gives its value verbatim, even when empty. An absent name gives the default. The negated entry is never consulted. |
| `Lookup.GetInt` | src/test/getarg_tests.cpp:116-130 | A present name gives its value read as a number, and an absent name gives the default. Under a lawful reading, a digit string gives its value, and text with no digit gives 0. That includes the empty value of a bare flag. |
| `Lookup.LawfulTestValues` | src/test/getarg_tests.cpp:114-130 | `Lookup.Lawful` states the four reading rules the tests fix. Under any reading that obeys them, the tests' values read as follows: `11`, `12` and `1` read as their numbers; `NaN`, `NotANumber` and the empty value read 0; the empty value and `1` are true; `0` is false. |
| `Lookup.Absent` | src/test/getarg_tests.cpp:33-39 | When no token sets a name or its negated form, the boolean, string and integer lookups each return the caller's default. |
| `Lookup.PositiveFormGoverns` | src/test/getarg_tests.cpp:62-75 | When some token sets the name, the last such token decides all three lookups. Negated tokens and defaults play no part. |
| `Lookup.NegatedFormGoverns` | src/test/getarg_tests.cpp:143-158 | With the name absent, the last negated token decides the boolean, inverted, whatever the default. The string and integer lookups still give their defaults. |
| `GetArgTests.EmptyTable` | src/test/getarg_tests.cpp:92-94 | `ResetArgs("")` leaves an empty table. |
| `GetArgTests.EmptyCommandLine` | src/test/getarg_tests.cpp:116-118 | After `ResetArgs("")`, every lookup of every name gives its default. |
| `GetArgTests.BareFlag` | src/test/getarg_tests.cpp:28-31 | A bare `-f` or `--f` reads true, `""` and 0, whatever the defaults. |
| `GetArgTests.ValuedFlag` | src/test/getarg_tests.cpp:104-110 | For `-f=v` or `--f=v`, the string lookup returns `v` verbatim. The boolean and integer lookups read `v`, whatever the defaults. |
| `GetArgTests.EmptyValue` | src/test/getarg_tests.cpp:100-102 | `-f=` makes the string lookup return `""`, not the default. |
| `GetArgTests.ZeroAndOne` | src/test/getarg_tests.cpp:41-49 | `-f=0` reads false and `-f=1` reads true under either dash count, whatever the default. |
| `GetArgTests.NumberValue` | src/test/getarg_tests.cpp:124-126 | `-f=` followed by the decimal text of k reads k, whatever the default. |
| `GetArgTests.NonNumericValue` | src/test/getarg_tests.cpp:128-130 | A value with no digit reads 0 in the integer lookup, not the default. |
| `GetArgTests.TwoBareFlags` | src/test/getarg_tests.cpp:120-122 | `-f -g` with distinct names, each written with one dash or two, reads true, `""` and 0 for both `-f` and `-g`, whatever the defaults. This covers `-lyc -bar` at lines 96-98 too. |
| `GetArgTests.TwoValuedFlags` | src/test/getarg_tests.cpp:138-140 | `-f=v -g=w` with distinct names, each written with one dash or two, reads `-f` from v alone and `-g` from w alone in all three lookups, whatever the defaults. |
| `GetArgTests.TwoNumbers` | src/test/getarg_tests.cpp:124-126 | `-f=v -g=w` with distinct names and digit strings v and w reads v's value for `-f` and w's for `-g`, whatever the defaults. |
| `GetArgTests.TwoNonNumbers` | src/test/getarg_tests.cpp:128-130 | `-f=v -g=w` with distinct names and digit-free v and w reads 0 for both, not the defaults. |
| `GetArgTests.ExactName` | src/test/getarg_tests.cpp:33-39 | With only `-f` given, a name other than `-f` whose negated key is not `-f` either gets every default. This covers `-lyco` and `-fo` beside `-lyc`. |
| `GetArgTests.NegatedBare` | src/test/getarg_tests.cpp:51-55 | `-nof` or `--nof` alone reads f as false, whatever the default. |
| `GetArgTests.NegatedValued` | src/test/getarg_tests.cpp:150-158 | `-nof=v` alone reads f as the inverse of v, whatever the default. |
| `GetArgTests.NegatedOne` | src/test/getarg_tests.cpp:83-86 | `-nof=1` or `--nof=1` reads f as false, whatever the default. |
| `GetArgTests.NegatedZero` | src/test/getarg_tests.cpp:155-158 | `-nof=0` reads f as true, whatever the default. |
| `GetArgTests.PositiveBeatsNegated` | src/test/getarg_tests.cpp:62-70 | Given one positive token and one negated token, in either order, the positive token's value decides the boolean lookup. |
| `GetArgTests.PositiveWinsBare` | src/test/getarg_tests.cpp:160-164 | A bare positive and a bare negated flag, in either order and each with one dash or two, read true, whatever the default. |
| `GetArgTests.PositiveWinsValued` | src/test/getarg_tests.cpp:67-75 | `-f=v -nof=w`, each with one dash or two, reads as v alone would, whatever w and the default are. |
| `GetArgTests.PositiveWinsOne` | src/test/getarg_tests.cpp:67-70 | `-f=1 -nof=1` reads true, whatever the default. |
| `GetArgTests.PositiveWinsZero` | src/test/getarg_tests.cpp:72-75 | `-f=0 -nof=0` reads false, whatever the default. |
| `GetArgTests.ReparseReplaces` | src/test/getarg_tests.cpp:46-55 | On one table object, parsing `-f=1` reads f as true. Re-parsing `-nof` then reads f as false even with default true: nothing of the first parse remains. |

## Left out

- The Boost.Test macros are left out. Each group of checks is restated as a lemma that holds for every flag name, dash count and default.
- The conversion to C strings in `ResetArgs` (`vecChar`, `c_str`, `&vecChar[0]`) is left out. The argument vector is a `seq<string>`.
- The process-wide table is modelled as the field of an `ArgTable` object, and the accessors take the table as a value.
- `util.h` and `util.cpp` (`ParseParameters`, `GetBoolArg`, `GetArg`) are not part of this model. Their behaviour is taken from the test assertions. The following are not modelled:
  - multi-value options and config-file merging;
  - platform-specific option prefixes and case folding.
- Lookup.GetInt: returns an unbounded integer. The 64-bit range of the source's integer lookup and its overflow are not modelled.
- Lookup.GetBool: how a non-empty value other than `0` or `1` reads as a truth value is left to the `Reading` parameter. The tests never fix it.
- Lookup.GetInt: how text with digits that is not a plain digit string reads (`12abc`, `-5`, ` 7`) is left to the `Reading` parameter. The tests never fix it.
- Parsing.EntryOf: skips the following tokens and carries on with the rest:
  - a token with no leading dash;
  - a token whose name has three or more leading dashes.

  The tests only show that the empty token `""` is not an option.
- Parsing.TableOf: when `-x` and `--x` both appear, the later one wins, as for any repeated key. No test gives both.
- Lookup.GetStr and Lookup.GetInt: do not consult the negated form `-nox`. Only the boolean lookup does. No test asks a string or integer lookup about a negated flag.
- Parsing.EntryOf: a bare `-x` and an explicit `-x=` are both stored as the empty value. The tests give the same string result for both, and never query `-x=` as a boolean.
