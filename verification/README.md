# slog emission path in Dafny

`slog` is a header-only C++ console logger (`slog.hpp`). A process-wide
threshold `logLevel` (default `DEBUG`) filters calls. Five entry points
(`trace`, `debug`, `info`, `warning`, `error`) pass their level, an ANSI
colour and a three-letter tag to the private `log`. `log` returns at once
when the threshold is greater than the call's level. Otherwise, under a
mutex, it writes one line: the colour, the bracketed tag, the reset
sequence, the message, each argument after one space, then ` file:line`
and `std::endl`.

The model has four modules:

- `Levels`: the five levels, their declaration order (what `>` on the
  scoped enumeration compares), the default threshold, and an explicit
  table of the levels each threshold lets through.
- `Decimal`: how `std::cout`, in its default formatting state, renders the
  `int` line number, and a parser that reads exactly those numerals back.
- `Format`: the colour and reset escape sequences, the tags, the argument
  text produced by the fold over the parameter pack, the composed line, and
  `ParseLine`, which reads a composed line back into level, body, file and
  line number.
- `Slog`: the logger state (threshold plus the lines written so far),
  `SetLevel`, `Log`, the five entry points, and runs of calls.

The mutex is modelled by its effect: one emitted call is one uninterrupted
write, so the output is a sequence with one element per emitted call. Each
element ends with the newline of `std::endl`, and it is a single line when
none of its pieces holds a newline (`Format.ComposedLineIsOneLine`). A write
cut short by an exception is not modelled (see "## Left out"). Arguments are
taken as strings that are already rendered. File and line are ordinary parameters.

`slog.hpp` has no timestamp and no template interpolation, so it has no
format error; its tags are only `TRC`, `DBG`, `NFO`, `WRN` and `ERR`.

## Model

| member | source | states |
|---|---|---|
| Levels.Rank | slog.hpp:19-25 | each enumerator's underlying value is below 5 (the enumeration has five enumerators, in declaration order) |
| Levels.RankInjective | slog.hpp:19-25 | two levels have the same underlying value exactly when they are the same level |
| Levels.GreaterIsStrictTotalOrder | slog.hpp:19-25 | `>` on levels is irreflexive, asymmetric, transitive and total on distinct levels |
| Levels.DeclarationOrder | slog.hpp:19-25 | TRACE < DEBUG < INFO < WARNING < ERROR |
| Levels.Greater | slog.hpp:63 | the comparison `logLevel > level` of the early return: it holds only between distinct levels, never with TRACE on the left or ERROR on the right |
| Levels.DefaultThreshold | slog.hpp:27 | the initial `logLevel` lets through every level except TRACE (which fixes it as DEBUG) |
| Levels.AtOrAbove | slog.hpp:63 | the table of levels a threshold lets through holds exactly the levels the threshold is not greater than; it always holds the threshold itself and ERROR |
| Levels.OneBelow | slog.hpp:19-25 | the level one step below a non-TRACE level is exactly one position lower, and that level is smaller |
| Decimal.NatToString | slog.hpp:70 | a natural number is written as a canonical numeral: digits only, non-empty, no leading zero, and it starts with '0' only for zero |
| Decimal.IntToString | slog.hpp:70 | an `int` is written with a leading '-' exactly when it is negative; the text never holds a space, a colon or a newline |
| Decimal.ParseNatOfNatToString | slog.hpp:70 | reading the numeral of a natural number gives the number back |
| Decimal.NatToStringOfParseNat | slog.hpp:70 | every canonical digit string is the numeral of the value it reads as |
| Decimal.IntRoundTrip | slog.hpp:70 | the rendered line number parses back to the same number |
| Decimal.ParseIntIsCanonical | slog.hpp:70 | any text the parser accepts is the rendering of the number it reads, so parser and renderer are inverse bijections |
| Decimal.IntToStringInjective | slog.hpp:70 | two line numbers are written the same way exactly when they are equal |
| Format.Sgr | slog.hpp:7-12 | each colour `#define` is an ANSI Select Graphic Rendition sequence: escape, `[`, its code, `m`; `Reset`, `Gray`, `Blue`, `Red`, `Yellow` and `Green` are the sequences for codes 0, 90, 34, 31, 33 and 32 |
| Format.ColourOf | slog.hpp:33-53 | the colour each entry point passes is a 5-character escape sequence starting with escape and ending with `m`, and is never the reset sequence |
| Format.TagOf | slog.hpp:33-53 | the tag each entry point passes is three characters long and holds neither `]` nor a newline |
| Format.TagsDistinct | slog.hpp:33-53 | two entry points pass the same tag only when they are for the same level |
| Format.ColoursDistinct | slog.hpp:33-53 | two entry points pass the same colour only when they are for the same level |
| Format.ArgsText | slog.hpp:68 | the argument text is as long as one space plus each argument, summed over the arguments; it holds no newline when no argument does |
| Format.ArgsInOrder | slog.hpp:68 | argument i sits at its offset in the argument text, after exactly one space, in call order |
| Format.Compose | slog.hpp:66-70 | the line starts with colour, `[`, tag, `] ` and the reset sequence, and ends with the newline of `std::endl` |
| Format.ComposeWithoutArguments | slog.hpp:66-70 | with zero arguments the message is followed directly by ` file:line` and the newline |
| Format.ComposedLineIsOneLine | slog.hpp:64-70 | when no piece holds a newline, the composed line holds exactly one newline, at its end |
| Format.ComposeExample | slog.hpp:66-70 | an INFO call with message "user logged in", argument "7", file "main.cpp" and line 42 writes green, `[NFO] `, reset, `user logged in 7 main.cpp:42` and a newline |
| Format.LastIndexOf | slog.hpp:70 | helper of ParseLine, the partner of Compose, used to split off the ` file:line` tail: the result is the position of the last occurrence of the character, or none when it does not occur |
| Format.FindLevel | slog.hpp:33-53 | helper of ParseLine, the partner of Compose, used to recognise the header an entry point writes: the result is a candidate whose header starts the line; none means no candidate's header does |
| Format.LevelOfLine | slog.hpp:33-53 | a level is reported only when its header starts the line |
| Format.HeaderShape | slog.hpp:7-12 | every header is 15 characters long and carries its tag at offsets 6 to 8 |
| Format.HeadersDiffer | slog.hpp:33-53 | the header of one level never starts a line composed for another level |
| Format.LevelOfHeader | slog.hpp:33-53 | a line that starts with the header of a level is read as a line of that level |
| Format.ParseLocation | slog.hpp:70 | an accepted location is the file, a colon and the rendered line number |
| Format.ParseRest | slog.hpp:66-70 | accepted text after the header is the body, a space, the file, a colon and the rendered line number |
| Format.ParseLine | slog.hpp:66-70 | every line the parser accepts is the header of its level, its body, a space, its file, a colon, its rendered line number and a newline |
| Format.ParseRendered | slog.hpp:66-70 | every line in the logger's format whose file name holds no space reads back as exactly the level, body, file and line number it renders |
| Format.ParseComposedLine | slog.hpp:66-70 | a line an entry point composes reads back as its level, its message with argument text, its file and its line number, when the file name holds no space |
| Format.SpaceInFileIsAmbiguous | slog.hpp:70 | with a space in the file name two different calls write the same line, which is why the read-back needs a file name without spaces |
| Format.ArgumentsMergeIntoMessage | slog.hpp:66-68 | a message followed by an argument writes the same line as the message that already ends with that argument, so only their joined text can be read back |
| Slog.Initial | slog.hpp:27 | at program start nothing has been written and every level except TRACE passes the threshold |
| Slog.SetLevel | slog.hpp:56-58 | the threshold becomes the new level and the output is unchanged |
| Slog.SetLevelIdempotent | slog.hpp:56-58 | setting the same level twice equals setting it once |
| Slog.SetLevelLastWins | slog.hpp:56-58 | of two consecutive `setLevel` calls, the later one decides |
| Slog.Log | slog.hpp:62-71 | the threshold is unchanged; the old output is a prefix of the new one; exactly one line is added when the level is in the table of levels the threshold lets through, and none otherwise; the added line is the composed line |
| Slog.Trace | slog.hpp:32-34 | a `trace` call writes the gray `TRC` line exactly when the threshold is TRACE, and changes nothing else |
| Slog.Debug | slog.hpp:37-39 | a `debug` call writes the blue `DBG` line exactly when the threshold is TRACE or DEBUG, and changes nothing else |
| Slog.Info | slog.hpp:42-44 | an `info` call writes the green `NFO` line unless the threshold is WARNING or ERROR, and changes nothing else |
| Slog.Warning | slog.hpp:47-49 | a `warning` call writes the yellow `WRN` line unless the threshold is ERROR, and changes nothing else |
| Slog.Error | slog.hpp:52-54 | under each of the five enumerator thresholds, an `error` call writes the red `ERR` line and changes nothing else |
| Slog.Emit | slog.hpp:31-54 | the entry point for a level appends that level's colour-and-tag line exactly when the level passes the threshold, and otherwise leaves the output unchanged |
| Slog.Boundary | slog.hpp:63 | a call at exactly the threshold is written; a call one level below it leaves the logger unchanged |
| Slog.EmittedLineReadsBack | slog.hpp:62-70 | the last line after an emitted call reads back as that call's level, message with arguments, file and line |
| Slog.RunSplitLast | slog.hpp:56-71 | running a sequence of calls equals running all but the last, then the last |
| Slog.StepExtendsEmittedLines | slog.hpp:56-71 | one more call changes the state exactly as it extends the reference account: a `setLevel` moves the threshold, and a log call adds its line when it passes the threshold then in force |
| Slog.RunAppendsEmittedLines | slog.hpp:56-71 | a run of calls keeps earlier output, appends exactly the lines of the calls that pass the threshold in force when each is made, in call order, and ends with the threshold of the last `setLevel` |
| Slog.ThresholdChangeScenario | slog.hpp:56-63 | under INFO a DEBUG call is dropped; after `setLevel(DEBUG)` the same call writes exactly one blue `DBG` line |
| Slog.InitialThreshold | slog.hpp:27 | at program start a `trace` call writes nothing and a `debug` call writes one line |

## Left out

- The mutex and thread interleaving (slog.hpp:64, slog.hpp:73): the model is sequential, and one emitted call appends its whole write as one element of the output.
- A write cut short by an exception (slog.hpp:66-70): when an argument's `operator<<` throws, or `std::cout` throws with exceptions enabled, the colour, tag, reset, message and the earlier arguments are already on the console with no newline, and the `lock_guard` releases the mutex. The model has no partial line: an emitted call either appends its whole line or does not happen.
- `std::cout`, the flush done by `std::endl`, and stream failure (slog.hpp:66-70): the console is an abstract sequence with one element per emitted call.
- `std::cout`'s formatting state (slog.hpp:66-70): the base, `showpos`, the locale's digit grouping and any pending field width are assumed to be the defaults. `slog.hpp` never resets them, and the host program shares them, so after `std::cout << std::hex` the line number would be written in hexadecimal, and a pending `std::setw` would pad the colour escape.
- Rendering of arbitrary argument types through `operator<<` (slog.hpp:68): this depends on each type's own operator, so arguments arrive as already rendered strings.
- The `trc`/`dbg`/`nfo`/`wrn`/`err` macros and their capture of `__FILE__` and `__LINE__` (slog.hpp:80-84): file and line are explicit parameters.
- The unsynchronised global `logLevel` (slog.hpp:27): a data race only matters under concurrency, which is not modelled.
- Slog.SetLevel: thresholds cast from integers outside 0..4 are not modelled (slog.hpp:19, slog.hpp:56-57, slog.hpp:63). `slog::Level` has the fixed underlying type `int`, so `setLevel(static_cast<slog::Level>(n))` is well-defined for every `int` n. With n above 4 the early return silences every call, `error` included; with n below 0 every call is written, as under TRACE. The model's threshold is one of the five enumerators, so the contracts of `Slog.SetLevel`, `Slog.Log`, `Slog.Emit` and `Slog.Trace` to `Slog.Error` speak only of those thresholds.
- A null `file` argument: streaming a null `const char*` is undefined behaviour, so `file` is always a string.
- Timestamps, template interpolation with its format error, and the long tags `INFO`/`WARNING`: none of them is in `slog.hpp`.
