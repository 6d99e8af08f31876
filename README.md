# mbed-js-example build script, modelled in Dafny

The Gulp build script of mbed-js-example turns a JavaScript application
into inputs for an mbed OS firmware build. The part of it with real logic
is a set of small text transforms. This project models them as pure Dafny
functions over `string` (`seq<char>`) and proves what they promise:

- `cpp_name_sanitise` turns the package name into a C++ symbol
  (module `Sanitise`).
- `cpp_string_sanitise` escapes the minified bundle for a C++ string
  literal. Task `cppify` records the length before escaping (modules
  `Sanitise` and `Cppify`).
- The body of `parse_pins` reads pin constants from `pins.js`. The filter
  in task `pins.js` chooses that file among the lines printed by `find`
  (module `Pins`).
- `list_libs` rebases the `source` directories of each dependency's
  `mbedjs.json`. Task `build` joins them into the `EXTRAS` argument of
  `make` (module `Libraries`).

Module `Text` states the JavaScript string operations these rely on:
`split` with a one-character separator, `join`, a global one-character
`replace`, `indexOf` and `slice(0, -1)`. Module `Wrappers` holds `Option`
and `Result`.

File contents, `find` output, the metadata files under `node_modules` and
the build target are parameters. Nothing is read or run.

Where what the code does differs from what its names and comments
suggest, the model follows the code:

- A dependency without `mbedjs.json` is not skipped. In the code,
  `fs.stat` rejects and so `Promise.all` rejects, and the whole
  aggregation fails (`Libraries.ListLibs`, `Libraries.MiddleDependencyWithoutMetadata`).
- Pin-table fields are not split on runs of whitespace. The code splits
  on one space, so two spaces in a row make an empty field
  (`Pins.DoubleSpaceLines`).
- The name sanitiser does not always give a valid C++ symbol. The
  code keeps the empty name empty, and it keeps every character other than
  the five it replaces, so `.`, `@`, `/` and spaces stay
  (`Sanitise.CppNameSanitise`).
- With an empty variant, the MCU branch of the pin-file filter is not
  switched off. In the code, `indexOf('TARGET_')` then succeeds whenever
  the MCU test does (`Pins.EmptyVariantSelection`).
- `parse_pins` does not make pin names unique. Two lines that name the
  same pin give two entries, one per line in file order
  (`Pins.ParseLinesIndexed`).
- The recorded source length is not a byte length. The code records the
  JavaScript `length` of the decoded text.

## Model

| member | source | states |
|---|---|---|
| Text.Join | Gulpfile.js:182 | a non-empty list joins to a text that starts with its first piece |
| Text.JoinEndsWithLast | Gulpfile.js:182 | a non-empty list joins to a text that ends with its last piece |
| Text.ReplaceAll | Gulpfile.js:43-47 | a global replace by a text free of the character leaves none of it; each occurrence adds the length of the replacement less one |
| Text.DropLast | Gulpfile.js:159 | `slice(0, -1)` gives a prefix one character shorter, and "" for "" |
| Text.Split | Gulpfile.js:149-151 | `split` on one character always gives at least one piece |
| Text.SplitCount | Gulpfile.js:151-152 | a split has one more piece than there are separators |
| Text.SplitPiecesFree | Gulpfile.js:151 | no piece contains the separator |
| Text.JoinSplit | Gulpfile.js:149 | joining the pieces with the separator gives the text back |
| Text.SplitJoin | Gulpfile.js:182 | splitting a join of separator-free pieces gives the pieces back, for a non-empty list |
| Text.IndexOf | Gulpfile.js:115-117 | `indexOf` gives the first offset where the substring occurs, or -1 when it occurs nowhere |
| Text.ContainsPrefixOf | Gulpfile.js:116-117 | for every line, containing `p + q` implies containing `p` |
| Sanitise.ReplaceNameChars | Gulpfile.js:43-47 | the five chained replacements equal one pass that maps each of `- \ ? ' "` to `_` and keeps every other character |
| Sanitise.CppNameSanitise | Gulpfile.js:42-54 | no `- \ ? ' "` in the result; every other character is kept in order, at its offset or one further when `_` was prepended; length grows by one exactly when the name starts with a digit, and then the result starts with `_`; the result is empty only for the empty name; a non-empty result does not start with a digit |
| Sanitise.CppNameSanitiseIdempotent | Gulpfile.js:42-54 | sanitising twice equals sanitising once |
| Sanitise.CppStringSanitise | Gulpfile.js:56-62 | the three chained replacements, backslash first, equal a one-pass escape of each backslash, newline and `"`; nothing is escaped twice |
| Sanitise.UnescapeCppStringSanitise | Gulpfile.js:56-62 | reading the result as a C++ literal body with the escapes `\\`, `\n` and `\"` gives exactly the original text |
| Sanitise.EscapeUnescape | Gulpfile.js:57-59 | any literal body that reads back as `s` is exactly the sanitised `s`, so the escaping is a bijection onto well-formed bodies |
| Sanitise.CppStringSanitiseShape | Gulpfile.js:57-59 | the result has no raw newline, and every `"` in it follows a backslash |
| Sanitise.CppStringSanitiseLength | Gulpfile.js:57-59 | the output length is the input length plus the number of backslashes, newlines and `"` |
| Sanitise.BackslashNewline | Gulpfile.js:57-58 | a backslash followed by a newline becomes the four characters `\\\n` |
| Sanitise.QuotesFirstDoubleEscapes | Gulpfile.js:57-59 | escaping `"` before backslashes would give `\\"` for `"`, which is not a well-formed literal body; the order in the code matters |
| Cppify.OutJs | Gulpfile.js:65-75 | the `out_js` record is named by the sanitised package name and points at `./build/js/<name>.bundle.min.js`; it stores the length before escaping, and its body reads back as the bundle; that length equals the escaped length only when there are no characters to escape |
| Cppify.Cppify | Gulpfile.js:64-84 | the template gets exactly the one `out_js` record and the parsed pin table as magic strings; the record's body reads back as the bundle, and its recorded length is the bundle's length |
| Cppify.SourceLengthIsPreEscape | Gulpfile.js:74-75 | the recorded length is the bundle's length, and equals the escaped length only when the bundle has no backslash, newline or `"` |
| Pins.ParseLines | Gulpfile.js:149-161 | at most one entry per line, and no entry name or value contains a space |
| Pins.ParsePins | Gulpfile.js:149-161 | at most one entry per newline-separated line of the file, and no entry name or value contains a space |
| Pins.IsPinLineSpaces | Gulpfile.js:150-153 | a line is kept exactly when it contains three spaces |
| Pins.LineEntry | Gulpfile.js:154-160 | the name is piece 1; the value is piece 3 without its last character (empty if piece 3 is empty); neither contains a space |
| Pins.PinLineIndices | Gulpfile.js:149-153 | lists, ascending, exactly the offsets of the lines that `split(' ')` cuts into four pieces |
| Pins.ParseLinesIndexed | Gulpfile.js:149-161 | one entry per kept line, in input order: entry k comes from the k-th kept line |
| Pins.ParseLinesAppend | Gulpfile.js:149-161 | parsing a concatenation of line lists concatenates the parses |
| Pins.ParsePinsOfLines | Gulpfile.js:148-149 | a text made of newline-free lines joined by newlines parses line by line |
| Pins.FourWordLine | Gulpfile.js:151-160 | a line of four space-free words is kept, named by word 1, with word 3 minus its last character as its value |
| Pins.PathLine | Gulpfile.js:151-160 | `some path TARGET_K64F 13;` gives the entry `path` = `13` |
| Pins.DoubleSpaceLines | Gulpfile.js:151-152 | a double space makes an empty piece: three words with a double space make an entry with an empty name, and four such words make five pieces and are dropped |
| Pins.Selected | Gulpfile.js:115-117 | a selected line always contains `TARGET_` |
| Pins.PinFile | Gulpfile.js:114-120 | a chosen file is one of the `find` lines and is selected; the choice fails exactly when no line is selected |
| Pins.SelectedLines | Gulpfile.js:114-118 | a `find` line survives the filter exactly when it is selected |
| Pins.PinFileIsFirstMatch | Gulpfile.js:114-120 | the chosen file is the first selected line of the `find` output; there is none (failure) exactly when no line is selected |
| Pins.OneLineOutput | Gulpfile.js:114-120 | a one-line `find` output chooses that line exactly when it is selected |
| Pins.EmptyVariantSelection | Gulpfile.js:115-117 | with variant "", a line is selected exactly when it contains `TARGET_<target>` or `TARGET_MCU_<target>` |
| Pins.PinsTaskAsWritten | Gulpfile.js:110-120 | as written, the chosen table contains `TARGET_<target>` or `TARGET_MCU_<target>` |
| Pins.PinsTaskWithBoardVariant | Gulpfile.js:110-120 | with the variant taken from the target, the chosen table is one that the empty variant also selects; for every target other than K64F the choice is that of the code as written |
| Pins.McuOnlyTableAcceptedAsWritten | Gulpfile.js:110-120 | for target K64F, the `find` output `TARGET_MCU_K64F` is chosen by the code as written and rejected with the variant taken from the target |
| Pins.BoardVariantNarrowsSelection | Gulpfile.js:110-117 | the variant taken from the target never selects more than the empty variant, and selects the same for every target except K64F |
| Pins.K64FFrdmTableSelected | Gulpfile.js:115-117 | for K64F, a line containing `TARGET_MCU_K64F` and `TARGET_FRDM` is selected |
| Pins.PinsTaskK64F | Gulpfile.js:110-120 | with the variant taken from the target, a K64F build uses only a table naming `TARGET_K64F`, or naming both `TARGET_MCU_K64F` and `TARGET_FRDM` |
| Libraries.RebaseSource | Gulpfile.js:139 | a rebased directory starts with `../../../../node_modules/`, ends with the declared directory, and has the expected length |
| Libraries.RebaseAll | Gulpfile.js:138-140 | one path per declared directory, in order; each starts with `../../../../node_modules/<dep>/` and ends with its directory |
| Libraries.Describe | Gulpfile.js:129-142 | one dependency's promise resolves exactly when its metadata is readable JSON with a `source` list; the descriptor then has the dependency's name, its raw metadata and one rebased path per declared directory, `../../../../node_modules/<dep>/<dir>`; a failure names that dependency |
| Libraries.ListLibs | Gulpfile.js:128-144 | succeeds exactly when every dependency has metadata with a `source` list; then it gives one descriptor per dependency in key order; otherwise the failure is that of a failing dependency |
| Libraries.MissingMetadataFails | Gulpfile.js:128-133 | one dependency without `mbedjs.json` makes the whole aggregation fail |
| Libraries.MiddleDependencyWithoutMetadata | Gulpfile.js:128-133 | for dependencies `[a, b, c]` where only `b` has no metadata, the result is the failure `NoMetadata(b)`, not `[a, c]` |
| Libraries.JoinEach | Gulpfile.js:182 | one joined text per library, each starting with that library's first directory |
| Libraries.LibSourceFiles | Gulpfile.js:182 | when every library has a directory, `lib_source_files` is the space-join of all directories of all libraries, in order |
| Libraries.MakeCommand | Gulpfile.js:183 | when neither the target nor the directories contain `"`, the command splits at `"` into the `make BOARD=<target> EXTRAS=` head, `lib_source_files` and nothing: exactly one quoted word |
| Libraries.BuildCommand | Gulpfile.js:166-183 | a command exists exactly when every dependency has a `source` list; a failure names a dependency without one |
| Libraries.JoinOfJoins | Gulpfile.js:182 | for every list of lists, when every list is non-empty, the space-join of the space-joined lists is the space-join of the flattened list |
| Libraries.EmptySourceListAddsSpace | Gulpfile.js:182 | a leading library with no directories adds one extra space to `lib_source_files` |
| Libraries.ExtrasListsEveryDirectory | Gulpfile.js:182 | when every library has a directory, `lib_source_files` is the space-join of all directories; splitting it on spaces gives them back in order when no path has a space |
| Libraries.BuildCommandSpec | Gulpfile.js:166-183 | a command, when there is one, is `make BOARD=<target> EXTRAS="<dirs>"`, where the directories are rebased, space-joined per library and then across libraries, in dependency order |

## Left out

- Task `bundle` (browserify and uglify): these libraries are foreign code, and only their output text goes into the model, as a parameter.
- Template rendering (`gulp-template`) of `js_source.cpp.tmpl` and `main.cpp.tmpl`: the template texts are not part of this model. The model builds the values passed to them; for `main.cpp` these are the `ListLibs` descriptors.
- Tasks `ignorefile`, `makefile`, `clean` and `get-jerryscript`: file copies, deletion and a process call, with no logic of their own.
- Running `find` and `make`, `fs.stat`/`fs.readFile`, writing `build.log`, gulp's task-dependency scheduling and the promise at line 181 that is never awaited: these are I/O and asynchronous orchestration. Their results are parameters.
- FadeLED/fade_led.js: a floating-point brightness ramp that drives hardware and keeps global state.
- The build target: `util.env.target` is a string parameter. The case where it is undefined, which the code turns into `TARGET_undefined`, is not modelled.
- The dependency list: it is the key list of `dependencies`, given already in `Object.keys` order. That order puts integer-like keys first. A manifest without `dependencies`, where `Object.keys` throws, is not modelled.
- Libraries.ListLibs: reports the failure of the first failing dependency in key order. `Promise.all` rejects with whichever rejection happens first in time, and that depends on I/O timing.
- Libraries.MetadataFile: JSON parsing is abstract. A file is unreadable, not JSON, or a JSON value with or without a `source` list of strings. The rest of the metadata is an opaque value.
- Cppify.OutJs: the length counts Dafny characters (Unicode scalar values), not the UTF-16 code units that JavaScript's `length` counts. The two differ for characters outside the Basic Multilingual Plane.
- Pins.LineEntry: `slice(0, -1)` removes the last UTF-16 code unit, while `Text.DropLast` removes the last Unicode scalar value. For a value ending in a character outside the Basic Multilingual Plane, the code leaves half a surrogate pair where the model removes the whole character.
- Sanitise.Unescape: reads only the three escapes the sanitiser emits. It is not a full C++ literal parser: other escapes, trigraphs and the compiler's limits on literal length are outside its scope. It reads a raw carriage return as an ordinary character, but a C++ compiler such as GCC takes a carriage return in the source as a line end, and the sanitiser does not escape it. So a bundle containing `\r` reads back as itself in the model while its literal would not compile.
- Pins.PinFile: `gulp.src(undefined)`, which throws when no file matches, is modelled as the failure `NoPinTable`. The case-insensitive search done by `find -iname` is part of the `find` output the model receives as a parameter.

## Findings

| source | as written | input that shows it | evidently intended | confidence | as-written member | corrected member |
|---|---|---|---|---|---|---|
| Gulpfile.js:110 | the variant test reads `util.env_target`, a property that is never set. Lines 115-116 use `util.env.target`. So the variant is always "" | target `K64F` and `find` output `TARGET_MCU_K64F`: the MCU-only table is chosen | the variant `FRDM` for target K64F, so an MCU-only table without `TARGET_FRDM` is rejected | high; not executed | Pins.McuOnlyTableAcceptedAsWritten | Pins.PinsTaskK64F |
