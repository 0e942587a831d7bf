# spl in Dafny: paths, flags, string trim, hex colours

This project models the core of **spl**, a set of single-header C libraries, and proves properties of that model. Four headers are covered:

- **`spl_path.h`** does lexical path manipulation after Go's `path` package. It cleans a path (`spl_path_clean`) and builds on that with `join`, `dir`, `base` and `change_base`.
  - The reference semantics is `PathLexical`, which is segment based: split at '/', resolve "." and ".." on a stack, then render.
  - The C byte-cursor loop is modelled as imperative Dafny over an `array<char>` (`SplPath.Clean`) and proved to write exactly the reference result.
- **`spl_flags.h`** parses GNU-style command-line flags.
  - `SplFlags.Registry` is a class holding the flag descriptors and the bound variables. The registration functions and `spl_flags_parse` are methods on it.
  - `spl_flags_parse` is proved equal to a functional specification (`ParseSpec`/`ParseFrom`/`ArgStep`) that follows the C control flow, including the `goto` back to the lookup. The parsing rules are lemmas about that specification.
- **`spl_str.h`**: `spl_str_clean` trims white space in place.
  - `SplStr.Clean` works on a buffer holding a C string and is proved against `Trim`.
  - `Trim` is characterised completely: it splits into white space, the trimmed text, then white space, and that split is unique.
- **`spl_color.h`**: `SPLCOL_HEX` and `SPLCOL_HEXA` are functions on 32-bit values, with their recomposition and round-trip properties.

`CString` holds what the libraries borrow from C:
- strings without NUL, and buffers holding NUL-terminated strings;
- `strlen`, the `<ctype.h>` classes, `strchr` and `atoi`.

## Conventions

- C strings are `string` values without NUL (`CString.NoNul`). A buffer holding a string is an `array<char>` whose terminator follows the text (`CString.Holds`, `CString.HoldsAt`).
- Reading at or past a terminator, as the flag parser does with `cur_argv[1]` or `cur_argv + 2`, is modelled as reading NUL (`CString.At`, `CString.Drop`).
- A bound flag variable (a pointer in C) is an entry of `Registry.values`: `values[k]` is the variable registered with flag `k`.
- Arrays of fixed size in the C code (4096-byte path buffers, 512-entry leftover lists, 1024-byte default strings, 256 flags) are length preconditions. Overflowing them is not modelled.

## Model

| member | source | states |
|---|---|---|
| PathLexical.Clean | spl_path.h:162-266 | The reference cleaning: Split, Resolve and Render, with "." for an empty result; never empty |
| PathLexical.CleanIsDot | spl_path.h:256-260 | The result is "." exactly when the path is empty, or is unrooted and every segment cancels |
| PathLexical.CleanKeepsRoot | spl_path.h:188-202 | The result starts with '/' exactly when the path does, and never starts with "//" |
| PathLexical.CleanIsCanonical | spl_path.h:65-77 | The result is ".", "/", or a canonical path with no empty, "." or inner ".." segment and no trailing '/', whose segments are the resolved segments of the input |
| PathLexical.CleanEndsInSlash | spl_path.h:77 | The result ends in '/' only if it is "/" |
| PathLexical.CleanIdempotent | spl_path.h:65-69 | Cleaning a cleaned path changes nothing |
| PathLexical.CleanOfSlashes | spl_path.h:70 | A run of slashes cleans to "/" |
| PathLexical.CleanTrailingSlash | spl_path.h:206-209 | A trailing '/' does not change the result |
| PathLexical.CleanOfName | spl_path.h:241-252 | A single name other than "." and ".." cleans to itself, including names that start with '.' |
| PathLexical.LastSlash | spl_path.h:303-313 | The index of the last '/' or -1: a '/' there and none after it |
| PathLexical.SplitLastSegment | spl_path.h:349-354 | The last segment of a path is the text after its last '/' |
| SplPath.Clean | spl_path.h:162-266 | The buffer receives exactly PathLexical.Clean of the first `len` bytes (all bytes for `len` ≤ 0), NUL-terminated, for paths with no segment like ".x" |
| SplPath.CleanStep | spl_path.h:204-254 | One loop iteration consumes at least one byte and keeps the cursor invariant: the bytes written render the stack of kept segments, whose leading ".." run ends at `dotdot` |
| SplPath.CleanDots | spl_path.h:210-240 | The '.' case: "." is skipped; ".." erases the last segment, is dropped at the root, or is appended to the unrooted ".." run |
| SplPath.CleanPop | spl_path.h:218-227 | ".." with something to erase moves `w` back to the previous '/' or to `dotdot`, popping one segment |
| SplPath.CleanAppendDotDot | spl_path.h:228-237 | ".." in an unrooted path with nothing to erase appends "..", with a '/' before it when needed, and moves `dotdot` to the end |
| SplPath.PutDotDot | spl_path.h:231-236 | Writes an optional '/' and ".." after the first `w` bytes |
| SplPath.CleanName | spl_path.h:241-253 | A real element is appended after a '/' when the output is not just its root, and pushed on the stack |
| SplPath.BackToSlash | spl_path.h:222-225 | The backtracking loop stops at the last '/' after `dotdot`, or at `dotdot` |
| SplPath.CopyName | spl_path.h:250-252 | Copies the element up to the next '/' or the end, after an optional '/' |
| SplPath.BacktrackBounds | spl_path.h:218-226 | When `w` > `dotdot`, the position the backtrack stops at is the rendering of the stack without its last segment |
| SplPath.DotCaseNext | spl_path.h:210-240 | The '.' case as written leaves the read position unchanged exactly when the element is neither "." nor ".." |
| SplPath.DotNameStalls | spl_path.h:210-240 | On a name such as ".bashrc" the '.' case does not advance, while the reference cleaning keeps the name |
| SplPath.LastSlashIndex | spl_path.h:303-313 | The backward scan returns PathLexical.LastSlash |
| SplPath.Join | spl_path.h:268-301 | Returns "" when every fragment is empty, otherwise the cleaned text of the non-empty fragments, each followed by '/' |
| SplPath.GlueIsJoined | spl_path.h:281-289 | The glued buffer is the non-empty fragments joined by '/' with one trailing '/', or "" |
| SplPath.NonEmptyIsEmpty | spl_path.h:283-295 | No fragment is kept exactly when every fragment is empty |
| SplPath.NonEmptyHasNoEmpty | spl_path.h:283-288 | Empty fragments are ignored |
| SplPath.JoinCleansJoined | spl_path.h:95-107 | Join is "" iff all elements are empty, and otherwise the Clean of the non-empty elements joined by '/' |
| SplPath.DirSpan | spl_path.h:319 | The text spl_path_dir cleans is a prefix of the path |
| SplPath.Dir | spl_path.h:315-322 | The buffer receives exactly Clean of the path up to and including its last '/' (the whole path when it has none) |
| SplPath.DirOf | spl_path.h:111-118 | The documented directory: "." without a '/', never empty, ending in '/' only when it is "/", already clean |
| SplPath.DirKeepsBareName | spl_path.h:315-322 | For a bare name, spl_path_dir returns the name itself where the documented directory is "." |
| SplPath.DirAgrees | spl_path.h:315-322 | When the path holds a '/', spl_path_dir returns the documented directory |
| SplPath.DirOfRootedName | spl_path.h:116-117 | Slashes followed by a name: the directory is "/" |
| SplPath.Base | spl_path.h:340-362 | Returns BaseOf: the text of the cleaned path after its last '/', or "/" when that is empty |
| SplPath.BaseOfEmpty | spl_path.h:130 | The base of "" is "." |
| SplPath.BaseOfSlashes | spl_path.h:131 | The base of a run of slashes is "/" |
| SplPath.BaseIsLastElement | spl_path.h:126-129 | The base is "/" iff the cleaned path is "/"; otherwise it is the last segment of the cleaned path, non-empty and without '/' |
| SplPath.ChangeBaseOf | spl_path.h:136-142 | The documented change of base keeps everything through the last '/' and appends the new base; a slash-free base leaves the last '/' where it was |
| SplPath.ChangeBaseTwice | spl_path.h:136-142 | Changing the base twice equals changing it once to the second base |
| SplPath.ChangeBaseAtRoot | spl_path.h:364-381 | spl_path_change_base agrees with the documented change unless the last '/' is at index 0, where "/a" with base "b" stays "/a" |
| SplPath.ChangeBase | spl_path.h:364-381 | The buffer holds the changed path, and bytes after its terminator are untouched |
| SplPath.CopyString | spl_path.h:373 | strcpy into the buffer at an offset: the bytes before are kept, the source and a terminator follow, the rest is untouched |
| CString.StrLen | spl_str.h:80 | strlen returns the length of the string held from the given index |
| CString.HoldsConcat | spl_path.h:379 | strcat: a buffer holding p followed by q where p ends holds p + q |
| CString.AfterFirstSkips | spl_flags.h:542 | strchr(s, c) + 1 is the text after the first c, whatever precedes it |
| SplFlags.Lookup | spl_flags.h:414-497 | get_flag_info finds the first flag in registration order whose short hand is the first character or whose long hand starts the rest; short before long; '=' right after the matched name selects the _EQUAL tag; nothing matches gives NON_DEFINED |
| SplFlags.TagCode | spl_flags.h:268-286 | The argv_flag_type enumerator: 0 is NON_DEFINED and codes stay within the enumeration |
| SplFlags.TagCodeParity | spl_flags.h:268-289 | IS_EQUAL_ARG holds exactly for NON_DEFINED and the *_EQUAL tags |
| SplFlags.TagCodeInjective | spl_flags.h:268-286 | A tag determines the flag kind, the hand and the '=' form |
| SplFlags.ArgStep | spl_flags.h:532-666 | One flag argument keeps one value per flag and moves on by exactly one argument, or two when it consumes the next one as a value |
| SplFlags.ParseFrom | spl_flags.h:513-530 | The rest of argv keeps one value per flag |
| SplFlags.ArgStepKeepsKinds | spl_flags.h:532-666 | A flag argument stores only values of the bound variable's type, narrowing toggles to uint8_t |
| SplFlags.ParseFromKeepsKinds | spl_flags.h:513-666 | The same for the rest of argv |
| SplFlags.ParseKeepsKinds | spl_flags.h:499-670 | The same for a whole parse |
| SplFlags.ParseAfterTerminator | spl_flags.h:519-524 | After "--" every remaining argument is a non-flag, in order |
| SplFlags.ParsePlain | spl_flags.h:519-524 | Arguments without a leading '-' are filed as non-flags, in order |
| SplFlags.ParseTerminator | spl_flags.h:506-530 | argv[0] is skipped; plain arguments and everything after "--" become non-flags in order; "--" is recorded nowhere |
| SplFlags.ArgStepIgnoresProgramName | spl_flags.h:532-666 | A flag argument does not depend on argv[0] |
| SplFlags.ParseFromIgnoresProgramName | spl_flags.h:513-666 | The rest of argv does not depend on argv[0] |
| SplFlags.ParseIgnoresProgramName | spl_flags.h:513 | argv[0] has no effect on the parse |
| SplFlags.UndefinedLong | spl_flags.h:651-657 | An undefined "--name" is filed as "name" among the undefined long flags |
| SplFlags.UndefinedShorts | spl_flags.h:659-665 | Undefined letters are filed one by one among the undefined short flags |
| SplFlags.UndefinedShortArg | spl_flags.h:651-666 | "-abc" with no flag a, b or c files a, b, c as undefined short flags |
| SplFlags.ToggleEachOccurrence | spl_flags.h:574-584 | A short toggle "-c" flips its variable every time it occurs |
| SplFlags.ToggleTwice | spl_flags.h:574-577 | A toggle holding 0 or 1, given twice, ends as it started |
| SplFlags.ToggleShorts | spl_flags.h:574-584 | Toggle letters bundled in one argument flip their toggles one by one, in order, and the argument ends there |
| SplFlags.SeparateToggles | spl_flags.h:574-584 | Separate arguments "-a" "-b" ... flip their toggles one by one, in order |
| SplFlags.BundledToggles | spl_flags.h:574-584 | "-abc" with any number of toggle letters flips each toggle in order, files nothing, and acts as "-a" "-b" "-c" |
| SplFlags.ValueInline | spl_flags.h:548-554 | "-cVALUE" takes VALUE inline when it starts with a letter or digit |
| SplFlags.ValueNext | spl_flags.h:556-559 | "-c VALUE" consumes the next argument as the value, and files it nowhere else |
| SplFlags.ValueMissing | spl_flags.h:556-560 | "-c" as the last argument leaves the variable unchanged |
| SplFlags.LongValueNext | spl_flags.h:561-572 | "--name VALUE" consumes the next argument as the value |
| SplFlags.ValueAfterEqual | spl_flags.h:635-650 | With '=', the value is the text after the first '=', for every kind |
| SplFlags.Registry.constructor | spl_flags.h:315-316 | The registry starts with no flag |
| SplFlags.Registry.CreateNewFlag | spl_flags.h:331-343 | Appends a descriptor of type FLAG_INT with default 0 and binds the variable; requires fewer than SPL_FLAGS_CAP flags, as the C assert does |
| SplFlags.Registry.IntFlag | spl_flags.h:346-357 | Appends an int flag whose default is the variable's current value |
| SplFlags.Registry.ToggleFlag | spl_flags.h:360-371 | Appends a toggle flag whose default is the variable's current value |
| SplFlags.Registry.StrFlag | spl_flags.h:388-402 | Appends a string flag whose default is a copy of the string, or "" for NULL |
| SplFlags.Registry.GetFlagInfo | spl_flags.h:414-497 | The linear search returns Lookup |
| SplFlags.Registry.Parse | spl_flags.h:499-670 | The new variables and the returned lists are exactly ParseSpec; flags are unchanged and every variable keeps its type |
| SplFlags.Registry.ParseFlag | spl_flags.h:532-666 | One flag argument, with the goto as a loop, does exactly what ArgStep says |
| SplStr.LeadingSpaces | spl_str.h:74-77 | The length of the maximal run of leading white space |
| SplStr.TrailingEnd | spl_str.h:79-82 | The index after the last byte that is not white space, with only white space after it |
| SplStr.Trim | spl_str.h:46-52 | The trimmed text neither starts nor ends with white space, and is empty exactly when the input has no other byte |
| SplStr.TrimSplits | spl_str.h:67-86 | The input is white space, then the trimmed text unchanged, then white space |
| SplStr.TrimUnique | spl_str.h:67-86 | Any split into white space, trimmed text and white space yields that text |
| SplStr.TrimIdempotent | spl_str.h:46-52 | Trimming a trimmed string gives it back |
| SplStr.ScanBack | spl_str.h:80-82 | The trailing loop as written, from index i: it stops at the last byte at or before i that is not white space, with only white space after it, or at -1 when there is none |
| SplStr.ScanBackFindsEnd | spl_str.h:80-83 | With some non-space byte, the trailing loop stops just before the trimmed end |
| SplStr.ScanBackLeavesBlank | spl_str.h:80-82 | On an empty or all white-space string the trailing loop reaches index -1 |
| SplStr.SkipSpace | spl_str.h:74-77 | The leading loop stops at the first byte that is not white space |
| SplStr.LastText | spl_str.h:79-82 | The trailing loop stops at the last byte that is not white space |
| SplStr.Clean | spl_str.h:67-86 | Returns the index of the first non-space byte; the buffer then holds Trim of the string from there; only the byte after the last non-space byte changes, to NUL |
| SplColor.Hex | spl_color.h:62-65 | SPLCOL_HEX gives three bytes; r·2^16 + g·2^8 + b is hex modulo 2^24 |
| SplColor.HexA | spl_color.h:67-71 | SPLCOL_HEXA gives four bytes whose recomposition is hex |
| SplColor.Pack | spl_color.h:62-65 | 0xRRGGBB written from three bytes is below 2^24 |
| SplColor.HexOfPack | spl_color.h:62-65 | Splitting a packed colour gives back its components |
| SplColor.PackOfHex | spl_color.h:62-65 | Packing the components of hex gives hex modulo 2^24 |
| SplColor.HexIgnoresHighBits | spl_color.h:63-65 | Two numbers give the same SPLCOL_HEX components exactly when their low 24 bits agree |
| SplColor.HexAInjective | spl_color.h:69-71 | SPLCOL_HEXA components determine the number |
| SplColor.HexIsTailOfHexA | spl_color.h:63-71 | The SPLCOL_HEX components are the last three SPLCOL_HEXA components |

## Left out

- SplPath.Clean: a path with a segment that starts with '.' but is neither "." nor ".." (".bashrc") makes the C loop run forever (see Findings). The method therefore requires `DotSegmentsOnly`, and so do Join, Dir and Base, which call it.
- `malloc`/`free` and ownership. spl_path_clean with a NULL buffer, and join and base, allocate 4096 bytes; that size is a precondition (`PathBufferSize`). Base and Join return values.
- SplPath.Join: the variadic argument list ending in NULL is a sequence of fragments.
- The local `strdup` of spl_path.h:324-338 copies one byte more than the string and its terminator (it adds 1 twice). The over-read is not modelled; Base returns the text.
- Floating point: float flags, `atof` and `SPLCOL_HEXGL`. The registry has no `spl_flags_float`, but the tag numbering keeps the float slot.
- `spl_flags_print_help` and `print_usage`: formatted output to a stream.
- spl_utils.h (`spl_utils_die`: stderr, `errno`, `exit`) and spl_template.h (an empty skeleton) are not part of this model.
- Pointer aliasing in the flag parser is not modelled; values are copies.
  - A string flag's value points into argv, so later writes to argv would show through it.
  - `flag_p` points into the registry.
- CString.Atoi: the result is unbounded. The overflow of C's `atoi` and the truncation to `int32_t` of an int flag are not modelled. Toggle values are narrowed to `uint8_t` (modulo 256), as the C assignment does.
- SplStr.Clean: requires a byte that is not white space. On an empty or all white-space string the C code reads before the string (see Findings).
- SplColor: `hex` is a 32-bit unsigned value. For a signed `int` with bit 31 set, C's right shift is implementation defined; after masking with 0xFF the components are the same on two's-complement machines.
- SplFlags.Registry.Parse: the leftover lists must fit their 512-entry arrays (`Fits`); overflow is not modelled.
- The 256-flag cap is the C `assert` in create_new_flag. It becomes a precondition.
- `ext` and `is_abs` are described for the path library, but spl_path.h has no implementation of them, so they are not part of this model.
- Where the library's description and its code disagree, the model follows the code and records the difference under Findings. For `dir("a")` the description (spl_path.h:112, "all but the last element") does not name a result; "." is inferred from it and from Go's `path.Dir`.
- SplPath.Clean and SplPath.Dir: the path is a value separate from the buffer, so calling them in place is not modelled. spl_path_clean writes a terminator at `buf_string[0]` (spl_path.h:179) before it reads `path[0]` (spl_path.h:182), so `spl_path_clean(p, 0, p)` or `spl_path_dir(p, p)` sees an empty path and returns "." for every `p`.

## Findings

| source | as written | input that shows it | evidently intended | confidence | as-written member | corrected member |
|---|---|---|---|---|---|---|
| spl_path.h:315-322 | spl_path_dir passes `last_slash_index(path) + 1` as `len`; for a path without '/' that is 0, which means "the whole string" | "a" gives "a" | ".", inferred from "all but the last element" at spl_path.h:112 and from Go's `path.Dir`, which the library follows | not executed | SplPath.DirKeepsBareName | SplPath.DirOf |
| spl_path.h:377 | spl_path_change_base tests `n > 0`, so a last '/' at index 0 changes nothing | "/a" with new base "b" stays "/a" | "/b" (`n >= 0`) | not executed | SplPath.ChangeBaseAtRoot | SplPath.ChangeBaseOf |
| spl_path.h:210-240 | the '.' case breaks out of the switch without advancing `r` when the element is neither "." nor ".."; Go's original falls through to the real-element case | ".bashrc" (or "a/.git") loops forever | the element is copied like any other name | not executed | SplPath.DotNameStalls | PathLexical.CleanOfName |
| spl_str.h:80-82 | the trailing loop has no lower bound; for an all white-space string it starts at index -1 of the trimmed start | "" or "  " reads before the string | "" (stop at the start) | not executed | SplStr.ScanBackLeavesBlank | SplStr.Trim |
