# errorx and ParseTimezone, modelled in Dafny

This project models two pieces of the `gopkg` Go repository.

**The structured-error chain of package `errorx`** (`errorx.dfy`, module `Errorx`).
- An `Errorx` node carries three optional fields: a code, an operation label and a log-level hint.
- It also wraps a cause. The cause is another node, an opaque leaf error, or nil.
- A Go `error` value is the datatype `Error = Nil | Leaf(text) | Wrapped(node)`. Only its text is observable for a leaf.
- Because the chain is a datatype, it is acyclic and every walker terminates.
- `E` builds one node from a list of typed arguments. The argument list is a sequence of `Arg`, one variant per Go type that `E` switches on, plus `Unknown`.
- `E` is a method. It starts from the zero node and overwrites one field per argument, in order. Its result is `Failure` where Go panics.
- `Construct` is the declarative reading of `E`: each field is the last argument of its kind. `E` is proved equal to it.
- Lemmas relate `Construct` to the one-field-at-a-time reading (`AssignAll`).
- The walkers `Code`, `Operations` and `LogLevel` are recursive functions. Each one is proved against `Chain`, the list of nodes from outermost to innermost.
- `Log` is a pure function. It returns the tag, operation trail and text that Go's `Log` would print.

**`ParseTimezone` of package `ctime`** (`timezone.dfy`, module `Timezone`).
- The input is trimmed with Go's `strings.TrimSpace`, which trims the characters of `unicode.IsSpace`.
- The trimmed name is looked up with `time.LoadLocation`. This lookup is the parameter `load`; `None` stands for an error.
- Otherwise the name must match `^UTC$|^UTC[+-][0-9]{1,2}$`. The pattern is written as the predicate `MatchesTimezonePattern`.
- The result is then UTC, or a fixed zone named by the trimmed descriptor with an offset of ±N·3600 seconds.
- `strconv.Atoi` is modelled as Go defines it on 64-bit platforms: an optional sign, at least one decimal digit, and a 64-bit range check.

`wrappers.dfy` holds the `Option` and `Result` datatypes that both modules use.

`Log` and `LogLevel` read levels differently:
- `Log` chooses its tag from the outer node's own `ErrLogLevel` field (errorx/errorx.go:119), not from the resolved `LogLevel`.
- So a node whose level is unset is logged as `[error]`, even when its cause resolves to `debug`.
- `Log` also accepts `"warning"`, which `LogLevel` resolves to `error`.
- `LogTagAgainstLogLevel` and `LogTagDivergesFromLogLevel` state both points.

A nil error passed to `E` panics in Go. It becomes a nil `interface{}`, and in a type switch that matches none of the typed cases. The model treats `AError(Nil)` as unrecognised, like `Unknown`.

## Model

| member | source | states |
|---|---|---|
| `Errorx.Text` | errorx/errorx.go:32-37 | The text of a non-nil error is the text of the leaf that ends its chain, or empty when the chain ends in nil |
| `Errorx.ErrorText` | errorx/errorx.go:32-37 | The text of a node is the text of the leaf that ends its chain (through `Root`), or empty when the chain ends in nil |
| `Errorx.ErrorTextIgnoresMetadata` | errorx/errorx.go:32-37 | Two nodes with the same cause render the same text: code, operation and level add nothing |
| `Errorx.E` | errorx/errorx.go:40-61 | The loop that overwrites one field per argument yields exactly `Construct(args)`: a panic on any unknown kind, otherwise each field is the last argument of its kind |
| `Errorx.LastIsFinalPick` | errorx/errorx.go:42-55 | The last argument of a kind decides that field; later arguments of other kinds do not matter |
| `Errorx.LastOfNoneIsDefault` | errorx/errorx.go:41 | With no argument of a kind, the field keeps its zero value |
| `Errorx.ConstructEmpty` | errorx/errorx.go:41 | `E()` yields code 0, empty operation, empty level and nil cause |
| `Errorx.ConstructUnknownPanics` | errorx/errorx.go:56-57 | One argument of an unknown kind, wherever it stands, makes `E` panic |
| `Errorx.ConstructExact` | errorx/errorx.go:42-55 | With at most one argument per kind, every field equals its argument (`int` as the code, `string` as the operation) and every other field is zero |
| `Errorx.ConstructAppend` | errorx/errorx.go:42-59 | A further recognised argument overwrites only its own field of the node built so far; the other three are unchanged |
| `Errorx.ConstructIsSequentialAssignment` | errorx/errorx.go:41-60 | The last-of-kind reading equals assigning the arguments one by one, in order, from the zero node |
| `Errorx.Code` | errorx/errorx.go:64-73 | The result is never `ErrCodeNotSet`, and anything that is not a node gives `ErrCodeUnexpected` |
| `Errorx.CodeOutermostWins` | errorx/errorx.go:64-73 | The outermost node with a non-zero code determines the result, at any depth |
| `Errorx.CodeUnsetChain` | errorx/errorx.go:64-73 | A chain where no node sets a code gives `ErrCodeUnexpected` |
| `Errorx.Operations` | errorx/errorx.go:76-88 | Something that is not a node gives an empty list; otherwise the list is non-empty and starts with the outer node's label |
| `Errorx.OperationsFollowChain` | errorx/errorx.go:76-88 | There is one label per node of the chain, outermost first, empty labels included |
| `Errorx.LogLevel` | errorx/errorx.go:92-109 | The result is always info, debug, warn or error; anything that is not a node gives error |
| `Errorx.LogLevelFirstNonEmpty` | errorx/errorx.go:92-109 | The outermost node with a non-empty level decides: info, debug and warn are kept, any other value gives error |
| `Errorx.LogLevelUnsetChain` | errorx/errorx.go:92-109 | A chain where no node sets a level gives error |
| `Errorx.LogLevelSetIgnoresCause` | errorx/errorx.go:97-107 | A non-empty level is resolved without consulting the cause |
| `Errorx.LogLevelExamples` | errorx/errorx.go:97-105 | "debug" set only on the innermost of three nodes resolves to debug; an unrecognised outer level gives error over the same chain |
| `Errorx.LogTag` | errorx/errorx.go:119-128 | "info" and "debug" get their own tags; "warn" and "warning" get the warn tag; every other level, the empty one included, gets the error tag |
| `Errorx.Log` | errorx/errorx.go:113-128 | Only a node gets a tag; the tag comes from the node's own level, followed by the node's operation trail and its text; a leaf is printed bare, and nil as "<nil>" |
| `Errorx.LogTagAgainstLogLevel` | errorx/errorx.go:92-128 | The tag matches the tag of `LogLevel` exactly when the own level is not "warning" and is not an empty level over a cause resolving to something other than error; an empty own level is always tagged as error |
| `Errorx.LogTagDivergesFromLogLevel` | errorx/errorx.go:119-128 | An unset level over a "debug" cause is tagged error while `LogLevel` says debug; "warning" is tagged warn while `LogLevel` says error |
| `Errorx.WrapLeafKeepsText` | errorx/errorx.go:32-61 | Wrapping a leaf with no metadata keeps the leaf's text |
| `Errorx.TwoWrapsOperations` | errorx/errorx.go:76-88 | `E(E(leaf, "op1"), "op2")` has operations `["op2", "op1"]` |
| `Errorx.TwoWrapsCodeAndText` | errorx/errorx_test.go:51-54 | A leaf wrapped with an operation and code 1001, then wrapped again, has code 1001, both operations outermost first, and the leaf's text |
| `Timezone.TrimSpace` | ctime/timezone.go:32 | The trimmed descriptor is no longer than the input and neither starts nor ends with a `unicode.IsSpace` character |
| `Timezone.TrimLeftShape` | ctime/timezone.go:32 | Trimming the left end keeps the longest suffix that starts with a non-space; everything dropped is white space |
| `Timezone.TrimRightShape` | ctime/timezone.go:32 | Trimming the right end keeps the longest prefix that ends with a non-space; everything dropped is white space |
| `Timezone.TrimSpaceShape` | ctime/timezone.go:32 | The trimmed descriptor is a contiguous part of the input with only white space around it, and neither starts nor ends with white space |
| `Timezone.TrimSpacePadding` | ctime/timezone.go:32 | White space added at either end does not change the trimmed descriptor |
| `Timezone.TrimSpaceOfTrimmed` | ctime/timezone.go:32 | A descriptor with no white space at either end is left as it is |
| `Timezone.DigitsValueOfDecimal` | ctime/timezone.go:50 | Reading back the decimal rendering of a number gives the number |
| `Timezone.Atoi` | ctime/timezone.go:50-53 | A parsed value always fits in 64 bits |
| `Timezone.AtoiOfDecimal` | ctime/timezone.go:50-53 | A decimal rendering, bare or with a sign, parses back to its value when it fits in 64 bits |
| `Timezone.MatchesTimezonePattern` | ctime/timezone.go:21 | The pattern `^UTC$|^UTC[+-][0-9]{1,2}$` as a predicate: "UTC", or "UTC", a sign and one or two ASCII digits |
| `Timezone.TimezonePatternIsOffsetName` | ctime/timezone.go:21 | Apart from "UTC", the pattern accepts exactly the renderings "UTC+D" and "UTC-D" of one or two digits D |
| `Timezone.TrimPrefix` | ctime/timezone.go:47 | With the prefix present, the input is the prefix followed by the result; otherwise the input is returned unchanged |
| `Timezone.ParseTimezone` | ctime/timezone.go:31-63 | A loaded location is returned exactly when the lookup knows the trimmed name; a fixed zone is always named by the trimmed descriptor, which matches the pattern and is not "UTC" |
| `Timezone.MatchedOffsetParses` | ctime/timezone.go:46-61 | Once the pattern matches and the name is not "UTC", it has 5 or 6 characters, the digits always parse, to at most 99, and the sign is '+' or '-': the error branch and the default sign branch are dead |
| `Timezone.ParseTimezoneUtc` | ctime/timezone.go:33-44 | The result is UTC exactly when the lookup fails and the trimmed name either does not match the pattern or is "UTC" |
| `Timezone.ParseTimezoneFixed` | ctime/timezone.go:46-62 | A matching "UTC+N" gives N·3600 seconds east and "UTC-N" gives N·3600 west; the offset is a whole number of hours within ±99 hours |
| `Timezone.ParseTimezonePadding` | ctime/timezone.go:32 | White space around the descriptor never changes the result |
| `Timezone.ParseTimezoneOfDigits` | ctime/timezone.go:46-62 | "UTC" with a sign and one or two digits parses to the fixed zone of that many hours, named by the descriptor |
| `Timezone.ParseTimezoneOfOffset` | ctime/timezone.go:46-62 | Rendering a sign and 0..99 hours as "UTC±N" and parsing it back gives that offset |
| `Timezone.ParseTimezoneOffsetExamples` | ctime/timezone_test.go:25-26 | "UTC+8" gives 28800 seconds and "UTC-4" gives -14400 |
| `Timezone.ParseTimezoneFallbacks` | ctime/timezone_test.go:23 | An unknown word, and "UTC+123" with three digits, give UTC when the lookup does not know them |
| `Timezone.ParseTimezoneUtcNames` | ctime/timezone.go:33-44 | With a lookup that answers "" and "UTC" with its UTC location, as `time.LoadLocation` does, "" and " UTC " give that location, and no descriptor trimming to "" or "UTC" reaches the fallback UTC result |

## Left out

- The printing in `Log` (`log.Println`, `log.Printf`) is process-global output. The model returns the tag, the operation list and the text of the line as a `LogEntry`. It leaves out the text layout: the logger's prefix, the `%v` rendering of the operation slice, and the newline.
- Go's runtime type switch and `panic` become the `Arg` variant type and a `Failure` result.
- A typed nil `*Errorx` stored as a cause cannot be expressed. Go would dereference it and crash. The model's causes are the three cases of `Error`.
- A cyclic chain cannot be expressed either. Go's exported fields allow one, and the Go walkers would not terminate on it.
- Errorx.E: codes are unbounded integers. Go's `int`-based `ErrCode` is 64 bits wide, but `E` and `Code` only copy and compare codes, so no wrap-around can occur.
- `time.LoadLocation` and the timezone database are a foreign lookup. They are the parameter `load`, and a loaded location is an opaque value of type `L`.
- `load` is not constrained to answer "" and "UTC" with the UTC location, as `time.LoadLocation` does. `ParseTimezoneUtcNames` states what follows when it does: with Go's lookup the explicit "UTC" test at ctime/timezone.go:42-44 is never reached.
- Go strings are byte strings. The model works on Unicode characters, so invalid UTF-8 input to `TrimSpace` is not modelled.
- `ctime/ctime.go` is not part of this model. It holds formatting, parsing, JSON and SQL hooks over Go's `time` package, and the global `now` clock.
- `configer/configer.go` is not part of this model. It does file I/O, YAML decoding and environment-variable overlay through external libraries.
- The `TimezoneHeader` and `TimezoneKey` string constants of `ctime/timezone.go` are not modelled.
