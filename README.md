# tracerr error protocol in Dafny

A model of the `tracerr` Go package (`error.go`): errors that carry the call
stack captured where they were created or first wrapped, and a deterministic
text rendering of an error together with its trace.

- `Tracerr.Err` is an error value: `Nil` (Go's nil error), `Plain(text)` (any
  error that carries no trace) or `Traced(orig, message, frames)` (the
  package's `errorData`). The Go type assertion `err.(Error)` becomes the test
  `err.Traced?`.
- `Tracerr.Frame` is a stack frame (function name, line, path); `Frame.String`
  renders it as `<path>:<line> <func>()`, the line written as `%d` writes a Go
  `int` (`Decimal.IntToString`, sign included).
- `Tracerr.Stack` replaces `runtime.Caller` and `runtime.FuncForPC`: the lookup
  at each depth (`None` when the runtime cannot resolve it, and for every depth
  past the end) and a map from program counters to function names (an unknown
  counter gives the empty name, as `Name` does on a nil `*runtime.Func`). Every
  entry point takes the stack as it sees it: depth 0 is the entry point's own
  position, depth 1 its caller. Calling a function pushes that function's
  position (`Enter`).
- `trace` is the loop method `Tracerr.Trace`, proved against `Captured`, the
  run of successful lookups from `skip`. The constructors are functions that use
  `Captured` for the frames `trace` finds.
- `errorData.Error()` is the method `Tracerr.Error`, whose frame loop with the
  `isFirstFrame` flag is `Tracerr.WriteFrames`; both are proved equal to the
  pure rendering `Tracerr.Rendered`.

Files: `options.dfy` (the `Option` type), `decimal.dfy` (decimal rendering and
reading of integers), `lines.dfy` (joining with a separator, splitting at
newlines), `error.dfy` (module `Tracerr`, the package itself).

## Model

| member | source | states |
|---|---|---|
| `Decimal.NatToString` | error.go:138 | the digits of a non-negative line number are decimal digits, with a leading zero only for zero |
| `Decimal.IntToString` | error.go:138 | the `%d` text of a line number is non-empty, starts with `-` exactly when the number is negative, is otherwise made of decimal digits, and has no leading zero after the sign except in `0` itself; `IntToStringRoundTrip` and `IntToStringInjective` add that it reads back as the number |
| `Decimal.IntToStringRoundTrip` | error.go:138 | the `%d` text of a line number reads back as that same number, negative numbers included |
| `Decimal.IntToStringInjective` | error.go:138 | distinct line numbers render as distinct text |
| `Tracerr.Frame.String` | error.go:137-139 | the rendered frame is four characters (colon, space, parentheses) longer than its path, line text and function name together; `FrameStringFields` says where each part lies |
| `Tracerr.FrameStringFields` | error.go:137-139 | `Frame.String` is the path, a colon, exactly the `%d` text of the line (which reads back as the line), a space, the function name and `()` |
| `Tracerr.FrameStringSingleLine` | error.go:137-139 | a frame whose path and function name hold no newline renders, tab-indented, as a single line |
| `Tracerr.StackTrace` | error.go:128-134 | the frames of a traced error are exactly its stored frames; any other value, nil included, has none |
| `Tracerr.Unwrap` | error.go:74-83 | nil unwraps to nil, a plain error to itself, a traced error to its stored original |
| `Tracerr.Captured` | error.go:141-156 | the frames found from `skip` never run past the end of the stack; `CapturedIffWalk` characterises them exactly and `Trace` is proved against them |
| `Tracerr.CapturedIsWalk` | error.go:141-156 | the captured frames are the lookups at depths `skip`, `skip+1`, … in order, and the lookup right after the last one fails |
| `Tracerr.WalkIsCaptured` | error.go:141-156 | any frame sequence with that property is the captured one |
| `Tracerr.CapturedIffWalk` | error.go:141-156 | a frame sequence is what the walk from `skip` captures if and only if it is the run of successful lookups from `skip` ended by the first failing one (possibly empty) |
| `Tracerr.CapturedEnter` | error.go:144 | a function called one level deeper sees the same frames one depth further out |
| `Tracerr.Trace` | error.go:141-162 | the loop returns a traced error with the given original and note whose frames are exactly the walk from `skip` |
| `Tracerr.CustomError` | error.go:35-40 | the result is traced, has an empty note, unwraps to the given error and reports the given frames verbatim |
| `Tracerr.New` | error.go:49-51 | a traced error with an empty note that unwraps to a plain error with the text and whose trace starts at New's caller |
| `Tracerr.Errorf` | error.go:44-46 | as `New`, for the formatted text |
| `Tracerr.Newf` | error.go:53-55 | as `New`, for the formatted text |
| `Tracerr.Wrap` | error.go:58-67 | nil gives nil; an error that already has a trace is returned unchanged, the note dropped; a plain error gives a traced error with the note, unwrapping to that error, traced from Wrap's caller |
| `Tracerr.WrapfAsWritten` | error.go:69-71 | Wrapf as written behaves as Wrap with the formatted note, except that the trace of a plain error starts at Wrapf's own position |
| `Tracerr.Wrapf` | error.go:69-71 | corrected Wrapf: as Wrap, with the trace starting at Wrapf's caller |
| `Tracerr.WrapfAsWrittenReportsItself` | error.go:69-71 | called from the same place, Wrapf as written reports exactly one frame more than Wrap: its own, first |
| `Tracerr.WrapfSameAsWrap` | error.go:69-71 | called from the same place, the corrected Wrapf returns what Wrap returns |
| `Tracerr.WrapIdempotent` | error.go:62-65 | wrapping twice equals wrapping once: the second note and stack are ignored |
| `Tracerr.WrapChainKeepsFirst` | error.go:58-67 | through any number of wrapping layers, the result is what the first wrap returned |
| `Tracerr.UnwrapWrap` | error.go:74-83 | unwrapping a wrapped error gives what unwrapping the error gives; for a plain error, the error itself |
| `Tracerr.RewrapCapturesAfresh` | error.go:58-83 | unwrapping a traced error whose original is a plain error (always the case for the results of `New`, `Errorf` and `Newf`, and for `Wrap` of a plain error) and wrapping that original again yields the new note and a trace from the new site, nothing of the old trace |
| `Tracerr.RewrapKeepsTracedOriginal` | error.go:58-83 | when the original of a traced error is itself traced or nil (possible through `CustomError`), wrapping the unwrapped original returns that original unchanged, the new note dropped |
| `Tracerr.WrapStartsAtCaller` | error.go:66 | when the caller's position resolves, the trace of a wrapped plain error is non-empty and starts with the caller's frame |
| `Tracerr.FrameBlockSnoc` | error.go:94-102 | each loop step adds a newline (not before the first frame), a tab and the frame's text |
| `Tracerr.WriteFrames` | error.go:94-102 | the frame loop appends the frame lines separated by newlines, with none after the last |
| `Tracerr.Error` | error.go:86-104 | the builder produces exactly the rendering: note and newline if the note is non-empty, the original's text and a newline, then the frame lines |
| `Tracerr.RenderedIsJoinedLines` | error.go:86-104 | the text of a traced error is its lines (note if any, original's text, one per frame, or one empty line without frames) joined by newlines |
| `Tracerr.RenderedLayout` | error.go:86-104 | splitting the text at newlines gives back exactly those lines when no part holds a newline itself |
| `Tracerr.RenderedWithoutFrames` | error.go:92-93 | with no frames the text ends in the newline after the original's text |
| `Tracerr.ExampleFrameLines` | error.go:137-139 | the two example frames render as `\t/a.go:10 main.f()` and `\t/a.go:20 main.g()` |
| `Tracerr.RenderedExample` | error.go:86-104 | note `ctx`, original `boom` and those two frames render as `ctx\nboom\n\t/a.go:10 main.f()\n\t/a.go:20 main.g()` |

## Left out

- `runtime.Caller` and `runtime.FuncForPC` (error.go:144, 148) are not modelled; the model receives the stack as a `Stack` value.
- The positions of `trace` and `Wrap` themselves (`TraceSite`, `WrapSite`) are fixed placeholder values: they are always skipped, so their contents never reach a trace.
- `Tracerr.New`: the text is taken literally; `fmt.Errorf` would also interpret formatting verbs in it (error.go:50).
- `Tracerr.Errorf`, `Tracerr.Newf`, `Tracerr.Wrapf`: take the text `fmt.Errorf` / `fmt.Sprintf` produce from the format and arguments; format interpretation is a library outside this model.
- `DefaultCap` (error.go:13-16, 142): the model assumes it is non-negative, where it is a capacity hint that only affects allocation, never the frames captured. A negative value makes `make` panic in `trace`, so every `New`, `Errorf`, `Newf`, and every `Wrap` or `Wrapf` of a plain error, would panic; that panic is not modelled.
- Pointer identity of `*errorData`: "returned unchanged" is modelled as returning an equal value.
- Sharing of frame slices: frames are values (`seq<Frame>`) in the model. In Go, `CustomError` stores the caller's slice without copying it (error.go:36-39), and both `StackTrace` functions return that stored slice itself (error.go:108, 133). A write through any of these slices would change the error's trace and its `Error()` text. The model assumes no caller writes through them, so `StackTrace(CustomError(err, frames)) == frames` holds for good.
- Only the package's own traced error counts as a value with a trace; another Go type that happens to implement the `Error` interface is not modelled.
- `Tracerr.Error` requires a renderable error (no nil original anywhere down the chain): Go would panic calling `Error()` on a nil original (error.go:92).
- Strings are sequences of characters (`seq<char>`), not Go's byte strings; the package only concatenates them, tests them for emptiness and renders numbers into them, and `SplitLines` looks only for `'\n'`, so no encoding question arises.
- The text of a plain error is whatever its own `Error()` returns, given as `Plain(text)`.
- `WriteFrames` is the `for` loop of `Error()` (error.go:94-102) as a method of its own; `Error()` appends to a string where Go uses a `strings.Builder`.

## Findings

| source | as written | input that shows it | evidently intended | confidence | as-written member | corrected member |
|---|---|---|---|---|---|---|
| error.go:69-71 | `Wrapf` calls `Wrap`, which calls `trace(err, message, 2)`; depth 2 seen from `trace` is then `Wrapf` itself, so the trace begins with `Wrapf`'s own frame (error.go:70) | `Wrapf(errors.New("x"), "ctx")` called from any function: the first reported frame is inside `Wrapf`, the caller comes second (`Tracerr.WrapfAsWrittenReportsItself`) | like `Wrap`, `New`, `Errorf` and `Newf`, the trace starts at the caller of the entry point (`Tracerr.WrapfSameAsWrap`) | medium; not executed | `Tracerr.WrapfAsWritten` | `Tracerr.Wrapf` |
