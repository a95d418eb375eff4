# Stack-trace capture of go-errors v2, in Dafny

This project models the `trace` package of the go-errors library
(`v2/trace/trace.go`). The package captures the stack trace that the error
package attaches to every error it wraps:

- `Location` is one captured frame: source file, line and function name. It
  has the accessors `File`, `Line` and `Func`. `String` renders it as
  `file:line`, or as `file:line (func)` when the function name is known.
- `Get(skip, deep)` walks the caller's stack and returns at most `deep`
  locations, innermost first. It has these steps:
  - A non-positive `deep` returns nothing.
  - A negative `skip` is clamped to zero, then two is added for the frames
    of `runtime.Callers` and `Get` itself.
  - An empty stack returns nothing.
  - It keeps only frames with a non-zero line and a non-empty file whose
    function name does not start with `runtime.`, `runtime/` or
    `github.com/payfazz/go-errors/v2.`.
  - It stops as soon as `deep` frames are kept or the frames run out.

The model has three modules:

- `Decimal` (`decimal.dfy`) renders integers the way `%d` does. A parser
  `Parse` reads a rendering back, so the line number of a rendered
  location can be recovered.
- `Trace` (`trace.dfy`) holds the `Location` and `Frame` datatypes and the
  filter predicate `Accept`. It defines the reference reading
  `Select(frames, deep)`: the first `deep` accepted frames. `KeptIndices`
  gives the positions of the accepted frames, which witnesses that the
  filter keeps an order-preserving subsequence. `Collect` is the loop of
  `Get`, written with the iterator's `more` flag and its two `break`s.
  `Get` adds the early exits and the skip clamp.
- `TraceProperties` (`trace_properties.dfy`) proves the properties of `Get`
  and of `String` for all inputs.

The runtime stack walk (`runtime.Callers` followed by
`runtime.CallersFrames`) is a parameter `walk: (nat, nat) -> seq<Frame>`.
Given the effective skip and the capacity of the program-counter buffer
(`deep + 10`), it returns the frames the iterator would report.

## Model

| member | source | states |
|---|---|---|
| Trace.Location.ToString | v2/trace/trace.go:18-24 | the rendering starts with `file:`, ends with ` (func)` exactly when a function name is present (otherwise with a digit), and the text between them parses back to the line, with a minus sign exactly for negative lines |
| TraceProperties.ToStringInjective | v2/trace/trace.go:18-24 | for file and function names of fixed lengths, equal renderings come only from equal locations, so rendering loses no field |
| TraceProperties.AccessorsReturnFields | v2/trace/trace.go:26-33 | `File`, `Line` and `Func` return the stored fields unchanged |
| Decimal.FromNat | v2/trace/trace.go:20-23 | the `%d` digits of a natural number are non-empty, all digits, with no leading zero, and a single digit exactly below ten |
| Decimal.FromInt | v2/trace/trace.go:20-23 | `%d` of an integer is a well-formed numeral that starts with `-` exactly when the integer is negative |
| Decimal.ParseFromNat | v2/trace/trace.go:20-23 | reading back the digits of a natural number gives that number |
| Decimal.ParseFromInt | v2/trace/trace.go:20-23 | round trip: parsing the `%d` rendering of any integer gives that integer |
| Decimal.FromIntInjective | v2/trace/trace.go:20-23 | distinct line numbers render differently |
| Trace.ToLocation | v2/trace/trace.go:64-68 | a kept location copies its frame's file, line and function unchanged; the frame passes the filter exactly when the location is visible |
| Trace.Accepted | v2/trace/trace.go:58-76 | the filtered frames are no more than the input, all satisfy the filter, and they are as many as the input exactly when every frame passes |
| Trace.KeptIndices | v2/trace/trace.go:58-76 | the positions the loop keeps are strictly increasing and in range, each holds a frame that passes the filter, and every frame that passes the filter is among them |
| Trace.KeptIndicesMatch | v2/trace/trace.go:59-69 | the `k`-th kept location is the unchanged copy of the frame at the `k`-th kept position, so the filter's result is an order-preserving subsequence of the frames |
| Trace.Select | v2/trace/trace.go:70-75 | the kept locations are at most `deep` and at most the number of frames, and none for a non-positive `deep` |
| Trace.AcceptedStep | v2/trace/trace.go:59-69 | examining one more frame grows the kept list by that frame when it passes the filter and leaves it unchanged otherwise |
| Trace.SelectOnceFull | v2/trace/trace.go:70-72 | once a prefix of the frames holds `deep` accepted frames, the result is exactly those, whatever follows |
| Trace.AcceptedAppend | v2/trace/trace.go:58-76 | filtering a concatenation is the concatenation of the filtered parts |
| Trace.EffectiveSkip | v2/trace/trace.go:44-47 | the skip handed to the walk is at least two; its contract is the clamp written out case by case: `skip + 2` for a non-negative `skip`, and 2 for a negative one |
| Trace.Captured | v2/trace/trace.go:40-53 | the result of `Get` on a stack described by `walk`: empty for a non-positive `deep` or an empty walk, never longer than `deep`, and every entry passes the filter |
| Trace.Collect | v2/trace/trace.go:55-78 | the loop with its `more` flag and two breaks returns the first `deep` accepted frames, or all of them when fewer |
| Trace.Get | v2/trace/trace.go:39-79 | `Get` equals take-of-filter on the walk's frames after the effective skip; it returns nothing for a non-positive `deep`, at most `deep` locations, and every one passes the filter |
| TraceProperties.SubpackageNotInternal | v2/trace/trace.go:60-63 | prefixes match literally: a function whose package path extends `github.com/payfazz/go-errors/v2` with a character other than `.` is not filtered out |
| TraceProperties.FilterExamples | v2/trace/trace.go:60-63 | functions of the `v2_test` and `v2/trace` packages and of `main` are kept; `v2.`, `runtime.` and `runtime/` functions are dropped |
| TraceProperties.SelectIsFirstAccepted | v2/trace/trace.go:58-76 | the result has `min(deep, k)` entries, where `k` is the number of accepted frames, and entry `i` is the copy of the `i`-th accepted frame |
| TraceProperties.SelectSound | v2/trace/trace.go:60-63 | every returned location has a non-zero line and a non-empty file, and its function has none of the three excluded prefixes |
| TraceProperties.SelectOrderPreserving | v2/trace/trace.go:59-69 | any two returned locations are copies of frames in the same order, so nothing is fabricated or reordered |
| TraceProperties.SelectCompleteWhenShort | v2/trace/trace.go:73-75 | when fewer than `deep` locations come back, every accepted frame is among them |
| TraceProperties.SelectPrefixOfLonger | v2/trace/trace.go:58-76 | the result on a stack is a prefix of the result on any stack that extends it |
| TraceProperties.SelectStopsWhenFull | v2/trace/trace.go:70-72 | once `deep` frames are kept, frames further out cannot change the result |
| TraceProperties.CapturedIsSelect | v2/trace/trace.go:44-75 | for positive `deep`, `Get` is take-of-filter over `walk(max(skip, 0) + 2, deep + 10)`; the early exit on an empty walk agrees with the filter |
| TraceProperties.NoDepthIgnoresStack | v2/trace/trace.go:40-42 | a non-positive `deep` gives an empty trace whatever the stack walk would report |
| TraceProperties.NegativeSkipIsZero | v2/trace/trace.go:44-47 | a negative `skip` gives the same trace as a `skip` of zero |
| TraceProperties.EmptyStackIsEmpty | v2/trace/trace.go:49-53 | an empty stack gives an empty trace |

## Left out

- The runtime stack walk (`runtime.Callers`, `runtime.CallersFrames`) is foreign code. It is the `walk` parameter, so the model says nothing about which frames a real stack holds.
- The program-counter buffer of `deep + 10` entries is passed to `walk` as its capacity. The model derives no lower bound on the result length from it, because inlining makes frames and program counters differ in number.
- The check `len(pc) == 0` is modelled as "the walk reported no frames". The model does not represent program counters separately from frames.
- When the frame iterator is exhausted it reports Go's zero `runtime.Frame`, with line 0 and `more` false. `Collect` models this with `NoFrame`, which the filter rejects.
- Trace.Get: Go's `int` is 32 or 64 bits wide depending on the platform; the model's integers are unbounded. `make([]uintptr, deep+10)` (v2/trace/trace.go:49) panics when `deep + 10` wraps around, or when the buffer is larger than the runtime can allocate (for example `deep + 10 > 2^45` on 64-bit Linux); a very large `deep` can also exhaust memory. The model, including `Trace.Captured`, represents none of these failures: for such a `deep` it still returns take-of-filter.
- Trace.EffectiveSkip: computes the unbounded `max(skip, 0) + 2`. In Go, `skip += 2` (v2/trace/trace.go:47) wraps around for `skip` at least the largest `int` minus one and hands a negative skip to `runtime.Callers`; the model, and `TraceProperties.CapturedIsSelect` which states the same sum for every skip, do not represent that wrap-around.
- Go strings are byte sequences, and `strings.HasPrefix` (v2/trace/trace.go:61-63) compares bytes; here `string` is `seq<char>`, and lengths such as `|file|` in `TraceProperties.ToStringInjective` count characters. For the three excluded prefixes, which are ASCII, matching characters and matching bytes agree.
- Go distinguishes a nil slice, returned by the early exits, from an empty slice, returned when no frame passes the filter. Both are the empty sequence here.
- `fmt.Sprintf` is modelled only for the two output shapes of `String`, with `%s` as plain concatenation and `%d` as `Decimal.FromInt`.
- The error package is not part of this model. That covers `Wrap`, `New`, `NewWithCause`, `Cause`, `Is`, `As`, `InErrorChain`, `StackTrace`, `ParentStackTrace`, `Format` and the task launcher `Go`. Their implementations are not among the modelled files, and `Go` is about goroutines, panic recovery and channels.
- The code only rejects line 0 (v2/trace/trace.go:60), so the model keeps negative lines and renders them with a minus sign.
