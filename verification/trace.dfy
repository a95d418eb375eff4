/** The stack-trace capture of the `trace` package (v2/trace/trace.go).

    A `Location` is one captured frame: source file, line and fully
    qualified function name. `Get` walks the caller's stack, drops the
    frames that belong to the Go runtime or to the error package itself,
    and keeps at most `deep` of the rest, innermost first.

    The runtime stack walk (`runtime.Callers` followed by
    `runtime.CallersFrames`) is foreign to the model; it is a parameter
    `walk` that, given how many innermost frames to skip and the size of
    the program-counter buffer, yields the frames the iterator would produce
    in order. */
module Trace {
  import Decimal

  /** One location of a stack trace. Immutable; only `Get` builds one. */
  datatype Location = Location(file: string, line: int, funcName: string) {

    /** The source file this location points to. */
    function File(): string { file }

    /** The line this location points to. */
    function Line(): int { line }

    /** The function this location points to. */
    function Func(): string { funcName }

    /** The characters that `String` appends after the line number. */
    function Suffix(): string {
      if funcName == "" then "" else " (" + funcName + ")"
    }

    /** The `String` method: `file:line`, followed by ` (func)` when the
        function name is known. Every field can be read back from the text
        once the lengths of the file and of the function name are known. */
    function ToString(): (r: string)
      ensures |r| > |file| + 1 + |Suffix()|
      ensures r[..|file|] == file && r[|file|] == ':'
      ensures r[|r| - |Suffix()|..] == Suffix()
      ensures funcName != "" ==> r[|r| - 1] == ')'
      ensures funcName == "" ==> Decimal.IsDigit(r[|r| - 1])
      ensures var numeral := r[|file| + 1 .. |r| - |Suffix()|];
              Decimal.IsNumeral(numeral) && (numeral[0] == '-' <==> line < 0) &&
              Decimal.Parse(numeral) == line
    {
      var numeral := Decimal.FromInt(line);
      var r := file + ":" + numeral + Suffix();
      assert r[..|file|] == file;
      assert r[|file| + 1 .. |r| - |Suffix()|] == numeral;
      assert r[|r| - |Suffix()|..] == Suffix();
      Decimal.ParseFromInt(line);
      assert numeral[|numeral| - 1] == r[|file| + |numeral|];
      r
    }
  }

  /** One frame as the runtime's frame iterator reports it. */
  datatype Frame = Frame(funcName: string, file: string, line: int)

  /** What the frame iterator returns once it has nothing more to report:
      Go's zero `runtime.Frame`. */
  const NoFrame := Frame("", "", 0)

  /** Go's `strings.HasPrefix`: a literal prefix test (Go compares bytes,
      here characters). */
  predicate HasPrefix(s: string, prefix: string) {
    |prefix| <= |s| && s[..|prefix|] == prefix
  }

  const RuntimeDot := "runtime."
  const RuntimeSlash := "runtime/"
  const ErrorsPackage := "github.com/payfazz/go-errors/v2."

  /** A function of the Go runtime or of the error package itself. */
  predicate IsInternal(funcName: string) {
    HasPrefix(funcName, RuntimeDot) ||
    HasPrefix(funcName, RuntimeSlash) ||
    HasPrefix(funcName, ErrorsPackage)
  }

  /** The filter `Get` applies to every frame it examines. */
  predicate Accept(f: Frame) {
    f.line != 0 && f.file != "" && !IsInternal(f.funcName)
  }

  /** A location that the filter would let through. */
  predicate IsVisible(l: Location) {
    Accept(Frame(l.funcName, l.file, l.line))
  }

  function ToLocation(f: Frame): (l: Location)
    ensures l.File() == f.file && l.Line() == f.line && l.Func() == f.funcName
    ensures Accept(f) <==> IsVisible(l)
  {
    Location(f.file, f.line, f.funcName)
  }

  /** Every frame the filter accepts, as a location, in stack order. */
  function Accepted(frames: seq<Frame>): (r: seq<Location>)
    ensures |r| <= |frames|
    ensures forall k :: 0 <= k < |r| ==> IsVisible(r[k])
    ensures |r| == |frames| <==> forall j :: 0 <= j < |frames| ==> Accept(frames[j])
  {
    if |frames| == 0 then []
    else
      var last := frames[|frames| - 1];
      Accepted(frames[..|frames| - 1]) + (if Accept(last) then [ToLocation(last)] else [])
  }

  /** The positions of the accepted frames in `frames`, in increasing order,
      leaving out exactly the rejected frames. `KeptIndicesMatch` shows they
      are the positions `Accepted` copies from, which makes `Accepted` an
      order-preserving subsequence of the frames. */
  function KeptIndices(frames: seq<Frame>): (ks: seq<nat>)
    ensures forall k :: 0 <= k < |ks| ==> ks[k] < |frames| && Accept(frames[ks[k]])
    ensures forall k, m :: 0 <= k < m < |ks| ==> ks[k] < ks[m]
    ensures forall j :: 0 <= j < |frames| && Accept(frames[j]) ==> j in ks
  {
    if |frames| == 0 then []
    else
      var n := |frames| - 1;
      var prefix := frames[..n];
      var ks := KeptIndices(prefix);
      assert forall k :: 0 <= k < |ks| ==> frames[ks[k]] == prefix[ks[k]];
      assert forall j :: 0 <= j < n ==> frames[j] == prefix[j];
      ks + (if Accept(frames[n]) then [n] else [])
  }

  /** `Accepted` holds, entry by entry, the copies of the frames at the
      positions `KeptIndices` lists. */
  lemma {:induction false} KeptIndicesMatch(frames: seq<Frame>)
    ensures |KeptIndices(frames)| == |Accepted(frames)|
    ensures forall k :: 0 <= k < |Accepted(frames)| ==>
              Accepted(frames)[k] == ToLocation(frames[KeptIndices(frames)[k]])
  {
    if |frames| > 0 {
      var n := |frames| - 1;
      var prefix := frames[..n];
      KeptIndicesMatch(prefix);
      var ks := KeptIndices(prefix);
      var acc := Accepted(prefix);
      var tail := if Accept(frames[n]) then [n] else [];
      assert KeptIndices(frames) == ks + tail;
      assert Accepted(frames) == acc + (if Accept(frames[n]) then [ToLocation(frames[n])] else []);
      forall k | 0 <= k < |Accepted(frames)|
        ensures Accepted(frames)[k] == ToLocation(frames[KeptIndices(frames)[k]])
      {
        if k < |acc| {
          assert KeptIndices(frames)[k] == ks[k] < n;
          assert frames[ks[k]] == prefix[ks[k]];
        }
      }
    }
  }

  /** The first `deep` accepted frames, or all of them when there are fewer:
      what `Get` returns for a given frame sequence. */
  function Select(frames: seq<Frame>, deep: int): (r: seq<Location>)
    ensures |r| <= |frames|
    ensures deep <= 0 ==> r == []
    ensures deep > 0 ==> |r| <= deep
  {
    var kept := Accepted(frames);
    if deep <= 0 then []
    else if deep < |kept| then kept[..deep]
    else kept
  }

  /** The skip handed to `runtime.Callers`: negative values clamp to zero,
      and two more frames are dropped, those of `runtime.Callers` and `Get`. */
  function EffectiveSkip(skip: int): (s: nat)
    ensures s >= 2
    ensures skip >= 0 ==> s == skip + 2
    ensures skip < 0 ==> s == 2
  {
    (if skip < 0 then 0 else skip) + 2
  }

  /** The runtime stack walk: given the number of innermost frames to skip
      and the capacity of the program-counter buffer, the frames the
      iterator reports, innermost first. */
  type StackWalk = (nat, nat) -> seq<Frame>

  /** The result `Get(skip, deep)` has on a stack described by `walk`. */
  function Captured(walk: StackWalk, skip: int, deep: int): (r: seq<Location>)
    ensures deep <= 0 ==> r == []
    ensures deep > 0 && walk(EffectiveSkip(skip), deep + 10) == [] ==> r == []
    ensures |r| <= if deep <= 0 then 0 else deep
    ensures forall k :: 0 <= k < |r| ==> IsVisible(r[k])
  {
    if deep <= 0 then []
    else
      var frames := walk(EffectiveSkip(skip), deep + 10);
      if |frames| == 0 then [] else Select(frames, deep)
  }

  /** The loop of `Get`: examine frames one at a time, keep the accepted
      ones, stop once `deep` are kept or the iterator reports no more. */
  method Collect(frames: seq<Frame>, deep: int) returns (locations: seq<Location>)
    requires deep > 0
    ensures locations == Select(frames, deep)
  {
    locations := [];
    var i := 0;
    while true
      invariant i < |frames| || (i == 0 && |frames| == 0)
      invariant locations == Accepted(frames[..i])
      invariant |locations| < deep
      decreases |frames| - i
    {
      var frame := if i < |frames| then frames[i] else NoFrame;
      var more := i + 1 < |frames|;
      if Accept(frame) {
        locations := locations + [ToLocation(frame)];
      }
      if |frames| > 0 {
        AcceptedStep(frames, i);
      }
      if |locations| == deep {
        SelectOnceFull(frames, i + 1, deep);
        break;
      }
      if !more {
        assert |frames| == 0 || frames[..i + 1] == frames;
        break;
      }
      i := i + 1;
    }
  }

  /** `Get`: the early exits, the clamp of `skip`, the stack walk and the
      filtering loop. */
  method Get(walk: StackWalk, skip: int, deep: int) returns (locations: seq<Location>)
    ensures locations == Captured(walk, skip, deep)
    ensures deep <= 0 ==> locations == []
    ensures |locations| <= if deep <= 0 then 0 else deep
    ensures forall k :: 0 <= k < |locations| ==> IsVisible(locations[k])
  {
    if deep <= 0 {
      return [];
    }
    var s := skip;
    if s < 0 {
      s := 0;
    }
    s := s + 2;
    var frames := walk(s, deep + 10);
    if |frames| == 0 {
      return [];
    }
    locations := Collect(frames, deep);
  }

  /** One more frame examined: the accepted prefix grows by that frame when
      the filter lets it through, and not at all otherwise. */
  lemma AcceptedStep(frames: seq<Frame>, i: nat)
    requires i < |frames|
    ensures Accepted(frames[..i + 1]) ==
            Accepted(frames[..i]) + (if Accept(frames[i]) then [ToLocation(frames[i])] else [])
  {
    assert frames[..i + 1][..i] == frames[..i];
  }

  /** Once a prefix of the frames holds `deep` accepted ones, the frames
      after it do not matter: the result is that prefix's accepted frames. */
  lemma SelectOnceFull(frames: seq<Frame>, n: nat, deep: int)
    requires n <= |frames|
    requires |Accepted(frames[..n])| == deep
    ensures Select(frames, deep) == Accepted(frames[..n])
  {
    AcceptedAppend(frames[..n], frames[n..]);
    assert frames[..n] + frames[n..] == frames;
  }

  /** Filtering distributes over concatenation of frame sequences. */
  lemma {:induction false} AcceptedAppend(a: seq<Frame>, b: seq<Frame>)
    ensures Accepted(a + b) == Accepted(a) + Accepted(b)
    decreases |b|
  {
    if |b| > 0 {
      var n := |b| - 1;
      assert (a + b)[..|a + b| - 1] == a + b[..n];
      AcceptedAppend(a, b[..n]);
    } else {
      assert a + b == a;
    }
  }
}
