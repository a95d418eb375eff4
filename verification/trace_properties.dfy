/** Properties of stack-trace capture (v2/trace/trace.go): what `Get`
    returns for any stack, stated against the take-of-filter reading, and
    what the rendering of a `Location` preserves. */
module TraceProperties {
  import Decimal
  import opened Trace

  /** The number of frames the filter lets through. */
  function AcceptedCount(frames: seq<Frame>): nat {
    |KeptIndices(frames)|
  }

  /** The error package's import path, without the `.` that starts a
      function name inside it. */
  const ErrorsModule := "github.com/payfazz/go-errors/v2"

  function Min(a: int, b: int): int {
    if a < b then a else b
  }

  // ---------------------------------------------------------------------
  // Location

  /** The accessors hand back the fields a location was built from. */
  lemma AccessorsReturnFields(file: string, line: int, funcName: string)
    ensures Location(file, line, funcName).File() == file
    ensures Location(file, line, funcName).Line() == line
    ensures Location(file, line, funcName).Func() == funcName
  {
  }

  /** Two locations whose file and function names have the same lengths
      render differently unless they are equal: rendering loses nothing. */
  lemma ToStringInjective(a: Location, b: Location)
    requires |a.file| == |b.file| && |a.funcName| == |b.funcName|
    requires a.ToString() == b.ToString()
    ensures a == b
  {
    var r := a.ToString();
    assert a.file == r[..|a.file|] == b.file;
    assert |a.Suffix()| == |b.Suffix()|;
    var numeral := r[|a.file| + 1 .. |r| - |a.Suffix()|];
    assert a.line == Decimal.Parse(numeral) == b.line;
    if a.funcName != "" {
      assert a.Suffix() == r[|r| - |a.Suffix()|..] == b.Suffix();
      assert a.funcName == a.Suffix()[2..|a.Suffix()| - 1];
      assert b.funcName == b.Suffix()[2..|b.Suffix()| - 1];
    }
  }

  // ---------------------------------------------------------------------
  // The filter

  /** The excluded prefixes are matched literally: a function of a package
      whose path merely extends the error package's path with a character
      other than `.` (its `trace` sub-package, its external test package
      `v2_test`) is not internal. */
  lemma SubpackageNotInternal(name: string)
    requires |name| > |ErrorsModule|
    requires name[..|ErrorsModule|] == ErrorsModule
    requires name[|ErrorsModule|] != '.'
    ensures !IsInternal(name)
  {
    assert ErrorsPackage == ErrorsModule + ".";
    assert name[0] == name[..|ErrorsModule|][0] == 'g';
    assert RuntimeDot[0] == RuntimeSlash[0] == 'r';
  }

  /** The error package's import path followed by anything that does not
      start with `.` names a function the filter keeps. */
  lemma ExtensionNotInternal(rest: string)
    requires |rest| > 0 && rest[0] != '.'
    ensures !IsInternal(ErrorsModule + rest)
  {
    var name := ErrorsModule + rest;
    assert name[..|ErrorsModule|] == ErrorsModule;
    assert name[|ErrorsModule|] == rest[0];
    SubpackageNotInternal(name);
  }

  /** The function names the error package's tests look for survive the
      filter, while the package's own functions do not. */
  lemma FilterExamples()
    ensures !IsInternal(ErrorsModule + "_test.TestGo")
    ensures !IsInternal(ErrorsModule + "/trace.Get")
    ensures IsInternal("github.com/payfazz/go-errors/v2.Wrap")
    ensures IsInternal("runtime.goexit")
    ensures IsInternal("runtime/debug.Stack")
    ensures !IsInternal("main.main")
  {
    ExtensionNotInternal("_test.TestGo");
    ExtensionNotInternal("/trace.Get");
    assert "github.com/payfazz/go-errors/v2.Wrap"[..|ErrorsPackage|] == ErrorsPackage;
    assert "runtime.goexit"[..|RuntimeDot|] == RuntimeDot;
    assert "runtime/debug.Stack"[..|RuntimeSlash|] == RuntimeSlash;
    assert "main.main"[0] == 'm';
  }

  // ---------------------------------------------------------------------
  // Select: the frames Get keeps

  /** The result holds exactly the first `min(deep, k)` accepted frames,
      where `k` is how many the filter lets through, in stack order, each
      copied unchanged from its frame. */
  lemma SelectIsFirstAccepted(frames: seq<Frame>, deep: int)
    ensures var r := Select(frames, deep);
            var ks := KeptIndices(frames);
            |r| == (if deep <= 0 then 0 else Min(deep, AcceptedCount(frames))) &&
            forall k :: 0 <= k < |r| ==>
              r[k] == ToLocation(frames[ks[k]]) && Accept(frames[ks[k]])
  {
    KeptIndicesMatch(frames);
  }

  /** Every kept location is one that the filter admits: non-zero line,
      non-empty file, no runtime or error-package function. */
  lemma SelectSound(frames: seq<Frame>, deep: int)
    ensures forall l :: l in Select(frames, deep) ==>
              l.line != 0 && l.file != "" &&
              !HasPrefix(l.funcName, "runtime.") &&
              !HasPrefix(l.funcName, "runtime/") &&
              !HasPrefix(l.funcName, "github.com/payfazz/go-errors/v2.")
  {
    var r := Select(frames, deep);
    forall l | l in r
      ensures IsVisible(l)
    {
      var k :| 0 <= k < |r| && r[k] == l;
      assert r[k] == Accepted(frames)[k];
    }
  }

  /** Nothing is fabricated: each kept location is the copy of some
      accepted frame, and kept locations keep the order of their frames. */
  lemma SelectOrderPreserving(frames: seq<Frame>, deep: int, k: int, m: int)
    requires 0 <= k < m < |Select(frames, deep)|
    ensures exists i, j :: 0 <= i < j < |frames| &&
              Select(frames, deep)[k] == ToLocation(frames[i]) &&
              Select(frames, deep)[m] == ToLocation(frames[j])
  {
    SelectIsFirstAccepted(frames, deep);
    var ks := KeptIndices(frames);
    assert ks[k] < ks[m];
  }

  /** When fewer than `deep` locations come back, the frames ran out first:
      every accepted frame is in the result. */
  lemma SelectCompleteWhenShort(frames: seq<Frame>, deep: int)
    requires |Select(frames, deep)| < deep
    ensures Select(frames, deep) == Accepted(frames)
    ensures forall j :: 0 <= j < |frames| && Accept(frames[j]) ==>
              ToLocation(frames[j]) in Select(frames, deep)
  {
    var ks := KeptIndices(frames);
    KeptIndicesMatch(frames);
    forall j | 0 <= j < |frames| && Accept(frames[j])
      ensures ToLocation(frames[j]) in Select(frames, deep)
    {
      var k :| 0 <= k < |ks| && ks[k] == j;
      assert Accepted(frames)[k] == ToLocation(frames[j]);
    }
  }

  /** More frames further out never change what has been kept: the result
      on a stack is a prefix of the result on any longer stack. */
  lemma {:induction false} SelectPrefixOfLonger(frames: seq<Frame>, more: seq<Frame>, deep: int)
    ensures var short := Select(frames, deep);
            var long := Select(frames + more, deep);
            |short| <= |long| && long[..|short|] == short
  {
    AcceptedAppend(frames, more);
  }

  /** Once `deep` frames are kept nothing further is examined: frames after
      them cannot change the result. */
  lemma SelectStopsWhenFull(frames: seq<Frame>, more: seq<Frame>, deep: int)
    requires |Select(frames, deep)| == deep
    ensures Select(frames + more, deep) == Select(frames, deep)
  {
    SelectPrefixOfLonger(frames, more, deep);
  }

  // ---------------------------------------------------------------------
  // Captured: Get on a stack walk

  /** `Get` is take-of-filter over the frames the walk reports after the
      effective skip, for every depth; the early exit on an empty walk
      agrees with the filter. */
  lemma CapturedIsSelect(walk: StackWalk, skip: int, deep: int)
    requires deep > 0
    ensures Captured(walk, skip, deep) ==
            Select(walk((if skip < 0 then 0 else skip) + 2, deep + 10), deep)
  {
  }

  /** A non-positive depth gives an empty trace whatever the stack holds:
      the walk is never consulted. */
  lemma NoDepthIgnoresStack(walk1: StackWalk, walk2: StackWalk, skip: int, deep: int)
    requires deep <= 0
    ensures Captured(walk1, skip, deep) == []
    ensures Captured(walk1, skip, deep) == Captured(walk2, skip, deep)
  {
  }

  /** A negative skip behaves exactly like a skip of zero. */
  lemma NegativeSkipIsZero(walk: StackWalk, skip: int, deep: int)
    requires skip < 0
    ensures Captured(walk, skip, deep) == Captured(walk, 0, deep)
  {
  }

  /** An empty stack gives an empty trace. */
  lemma EmptyStackIsEmpty(walk: StackWalk, skip: int, deep: int)
    requires deep > 0 && walk(EffectiveSkip(skip), deep + 10) == []
    ensures Captured(walk, skip, deep) == []
  {
  }
}
