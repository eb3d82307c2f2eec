/**
 * The tracerr error protocol: an error is either a plain error (message text
 * only) or a traced error that holds the original error, an optional note and
 * the stack frames captured where it was created or first wrapped.
 *
 * Go's runtime call-stack introspection is replaced by a `Stack` value given
 * as a parameter: depth 0 is the position of the function that looks at the
 * stack, depth 1 the call site in its caller, and so on outwards.
 */
module Tracerr {

  import opened Options
  import Decimal
  import Lines

  // ---------------------------------------------------------------- Frame

  /** A single step of a stack trace: function name, line number, file path. */
  datatype Frame = Frame(func: string, line: int, path: string)
  {
    /** "<path>:<line> <func>()", the line written as `%d` writes a Go int. */
    function String(): (s: string)
      ensures |s| == |path| + |Decimal.IntToString(line)| + |func| + 4
    {
      path + ":" + Decimal.IntToString(line) + " " + func + "()"
    }
  }

  /**
   * The rendered frame can be read back: the path comes first and is followed
   * by a colon, the function name and "()" come last, and what lies between
   * them is exactly the `%d` text of the line number, which reads back as it.
   */
  lemma FrameStringFields(f: Frame)
    ensures var s := f.String();
      |s| == |f.path| + |Decimal.IntToString(f.line)| + |f.func| + 4 &&
      s[..|f.path|] == f.path && s[|f.path|] == ':' &&
      s[|f.path| + 1..|s| - |f.func| - 3] == Decimal.IntToString(f.line) &&
      s[|s| - |f.func| - 3..] == " " + f.func + "()" &&
      Decimal.ParseInt(s[|f.path| + 1..|s| - |f.func| - 3]) == Some(f.line)
  {
    var s := f.String();
    var digits := Decimal.IntToString(f.line);
    assert s[|f.path| + 1..|s| - |f.func| - 3] == digits;
    Decimal.IntToStringRoundTrip(f.line);
  }

  /** A frame whose path and function name are single-line renders as a single line. */
  lemma FrameStringSingleLine(f: Frame)
    requires '\n' !in f.path && '\n' !in f.func
    ensures '\n' !in "\t" + f.String()
  {
  }

  // ---------------------------------------------------------------- errors

  /**
   * An error value. `Nil` is Go's nil error; `Plain` any error that does not
   * carry a trace; `Traced` the library's own error with a stack trace.
   */
  datatype Err =
    | Nil
    | Plain(text: string)
    | Traced(orig: Err, message: string, frames: seq<Frame>)

  /** The frames of a traced error; nothing for any other value. */
  function StackTrace(err: Err): (r: seq<Frame>)
    ensures err.Traced? ==> r == err.frames
    ensures !err.Traced? ==> r == []
  {
    match err
    case Traced(_, _, frames) => frames
    case _ => []
  }

  /** The original error of a traced error; nil for nil; any other value itself. */
  function Unwrap(err: Err): (r: Err)
    ensures err == Nil ==> r == Nil
    ensures err.Plain? ==> r == err
    ensures err.Traced? ==> r == err.orig
  {
    match err
    case Nil => Nil
    case Plain(_) => err
    case Traced(orig, _, _) => orig
  }

  // ---------------------------------------------------------------- stacks

  /** What the runtime reports for one stack depth: program counter, file, line. */
  datatype CallerInfo = CallerInfo(pc: nat, path: string, line: int)

  /**
   * The call stack as seen by one running function. `callers[d]` is what a
   * lookup at depth `d` reports (`None` where nothing can be resolved, and
   * every depth past the end fails too); `names` resolves a program counter
   * to its function's name.
   */
  datatype Stack = Stack(callers: seq<Option<CallerInfo>>, names: map<nat, string>)

  /** The stack lookup at one depth. */
  function Caller(stack: Stack, depth: nat): Option<CallerInfo> {
    if depth < |stack.callers| then stack.callers[depth] else None
  }

  /** The name of the function holding `pc`; empty when the runtime knows no function there. */
  function FuncName(stack: Stack, pc: nat): string {
    if pc in stack.names then stack.names[pc] else ""
  }

  function FrameOf(stack: Stack, info: CallerInfo): Frame {
    Frame(FuncName(stack, info.pc), info.line, info.path)
  }

  /**
   * The stack seen by a function called from the one that sees `stack`,
   * while it is at its own position `site` (depth 0).
   */
  function Enter(stack: Stack, site: CallerInfo): Stack {
    stack.(callers := [Some(site)] + stack.callers)
  }

  /** The frames for depths `skip`, `skip + 1`, ... up to the first failing lookup. */
  function Captured(stack: Stack, skip: nat): (r: seq<Frame>)
    ensures r == [] || skip + |r| <= |stack.callers|
    decreases |stack.callers| - skip
  {
    match Caller(stack, skip)
    case None => []
    case Some(info) => [FrameOf(stack, info)] + Captured(stack, skip + 1)
  }

  /** The frame a lookup at `depth` yields, if any. */
  function FrameAtDepth(stack: Stack, depth: nat): Option<Frame> {
    match Caller(stack, depth)
    case None => None
    case Some(info) => Some(FrameOf(stack, info))
  }

  /** `fs` is a walk of `stack` from depth `skip`: one frame per successful lookup, then a failure. */
  ghost predicate IsWalkFrom(stack: Stack, skip: nat, fs: seq<Frame>) {
    (forall d: nat :: skip <= d < skip + |fs| ==> FrameAtDepth(stack, d) == Some(fs[d - skip])) &&
    FrameAtDepth(stack, skip + |fs|) == None
  }

  lemma {:induction false} CapturedIsWalk(stack: Stack, skip: nat)
    ensures IsWalkFrom(stack, skip, Captured(stack, skip))
    decreases |stack.callers| - skip
  {
    if Caller(stack, skip).Some? {
      CapturedIsWalk(stack, skip + 1);
      var fs := Captured(stack, skip);
      var rest := Captured(stack, skip + 1);
      assert fs == [fs[0]] + rest;
      forall d: nat | skip <= d < skip + |fs|
        ensures FrameAtDepth(stack, d) == Some(fs[d - skip])
      {
        if d > skip {
          assert fs[d - skip] == rest[d - (skip + 1)];
        }
      }
    }
  }

  lemma {:induction false} WalkIsCaptured(stack: Stack, skip: nat, fs: seq<Frame>)
    requires IsWalkFrom(stack, skip, fs)
    ensures fs == Captured(stack, skip)
    decreases |stack.callers| - skip
  {
    if fs == [] {
      assert FrameAtDepth(stack, skip) == None;
    } else {
      assert FrameAtDepth(stack, skip) == Some(fs[0]);
      assert IsWalkFrom(stack, skip + 1, fs[1..]) by {
        forall d: nat | skip + 1 <= d < skip + 1 + |fs[1..]|
          ensures FrameAtDepth(stack, d) == Some(fs[1..][d - (skip + 1)])
        {
          assert FrameAtDepth(stack, d) == Some(fs[d - skip]);
        }
        assert skip + 1 + |fs[1..]| == skip + |fs|;
      }
      WalkIsCaptured(stack, skip + 1, fs[1..]);
    }
  }

  /**
   * The captured trace is exactly the run of successful lookups from `skip`,
   * in increasing depth, ending where the first lookup fails.
   */
  lemma CapturedIffWalk(stack: Stack, skip: nat, fs: seq<Frame>)
    ensures IsWalkFrom(stack, skip, fs) <==> fs == Captured(stack, skip)
  {
    CapturedIsWalk(stack, skip);
    if IsWalkFrom(stack, skip, fs) {
      WalkIsCaptured(stack, skip, fs);
    }
  }

  /** The function entered at `site` sees the same frames one level deeper. */
  lemma {:induction false} CapturedEnter(stack: Stack, site: CallerInfo, skip: nat)
    ensures Captured(Enter(stack, site), skip + 1) == Captured(stack, skip)
    decreases |stack.callers| - skip
  {
    assert Caller(Enter(stack, site), skip + 1) == Caller(stack, skip);
    if Caller(stack, skip).Some? {
      CapturedEnter(stack, site, skip + 1);
    }
  }

  /**
   * trace: walk the stack from depth `skip` until a lookup fails, then build
   * a traced error from `err`, `message` and the frames found.
   */
  method Trace(err: Err, message: string, skip: nat, stack: Stack) returns (r: Err)
    ensures r.Traced? && r.orig == err && r.message == message
    ensures IsWalkFrom(stack, skip, r.frames) && r.frames == Captured(stack, skip)
  {
    var frames: seq<Frame> := [];
    var depth := skip;
    while true
      invariant depth >= skip
      invariant frames + Captured(stack, depth) == Captured(stack, skip)
      decreases |stack.callers| - depth
    {
      var info := Caller(stack, depth);
      if info.None? {
        break;
      }
      var frame := Frame(FuncName(stack, info.value.pc), info.value.line, info.value.path);
      assert Captured(stack, depth) == [frame] + Captured(stack, depth + 1);
      frames := frames + [frame];
      depth := depth + 1;
    }
    assert Captured(stack, depth) == [];
    CapturedIsWalk(stack, skip);
    r := Traced(err, message, frames);
  }

  // ---------------------------------------------------------------- construction

  /** Depths trace skips from its own position: itself and the entry point that called it. */
  const CallerSkip: nat := 2

  /** Position in trace at which it looks up the stack (error.go line 144). */
  const TraceSite := CallerInfo(0, "error.go", 144)

  /** Position in Wrap at which it calls trace (error.go line 66). */
  const WrapSite := CallerInfo(0, "error.go", 66)

  /**
   * The frames `trace(_, _, 2)` captures when called by the function that sees
   * `stack`: by `Trace`'s postcondition, the frames of
   * `Trace(err, message, CallerSkip, Enter(stack, TraceSite))`. The
   * constructors below use this function because functions cannot call the
   * `Trace` method.
   */
  function CaptureAtEntry(stack: Stack): seq<Frame> {
    Captured(Enter(stack, TraceSite), CallerSkip)
  }

  /** A traced error with the given frames, an empty note and no capture of its own. */
  function CustomError(err: Err, frames: seq<Frame>): (r: Err)
    ensures r.Traced? && r.message == ""
    ensures Unwrap(r) == err && StackTrace(r) == frames
  {
    Traced(err, "", frames)
  }

  /**
   * New: a plain error with text `text`, traced from the caller of New.
   * `stack` is the stack as New sees it.
   */
  function New(text: string, stack: Stack): (r: Err)
    ensures r.Traced? && r.message == ""
    ensures Unwrap(r) == Plain(text) && StackTrace(r) == Captured(stack, 1)
  {
    CapturedEnter(stack, TraceSite, 1);
    Traced(Plain(text), "", CaptureAtEntry(stack))
  }

  /** Errorf, given the text its format and arguments produce. */
  function Errorf(formatted: string, stack: Stack): (r: Err)
    ensures r.Traced? && r.message == ""
    ensures Unwrap(r) == Plain(formatted) && StackTrace(r) == Captured(stack, 1)
  {
    CapturedEnter(stack, TraceSite, 1);
    Traced(Plain(formatted), "", CaptureAtEntry(stack))
  }

  /** Newf, given the text its format and arguments produce. */
  function Newf(formatted: string, stack: Stack): (r: Err)
    ensures r.Traced? && r.message == ""
    ensures Unwrap(r) == Plain(formatted) && StackTrace(r) == Captured(stack, 1)
  {
    CapturedEnter(stack, TraceSite, 1);
    Traced(Plain(formatted), "", CaptureAtEntry(stack))
  }

  /**
   * Wrap: nil stays nil; an error that already carries a trace is returned
   * unchanged and `message` is dropped; any other error gets a fresh trace
   * from the caller of Wrap, with `message` as its note.
   */
  function Wrap(err: Err, message: string, stack: Stack): (r: Err)
    ensures err == Nil ==> r == Nil
    ensures err.Traced? ==> r == err
    ensures err.Plain? ==> r.Traced? && r.message == message && Unwrap(r) == err &&
                           StackTrace(r) == Captured(stack, 1)
  {
    if err == Nil then Nil
    else if err.Traced? then err
    else
      CapturedEnter(stack, TraceSite, 1);
      Traced(err, message, CaptureAtEntry(stack))
  }

  /**
   * Wrapf as written: it hands the formatted note to Wrap, so trace's depth 2
   * is Wrapf's own position rather than the position of Wrapf's caller.
   */
  function WrapfAsWritten(err: Err, formatted: string, stack: Stack): (r: Err)
    ensures err == Nil ==> r == Nil
    ensures err.Traced? ==> r == err
    ensures err.Plain? ==> r.Traced? && r.message == formatted && Unwrap(r) == err &&
                           StackTrace(r) == Captured(stack, 0)
  {
    CapturedEnter(stack, WrapSite, 0);
    Wrap(err, formatted, Enter(stack, WrapSite))
  }

  /** Wrapf corrected: trace is called from Wrapf itself, so the trace starts at Wrapf's caller. */
  function Wrapf(err: Err, formatted: string, stack: Stack): (r: Err)
    ensures err == Nil ==> r == Nil
    ensures err.Traced? ==> r == err
    ensures err.Plain? ==> r.Traced? && r.message == formatted && Unwrap(r) == err &&
                           StackTrace(r) == Captured(stack, 1)
  {
    if err == Nil then Nil
    else if err.Traced? then err
    else
      CapturedEnter(stack, TraceSite, 1);
      Traced(err, formatted, CaptureAtEntry(stack))
  }

  /**
   * Called from the same place, Wrapf as written reports one frame more than
   * Wrap: its own, ahead of its caller's.
   */
  lemma WrapfAsWrittenReportsItself(err: Err, formatted: string, caller: Stack, self: CallerInfo, other: CallerInfo)
    requires err.Plain?
    ensures StackTrace(WrapfAsWritten(err, formatted, Enter(caller, self))) ==
            [FrameOf(caller, self)] + StackTrace(Wrap(err, formatted, Enter(caller, other)))
  {
    CapturedEnter(caller, self, 0);
    CapturedEnter(caller, other, 0);
    assert Caller(Enter(caller, self), 0) == Some(self);
    assert FrameOf(Enter(caller, self), self) == FrameOf(caller, self);
  }

  /** Called from the same place, the corrected Wrapf gives what Wrap gives. */
  lemma WrapfSameAsWrap(err: Err, formatted: string, caller: Stack, self: CallerInfo, other: CallerInfo)
    ensures Wrapf(err, formatted, Enter(caller, self)) == Wrap(err, formatted, Enter(caller, other))
  {
    CapturedEnter(caller, self, 0);
    CapturedEnter(caller, other, 0);
  }

  // ---------------------------------------------------------------- wrapping laws

  /** Wrapping is idempotent: a second wrap keeps the first note and trace. */
  lemma WrapIdempotent(err: Err, m1: string, s1: Stack, m2: string, s2: Stack)
    ensures Wrap(Wrap(err, m1, s1), m2, s2) == Wrap(err, m1, s1)
  {
  }

  /** The error after a chain of wraps, one per (note, stack) pair, innermost first. */
  function WrapChain(err: Err, sites: seq<(string, Stack)>): Err
    decreases |sites|
  {
    if sites == [] then err else WrapChain(Wrap(err, sites[0].0, sites[0].1), sites[1..])
  }

  lemma {:induction false} WrapChainFixed(err: Err, sites: seq<(string, Stack)>)
    requires !err.Plain?
    ensures WrapChain(err, sites) == err
    decreases |sites|
  {
    if sites != [] {
      WrapChainFixed(Wrap(err, sites[0].0, sites[0].1), sites[1..]);
    }
  }

  /**
   * However many layers wrap an error on its way up, only the first wrap
   * captures: the result is what the first wrap returned.
   */
  lemma {:induction false} WrapChainKeepsFirst(err: Err, sites: seq<(string, Stack)>)
    requires |sites| >= 1
    ensures WrapChain(err, sites) == Wrap(err, sites[0].0, sites[0].1)
  {
    WrapChainFixed(Wrap(err, sites[0].0, sites[0].1), sites[1..]);
  }

  /** Unwrapping a wrapped error gives what unwrapping the error itself gives. */
  lemma UnwrapWrap(err: Err, message: string, stack: Stack)
    ensures Unwrap(Wrap(err, message, stack)) == Unwrap(err)
    ensures err.Plain? ==> Unwrap(Wrap(err, message, stack)) == err
  {
  }

  /**
   * Unwrapping strips all trace data: wrapping the original again captures a
   * fresh trace at the new site, with the new note.
   */
  lemma RewrapCapturesAfresh(t: Err, note: string, stack: Stack)
    requires t.Traced? && t.orig.Plain?
    ensures Wrap(Unwrap(t), note, stack) == Traced(t.orig, note, Captured(stack, 1))
  {
  }

  /**
   * When the original of a traced error is itself traced (or nil), as
   * CustomError allows, wrapping it again captures nothing: the original
   * comes back unchanged.
   */
  lemma RewrapKeepsTracedOriginal(t: Err, note: string, stack: Stack)
    requires t.Traced? && !t.orig.Plain?
    ensures Wrap(Unwrap(t), note, stack) == t.orig
  {
  }

  /** A wrap from a resolvable call site reports that call site first. */
  lemma WrapStartsAtCaller(err: Err, message: string, stack: Stack)
    requires err.Plain? && Caller(stack, 1).Some?
    ensures |StackTrace(Wrap(err, message, stack))| >= 1
    ensures StackTrace(Wrap(err, message, stack))[0] == FrameOf(stack, Caller(stack, 1).value)
  {
  }

  // ---------------------------------------------------------------- rendering

  /** Error() can be called: no nil original anywhere down the chain (Go would panic). */
  predicate Renderable(err: Err) {
    match err
    case Nil => false
    case Plain(_) => true
    case Traced(orig, _, _) => Renderable(orig)
  }

  /** One tab-indented line per frame. */
  function FrameLines(frames: seq<Frame>): seq<string> {
    seq(|frames|, i requires 0 <= i < |frames| => "\t" + frames[i].String())
  }

  /** The frame lines separated by newlines, with none after the last. */
  function FrameBlock(frames: seq<Frame>): string {
    Lines.Join(FrameLines(frames), "\n")
  }

  /**
   * The text of an error: for a traced error the note and a newline (only if
   * the note is non-empty), the original's text and a newline, then the frame
   * lines separated by newlines, with none after the last.
   */
  function Rendered(err: Err): (r: string)
    requires Renderable(err)
  {
    match err
    case Plain(text) => text
    case Traced(orig, message, frames) =>
      (if message != "" then message + "\n" else "") + Rendered(orig) + "\n" +
      FrameBlock(frames)
  }

  /** The frame block grows by a separator (except before the first) and one frame line. */
  lemma FrameBlockSnoc(frames: seq<Frame>, i: nat)
    requires i < |frames|
    ensures FrameBlock(frames[..i + 1]) ==
            FrameBlock(frames[..i]) + (if i == 0 then "" else "\n") + "\t" + frames[i].String()
  {
    var line := "\t" + frames[i].String();
    assert FrameLines(frames[..i + 1]) == FrameLines(frames[..i]) + [line];
    if i > 0 {
      Lines.JoinSnoc(FrameLines(frames[..i]), line, "\n");
    } else {
      assert FrameLines(frames[..1]) == [line];
    }
  }

  /**
   * The frame loop of Error(): appends the frame lines to `text`, a newline
   * before every frame but the first.
   */
  method WriteFrames(text: string, frames: seq<Frame>) returns (builder: string)
    ensures builder == text + FrameBlock(frames)
  {
    builder := text;
    var isFirstFrame := true;
    for i := 0 to |frames|
      invariant isFirstFrame <==> i == 0
      invariant builder == text + FrameBlock(frames[..i])
    {
      FrameBlockSnoc(frames, i);
      if !isFirstFrame {
        builder := builder + "\n";
      }
      isFirstFrame := false;
      builder := builder + "\t";
      builder := builder + frames[i].String();
    }
    assert frames[..|frames|] == frames;
  }

  /** Error(): builds the text of an error piece by piece. */
  method Error(err: Err) returns (s: string)
    requires Renderable(err)
    ensures s == Rendered(err)
    decreases err
  {
    if err.Plain? {
      return err.text;
    }
    var builder := "";
    if err.message != "" {
      builder := builder + err.message;
      builder := builder + "\n";
    }
    var original := Error(err.orig);
    builder := builder + original;
    builder := builder + "\n";
    s := WriteFrames(builder, StackTrace(err));
  }

  /**
   * The lines of a traced error's text: the note (if any), the original's
   * text, then one line per frame in order; with no frames, an empty last line.
   */
  function TextLines(err: Err): seq<string>
    requires err.Traced? && Renderable(err)
  {
    (if err.message == "" then [] else [err.message]) +
    ([Rendered(err.orig)] + (if err.frames == [] then [""] else FrameLines(err.frames)))
  }

  /** The text of a traced error is its lines joined by newlines. */
  lemma RenderedIsJoinedLines(err: Err)
    requires err.Traced? && Renderable(err)
    ensures Rendered(err) == Lines.Join(TextLines(err), "\n")
  {
    var tail := if err.frames == [] then [""] else FrameLines(err.frames);
    assert FrameBlock(err.frames) == Lines.Join(tail, "\n");
    Lines.JoinLayout(err.message, Rendered(err.orig), tail, "\n");
  }

  /**
   * Read line by line, the text of a traced error gives back exactly its
   * lines, provided none of its parts holds a newline itself.
   */
  lemma RenderedLayout(err: Err)
    requires err.Traced? && Renderable(err)
    requires '\n' !in err.message && '\n' !in Rendered(err.orig)
    requires forall i :: 0 <= i < |err.frames| ==> '\n' !in err.frames[i].path && '\n' !in err.frames[i].func
    ensures Lines.SplitLines(Rendered(err)) == TextLines(err)
  {
    RenderedIsJoinedLines(err);
    var lines := TextLines(err);
    var frameLines := FrameLines(err.frames);
    forall i | 0 <= i < |frameLines| ensures '\n' !in frameLines[i] {
      FrameStringSingleLine(err.frames[i]);
    }
    var k := if err.message == "" then 1 else 2;
    forall i | 0 <= i < |lines| ensures '\n' !in lines[i] {
      if i >= k && err.frames != [] {
        assert lines[i] == frameLines[i - k];
      }
    }
    Lines.SplitJoin(lines);
  }

  /** A traced error with no frames renders as its header alone, ending in a newline. */
  lemma RenderedWithoutFrames(err: Err)
    requires err.Traced? && Renderable(err) && err.frames == []
    ensures Rendered(err) == (if err.message != "" then err.message + "\n" else "") + Rendered(err.orig) + "\n"
    ensures Rendered(err)[|Rendered(err)| - 1] == '\n'
  {
  }

  /** The line numbers of the example frames in decimal. */
  lemma ExampleLineNumbers()
    ensures Decimal.IntToString(10) == "10" && Decimal.IntToString(20) == "20"
  {
    assert Decimal.NatToString(1) == "1";
    assert Decimal.NatToString(2) == "2";
    assert Decimal.NatToString(0) == "0";
  }

  lemma ExampleFrameLines(frames: seq<Frame>)
    requires frames == [Frame("main.f", 10, "/a.go"), Frame("main.g", 20, "/a.go")]
    ensures FrameLines(frames) == ["\t/a.go:10 main.f()", "\t/a.go:20 main.g()"]
  {
    ExampleLineNumbers();
    assert frames[0].String() == "/a.go:10 main.f()";
    assert frames[1].String() == "/a.go:20 main.g()";
    var lines := FrameLines(frames);
    assert |lines| == 2;
    assert lines[0] == "\t/a.go:10 main.f()";
    assert lines[1] == "\t/a.go:20 main.g()";
  }

  /**
   * A worked example with two frames, note "ctx" and original "boom":
   * "ctx\nboom\n\t/a.go:10 main.f()\n\t/a.go:20 main.g()", written piece by piece.
   */
  lemma RenderedExample()
    ensures Rendered(Traced(Plain("boom"), "ctx",
                            [Frame("main.f", 10, "/a.go"), Frame("main.g", 20, "/a.go")]))
            == "ctx" + "\n" + "boom" + "\n" + "\t/a.go:10 main.f()" + "\n" + "\t/a.go:20 main.g()"
  {
    var frames := [Frame("main.f", 10, "/a.go"), Frame("main.g", 20, "/a.go")];
    ExampleFrameLines(frames);
    var lines := FrameLines(frames);
    Lines.JoinCons(lines[0], lines[1..], "\n");
    assert [lines[0]] + lines[1..] == lines;
  }

}
