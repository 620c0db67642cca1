/** The lldb `abt` command: the same anchor search and chain walk as the gdb one,
    over lldb's value objects. lldb does not raise when a member or an address
    cannot be read: it hands back an invalid value, which reads as the invalid
    address, and symbol lookup of an address without debug information yields
    `None` names and line 0. So every link of the chain prints a line, and the walk
    ends only where `caller_` is invalid or null. The handle is always read from
    `__handle_` (the libc++ spelling). */
module LldbBacktrace {
  import opened Host
  import opened NamePatterns
  import opened Format

  // ---------------------------------------------------------------------------
  // The anchor.

  datatype Anchor =
    | NotInAwaitable
    | Anchored(thisValue: Option<Word>)  // `this` of the first matching frame; `None` when that value is invalid
    | AnchorRaised                  // a nameless frame came first

  /** The search over the selected thread's frames, newest first. With no frames
      (no process, or no thread selected) nothing matches and there is no anchor. */
  function AnchorOf(stack: seq<PhysicalFrame>): Anchor
    decreases |stack|
  {
    if |stack| == 0 then NotInAwaitable
    else match stack[0].name
      case None => AnchorRaised
      case Some(name) =>
        if IsResumeFrameName(name) then Anchored(stack[0].thisValue) else AnchorOf(stack[1..])
  }

  method CurrentAwaitableFrame(stack: seq<PhysicalFrame>) returns (r: Anchor)
    ensures r == AnchorOf(stack)
  {
    for i := 0 to |stack|
      invariant AnchorOf(stack[i..]) == AnchorOf(stack)
    {
      var frame := stack[i];
      if frame.name.None? {
        return AnchorRaised;
      }
      if IsResumeFrameName(frame.name.value) {
        return Anchored(frame.thisValue);
      }
      assert stack[i..][1..] == stack[i + 1..];
    }
    return NotInAwaitable;
  }

  /** The anchor is the `this` of the first matching frame, in frame order. */
  lemma {:induction false} AnchorIsFirstMatch(stack: seq<PhysicalFrame>, i: nat)
    requires i < |stack| && forall j :: 0 <= j < i ==> SkippedByAnchorSearch(stack[j])
    requires stack[i].name.Some? && IsResumeFrameName(stack[i].name.value)
    ensures AnchorOf(stack) == Anchored(stack[i].thisValue)
  {
    if i > 0 {
      AnchorIsFirstMatch(stack[1..], i - 1);
    }
  }

  /** Conversely, an anchor is always the `this` of the first matching frame. */
  lemma {:induction false} AnchoredMeansFirstMatch(stack: seq<PhysicalFrame>)
    requires AnchorOf(stack).Anchored?
    ensures exists i :: 0 <= i < |stack| && (forall j :: 0 <= j < i ==> SkippedByAnchorSearch(stack[j]))
                        && stack[i].name.Some? && IsResumeFrameName(stack[i].name.value)
                        && stack[i].thisValue == AnchorOf(stack).thisValue
  {
    if !(stack[0].name.Some? && IsResumeFrameName(stack[0].name.value)) {
      AnchoredMeansFirstMatch(stack[1..]);
      var i :| 0 <= i < |stack[1..]| && (forall j :: 0 <= j < i ==> SkippedByAnchorSearch(stack[1..][j]))
               && stack[1..][i].name.Some? && IsResumeFrameName(stack[1..][i].name.value)
               && stack[1..][i].thisValue == AnchorOf(stack[1..]).thisValue;
      assert forall j :: 0 <= j < i + 1 ==> SkippedByAnchorSearch(stack[j]) by {
        forall j | 0 <= j < i + 1 ensures SkippedByAnchorSearch(stack[j]) {
          if j > 0 { assert stack[j] == stack[1..][j - 1]; }
        }
      }
      assert stack[i + 1] == stack[1..][i];
    }
  }

  /** There is no anchor exactly when every frame has a name and none matches. */
  lemma {:induction false} NotInAwaitableIffNoMatch(stack: seq<PhysicalFrame>)
    ensures AnchorOf(stack) == NotInAwaitable <==> forall j :: 0 <= j < |stack| ==> SkippedByAnchorSearch(stack[j])
  {
    if |stack| > 0 {
      NotInAwaitableIffNoMatch(stack[1..]);
      if forall j :: 0 <= j < |stack[1..]| ==> SkippedByAnchorSearch(stack[1..][j]) {
        forall j | 0 <= j < |stack| && SkippedByAnchorSearch(stack[0]) ensures SkippedByAnchorSearch(stack[j]) {
          if j > 0 { assert stack[j] == stack[1..][j - 1]; }
        }
      } else {
        var j :| 0 <= j < |stack[1..]| && !SkippedByAnchorSearch(stack[1..][j]);
        assert !SkippedByAnchorSearch(stack[j + 1]);
      }
    }
  }

  // ---------------------------------------------------------------------------
  // One link.

  const InvalidAddress: Word := 0xffff_ffff_ffff_ffff
  const HandleField: string := "__handle_"

  /** The awaitable frame an lldb value refers to, if that value is valid and readable. */
  function FrameAt(mem: Memory, a: Option<Word>): Option<AwaitableFrame> {
    if a.Some? && a.value in mem.awaitables then Some(mem.awaitables[a.value]) else None
  }

  /** The word at `coro_.__handle_`, or the invalid address when any step fails. */
  function ResumeAddress(mem: Memory, frame: Option<AwaitableFrame>): (r: Word)
    ensures r != InvalidAddress ==> frame.Some? && frame.value.coro.Some?
                                    && HandleField in frame.value.coro.value.fields
                                    && frame.value.coro.value.fields[HandleField] in mem.words
                                    && r == mem.words[frame.value.coro.value.fields[HandleField]]
    ensures (frame.Some? && frame.value.coro.Some? && HandleField in frame.value.coro.value.fields
             && frame.value.coro.value.fields[HandleField] in mem.words)
            ==> r == mem.words[frame.value.coro.value.fields[HandleField]]
    ensures (frame.None? || frame.value.coro.None? || HandleField !in frame.value.coro.value.fields
             || frame.value.coro.value.fields[HandleField] !in mem.words)
            ==> r == InvalidAddress
  {
    if frame.Some? && frame.value.coro.Some? && HandleField in frame.value.coro.value.fields
       && frame.value.coro.value.fields[HandleField] in mem.words
    then mem.words[frame.value.coro.value.fields[HandleField]]
    else InvalidAddress
  }

  /** What the symbol context of an address shows; unresolved parts print as `None`
      and line 0. */
  function Resolve(dbg: DebugInfo, address: Word): (r: Location)
    ensures address in dbg ==> r == dbg[address]
    ensures address !in dbg ==> r == Location("None", "None", 0)
  {
    if address in dbg then dbg[address] else Location("None", "None", 0)
  }

  /** The caller the walk moves to: only a valid, non-null `caller_`. */
  function NextLink(mem: Memory, a: Option<Word>): (r: Option<Word>)
    ensures r.Some? <==> FrameAt(mem, a).Some? && FrameAt(mem, a).value.caller.Some?
                         && FrameAt(mem, a).value.caller.value != 0
    ensures r.Some? ==> r == FrameAt(mem, a).value.caller && r.value != 0
  {
    match FrameAt(mem, a)
    case Some(frame) => if frame.caller.Some? && frame.caller.value != 0 then frame.caller else None
    case None => None
  }

  /** The chain from `a` has at most `n` links. */
  ghost predicate EndsWithin(mem: Memory, a: Option<Word>, n: nat)
    decreases n
  {
    n > 0 && (NextLink(mem, a).Some? ==> EndsWithin(mem, NextLink(mem, a), n - 1))
  }

  /** The `k`-th value of the chain from `a`, if the walk gets that far. */
  function LinkAt(mem: Memory, a: Option<Word>, k: nat): Option<Option<Word>>
    decreases k
  {
    if k == 0 then Some(a)
    else if NextLink(mem, a).Some? then LinkAt(mem, NextLink(mem, a), k - 1)
    else None
  }

  function FrameOf(mem: Memory, dbg: DebugInfo, a: Option<Word>, depth: nat): StackFrame {
    var address := ResumeAddress(mem, FrameAt(mem, a));
    var loc := Resolve(dbg, address);
    StackFrame(depth, address, loc.func, loc.file, loc.line)
  }

  /** Print this link at `depth`; recurse on a valid non-null caller at `depth + 1`. */
  function Walk(mem: Memory, dbg: DebugInfo, a: Option<Word>, depth: nat, ghost n: nat): (r: seq<StackFrame>)
    requires EndsWithin(mem, a, n)
    decreases n
    ensures |r| > 0 && r[0] == FrameOf(mem, dbg, a, depth)
    ensures forall i :: 0 <= i < |r| ==> r[i].depth == depth + i
    ensures |r| == 1 <==> NextLink(mem, a).None?
  {
    var frame := FrameOf(mem, dbg, a, depth);
    if NextLink(mem, a).Some? then [frame] + Walk(mem, dbg, NextLink(mem, a), depth + 1, n - 1) else [frame]
  }

  /** The `i`-th line shows the `i`-th link of the chain. */
  lemma {:induction false} WalkFollowsChain(mem: Memory, dbg: DebugInfo, a: Option<Word>, depth: nat, n: nat, i: nat)
    requires EndsWithin(mem, a, n)
    requires i < |Walk(mem, dbg, a, depth, n)|
    ensures LinkAt(mem, a, i).Some?
    ensures Walk(mem, dbg, a, depth, n)[i] == FrameOf(mem, dbg, LinkAt(mem, a, i).value, depth + i)
    decreases n
  {
    if i > 0 {
      WalkFollowsChain(mem, dbg, NextLink(mem, a), depth + 1, n - 1, i - 1);
    }
  }

  /** A chain of `k + 1` links, the last one with an invalid or null caller, prints
      exactly `k + 1` lines. */
  lemma {:induction false} WalkLength(mem: Memory, dbg: DebugInfo, a: Option<Word>, depth: nat, n: nat, k: nat)
    requires EndsWithin(mem, a, n)
    requires LinkAt(mem, a, k).Some? && NextLink(mem, LinkAt(mem, a, k).value).None?
    ensures |Walk(mem, dbg, a, depth, n)| == k + 1
    decreases n
  {
    if k > 0 {
      WalkLength(mem, dbg, NextLink(mem, a), depth + 1, n - 1, k - 1);
    }
  }

  // ---------------------------------------------------------------------------
  // The command.

  /** The last component of a path: what `SBFileSpec.basename` shows. */
  function Basename(path: string): (r: string)
    ensures |r| <= |path| && r == path[|path| - |r|..]
    ensures forall i :: 0 <= i < |r| ==> r[i] != '/'
    ensures |r| < |path| ==> path[|path| - |r| - 1] == '/'
  {
    if |path| == 0 || path[|path| - 1] == '/' then ""
    else Basename(path[..|path| - 1]) + [path[|path| - 1]]
  }

  /** One printed line: `frame #` and the depth, the address as `0x` and 16 hex
      digits, then the function, the base name of the file and the line number. */
  function LldbLine(f: StackFrame): string {
    "frame " + ("#" + (Decimal(f.depth) + (" 0x" + (Hex16(f.address) + LldbLocation(f)))))
  }

  function LldbLocation(f: StackFrame): string {
    " " + f.func + " at " + Basename(f.file) + ":" + Decimal(f.line)
  }

  /** Reads a line of this command: "frame " followed by a frame head. */
  function ReadLldbHead(l: string): Option<(nat, nat)> {
    if |l| >= 6 && l[..6] == "frame " then ReadFrameHead(l[6..]) else None
  }

  /** A line starts with "frame ", and its depth and address can be read back. */
  lemma LldbLineHead(f: StackFrame)
    ensures ReadLldbHead(LldbLine(f)) == Some((f.depth, f.address))
  {
    var head := "#" + (Decimal(f.depth) + (" 0x" + (Hex16(f.address) + LldbLocation(f))));
    assert Decimal(f.depth) == Decimal(f.depth) + Repeat(' ', 0);
    FrameHeadRoundTrip(f.depth, Decimal(f.depth), 0, f.address, LldbLocation(f));
    assert LldbLine(f)[..6] == "frame " && LldbLine(f)[6..] == head;
  }

  const NotInAwaitableText: string := "not in an awaitable"

  ghost predicate ChainEnds(stack: seq<PhysicalFrame>, mem: Memory, n: nat) {
    AnchorOf(stack).Anchored? ==> EndsWithin(mem, AnchorOf(stack).thisValue, n)
  }

  function Lines(frames: seq<StackFrame>): (r: seq<string>)
    ensures |r| == |frames| && forall i :: 0 <= i < |r| ==> r[i] == LldbLine(frames[i])
  {
    seq(|frames|, i requires 0 <= i < |frames| => LldbLine(frames[i]))
  }

  /** Every printed line gives back its frame's depth and address. */
  lemma LinesReadBack(frames: seq<StackFrame>)
    ensures forall i :: 0 <= i < |frames| ==> ReadLldbHead(Lines(frames)[i]) == Some((frames[i].depth, frames[i].address))
  {
    forall i | 0 <= i < |frames| ensures ReadLldbHead(Lines(frames)[i]) == Some((frames[i].depth, frames[i].address)) {
      LldbLineHead(frames[i]);
    }
  }

  function Backtrace(stack: seq<PhysicalFrame>, mem: Memory, dbg: DebugInfo, ghost n: nat): Transcript
    requires ChainEnds(stack, mem, n)
  {
    match AnchorOf(stack)
    case NotInAwaitable => Transcript([NotInAwaitableText], false)
    case AnchorRaised => Transcript([], true)
    case Anchored(a) => Transcript(Lines(Walk(mem, dbg, a, 0, n)), false)
  }

  method AwaitableBacktrace(stack: seq<PhysicalFrame>, mem: Memory, dbg: DebugInfo, ghost n: nat) returns (t: Transcript)
    requires ChainEnds(stack, mem, n)
    ensures t == Backtrace(stack, mem, dbg, n)
  {
    var anchor := CurrentAwaitableFrame(stack);
    match anchor
    case NotInAwaitable => t := Transcript([NotInAwaitableText], false);
    case AnchorRaised => t := Transcript([], true);
    case Anchored(a) => t := Transcript(Lines(Walk(mem, dbg, a, 0, n)), false);
  }

  lemma NoAnchorOutput(stack: seq<PhysicalFrame>, mem: Memory, dbg: DebugInfo, n: nat)
    requires forall j :: 0 <= j < |stack| ==> SkippedByAnchorSearch(stack[j])
    ensures ChainEnds(stack, mem, n)
    ensures Backtrace(stack, mem, dbg, n) == Transcript(["not in an awaitable"], false)
  {
    NotInAwaitableIffNoMatch(stack);
  }

  /** An anchor whose caller is null prints exactly one line, at depth 0. */
  lemma NullCallerOneLine(stack: seq<PhysicalFrame>, mem: Memory, dbg: DebugInfo, n: nat)
    requires ChainEnds(stack, mem, n) && AnchorOf(stack).Anchored?
    requires FrameAt(mem, AnchorOf(stack).thisValue).Some? && FrameAt(mem, AnchorOf(stack).thisValue).value.caller == Some(0)
    ensures var t := Backtrace(stack, mem, dbg, n);
            |t.lines| == 1 && !t.raised && ReadLldbHead(t.lines[0]).Some? && ReadLldbHead(t.lines[0]).value.0 == 0
  {
    var w := Walk(mem, dbg, AnchorOf(stack).thisValue, 0, n);
    assert Backtrace(stack, mem, dbg, n) == Transcript(Lines(w), false);
    LldbLineHead(w[0]);
  }

  /** The walk along a chain of N links prints N lines showing depths 0..N-1. */
  lemma WalkReadsBack(mem: Memory, dbg: DebugInfo, a: Option<Word>, n: nat, links: nat)
    requires EndsWithin(mem, a, n) && links > 0
    requires LinkAt(mem, a, links - 1).Some? && NextLink(mem, LinkAt(mem, a, links - 1).value).None?
    ensures var lines := Lines(Walk(mem, dbg, a, 0, n));
            |lines| == links && forall i :: 0 <= i < links ==> ReadLldbHead(lines[i]).Some? && ReadLldbHead(lines[i]).value.0 == i
  {
    var w := Walk(mem, dbg, a, 0, n);
    WalkLength(mem, dbg, a, 0, n, links - 1);
    LinesShowDepths(w);
    assert |Lines(w)| == links;
  }

  /** Frames numbered from 0 print lines that read back as 0, 1, 2, ... */
  lemma LinesShowDepths(frames: seq<StackFrame>)
    requires forall i :: 0 <= i < |frames| ==> frames[i].depth == i
    ensures forall i :: 0 <= i < |frames| ==> ReadLldbHead(Lines(frames)[i]).Some? && ReadLldbHead(Lines(frames)[i]).value.0 == i
  {
    LinesReadBack(frames);
  }

  /** A chain of N links prints N lines showing depths 0..N-1, and the command
      succeeds. */
  lemma ChainOutput(stack: seq<PhysicalFrame>, mem: Memory, dbg: DebugInfo, n: nat, links: nat)
    requires ChainEnds(stack, mem, n) && AnchorOf(stack).Anchored? && links > 0
    requires LinkAt(mem, AnchorOf(stack).thisValue, links - 1).Some?
    requires NextLink(mem, LinkAt(mem, AnchorOf(stack).thisValue, links - 1).value).None?
    ensures var t := Backtrace(stack, mem, dbg, n);
            |t.lines| == links && !t.raised
            && forall i :: 0 <= i < links ==> ReadLldbHead(t.lines[i]).Some? && ReadLldbHead(t.lines[i]).value.0 == i
  {
    var a := AnchorOf(stack).thisValue;
    assert Backtrace(stack, mem, dbg, n) == Transcript(Lines(Walk(mem, dbg, a, 0, n)), false);
    WalkReadsBack(mem, dbg, a, n, links);
  }
}
