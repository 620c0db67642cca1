/** The gdb `abt` command: find the newest physical frame that is running an
    awaitable frame's `resume`, then follow the chain of `caller_` links from that
    awaitable frame, printing one line per coroutine with its resume point.

    Every read of the chain that gdb reports as `gdb.error` (a missing member, an
    unreadable address) silently ends the walk, keeping the lines already printed.
    A resume address with no debug information makes the line-building code fail
    with a Python error that is not a `gdb.error`; that error leaves the command,
    after the lines already printed. */
module GdbBacktrace {
  import opened Host
  import opened NamePatterns
  import opened Format

  // ---------------------------------------------------------------------------
  // The anchor: the newest frame whose function is an awaitable resume.

  datatype Anchor =
    | NotInAwaitable     // every frame was searched and none matches
    | Anchored(frame: Word)  // `this` of the first matching frame, the awaitable frame's address
    | AnchorRaised       // there is no stack, a nameless frame came first, or the matching frame has no `this`

  /** The search loop, from a frame towards older ones; it ends without an anchor
      after the outermost frame. A frame without a name ends it with an error (the
      regex is applied to `None`); so does a matching frame with no `this`. */
  function SearchFrames(frames: seq<PhysicalFrame>): Anchor
    decreases |frames|
  {
    if |frames| == 0 then NotInAwaitable
    else match frames[0].name
      case None => AnchorRaised
      case Some(name) =>
        if IsResumeFrameName(name) then
          match frames[0].thisValue
          case Some(p) => Anchored(p)
          case None => AnchorRaised
        else SearchFrames(frames[1..])
  }

  /** The search from the newest frame. gdb has a newest frame only when there is a
      stack: with no process, or a running one, asking for it raises `gdb.error`
      outside any handler. */
  function AnchorOf(stack: seq<PhysicalFrame>): Anchor {
    if |stack| == 0 then AnchorRaised else SearchFrames(stack)
  }

  method CurrentAwaitableFrame(stack: seq<PhysicalFrame>) returns (r: Anchor)
    ensures r == AnchorOf(stack)
  {
    if |stack| == 0 {
      return AnchorRaised;
    }
    var i := 0;
    while i < |stack|
      invariant 0 <= i <= |stack|
      invariant SearchFrames(stack[i..]) == AnchorOf(stack)
    {
      var frame := stack[i];
      if frame.name.None? {
        return AnchorRaised;
      }
      if IsResumeFrameName(frame.name.value) {
        if frame.thisValue.None? {
          return AnchorRaised;
        }
        return Anchored(frame.thisValue.value);
      }
      assert stack[i..][1..] == stack[i + 1..];
      i := i + 1;
    }
    return NotInAwaitable;
  }

  /** The search finds the first matching frame, scanning from the newest. */
  lemma {:induction false} AnchorIsFirstMatch(stack: seq<PhysicalFrame>, i: nat)
    requires i < |stack| && forall j :: 0 <= j < i ==> SkippedByAnchorSearch(stack[j])
    requires stack[i].name.Some? && IsResumeFrameName(stack[i].name.value)
    ensures AnchorOf(stack) == if stack[i].thisValue.Some? then Anchored(stack[i].thisValue.value) else AnchorRaised
  {
    if i > 0 {
      AnchorIsFirstMatch(stack[1..], i - 1);
    }
  }

  /** Conversely, an anchor is always the `this` of the first matching frame. */
  lemma {:induction false} AnchoredMeansFirstMatch(stack: seq<PhysicalFrame>)
    requires AnchorOf(stack).Anchored?
    ensures exists i :: 0 <= i < |stack| && (forall j :: 0 <= j < i ==> SkippedByAnchorSearch(stack[j]))
                        && stack[i].name.Some? && IsResumeFrameName(stack[i].name.value)
                        && stack[i].thisValue == Some(AnchorOf(stack).frame)
  {
    if !(stack[0].name.Some? && IsResumeFrameName(stack[0].name.value)) {
      assert SearchFrames(stack) == SearchFrames(stack[1..]);
      AnchoredMeansFirstMatch(stack[1..]);
      var i :| 0 <= i < |stack[1..]| && (forall j :: 0 <= j < i ==> SkippedByAnchorSearch(stack[1..][j]))
               && stack[1..][i].name.Some? && IsResumeFrameName(stack[1..][i].name.value)
               && stack[1..][i].thisValue == Some(AnchorOf(stack[1..]).frame);
      assert forall j :: 0 <= j < i + 1 ==> SkippedByAnchorSearch(stack[j]) by {
        forall j | 0 <= j < i + 1 ensures SkippedByAnchorSearch(stack[j]) {
          if j > 0 { assert stack[j] == stack[1..][j - 1]; }
        }
      }
      assert stack[i + 1] == stack[1..][i];
    } else {
      assert stack[0].thisValue == Some(AnchorOf(stack).frame);
    }
  }

  /** The search over some frames ends without an anchor exactly when each has a
      name and none matches. */
  lemma {:induction false} SearchFindsNothingIffNoMatch(frames: seq<PhysicalFrame>)
    ensures SearchFrames(frames) == NotInAwaitable <==> forall j :: 0 <= j < |frames| ==> SkippedByAnchorSearch(frames[j])
  {
    if |frames| > 0 {
      SearchFindsNothingIffNoMatch(frames[1..]);
      if forall j :: 0 <= j < |frames[1..]| ==> SkippedByAnchorSearch(frames[1..][j]) {
        assert SkippedByAnchorSearch(frames[0]) ==> forall j :: 0 <= j < |frames| ==> SkippedByAnchorSearch(frames[j]) by {
          forall j | 0 <= j < |frames| && SkippedByAnchorSearch(frames[0]) ensures SkippedByAnchorSearch(frames[j]) {
            if j > 0 { assert frames[j] == frames[1..][j - 1]; }
          }
        }
      } else {
        var j :| 0 <= j < |frames[1..]| && !SkippedByAnchorSearch(frames[1..][j]);
        assert !SkippedByAnchorSearch(frames[j + 1]);
      }
    }
  }

  /** There is no anchor exactly when there is a stack, every frame has a name and
      none matches. */
  lemma NotInAwaitableIffNoMatch(stack: seq<PhysicalFrame>)
    ensures AnchorOf(stack) == NotInAwaitable
            <==> |stack| > 0 && forall j :: 0 <= j < |stack| ==> SkippedByAnchorSearch(stack[j])
  {
    SearchFindsNothingIffNoMatch(stack);
  }

  // ---------------------------------------------------------------------------
  // The coroutine handle inside `coro_`.

  const LibcxxHandle: string := "__handle_"
  const LibstdcxxHandle: string := "_M_fr_ptr"

  /** The handle read as the code is written: the membership test for the libc++
      spelling looks the member's name up among the type's field objects rather than
      among their names, so it never succeeds and the libstdc++ member is always read. */
  function CoroHandleAsWritten(coro: CoroHandle): (r: Option<Word>)
    ensures r.Some? <==> LibstdcxxHandle in coro.fields
    ensures r.Some? ==> r.value == coro.fields[LibstdcxxHandle]
  {
    if LibstdcxxHandle in coro.fields then Some(coro.fields[LibstdcxxHandle]) else None
  }

  /** A libc++ handle, which has only `__handle_`, is never read as written. */
  lemma AsWrittenMissesLibcxxHandle()
    ensures var coro := CoroHandle(map[LibcxxHandle := 0x1000]);
            CoroHandleAsWritten(coro) == None && CoroHandleOf(coro) == Some(0x1000)
  {
    var coro := CoroHandle(map[LibcxxHandle := 0x1000]);
    assert LibstdcxxHandle != LibcxxHandle by { assert LibstdcxxHandle[1] != LibcxxHandle[1]; }
    assert LibstdcxxHandle !in coro.fields;
  }

  /** The handle as intended: `__handle_` when the type has it, else `_M_fr_ptr`;
      a read fails only when neither spelling is present. */
  function CoroHandleOf(coro: CoroHandle): (r: Option<Word>)
    ensures r.None? <==> LibcxxHandle !in coro.fields && LibstdcxxHandle !in coro.fields
    ensures LibcxxHandle in coro.fields ==> r == Some(coro.fields[LibcxxHandle])
    ensures LibcxxHandle !in coro.fields && LibstdcxxHandle in coro.fields ==> r == Some(coro.fields[LibstdcxxHandle])
  {
    if LibcxxHandle in coro.fields then Some(coro.fields[LibcxxHandle])
    else if LibstdcxxHandle in coro.fields then Some(coro.fields[LibstdcxxHandle])
    else None
  }

  /** Which reading of the handle the command performs: the code as written, or the
      lookup its authors evidently intended. */
  datatype HandleLookup = AsWritten | Intended

  function HandleOf(lookup: HandleLookup, coro: CoroHandle): Option<Word> {
    match lookup
    case AsWritten => CoroHandleAsWritten(coro)
    case Intended => CoroHandleOf(coro)
  }

  // ---------------------------------------------------------------------------
  // One link of the chain.

  datatype Link =
    | Failed     // a gdb.error before the line was printed
    | Crashed    // a Python error that is not a gdb.error, before the line was printed
    | Emitted(address: Word, location: Location, caller: Option<Word>)
      // the line was printed; `caller` is the `caller_` pointer, absent when reading it fails

  /** Printing the awaitable frame at address `a`, then reading its `caller_`. */
  function StepAt(lookup: HandleLookup, mem: Memory, dbg: DebugInfo, a: Word): (r: Link)
    ensures r.Failed? <==> !(a in mem.awaitables && mem.awaitables[a].coro.Some?
                             && HandleOf(lookup, mem.awaitables[a].coro.value).Some?
                             && HandleOf(lookup, mem.awaitables[a].coro.value).value in mem.words)
    ensures r.Emitted? ==> a in mem.awaitables && mem.awaitables[a].coro.Some?
    ensures r.Emitted? ==> var h := HandleOf(lookup, mem.awaitables[a].coro.value);
                           h.Some? && h.value in mem.words && r.address == mem.words[h.value]
                           && r.address in dbg && r.location == dbg[r.address]
                           && r.caller == mem.awaitables[a].caller
    ensures r.Crashed? <==> a in mem.awaitables && mem.awaitables[a].coro.Some?
                            && HandleOf(lookup, mem.awaitables[a].coro.value).Some?
                            && HandleOf(lookup, mem.awaitables[a].coro.value).value in mem.words
                            && mem.words[HandleOf(lookup, mem.awaitables[a].coro.value).value] !in dbg
  {
    if a !in mem.awaitables then Failed
    else
      var frame := mem.awaitables[a];
      if frame.coro.None? then Failed
      else match HandleOf(lookup, frame.coro.value)
        case None => Failed
        case Some(h) =>
          if h !in mem.words then Failed
          else
            var address := mem.words[h];
            if address !in dbg then Crashed
            else Emitted(address, dbg[address], frame.caller)
  }

  /** The chain from `a` ends within `n` links: the caller chain is finite. */
  ghost predicate EndsWithin(lookup: HandleLookup, mem: Memory, dbg: DebugInfo, a: Word, n: nat)
    decreases n
  {
    n > 0 && match StepAt(lookup, mem, dbg, a)
             case Emitted(_, _, Some(c)) => EndsWithin(lookup, mem, dbg, c, n - 1)
             case _ => true
  }

  /** The address of the `k`-th awaitable frame of the chain from `a`, if the walk
      gets that far. */
  function LinkAt(lookup: HandleLookup, mem: Memory, dbg: DebugInfo, a: Word, k: nat): Option<Word>
    decreases k
  {
    if k == 0 then Some(a)
    else match StepAt(lookup, mem, dbg, a)
      case Emitted(_, _, Some(c)) => LinkAt(lookup, mem, dbg, c, k - 1)
      case _ => None
  }

  datatype Walked = Walked(frames: seq<StackFrame>, raised: bool)

  function FrameOf(depth: nat, address: Word, loc: Location): StackFrame {
    StackFrame(depth, address, loc.func, loc.file, loc.line)
  }

  /** The recursive walk: print this link at `depth`, then walk its caller at
      `depth + 1`; a gdb.error anywhere ends the walk quietly. */
  function Walk(lookup: HandleLookup, mem: Memory, dbg: DebugInfo, a: Word, depth: nat, ghost n: nat): (r: Walked)
    requires EndsWithin(lookup, mem, dbg, a, n)
    decreases n
    ensures forall i :: 0 <= i < |r.frames| ==> r.frames[i].depth == depth + i
    ensures r.raised ==> exists k: nat :: LinkAt(lookup, mem, dbg, a, k).Some? && StepAt(lookup, mem, dbg, LinkAt(lookup, mem, dbg, a, k).value).Crashed?
  {
    match StepAt(lookup, mem, dbg, a)
    case Failed => Walked([], false)
    case Crashed =>
      assert LinkAt(lookup, mem, dbg, a, 0) == Some(a);
      Walked([], true)
    case Emitted(address, loc, caller) =>
      var frame := FrameOf(depth, address, loc);
      if caller.None? then Walked([frame], false)
      else
        var rest := Walk(lookup, mem, dbg, caller.value, depth + 1, n - 1);
        assert rest.raised ==> exists k: nat :: LinkAt(lookup, mem, dbg, a, k).Some? && StepAt(lookup, mem, dbg, LinkAt(lookup, mem, dbg, a, k).value).Crashed? by {
          if rest.raised {
            var k: nat :| LinkAt(lookup, mem, dbg, caller.value, k).Some? && StepAt(lookup, mem, dbg, LinkAt(lookup, mem, dbg, caller.value, k).value).Crashed?;
            assert LinkAt(lookup, mem, dbg, a, k + 1) == LinkAt(lookup, mem, dbg, caller.value, k);
          }
        }
        Walked([frame] + rest.frames, rest.raised)
  }

  /** The `i`-th line printed shows the `i`-th link of the chain. */
  lemma {:induction false} WalkFollowsChain(lookup: HandleLookup, mem: Memory, dbg: DebugInfo, a: Word, depth: nat, n: nat, i: nat)
    requires EndsWithin(lookup, mem, dbg, a, n)
    requires i < |Walk(lookup, mem, dbg, a, depth, n).frames|
    ensures LinkAt(lookup, mem, dbg, a, i).Some?
    ensures var s := StepAt(lookup, mem, dbg, LinkAt(lookup, mem, dbg, a, i).value);
            s.Emitted? && Walk(lookup, mem, dbg, a, depth, n).frames[i] == FrameOf(depth + i, s.address, s.location)
    decreases n
  {
    if i > 0 {
      var s := StepAt(lookup, mem, dbg, a);
      WalkFollowsChain(lookup, mem, dbg, s.caller.value, depth + 1, n - 1, i - 1);
    }
  }

  /** How the walk ends: if the walk reaches link `k`, what that link does decides
      the number of lines, and whether the command raises. */
  lemma {:induction false} WalkStopsAtFirstFailure(lookup: HandleLookup, mem: Memory, dbg: DebugInfo, a: Word, depth: nat, n: nat, k: nat)
    requires EndsWithin(lookup, mem, dbg, a, n)
    requires LinkAt(lookup, mem, dbg, a, k).Some?
    ensures var s := StepAt(lookup, mem, dbg, LinkAt(lookup, mem, dbg, a, k).value);
            var w := Walk(lookup, mem, dbg, a, depth, n);
            (s.Failed? ==> |w.frames| == k && !w.raised)
            && (s.Crashed? ==> |w.frames| == k && w.raised)
            && (s.Emitted? && s.caller.None? ==> |w.frames| == k + 1 && !w.raised)
            && (s.Emitted? && s.caller.Some? ==> |w.frames| > k)
    decreases n
  {
    if k > 0 {
      var s := StepAt(lookup, mem, dbg, a);
      WalkStopsAtFirstFailure(lookup, mem, dbg, s.caller.value, depth + 1, n - 1, k - 1);
    }
  }

  // ---------------------------------------------------------------------------
  // The command.

  /** One printed line: `#`, the depth left-aligned in three columns, the address as
      `0x` and 16 hex digits, then the function, the file and the line number. */
  function GdbLine(f: StackFrame): string {
    "#" + (LeftAlign(Decimal(f.depth), 3) + (" 0x" + (Hex16(f.address) + GdbLocation(f))))
  }

  function GdbLocation(f: StackFrame): string {
    " " + f.func + " at " + f.file + ":" + Decimal(f.line)
  }

  /** The depth and address of a printed line can be read back from its head. */
  lemma GdbLineHead(f: StackFrame)
    ensures ReadFrameHead(GdbLine(f)) == Some((f.depth, f.address))
  {
    var padded := LeftAlign(Decimal(f.depth), 3);
    FrameHeadRoundTrip(f.depth, padded, |padded| - |Decimal(f.depth)|, f.address, GdbLocation(f));
  }

  const NotInAwaitableText: string := "not in an awaitable"

  /** The chain from the anchor, if there is one, ends. */
  ghost predicate ChainEnds(lookup: HandleLookup, stack: seq<PhysicalFrame>, mem: Memory, dbg: DebugInfo, n: nat) {
    AnchorOf(stack).Anchored? ==> EndsWithin(lookup, mem, dbg, AnchorOf(stack).frame, n)
  }

  function Lines(frames: seq<StackFrame>): (r: seq<string>)
    ensures |r| == |frames| && forall i :: 0 <= i < |r| ==> r[i] == GdbLine(frames[i])
  {
    seq(|frames|, i requires 0 <= i < |frames| => GdbLine(frames[i]))
  }

  /** What `abt` prints, and whether it fails. */
  function Backtrace(lookup: HandleLookup, stack: seq<PhysicalFrame>, mem: Memory, dbg: DebugInfo, ghost n: nat): Transcript
    requires ChainEnds(lookup, stack, mem, dbg, n)
  {
    match AnchorOf(stack)
    case NotInAwaitable => Transcript([NotInAwaitableText], false)
    case AnchorRaised => Transcript([], true)
    case Anchored(p) =>
      var w := Walk(lookup, mem, dbg, p, 0, n);
      Transcript(Lines(w.frames), w.raised)
  }

  method Invoke(lookup: HandleLookup, stack: seq<PhysicalFrame>, mem: Memory, dbg: DebugInfo, ghost n: nat) returns (t: Transcript)
    requires ChainEnds(lookup, stack, mem, dbg, n)
    ensures t == Backtrace(lookup, stack, mem, dbg, n)
  {
    var anchor := CurrentAwaitableFrame(stack);
    match anchor
    case NotInAwaitable => t := Transcript([NotInAwaitableText], false);
    case AnchorRaised => t := Transcript([], true);
    case Anchored(p) =>
      var w := Walk(lookup, mem, dbg, p, 0, n);
      t := Transcript(Lines(w.frames), w.raised);
  }

  /** Outside an awaitable the only output is the informational line. */
  lemma NoAnchorOutput(lookup: HandleLookup, stack: seq<PhysicalFrame>, mem: Memory, dbg: DebugInfo, n: nat)
    requires |stack| > 0 && forall j :: 0 <= j < |stack| ==> SkippedByAnchorSearch(stack[j])
    ensures ChainEnds(lookup, stack, mem, dbg, n)
    ensures Backtrace(lookup, stack, mem, dbg, n) == Transcript(["not in an awaitable"], false)
  {
    NotInAwaitableIffNoMatch(stack);
  }

  /** Without a stack the command prints nothing and fails. */
  lemma NoStackRaises(lookup: HandleLookup, mem: Memory, dbg: DebugInfo, n: nat)
    ensures ChainEnds(lookup, [], mem, dbg, n)
    ensures Backtrace(lookup, [], mem, dbg, n) == Transcript([], true)
  {
  }

  /** A chain whose links 0..k-1 print and whose link k fails with a gdb.error
      prints exactly k lines, showing depths 0..k-1, and the command succeeds. */
  lemma TruncatedChainOutput(lookup: HandleLookup, stack: seq<PhysicalFrame>, mem: Memory, dbg: DebugInfo, n: nat, k: nat)
    requires ChainEnds(lookup, stack, mem, dbg, n) && AnchorOf(stack).Anchored?
    requires LinkAt(lookup, mem, dbg, AnchorOf(stack).frame, k).Some?
    requires StepAt(lookup, mem, dbg, LinkAt(lookup, mem, dbg, AnchorOf(stack).frame, k).value).Failed?
    ensures var t := Backtrace(lookup, stack, mem, dbg, n);
            |t.lines| == k && !t.raised
            && forall i :: 0 <= i < k ==> ReadFrameHead(t.lines[i]).Some? && ReadFrameHead(t.lines[i]).value.0 == i
  {
    var p := AnchorOf(stack).frame;
    var w := Walk(lookup, mem, dbg, p, 0, n);
    WalkStopsAtFirstFailure(lookup, mem, dbg, p, 0, n, k);
    LinesShowDepths(w.frames);
  }

  /** Frames numbered from 0 print lines that read back as 0, 1, 2, ... */
  lemma LinesShowDepths(frames: seq<StackFrame>)
    requires forall i :: 0 <= i < |frames| ==> frames[i].depth == i
    ensures forall i :: 0 <= i < |frames| ==> ReadFrameHead(Lines(frames)[i]).Some? && ReadFrameHead(Lines(frames)[i]).value.0 == i
  {
    forall i | 0 <= i < |frames| ensures ReadFrameHead(Lines(frames)[i]) == Some((i, frames[i].address)) {
      GdbLineHead(frames[i]);
    }
  }

  /** One more link: the chain goes on from a printed link to its caller. */
  lemma {:induction false} LinkAtNext(lookup: HandleLookup, mem: Memory, dbg: DebugInfo, a: Word, k: nat)
    requires LinkAt(lookup, mem, dbg, a, k).Some?
    requires var s := StepAt(lookup, mem, dbg, LinkAt(lookup, mem, dbg, a, k).value);
             s.Emitted? && s.caller.Some?
    ensures LinkAt(lookup, mem, dbg, a, k + 1) == StepAt(lookup, mem, dbg, LinkAt(lookup, mem, dbg, a, k).value).caller
    decreases k
  {
    if k > 0 {
      LinkAtNext(lookup, mem, dbg, StepAt(lookup, mem, dbg, a).caller.value, k - 1);
    }
  }

  /** A chain of N links that all print, the last of them with no caller or a caller
      that cannot be read (a null `caller_` when nothing lives at address 0), prints
      exactly N lines, showing depths 0..N-1, and the command succeeds. */
  lemma ChainOutput(lookup: HandleLookup, stack: seq<PhysicalFrame>, mem: Memory, dbg: DebugInfo, n: nat, links: nat)
    requires ChainEnds(lookup, stack, mem, dbg, n) && AnchorOf(stack).Anchored? && links > 0
    requires LinkAt(lookup, mem, dbg, AnchorOf(stack).frame, links - 1).Some?
    requires var s := StepAt(lookup, mem, dbg, LinkAt(lookup, mem, dbg, AnchorOf(stack).frame, links - 1).value);
             s.Emitted? && (s.caller.None? || s.caller.value !in mem.awaitables)
    ensures var t := Backtrace(lookup, stack, mem, dbg, n);
            |t.lines| == links && !t.raised
            && forall i :: 0 <= i < links ==> ReadFrameHead(t.lines[i]).Some? && ReadFrameHead(t.lines[i]).value.0 == i
  {
    var p := AnchorOf(stack).frame;
    var w := Walk(lookup, mem, dbg, p, 0, n);
    var s := StepAt(lookup, mem, dbg, LinkAt(lookup, mem, dbg, p, links - 1).value);
    if s.caller.None? {
      WalkStopsAtFirstFailure(lookup, mem, dbg, p, 0, n, links - 1);
    } else {
      LinkAtNext(lookup, mem, dbg, p, links - 1);
      WalkStopsAtFirstFailure(lookup, mem, dbg, p, 0, n, links);
    }
    LinesShowDepths(w.frames);
  }

  /** As written, an anchor whose handle is a libc++ one (no `_M_fr_ptr`) prints
      nothing: the failed read ends the walk before the first line, quietly. */
  lemma AsWrittenLibcxxPrintsNothing(stack: seq<PhysicalFrame>, mem: Memory, dbg: DebugInfo, n: nat)
    requires ChainEnds(AsWritten, stack, mem, dbg, n) && AnchorOf(stack).Anchored?
    requires var p := AnchorOf(stack).frame;
             p in mem.awaitables && mem.awaitables[p].coro.Some?
             && LibstdcxxHandle !in mem.awaitables[p].coro.value.fields
    ensures Backtrace(AsWritten, stack, mem, dbg, n) == Transcript([], false)
  {
  }

  /** With the intended lookup, the same anchor, holding a readable `__handle_` whose
      resume address has debug information, prints its line first. */
  lemma IntendedLibcxxPrintsFirstLink(stack: seq<PhysicalFrame>, mem: Memory, dbg: DebugInfo, n: nat)
    requires ChainEnds(Intended, stack, mem, dbg, n) && AnchorOf(stack).Anchored?
    requires var p := AnchorOf(stack).frame;
             p in mem.awaitables && mem.awaitables[p].coro.Some?
             && LibcxxHandle in mem.awaitables[p].coro.value.fields
             && mem.awaitables[p].coro.value.fields[LibcxxHandle] in mem.words
             && mem.words[mem.awaitables[p].coro.value.fields[LibcxxHandle]] in dbg
    ensures var t := Backtrace(Intended, stack, mem, dbg, n);
            var p := AnchorOf(stack).frame;
            |t.lines| > 0
            && ReadFrameHead(t.lines[0]) == Some((0, mem.words[mem.awaitables[p].coro.value.fields[LibcxxHandle]]))
  {
    var p := AnchorOf(stack).frame;
    var w := Walk(Intended, mem, dbg, p, 0, n);
    WalkFollowsChain(Intended, mem, dbg, p, 0, n, 0);
    GdbLineHead(w.frames[0]);
  }
}
