/** Abstractions of what the host debugger (gdb or lldb) exposes to the extension
    scripts: the physical stack, target memory seen through a few typed views, and
    debug information. Nothing here is computed by the scripts; every value is an
    observation of the stopped process that the scripts receive. */
module Host {

  datatype Option<T> = None | Some(value: T)

  /** A pointer-sized (64-bit) word of the target process, as an unsigned number. */
  type Word = n: nat | n < 0x1_0000_0000_0000_0000

  /** What debug information says about a code address. */
  datatype Location = Location(func: string, file: string, line: nat)

  /** One logical coroutine frame of the reconstructed backtrace. */
  datatype StackFrame = StackFrame(depth: nat, address: Word, func: string, file: string, line: nat)

  /** A physical frame of the selected thread: its function name (absent when the
      debugger has no symbol for it) and the value of its `this` variable (absent when
      the frame has no such variable or it cannot be read). */
  datatype PhysicalFrame = PhysicalFrame(name: Option<string>, thisValue: Option<Word>)

  /** A `std::coroutine_handle` object: its pointer-valued data members by name
      (`__handle_` in libc++, `_M_fr_ptr` in libstdc++). */
  datatype CoroHandle = CoroHandle(fields: map<string, Word>)

  /** An `awaitable_frame_base` object: its `coro_` member and its `caller_` pointer;
      `None` stands for a member the debugger cannot find. */
  datatype AwaitableFrame = AwaitableFrame(coro: Option<CoroHandle>, caller: Option<Word>)

  /** Readable target memory: the awaitable frames that live at given addresses, and
      the pointer-sized words stored at given addresses. An address missing from a
      map is one whose read fails. */
  datatype Memory = Memory(awaitables: map<Word, AwaitableFrame>, words: map<Word, Word>)

  /** Debug information: the function, source file and line of a code address. */
  type DebugInfo = map<Word, Location>

  /** What a debugger command leaves behind: the lines it printed, in order, and
      whether it ended by raising a Python exception into the host. */
  datatype Transcript = Transcript(lines: seq<string>, raised: bool)
}
