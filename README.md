# asio debugger extensions, modelled in Dafny

This project models the Python debugger extensions that ship with asio:

- **the gdb pretty printers** for asio executors (`gdb/pretty_printer.py`).
  - The printer table picks a printer by the executor's type name.
  - The printer for the type-erased `any_executor` family finds the object it holds. It does this by reading the symbol of the executor's function-table pointer.
  - The printer for `io_context::basic_executor_type` splits one packed word into an `io_context` pointer and two run-time flag bits. It then combines those with the flag bits fixed by the executor's type. The result is shown as the children `blocking`, `relationship` and `outstanding_work`.
- **the `abt` command** for gdb (`gdb/awaitable_backtrace.py`) and for lldb (`lldb/awaitable_backtrace.py`).
  - It searches the physical stack of the selected thread for the newest frame running `awaitable_frame_base<...>::resume`.
  - It then follows that awaitable frame's chain of `caller_` pointers.
  - For each link it prints one line: the coroutine's resume address and its source location.

What the debugger provides is modelled as plain values:

- in module `Host`: the frame list, readable memory (as typed views of awaitable frames and pointer-sized words) and debug information for code addresses;
- in module `PrettyPrinter`: type lookup (`TypeTable`, a map from a type name to the name of the type it denotes) and the signature regex of the function-table symbol (`SignatureCatalogue`, a map from the symbol text to the captured type name).

Output is modelled as a `Transcript`: the printed lines, plus whether the command raised a Python exception.

Modules:

- `Host`: observations of the stopped process.
- `Format`: decimal and fixed-width hexadecimal rendering, left alignment, and a reader for the head of a backtrace line. The round-trip lemmas use the reader.
- `NamePatterns`: the anchor regex and the `^(boost::)*literal(.*)?$` type patterns. Each is an executable matcher, proved equal to a ghost statement of what the regular expression accepts.
- `SuffixRewrite`: the integer-literal suffix rewrite. It models the left-to-right scan of `re.sub`, and is proved equal to a word-by-word description that reads each word from its end and shares no matcher with the scan. The scan's matcher is proved both sound and complete: it matches exactly the words made of digits, a `u` and `l`s. Properties such as idempotence are proved on the word description.
- `PrettyPrinter`: the printer table and both printers.
- `GdbBacktrace`: the gdb `abt`, with gdb's error behaviour. The command takes the reading of the coroutine handle as a parameter: `AsWritten` is the code as it stands, `Intended` the corrected lookup (see "## Findings"). Every general lemma about the walk and the command takes the lookup as a parameter, so it holds for either reading; `AsWrittenLibcxxPrintsNothing` and `IntendedLibcxxPrintsFirstLink`, cited under "## Findings", each fix one lookup to show where the two differ. In gdb the search starts from the newest frame, and asking for it when there is no stack (no process, or a running one) raises `gdb.error`: an empty frame list makes the command fail with no output.
  - a `gdb.error` during the walk ends the walk quietly;
  - other Python errors escape.
- `LldbBacktrace`: the lldb `abt`. Here the search iterates the selected thread's frames, so an empty frame list prints "not in an awaitable".
  - lldb hands back invalid values instead of raising.
  - So every link prints a line, and the walk ends only at an invalid or null `caller_`.

The loops of the search for the anchor are `method`s. Each is proved equal to a recursive specification function. The walks recurse in the source and are recursive functions here too.

A walk terminates only if the caller chain does. Each walk therefore takes a ghost bound `n`, with the precondition that the chain ends within `n` links.

## Model

| member | source | states |
|---|---|---|
| NamePatterns.ResumeMatcherIsRegex | gdb/awaitable_backtrace.py:23 | the executable anchor test accepts a frame name exactly when `.*asio::detail::awaitable_frame_base<.*>::resume` matches at its start: the open text occurs, and the close text occurs at or after it |
| NamePatterns.FindFrom | gdb/awaitable_backtrace.py:23 | the result is the first position at or after `from` where the text occurs, and there is none when it does not occur |
| NamePatterns.StripBoost | gdb/pretty_printer.py:78-81 | the name is some number of `boost::` prefixes followed by the result, and the result does not start with another `boost::` |
| NamePatterns.MatcherIsRegex | gdb/pretty_printer.py:78-81 | for a pattern whose literal does not start with `b`, the matcher accepts a name exactly when `^(boost::)*literal$` matches it (or `^(boost::)*literal.*$` for an open pattern) |
| PrettyPrinter.BuildPrettyPrinter | gdb/pretty_printer.py:76-82 | definition of the table: four named subprinters in registration order; characterised by PrettyPrinter.TablePatternsDisjoint, PrettyPrinter.LookupInTable, PrettyPrinter.LookupByMatcher and PrettyPrinter.LookupByPattern |
| PrettyPrinter.Lookup | gdb/pretty_printer.py:76-82 | the chosen subprinter is the first in table order whose pattern matches, and there is none exactly when no pattern matches |
| PrettyPrinter.TablePatternsDisjoint | gdb/pretty_printer.py:78-81 | no type name is matched by two of the four table patterns |
| PrettyPrinter.LookupInTable | gdb/pretty_printer.py:76-82 | on the table, the chosen printer is the first of the four patterns, in table order, that matches, and none when none does |
| PrettyPrinter.LookupByMatcher | gdb/pretty_printer.py:76-82 | a type gets the any_executor printer exactly when one of the first three patterns matches, and the io_context printer exactly when the fourth matches |
| PrettyPrinter.LookupByPattern | gdb/pretty_printer.py:76-82 | the same, stated with the regular expressions themselves |
| SuffixRewrite.MatchLiteral | gdb/pretty_printer.py:24 | a match of `[0-9]+ul*\b` keeps at least one digit, covers more than its digits, and ends at the end of the text or before a non-word character |
| SuffixRewrite.MatchLiteralComplete | gdb/pretty_printer.py:24 | digits, a `u` and any number of `l`s, followed by the end or a non-word character, are always matched, keeping exactly the digits and covering exactly the literal |
| SuffixRewrite.NormalizeSuffixed | gdb/pretty_printer.py:24 | a word made of digits, a `u` and `l`s is rewritten to its digits |
| SuffixRewrite.NormalizeShape | gdb/pretty_printer.py:24 | any other word is left unchanged: a word that changes is digits, a `u` and `l`s, and becomes those digits |
| SuffixRewrite.MatchLiteralIsNormalize | gdb/pretty_printer.py:24 | at the start of a word, the scan's match covers the whole word and keeps what the word rewrite keeps, and no match means the rewrite keeps the word |
| SuffixRewrite.MatchLiteralShape | gdb/pretty_printer.py:24 | what a match covers is its digits, then a `u`, then only `l`s |
| SuffixRewrite.Sub | gdb/pretty_printer.py:24 | definition of the `re.sub` scan, left to right, trying a match only where no word character precedes; characterised by SuffixRewrite.SubIsByWords |
| SuffixRewrite.StripLiteralSuffixes | gdb/pretty_printer.py:24 | definition: the scan over the whole name; characterised by SuffixRewrite.StripIsByWords, SuffixRewrite.StripIdempotent, SuffixRewrite.WithoutSuffixUnchanged and SuffixRewrite.ByWordsShortens |
| SuffixRewrite.SubIsByWords | gdb/pretty_printer.py:24 | the `re.sub` scan equals the rewrite of each maximal word of the form digits·`u`·`l`* to its digits, other words and characters unchanged |
| SuffixRewrite.StripIsByWords | gdb/pretty_printer.py:24 | the rewrite of a whole type name is the word-by-word rewrite |
| SuffixRewrite.ByWordsIdempotent | gdb/pretty_printer.py:24 | the word-by-word rewrite applied twice is the rewrite applied once |
| SuffixRewrite.StripIdempotent | gdb/pretty_printer.py:24 | stripping the suffixes of an already stripped name changes nothing |
| SuffixRewrite.WithoutSuffixUnchanged | gdb/pretty_printer.py:24 | a name with no `u` is left unchanged |
| SuffixRewrite.ByWordsShortens | gdb/pretty_printer.py:24 | the rewrite never makes a name longer |
| PrettyPrinter.TargetTypeName | gdb/pretty_printer.py:23-24 | the name looked up is a fixed point of the suffix rewrite |
| PrettyPrinter.TargetOf | gdb/pretty_printer.py:20-28 | there is no target exactly when `target_fns_` is null; an unparsable function-table symbol is an error; an unknown target type is an error naming the rewritten type name; otherwise the target is `target_` seen as the looked-up type |
| PrettyPrinter.AnyExecutorOf | gdb/pretty_printer.py:16-18 | construction succeeds exactly when the target lookup does, and keeps the executor's type name and that target |
| PrettyPrinter.AnyExecutorToString | gdb/pretty_printer.py:30-33 | the display is the type name, then " [no target]" exactly when there is no target, or " targeting " and the target's type name |
| PrettyPrinter.AnyExecutorChildren | gdb/pretty_printer.py:35-37 | one child named "[target]" holding the target when there is one, none otherwise |
| PrettyPrinter.EmptyExecutorDisplay | gdb/pretty_printer.py:20-37 | an executor whose function table is null displays as its type name plus " [no target]" and has no children |
| PrettyPrinter.ContextAddress | gdb/pretty_printer.py:42 | the context pointer has its two low bits clear, and together with the word's two low bits gives back the word |
| PrettyPrinter.ContextTypeName | gdb/pretty_printer.py:53-56 | the context type is found exactly when the executor's type matches; it is "boost::asio::io_context" exactly when the type name starts with `boost::`, and "asio::io_context" otherwise |
| PrettyPrinter.EffectiveBits | gdb/pretty_printer.py:59-62 | the effective flags contain every static flag, take every bit above the two low ones from the type, and the two low bits from either source |
| PrettyPrinter.Blocking | gdb/pretty_printer.py:71 | "never" exactly when bit 1 is set, "possibly" exactly when it is clear |
| PrettyPrinter.Relationship | gdb/pretty_printer.py:72 | "continuation" exactly when bit 2 is set, "fork" exactly when it is clear |
| PrettyPrinter.OutstandingWork | gdb/pretty_printer.py:73 | "tracked" exactly when bit 4 is set, "untracked" exactly when it is clear |
| PrettyPrinter.IoContextExecutorOf | gdb/pretty_printer.py:48-66 | construction succeeds exactly when the type matches, the context type is known and the value has an address; the context is the masked word, the flags are the effective bits, the allocator is the object at the value's address |
| PrettyPrinter.IoContextExecutorChildren | gdb/pretty_printer.py:68-73 | five children, in order io_context, allocator, blocking, relationship, outstanding_work, showing the context pointer, the allocator and the three flag texts |
| PrettyPrinter.OutstandingWorkIsStatic | gdb/pretty_printer.py:59-62 | work tracking is decided by the type's flags alone, whatever the packed word holds |
| PrettyPrinter.StaticFlagsAlwaysShown | gdb/pretty_printer.py:59-73 | a flag fixed by the type is always displayed as set |
| PrettyPrinter.DecodeExample | gdb/pretty_printer.py:48-73 | a word `base | 1` with static flags 4 shows context `base`, "never", "fork" and "tracked" |
| Format.DecimalRoundTrip | gdb/awaitable_backtrace.py:46 | a decimal rendering reads back as its number |
| Format.Hex16RoundTrip | gdb/awaitable_backtrace.py:46 | the 16-digit lower-case hexadecimal rendering of a word reads back as the word |
| Format.LeftAlign | gdb/awaitable_backtrace.py:46 | the text followed by spaces up to the width, and the text alone when it is already that wide |
| Format.FrameHeadRoundTrip | gdb/awaitable_backtrace.py:46 | a line head `#depth<spaces> 0x<16 hex>` reads back as its depth and address |
| GdbBacktrace.SearchFrames | gdb/awaitable_backtrace.py:25-29 | definition of the search loop from a given frame; characterised by GdbBacktrace.SearchFindsNothingIffNoMatch, GdbBacktrace.AnchorIsFirstMatch and GdbBacktrace.AnchoredMeansFirstMatch |
| GdbBacktrace.AnchorOf | gdb/awaitable_backtrace.py:22-29 | definition: an error when there is no stack (no newest frame), otherwise the search from the newest frame; characterised by GdbBacktrace.NotInAwaitableIffNoMatch, GdbBacktrace.AnchorIsFirstMatch, GdbBacktrace.AnchoredMeansFirstMatch and GdbBacktrace.NoStackRaises |
| GdbBacktrace.CurrentAwaitableFrame | gdb/awaitable_backtrace.py:22-29 | the loop's result is the search's specification `AnchorOf`, which raises on an empty frame list before the loop |
| GdbBacktrace.SearchFindsNothingIffNoMatch | gdb/awaitable_backtrace.py:25-29 | the loop runs off the oldest frame exactly when every frame it visits has a name and none matches |
| GdbBacktrace.AnchorIsFirstMatch | gdb/awaitable_backtrace.py:22-29 | if frames before the first matching one all have names, the anchor is the `this` of that first match |
| GdbBacktrace.AnchoredMeansFirstMatch | gdb/awaitable_backtrace.py:22-29 | an anchor is the `this` of some matching frame, and every newer frame has a name and does not match |
| GdbBacktrace.NotInAwaitableIffNoMatch | gdb/awaitable_backtrace.py:22-29 | there is no anchor exactly when there is a stack, every frame has a name and none matches |
| GdbBacktrace.CoroHandleAsWritten | gdb/awaitable_backtrace.py:31-36 | as written, the handle is read from `_M_fr_ptr` only, and the read fails exactly when that member is missing |
| GdbBacktrace.AsWrittenMissesLibcxxHandle | gdb/awaitable_backtrace.py:33 | on a libc++ handle (only `__handle_`), the code as written reads nothing, while the intended lookup reads the handle |
| GdbBacktrace.CoroHandleOf | gdb/awaitable_backtrace.py:31-36 | `__handle_` when present, otherwise `_M_fr_ptr`; the read fails exactly when neither is present |
| GdbBacktrace.StepAt | gdb/awaitable_backtrace.py:31-46 | a link fails with a gdb.error exactly when its frame, its `coro_`, its handle (read by the chosen lookup) or the handle's word cannot be read; it crashes exactly when every read succeeds but the address has no debug information; otherwise it prints the word the handle points to with that address's location, and carries the frame's `caller_` |
| GdbBacktrace.Walk | gdb/awaitable_backtrace.py:48-53 | the lines show depths `depth`, `depth+1`, ... in order, and the walk raises only if some link it reaches crashes |
| GdbBacktrace.WalkFollowsChain | gdb/awaitable_backtrace.py:48-53 | the i-th line shows the i-th link of the `caller_` chain |
| GdbBacktrace.WalkStopsAtFirstFailure | gdb/awaitable_backtrace.py:48-53 | if the walk reaches link k, then: a failing read there leaves k lines and no error; a crash there leaves k lines and an error; a printed link with no readable caller leaves k+1 lines |
| GdbBacktrace.FrameOf | gdb/awaitable_backtrace.py:38-46 | definition of the printed record for one link: depth, resume address and that address's location; characterised by GdbBacktrace.StepAt, GdbBacktrace.WalkFollowsChain and GdbBacktrace.GdbLineHead |
| GdbBacktrace.GdbLine | gdb/awaitable_backtrace.py:46 | definition of the printed line; characterised by GdbBacktrace.GdbLineHead and Format.FrameHeadRoundTrip |
| GdbBacktrace.GdbLineHead | gdb/awaitable_backtrace.py:46 | the depth and address of a printed line can be read back from its head |
| GdbBacktrace.Backtrace | gdb/awaitable_backtrace.py:55-60 | definition of the command's transcript; characterised by GdbBacktrace.NoAnchorOutput, GdbBacktrace.NoStackRaises, GdbBacktrace.TruncatedChainOutput and GdbBacktrace.ChainOutput |
| GdbBacktrace.Invoke | gdb/awaitable_backtrace.py:55-60 | the command's transcript is `Backtrace` for the chosen handle lookup: "not in an awaitable" without an anchor, an error when there is no stack or the search raises, otherwise the walk's lines and error |
| GdbBacktrace.NoAnchorOutput | gdb/awaitable_backtrace.py:55-60 | when there is a stack and no frame of it matches, the only output is "not in an awaitable" |
| GdbBacktrace.NoStackRaises | gdb/awaitable_backtrace.py:24 | with no stack the command prints nothing and fails, since asking for the newest frame raises |
| GdbBacktrace.TruncatedChainOutput | gdb/awaitable_backtrace.py:48-60 | a chain whose link k fails to read prints exactly k lines, with depths 0 to k-1, and the command succeeds |
| GdbBacktrace.LinkAtNext | gdb/awaitable_backtrace.py:48-53 | after a printed link with a caller, the next link of the chain is that caller |
| GdbBacktrace.ChainOutput | gdb/awaitable_backtrace.py:38-60 | a chain of N links that all print, the last with no readable caller, prints exactly N lines with depths 0 to N-1, and the command succeeds |
| GdbBacktrace.AsWrittenLibcxxPrintsNothing | gdb/awaitable_backtrace.py:31-60 | as written, an anchor holding a libc++ handle (no `_M_fr_ptr`) makes the command print nothing and succeed |
| GdbBacktrace.IntendedLibcxxPrintsFirstLink | gdb/awaitable_backtrace.py:31-60 | with the intended lookup, the same anchor, with a readable `__handle_` whose address has debug information, prints a first line showing depth 0 and that address |
| LldbBacktrace.AnchorOf | lldb/awaitable_backtrace.py:16-21 | definition of the search over the selected thread's frames; characterised by LldbBacktrace.NotInAwaitableIffNoMatch, LldbBacktrace.AnchorIsFirstMatch and LldbBacktrace.AnchoredMeansFirstMatch |
| LldbBacktrace.CurrentAwaitableFrame | lldb/awaitable_backtrace.py:16-21 | the loop's result is the search's specification `AnchorOf` |
| LldbBacktrace.AnchorIsFirstMatch | lldb/awaitable_backtrace.py:16-21 | if frames before the first matching one all have names, the anchor is the (possibly invalid) `this` of that first match |
| LldbBacktrace.AnchoredMeansFirstMatch | lldb/awaitable_backtrace.py:16-21 | an anchor is the (possibly invalid) `this` of some matching frame, and every newer frame has a name and does not match |
| LldbBacktrace.NotInAwaitableIffNoMatch | lldb/awaitable_backtrace.py:16-21 | there is no anchor exactly when every frame has a name and none matches |
| LldbBacktrace.ResumeAddress | lldb/awaitable_backtrace.py:24-26 | the word at `coro_.__handle_` when all reads succeed, the invalid address 0xffffffffffffffff otherwise |
| LldbBacktrace.Resolve | lldb/awaitable_backtrace.py:27-31 | the address's location when it has debug information, otherwise `None` for function and file, with line 0 |
| LldbBacktrace.NextLink | lldb/awaitable_backtrace.py:36-37 | the walk continues exactly when `caller_` is readable and non-null, and then to that caller |
| LldbBacktrace.Walk | lldb/awaitable_backtrace.py:34-38 | at least one line, the first for the starting link; depths `depth`, `depth+1`, ... in order; exactly one line when there is no next link |
| LldbBacktrace.WalkFollowsChain | lldb/awaitable_backtrace.py:34-38 | the i-th line shows the i-th link of the chain |
| LldbBacktrace.WalkLength | lldb/awaitable_backtrace.py:34-38 | a chain of k+1 links prints exactly k+1 lines |
| LldbBacktrace.Basename | lldb/awaitable_backtrace.py:30 | a suffix of the path with no `/`, preceded in the path by a `/` unless it is the whole path |
| LldbBacktrace.FrameOf | lldb/awaitable_backtrace.py:23-32 | definition of the printed record for one link: depth, resume address (or the invalid address) and its resolved location; characterised by LldbBacktrace.ResumeAddress, LldbBacktrace.Resolve, LldbBacktrace.WalkFollowsChain and LldbBacktrace.LldbLineHead |
| LldbBacktrace.LldbLine | lldb/awaitable_backtrace.py:32 | definition of the printed line; characterised by LldbBacktrace.LldbLineHead |
| LldbBacktrace.LldbLineHead | lldb/awaitable_backtrace.py:32 | a printed line starts with "frame ", and its depth and address can be read back after that |
| LldbBacktrace.Backtrace | lldb/awaitable_backtrace.py:40-46 | definition of the command's transcript; characterised by LldbBacktrace.NoAnchorOutput, LldbBacktrace.NullCallerOneLine and LldbBacktrace.ChainOutput |
| LldbBacktrace.AwaitableBacktrace | lldb/awaitable_backtrace.py:40-46 | the command's transcript is `Backtrace`: "not in an awaitable" without an anchor, an error when the search raises, otherwise the walk's lines |
| LldbBacktrace.NoAnchorOutput | lldb/awaitable_backtrace.py:43-46 | when no frame matches, the only output is "not in an awaitable" |
| LldbBacktrace.NullCallerOneLine | lldb/awaitable_backtrace.py:34-38 | an anchor whose `caller_` is null prints exactly one line, at depth 0 |
| LldbBacktrace.ChainOutput | lldb/awaitable_backtrace.py:34-46 | a chain of N links prints exactly N lines with depths 0 to N-1, and the command succeeds |

## Left out

- Registration is not modelled: `register_pretty_printer`, the `gdb.Command` constructor and the lldb `command script add`. None of them computes anything.
- Printing is modelled as the list of lines printed. The host's output stream is not modelled.
- Debugger API calls are modelled as plain data, each a map:
  - the stack;
  - memory reads;
  - `lookup_type` with `strip_typedefs`;
  - `block_for_pc`, `find_pc_line` and lldb's symbol context lookup.
- The regex that parses the function-table signature is taken as a partial map, from the symbol text to its second group. Its exact grammar is not modelled.
- The printer's truthiness test of the target value it constructed is modelled as whether a target was found. A target object that Python itself considers false is not modelled.
- The any_executor decoder raises when the signature regex fails to match or the target type is unknown. Here that is an `Err` outcome, following the code. It does not fall back to showing the executor without a target.
- The runtime-bit mask is 3, covering bits 1 and 2, following the code. Only `outstanding_work` comes from the type alone.
- Word characters for `\b` are ASCII letters, digits and `_`. Python's Unicode word characters beyond ASCII are not modelled.
- A frame name containing a newline is not modelled. `.` does not match a newline, so the anchor regex behaves differently on such names.
- Walk and LinkAt: cyclic or unbounded `caller_` chains are not modelled. Each walk takes a ghost bound and requires the chain to end within it. The scripts would recurse until Python's recursion limit, and such a deep chain is not modelled either.
- GdbLine: gdb formats the resume address with the signed format `d`. Addresses of 2^63 and above would print with a minus sign. The model prints every word as unsigned.
- StepAt: a null `caller_` is followed like any other pointer. The walk ends there only when no awaitable frame can be read at address 0, which is what the memory model must say for a usual target.
- Resolve: lldb's partial symbol resolution is not modelled. Either the function and line entry are both known, or neither is.
- Multiple threads are not modelled, and neither is the choice of the selected thread. Only the selected thread's frames are input.

## Findings

| source | as written | input that shows it | evidently intended | confidence | as-written member | corrected member |
|---|---|---|---|---|---|---|
| gdb/awaitable_backtrace.py:33 | `"__handle_" in coro.type.fields()` compares a string with a list of `gdb.Field` objects, so the test is always false and the code always reads `_M_fr_ptr` | a libc++ `std::coroutine_handle`, whose only member is `__handle_`: the read of `_M_fr_ptr` raises `gdb.error`, and `abt` prints nothing | test the field names, so libc++ handles are read through `__handle_` | medium, not executed | GdbBacktrace.CoroHandleAsWritten, GdbBacktrace.AsWrittenMissesLibcxxHandle, GdbBacktrace.AsWrittenLibcxxPrintsNothing | GdbBacktrace.CoroHandleOf, GdbBacktrace.IntendedLibcxxPrintsFirstLink |
