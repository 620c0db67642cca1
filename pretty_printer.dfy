/** The gdb pretty printers for asio executors: the printer table, the type-erased
    `any_executor` family (which recovers the held target from the symbol of its
    function table) and `io_context::basic_executor_type` (which unpacks a pointer
    and two flag bits from one word and adds the flags fixed by its type). */
module PrettyPrinter {
  import opened Host
  import opened NamePatterns
  import SuffixRewrite

  // ---------------------------------------------------------------------------
  // The printer table.

  datatype PrinterKind = AnyExecutorPrinter | IoContextExecutorPrinter

  datatype Subprinter = Subprinter(name: string, pattern: TypePattern, kind: PrinterKind)

  const AnyExecutorPattern: TypePattern := TypePattern("asio::execution::any_executor<", true)
  const AnyCompletionExecutorPattern: TypePattern := TypePattern("asio::any_completion_executor", false)
  const AnyIoExecutorPattern: TypePattern := TypePattern("asio::any_io_executor", false)
  const IoContextExecutorPattern: TypePattern := TypePattern("asio::io_context::basic_executor_type<", true)

  /** The subprinters, in the order they are added to the collection. */
  function BuildPrettyPrinter(): seq<Subprinter> {
    [ Subprinter("any_executor", AnyExecutorPattern, AnyExecutorPrinter),
      Subprinter("any_completion_executor", AnyCompletionExecutorPattern, AnyExecutorPrinter),
      Subprinter("any_io_executor", AnyIoExecutorPattern, AnyExecutorPrinter),
      Subprinter("io_context executor", IoContextExecutorPattern, IoContextExecutorPrinter) ]
  }

  /** The collection printer's choice for a type name: the first subprinter whose
      pattern matches. */
  function Lookup(printers: seq<Subprinter>, typeName: string): (r: Option<Subprinter>)
    ensures r.Some? ==> exists i :: 0 <= i < |printers| && printers[i] == r.value
                          && Matches(printers[i].pattern, typeName)
                          && forall j :: 0 <= j < i ==> !Matches(printers[j].pattern, typeName)
    ensures r.None? <==> forall i :: 0 <= i < |printers| ==> !Matches(printers[i].pattern, typeName)
  {
    if |printers| == 0 then None
    else if Matches(printers[0].pattern, typeName) then Some(printers[0])
    else
      var r := Lookup(printers[1..], typeName);
      assert r.Some? ==> exists i :: 0 <= i < |printers| && printers[i] == r.value
                          && Matches(printers[i].pattern, typeName)
                          && forall j :: 0 <= j < i ==> !Matches(printers[j].pattern, typeName) by {
        if r.Some? {
          var i :| 0 <= i < |printers[1..]| && printers[1..][i] == r.value
                   && Matches(printers[1..][i].pattern, typeName)
                   && forall j :: 0 <= j < i ==> !Matches(printers[1..][j].pattern, typeName);
          assert printers[i + 1] == r.value;
          forall j | 0 <= j < i + 1 ensures !Matches(printers[j].pattern, typeName) {
            if j > 0 { assert printers[j] == printers[1..][j - 1]; }
          }
        }
      }
      r
  }

  /** No type name is claimed by two of the table's patterns, so the order of the
      table does not decide which printer a type gets. */
  lemma TablePatternsDisjoint(typeName: string, i: nat, j: nat)
    requires i < j < |BuildPrettyPrinter()|
    ensures !(Matches(BuildPrettyPrinter()[i].pattern, typeName) && Matches(BuildPrettyPrinter()[j].pattern, typeName))
  {
    var p, q := BuildPrettyPrinter()[i].pattern, BuildPrettyPrinter()[j].pattern;
    if Matches(p, typeName) && Matches(q, typeName) {
      var k := if i == 1 && j == 2 then 10 else 6;
      BothMatchAgree(p, q, typeName, k);
      assert false;
    }
  }

  /** Two patterns that match the same name agree on their common literal prefix. */
  lemma BothMatchAgree(p: TypePattern, q: TypePattern, typeName: string, k: nat)
    requires Matches(p, typeName) && Matches(q, typeName)
    requires k < |p.literal| && k < |q.literal|
    ensures p.literal[k] == q.literal[k]
  {
    var rest := StripBoost(typeName);
    assert p.literal[k] == rest[k] by {
      if p.open { assert rest[..|p.literal|][k] == rest[k]; }
    }
    assert q.literal[k] == rest[k] by {
      if q.open { assert rest[..|q.literal|][k] == rest[k]; }
    }
  }

  /** Which printer a type gets, in terms of the table's matchers. */
  lemma LookupByMatcher(typeName: string)
    ensures Lookup(BuildPrettyPrinter(), typeName).Some?
            && Lookup(BuildPrettyPrinter(), typeName).value.kind == AnyExecutorPrinter
            <==> Matches(AnyExecutorPattern, typeName)
                 || Matches(AnyCompletionExecutorPattern, typeName)
                 || Matches(AnyIoExecutorPattern, typeName)
    ensures Lookup(BuildPrettyPrinter(), typeName).Some?
            && Lookup(BuildPrettyPrinter(), typeName).value.kind == IoContextExecutorPrinter
            <==> Matches(IoContextExecutorPattern, typeName)
  {
    LookupInTable(typeName);
    TablePatternsDisjoint(typeName, 0, 3);
    TablePatternsDisjoint(typeName, 1, 3);
    TablePatternsDisjoint(typeName, 2, 3);
  }

  /** The collection printer on the table tries the four patterns in order. */
  lemma LookupInTable(typeName: string)
    ensures var table := BuildPrettyPrinter();
            Lookup(table, typeName)
            == if Matches(AnyExecutorPattern, typeName) then Some(table[0])
               else if Matches(AnyCompletionExecutorPattern, typeName) then Some(table[1])
               else if Matches(AnyIoExecutorPattern, typeName) then Some(table[2])
               else if Matches(IoContextExecutorPattern, typeName) then Some(table[3])
               else None
  {
    var table := BuildPrettyPrinter();
    assert table[1..][0] == table[1] && table[1..][1..] == table[2..];
    assert table[2..][0] == table[2] && table[2..][1..] == table[3..];
    assert table[3..][0] == table[3] && table[3..][1..] == [];
  }

  /** Which printer a type gets, in terms of the regular expressions of the table. */
  lemma LookupByPattern(typeName: string)
    ensures Lookup(BuildPrettyPrinter(), typeName).Some?
            && Lookup(BuildPrettyPrinter(), typeName).value.kind == AnyExecutorPrinter
            <==> PatternRegexMatches(AnyExecutorPattern, typeName)
                 || PatternRegexMatches(AnyCompletionExecutorPattern, typeName)
                 || PatternRegexMatches(AnyIoExecutorPattern, typeName)
    ensures Lookup(BuildPrettyPrinter(), typeName).Some?
            && Lookup(BuildPrettyPrinter(), typeName).value.kind == IoContextExecutorPrinter
            <==> PatternRegexMatches(IoContextExecutorPattern, typeName)
  {
    LookupByMatcher(typeName);
    MatcherIsRegex(AnyExecutorPattern, typeName);
    MatcherIsRegex(AnyCompletionExecutorPattern, typeName);
    MatcherIsRegex(AnyIoExecutorPattern, typeName);
    MatcherIsRegex(IoContextExecutorPattern, typeName);
  }

  // ---------------------------------------------------------------------------
  // Values the printers receive, and what they produce.

  datatype PrinterError =
    | SignatureMismatch          // the function-table symbol is not of the expected form
    | UnknownType(name: string)  // no type of that name is known to the debugger
    | ContextMismatch            // the executor's type name does not name an io_context executor
    | NoAddress                  // the executor value does not live in memory

  datatype Outcome<T> = Ok(value: T) | Err(error: PrinterError)

  /** Type lookup: a name known to the debugger maps to the name of the type it
      denotes once typedefs are stripped. */
  type TypeTable = map<string, string>

  /** The signature regex of the function-table symbol, as a partial function from
      the symbol text to its second group (the target's type name). */
  type SignatureCatalogue = map<string, string>

  /** An `any_executor` value: the name of its type, its `target_fns_` pointer, the
      symbolic text of that pointer, and its `target_` pointer. */
  datatype AnyExecutorValue = AnyExecutorValue(typeName: string, targetFns: Word, targetFnsText: string, target: Word)

  /** The object the executor holds, seen as a value of its type at its address. */
  datatype Target = Target(typeName: string, address: Word)

  /** The constructed any_executor printer. */
  datatype AnyExecutor = AnyExecutor(typeName: string, target: Option<Target>)

  /** The name the printer looks the target type up by: the captured group with its
      integer-literal suffixes removed. */
  function TargetTypeName(capture: string): (r: string)
    ensures SuffixRewrite.StripLiteralSuffixes(r) == r
  {
    SuffixRewrite.StripIdempotent(capture);
    SuffixRewrite.StripLiteralSuffixes(capture)
  }

  function TargetOf(v: AnyExecutorValue, signatures: SignatureCatalogue, types: TypeTable): (r: Outcome<Option<Target>>)
    ensures r == Ok(None) <==> v.targetFns == 0
    ensures r == Err(SignatureMismatch) <==> v.targetFns != 0 && v.targetFnsText !in signatures
    ensures r.Err? && r.error.UnknownType? ==>
              v.targetFnsText in signatures && r.error.name == TargetTypeName(signatures[v.targetFnsText])
              && r.error.name !in types
    ensures r.Ok? && r.value.Some? ==>
              v.targetFns != 0 && v.targetFnsText in signatures
              && TargetTypeName(signatures[v.targetFnsText]) in types
              && r.value.value == Target(types[TargetTypeName(signatures[v.targetFnsText])], v.target)
    ensures r.Ok? || r.error.SignatureMismatch? || r.error.UnknownType?
  {
    if v.targetFns == 0 then Ok(None)
    else if v.targetFnsText !in signatures then Err(SignatureMismatch)
    else
      var name := TargetTypeName(signatures[v.targetFnsText]);
      if name in types then Ok(Some(Target(types[name], v.target))) else Err(UnknownType(name))
  }

  function AnyExecutorOf(v: AnyExecutorValue, signatures: SignatureCatalogue, types: TypeTable): (r: Outcome<AnyExecutor>)
    ensures r.Ok? <==> TargetOf(v, signatures, types).Ok?
    ensures r.Ok? ==> r.value.typeName == v.typeName && r.value.target == TargetOf(v, signatures, types).value
    ensures r.Ok? ==> (r.value.target.None? <==> v.targetFns == 0)
  {
    match TargetOf(v, signatures, types)
    case Ok(t) => Ok(AnyExecutor(v.typeName, t))
    case Err(e) => Err(e)
  }

  const NoTargetText: string := " [no target]"
  const TargetingText: string := " targeting "

  function AnyExecutorToString(p: AnyExecutor): (r: string)
    ensures |r| > |p.typeName| && r[..|p.typeName|] == p.typeName
    ensures p.target.None? <==> r[|p.typeName|..] == NoTargetText
    ensures p.target.Some? ==> r[|p.typeName|..] == TargetingText + p.target.value.typeName
  {
    if p.target.None? then p.typeName + NoTargetText
    else
      var r := p.typeName + TargetingText + p.target.value.typeName;
      assert r[|p.typeName|..][1] == 't' != NoTargetText[1];
      r
  }

  function AnyExecutorChildren(p: AnyExecutor): (r: seq<(string, Target)>)
    ensures |r| == 0 <==> p.target.None?
    ensures |r| <= 1
    ensures r != [] ==> r[0] == ("[target]", p.target.value)
  {
    if p.target.Some? then [("[target]", p.target.value)] else []
  }

  /** The display of an executor whose function table is null: the "[no target]"
      text and no children, whatever the rest of the value holds. */
  lemma EmptyExecutorDisplay(v: AnyExecutorValue, signatures: SignatureCatalogue, types: TypeTable)
    requires v.targetFns == 0
    ensures AnyExecutorOf(v, signatures, types) == Ok(AnyExecutor(v.typeName, None))
    ensures AnyExecutorToString(AnyExecutorOf(v, signatures, types).value) == v.typeName + " [no target]"
    ensures AnyExecutorChildren(AnyExecutorOf(v, signatures, types).value) == []
  {
  }

  // ---------------------------------------------------------------------------
  // io_context::basic_executor_type.

  const ContextMask: bv64 := 0xffff_ffff_ffff_fffc
  const BlockingNever: bv64 := 1
  const RelationshipContinuation: bv64 := 2
  const OutstandingWorkTracked: bv64 := 4
  const RuntimeBits: bv64 := 3

  /** An io_context executor value: its type name, its packed `target_` word, the
      flag bits given as its second template argument, the type given as its first
      (the allocator), and its own address if it lives in memory. */
  datatype IoContextExecutorValue = IoContextExecutorValue(
    typeName: string, target: bv64, staticBits: bv64, allocatorType: string, address: Option<Word>)

  /** What a child of the printer shows. */
  datatype Child =
    | ContextPointer(contextType: string, address: bv64)  // a pointer to the io_context
    | ObjectAt(objectType: string, at: Word)              // an object of a type at an address
    | Text(text: string)

  datatype IoContextExecutor = IoContextExecutor(contextType: string, context: bv64, bits: bv64, allocator: Child)

  /** The io_context the executor points to: `target_` with its two low bits cleared. */
  function ContextAddress(target: bv64): (r: bv64)
    ensures r & 3 == 0 && r | (target & 3) == target
  {
    target & ContextMask
  }

  /** The name of the context type, from the executor's type name: "asio::io_context"
      behind the same "boost::" qualification as the executor (the first group of the
      regex holds its last "boost::", if any). */
  function ContextTypeName(typeName: string): (r: Outcome<string>)
    ensures r.Ok? <==> Matches(IoContextExecutorPattern, typeName)
    ensures r.Ok? ==> (r.value == "boost::asio::io_context" <==> |typeName| >= 7 && typeName[..7] == Boost)
    ensures r.Ok? ==> (r.value == "asio::io_context" <==> !(|typeName| >= 7 && typeName[..7] == Boost))
    ensures r.Err? ==> r.error == ContextMismatch
  {
    if Matches(IoContextExecutorPattern, typeName) then
      Ok((if BoostCount(typeName) > 0 then Boost else "") + "asio::io_context")
    else Err(ContextMismatch)
  }

  /** The effective flags: the static ones together with the two runtime bits. */
  function EffectiveBits(staticBits: bv64, target: bv64): (r: bv64)
    ensures r & staticBits == staticBits
    ensures r & !3 == staticBits & !3
    ensures r & 3 == (staticBits | target) & 3
  {
    staticBits | (target & RuntimeBits)
  }

  function Blocking(bits: bv64): (r: string)
    ensures r == "never" <==> bits & BlockingNever != 0
    ensures r == "possibly" <==> bits & BlockingNever == 0
  {
    if bits & BlockingNever != 0 then "never" else "possibly"
  }

  function Relationship(bits: bv64): (r: string)
    ensures r == "continuation" <==> bits & RelationshipContinuation != 0
    ensures r == "fork" <==> bits & RelationshipContinuation == 0
  {
    if bits & RelationshipContinuation != 0 then "continuation" else "fork"
  }

  function OutstandingWork(bits: bv64): (r: string)
    ensures r == "tracked" <==> bits & OutstandingWorkTracked != 0
    ensures r == "untracked" <==> bits & OutstandingWorkTracked == 0
  {
    if bits & OutstandingWorkTracked != 0 then "tracked" else "untracked"
  }

  /** Construction of the printer: context, then flags, then allocator. */
  function IoContextExecutorOf(v: IoContextExecutorValue, types: TypeTable): (r: Outcome<IoContextExecutor>)
    ensures r.Ok? <==> Matches(IoContextExecutorPattern, v.typeName)
                       && ContextTypeName(v.typeName).value in types && v.address.Some?
    ensures r.Ok? ==> r.value.context == ContextAddress(v.target)
                      && r.value.contextType == ContextTypeName(v.typeName).value
                      && r.value.bits == EffectiveBits(v.staticBits, v.target)
                      && r.value.allocator == ObjectAt(v.allocatorType, v.address.value)
    ensures r.Err? && Matches(IoContextExecutorPattern, v.typeName) && ContextTypeName(v.typeName).value !in types
            ==> r.error == UnknownType(ContextTypeName(v.typeName).value)
  {
    match ContextTypeName(v.typeName)
    case Err(e) => Err(e)
    case Ok(name) =>
      if name !in types then Err(UnknownType(name))
      else if v.address.None? then Err(NoAddress)
      else Ok(IoContextExecutor(name, ContextAddress(v.target), EffectiveBits(v.staticBits, v.target),
                                ObjectAt(v.allocatorType, v.address.value)))
  }

  const ChildNames: seq<string> := ["io_context", "allocator", "blocking", "relationship", "outstanding_work"]

  function IoContextExecutorChildren(p: IoContextExecutor): (r: seq<(string, Child)>)
    ensures |r| == 5 && forall i :: 0 <= i < 5 ==> r[i].0 == ChildNames[i]
    ensures r[0].1 == ContextPointer(p.contextType, p.context) && r[1].1 == p.allocator
    ensures r[2].1 == Text(Blocking(p.bits)) && r[3].1 == Text(Relationship(p.bits))
    ensures r[4].1 == Text(OutstandingWork(p.bits))
  {
    [ ("io_context", ContextPointer(p.contextType, p.context)),
      ("allocator", p.allocator),
      ("blocking", Text(Blocking(p.bits))),
      ("relationship", Text(Relationship(p.bits))),
      ("outstanding_work", Text(OutstandingWork(p.bits))) ]
  }

  /** Work tracking is a property of the executor's type alone: the packed word
      carries only the blocking and relationship bits. */
  lemma OutstandingWorkIsStatic(staticBits: bv64, target: bv64, other: bv64)
    ensures OutstandingWork(EffectiveBits(staticBits, target)) == OutstandingWork(staticBits)
    ensures OutstandingWork(EffectiveBits(staticBits, target)) == OutstandingWork(EffectiveBits(staticBits, other))
  {
    assert EffectiveBits(staticBits, target) & 4 == staticBits & 4;
  }

  /** A flag fixed by the type is shown whatever the packed word holds. */
  lemma StaticFlagsAlwaysShown(staticBits: bv64, target: bv64)
    ensures staticBits & BlockingNever != 0 ==> Blocking(EffectiveBits(staticBits, target)) == "never"
    ensures staticBits & RelationshipContinuation != 0 ==> Relationship(EffectiveBits(staticBits, target)) == "continuation"
    ensures staticBits & OutstandingWorkTracked != 0 ==> OutstandingWork(EffectiveBits(staticBits, target)) == "tracked"
  {
  }

  /** End to end: an executor that never blocks (runtime bit 1), forks (bit 2 clear)
      and tracks work (bit 4 from its type) over an io_context at `base`. */
  lemma DecodeExample(base: bv64, v: IoContextExecutorValue, types: TypeTable)
    requires base & 3 == 0
    requires v.target == base | 1 && v.staticBits == 4
    requires Matches(IoContextExecutorPattern, v.typeName)
    requires ContextTypeName(v.typeName).value in types && v.address.Some?
    ensures IoContextExecutorOf(v, types).Ok?
    ensures var c := IoContextExecutorChildren(IoContextExecutorOf(v, types).value);
            c[0].1 == ContextPointer(ContextTypeName(v.typeName).value, base)
            && c[2].1 == Text("never") && c[3].1 == Text("fork") && c[4].1 == Text("tracked")
  {
    ExampleBits(base);
    ExampleContext(base);
  }

  lemma ExampleBits(base: bv64)
    requires base & 3 == 0
    ensures EffectiveBits(4, base | 1) == 5
  {
    assert (base | 1) & 3 == 1;
  }

  lemma ExampleContext(base: bv64)
    requires base & 3 == 0
    ensures ContextAddress(base | 1) == base
  {
  }
}
