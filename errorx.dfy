/**
 * The structured-error chain of package errorx: a node carrying a code, an
 * operation label and a log-level hint wraps a cause, which is another node,
 * an opaque leaf error or nil. `E` builds one node from a list of typed
 * arguments; `Code`, `Operations` and `LogLevel` walk the chain; `Log` picks
 * the severity tag and the message parts of one log line.
 */
module Errorx {
  import opened Wrappers

  /** The reserved code meaning "no code assigned at this node". */
  const ErrCodeNotSet: int := 0
  /** The code reported for anything that is not a node of the chain. */
  const ErrCodeUnexpected: int := 1

  const LevelInfo: string := "info"
  const LevelDebug: string := "debug"
  const LevelWarn: string := "warn"
  const LevelError: string := "error"

  /** The four severities `LogLevel` can resolve to. */
  predicate IsSeverity(level: string) {
    level == LevelInfo || level == LevelDebug || level == LevelWarn || level == LevelError
  }

  /**
   * A Go `error` value: nil, an opaque error that is not a node of the chain
   * (only its text is observable), or a node of the chain.
   */
  datatype Error = Nil | Leaf(text: string) | Wrapped(node: Errorx)

  /** One node of the chain; every field is optional, the zero value meaning unset. */
  datatype Errorx = Errorx(code: int, operation: string, logLevel: string, err: Error)

  /** The zero node that `E` starts from. */
  const EmptyNode: Errorx := Errorx(ErrCodeNotSet, "", "", Nil)

  // ---------------------------------------------------------------------------
  // The chain seen as a sequence of nodes (reference definitions for the walkers)
  // ---------------------------------------------------------------------------

  /** The nodes of the chain starting at `err`, outermost first. */
  function Chain(err: Error): (c: seq<Errorx>)
    ensures err.Wrapped? <==> |c| > 0
    ensures err.Wrapped? ==> c[0] == err.node
  {
    match err
    case Wrapped(x) => [x] + Chain(x.err)
    case _ => []
  }

  /** The value that ends the chain: the first cause that is not a node (nil or a leaf). */
  function Root(err: Error): (r: Error)
    ensures !r.Wrapped?
    ensures !err.Wrapped? ==> r == err
  {
    match err
    case Wrapped(x) => Root(x.err)
    case _ => err
  }

  // ---------------------------------------------------------------------------
  // Error(): the text of a node is the text of its cause
  // ---------------------------------------------------------------------------

  /** `err.Error()` for a non-nil error value: a leaf's own text, or the text a node renders. */
  function Text(err: Error): (t: string)
    requires !err.Nil?
    ensures t == (if Root(err).Leaf? then Root(err).text else "")
  {
    match err
    case Leaf(t) => t
    case Wrapped(x) => ErrorText(x)
  }

  /**
   * `(*Errorx).Error()`: empty when the cause is nil, otherwise the cause's own
   * text; so the text of a node is the text of the leaf that ends its chain, or
   * empty when the chain ends in nil.
   */
  function ErrorText(x: Errorx): (s: string)
    ensures s == (if Root(x.err).Leaf? then Root(x.err).text else "")
  {
    if x.err.Nil? then "" else Text(x.err)
  }

  /** A node contributes no text of its own: only its cause is rendered. */
  lemma ErrorTextIgnoresMetadata(x: Errorx, y: Errorx)
    requires x.err == y.err
    ensures ErrorText(x) == ErrorText(y)
  {
  }

  // ---------------------------------------------------------------------------
  // E: building one node from typed arguments
  // ---------------------------------------------------------------------------

  /**
   * One argument of `E`, by its dynamic Go type: `ErrCode`, `int`, `string`,
   * `ErrOperation`, `ErrLogLevel`, an `error`, or any other type.
   */
  datatype Arg =
    | ACode(code: int)
    | AInt(n: int)
    | AString(s: string)
    | AOperation(op: string)
    | ALogLevel(level: string)
    | AError(e: Error)
    | Unknown

  /**
   * Whether `E` has a case for the argument. A nil error reaches `E` as a nil
   * interface, which matches none of the typed cases and so is not recognised.
   */
  predicate Recognised(a: Arg) {
    !a.Unknown? && !(a.AError? && a.e.Nil?)
  }

  /** The code an argument assigns, if it is of a code kind. */
  function CodeOf(a: Arg): Option<int> {
    match a
    case ACode(c) => Some(c)
    case AInt(n) => Some(n)
    case _ => None
  }

  /** The operation an argument assigns, if it is of an operation kind. */
  function OperationOf(a: Arg): Option<string> {
    match a
    case AString(s) => Some(s)
    case AOperation(op) => Some(op)
    case _ => None
  }

  /** The log level an argument assigns, if it is one. */
  function LogLevelOf(a: Arg): Option<string> {
    match a
    case ALogLevel(l) => Some(l)
    case _ => None
  }

  /** The cause an argument assigns, if it is a (non-nil) error. */
  function CauseOf(a: Arg): Option<Error> {
    match a
    case AError(e) => if e.Nil? then None else Some(e)
    case _ => None
  }

  /** The value picked from the last argument that `pick` accepts, or `default` when there is none. */
  function Last<T>(args: seq<Arg>, pick: Arg -> Option<T>, default: T): (v: T) {
    if |args| == 0 then default
    else
      var a := args[|args| - 1];
      if pick(a).Some? then pick(a).value else Last(args[..|args| - 1], pick, default)
  }

  const PanicMessage: string := "unknown errorx field"

  /**
   * What `E(args...)` yields: a panic when some argument is of an unknown
   * kind, otherwise the node whose every field is the last argument of its
   * kind, or the zero value when there is none.
   */
  function Construct(args: seq<Arg>): (r: Result<Errorx, string>) {
    if forall i | 0 <= i < |args| :: Recognised(args[i]) then
      Success(Errorx(Last(args, CodeOf, ErrCodeNotSet), Last(args, OperationOf, ""),
                     Last(args, LogLevelOf, ""), Last(args, CauseOf, Nil)))
    else
      Failure(PanicMessage)
  }

  /** `E(args...)`: starts from the zero node and overwrites one field per argument, in order. */
  method E(args: seq<Arg>) returns (r: Result<Errorx, string>)
    ensures r == Construct(args)
  {
    var code, operation, level, cause := ErrCodeNotSet, "", "", Nil;
    for i := 0 to |args|
      invariant forall j | 0 <= j < i :: Recognised(args[j])
      invariant code == Last(args[..i], CodeOf, ErrCodeNotSet)
      invariant operation == Last(args[..i], OperationOf, "")
      invariant level == Last(args[..i], LogLevelOf, "")
      invariant cause == Last(args[..i], CauseOf, Nil)
    {
      assert args[..i + 1][..i] == args[..i];
      match args[i]
      case ACode(c) => code := c;
      case AInt(n) => code := n;
      case AString(s) => operation := s;
      case AOperation(op) => operation := op;
      case ALogLevel(l) => level := l;
      case AError(e) =>
        if e.Nil? {
          return Failure(PanicMessage);
        }
        cause := e;
      case Unknown => return Failure(PanicMessage);
    }
    assert args[..|args|] == args;
    r := Success(Errorx(code, operation, level, cause));
  }

  /** The last argument that `pick` accepts decides the value; later arguments of other kinds do not matter. */
  lemma {:induction false} LastIsFinalPick<T>(args: seq<Arg>, pick: Arg -> Option<T>, default: T, i: nat)
    requires i < |args| && pick(args[i]).Some?
    requires forall j | i < j < |args| :: pick(args[j]).None?
    ensures Last(args, pick, default) == pick(args[i]).value
  {
    if i < |args| - 1 {
      var init := args[..|args| - 1];
      assert forall j | i < j < |init| :: init[j] == args[j];
      LastIsFinalPick(init, pick, default, i);
    }
  }

  /** With no argument of the kind, the field keeps its zero value. */
  lemma {:induction false} LastOfNoneIsDefault<T>(args: seq<Arg>, pick: Arg -> Option<T>, default: T)
    requires forall j | 0 <= j < |args| :: pick(args[j]).None?
    ensures Last(args, pick, default) == default
  {
    if |args| > 0 {
      var init := args[..|args| - 1];
      assert forall j | 0 <= j < |init| :: init[j] == args[j];
      LastOfNoneIsDefault(init, pick, default);
    }
  }

  /** `E()` with no arguments yields the zero node. */
  lemma ConstructEmpty()
    ensures Construct([]) == Success(EmptyNode)
  {
  }

  /** Any argument of an unknown kind makes `E` panic, wherever it stands. */
  lemma ConstructUnknownPanics(args: seq<Arg>, i: nat)
    requires i < |args| && !Recognised(args[i])
    ensures Construct(args) == Failure(PanicMessage)
  {
  }

  /** Whether `x` holds exactly what argument `a` assigns to its field. */
  predicate Holds(x: Errorx, a: Arg) {
    match a
    case ACode(c) => x.code == c
    case AInt(n) => x.code == n
    case AString(s) => x.operation == s
    case AOperation(op) => x.operation == op
    case ALogLevel(l) => x.logLevel == l
    case AError(e) => x.err == e
    case Unknown => false
  }

  /** At most one argument assigns each field. */
  predicate AtMostOneOfEachKind(args: seq<Arg>) {
    forall i, j | 0 <= i < j < |args| ::
      && (CodeOf(args[i]).Some? ==> CodeOf(args[j]).None?)
      && (OperationOf(args[i]).Some? ==> OperationOf(args[j]).None?)
      && (LogLevelOf(args[i]).Some? ==> LogLevelOf(args[j]).None?)
      && (CauseOf(args[i]).Some? ==> CauseOf(args[j]).None?)
  }

  /**
   * With at most one argument of each kind, `E` yields a node whose fields
   * are exactly those arguments (an `int` taken as the code, a `string` as
   * the operation) and whose other fields keep their zero values.
   */
  lemma ConstructExact(args: seq<Arg>)
    requires forall i | 0 <= i < |args| :: Recognised(args[i])
    requires AtMostOneOfEachKind(args)
    ensures Construct(args).Success?
    ensures forall i | 0 <= i < |args| :: Holds(Construct(args).value, args[i])
    ensures (forall i | 0 <= i < |args| :: CodeOf(args[i]).None?) ==> Construct(args).value.code == ErrCodeNotSet
    ensures (forall i | 0 <= i < |args| :: OperationOf(args[i]).None?) ==> Construct(args).value.operation == ""
    ensures (forall i | 0 <= i < |args| :: LogLevelOf(args[i]).None?) ==> Construct(args).value.logLevel == ""
    ensures (forall i | 0 <= i < |args| :: CauseOf(args[i]).None?) ==> Construct(args).value.err == Nil
  {
    var x := Construct(args).value;
    forall i | 0 <= i < |args| ensures Holds(x, args[i]) {
      match args[i]
      case ACode(_) => LastIsFinalPick(args, CodeOf, ErrCodeNotSet, i);
      case AInt(_) => LastIsFinalPick(args, CodeOf, ErrCodeNotSet, i);
      case AString(_) => LastIsFinalPick(args, OperationOf, "", i);
      case AOperation(_) => LastIsFinalPick(args, OperationOf, "", i);
      case ALogLevel(_) => LastIsFinalPick(args, LogLevelOf, "", i);
      case AError(_) => LastIsFinalPick(args, CauseOf, Nil, i);
    }
    if forall i | 0 <= i < |args| :: CodeOf(args[i]).None? {
      LastOfNoneIsDefault(args, CodeOf, ErrCodeNotSet);
    }
    if forall i | 0 <= i < |args| :: OperationOf(args[i]).None? {
      LastOfNoneIsDefault(args, OperationOf, "");
    }
    if forall i | 0 <= i < |args| :: LogLevelOf(args[i]).None? {
      LastOfNoneIsDefault(args, LogLevelOf, "");
    }
    if forall i | 0 <= i < |args| :: CauseOf(args[i]).None? {
      LastOfNoneIsDefault(args, CauseOf, Nil);
    }
  }

  /** The node `x` with the one field that argument `a` assigns overwritten. */
  function Assign(x: Errorx, a: Arg): (y: Errorx) {
    match a
    case ACode(c) => x.(code := c)
    case AInt(n) => x.(code := n)
    case AString(s) => x.(operation := s)
    case AOperation(op) => x.(operation := op)
    case ALogLevel(l) => x.(logLevel := l)
    case AError(e) => x.(err := e)
    case Unknown => x
  }

  /**
   * Appending a recognised argument overwrites exactly its own field of the
   * node built so far and leaves the other three as they were: later
   * arguments of a kind win, and no fields are merged.
   */
  lemma ConstructAppend(args: seq<Arg>, a: Arg)
    requires Construct(args).Success? && Recognised(a)
    ensures Construct(args + [a]) == Success(Assign(Construct(args).value, a))
  {
  }

  /** The Go loop read literally: assign each argument's field in turn, starting from `x`. */
  function AssignAll(x: Errorx, args: seq<Arg>): (y: Errorx)
    decreases |args|
  {
    if |args| == 0 then x else AssignAll(Assign(x, args[0]), args[1..])
  }

  /** Assigning one more argument after the others is one more step of the loop. */
  lemma {:induction false} AssignAllSnoc(x: Errorx, args: seq<Arg>, a: Arg)
    ensures AssignAll(x, args + [a]) == Assign(AssignAll(x, args), a)
    decreases |args|
  {
    if |args| == 0 {
      assert (args + [a])[1..] == [];
    } else {
      assert (args + [a])[1..] == args[1..] + [a];
      AssignAllSnoc(Assign(x, args[0]), args[1..], a);
    }
  }

  /**
   * The declarative reading of `E` (each field is the last argument of its
   * kind) agrees with overwriting the fields one argument at a time, in
   * order, from the zero node.
   */
  lemma {:induction false} ConstructIsSequentialAssignment(args: seq<Arg>)
    requires forall i | 0 <= i < |args| :: Recognised(args[i])
    ensures Construct(args) == Success(AssignAll(EmptyNode, args))
    decreases |args|
  {
    if |args| > 0 {
      var init := args[..|args| - 1];
      var a := args[|args| - 1];
      assert init + [a] == args;
      assert forall i | 0 <= i < |init| :: init[i] == args[i];
      ConstructIsSequentialAssignment(init);
      ConstructAppend(init, a);
      AssignAllSnoc(EmptyNode, init, a);
    }
  }

  // ---------------------------------------------------------------------------
  // Code
  // ---------------------------------------------------------------------------

  /** `Code(err)`: the code of the outermost node that sets one; `ErrCodeUnexpected` past the chain. */
  function Code(err: Error): (c: int)
    ensures c != ErrCodeNotSet
    ensures !err.Wrapped? ==> c == ErrCodeUnexpected
  {
    match err
    case Wrapped(x) => if x.code != ErrCodeNotSet then x.code else Code(x.err)
    case _ => ErrCodeUnexpected
  }

  /** The outermost node with a non-zero code determines the result, however deep the chain. */
  lemma {:induction false} CodeOutermostWins(err: Error, i: nat)
    requires i < |Chain(err)| && Chain(err)[i].code != ErrCodeNotSet
    requires forall j | 0 <= j < i :: Chain(err)[j].code == ErrCodeNotSet
    ensures Code(err) == Chain(err)[i].code
  {
    if i > 0 {
      var x := err.node;
      assert forall j | 0 <= j < i - 1 :: Chain(x.err)[j] == Chain(err)[j + 1];
      assert Chain(err)[0].code == ErrCodeNotSet;
      CodeOutermostWins(x.err, i - 1);
    }
  }

  /** When no node of the chain sets a code, the walk ends past the chain and reports `ErrCodeUnexpected`. */
  lemma {:induction false} CodeUnsetChain(err: Error)
    requires forall j | 0 <= j < |Chain(err)| :: Chain(err)[j].code == ErrCodeNotSet
    ensures Code(err) == ErrCodeUnexpected
  {
    if err.Wrapped? {
      var x := err.node;
      assert forall j | 0 <= j < |Chain(x.err)| :: Chain(x.err)[j] == Chain(err)[j + 1];
      assert Chain(err)[0].code == ErrCodeNotSet;
      CodeUnsetChain(x.err);
    }
  }

  // ---------------------------------------------------------------------------
  // Operations
  // ---------------------------------------------------------------------------

  /** `Operations(err)`: the operation labels of the chain, outermost first; empty labels are kept. */
  function Operations(err: Error): (ops: seq<string>)
    ensures !err.Wrapped? ==> ops == []
    ensures err.Wrapped? ==> |ops| > 0 && ops[0] == err.node.operation
  {
    match err
    case Wrapped(x) =>
      var result := [x.operation];
      if !x.err.Wrapped? then result else result + Operations(x.err)
    case _ => []
  }

  /** One label per node of the chain, in chain order. */
  lemma {:induction false} OperationsFollowChain(err: Error)
    ensures |Operations(err)| == |Chain(err)|
    ensures forall i | 0 <= i < |Chain(err)| :: Operations(err)[i] == Chain(err)[i].operation
  {
    if err.Wrapped? {
      OperationsFollowChain(err.node.err);
    }
  }

  // ---------------------------------------------------------------------------
  // LogLevel
  // ---------------------------------------------------------------------------

  /**
   * `LogLevel(err)`: a recognised level of a node is returned, an empty level
   * defers to the cause, any other level gives "error" without looking at the
   * cause, and anything that is not a node gives "error".
   */
  function LogLevel(err: Error): (level: string)
    ensures IsSeverity(level)
    ensures !err.Wrapped? ==> level == LevelError
  {
    match err
    case Wrapped(x) =>
      if x.logLevel == LevelInfo then LevelInfo
      else if x.logLevel == LevelDebug then LevelDebug
      else if x.logLevel == LevelWarn then LevelWarn
      else if x.logLevel == "" then LogLevel(x.err)
      else LevelError
    case _ => LevelError
  }

  /** How the first node with a non-empty level decides the resolved level. */
  function Resolve(level: string): (resolved: string) {
    if level == LevelInfo || level == LevelDebug || level == LevelWarn then level else LevelError
  }

  /**
   * The outermost node with a non-empty level decides: its level when it is
   * info, debug or warn, otherwise "error"; nodes further in are not consulted.
   */
  lemma {:induction false} LogLevelFirstNonEmpty(err: Error, i: nat)
    requires i < |Chain(err)| && Chain(err)[i].logLevel != ""
    requires forall j | 0 <= j < i :: Chain(err)[j].logLevel == ""
    ensures LogLevel(err) == Resolve(Chain(err)[i].logLevel)
  {
    if i > 0 {
      var x := err.node;
      assert forall j | 0 <= j < i - 1 :: Chain(x.err)[j] == Chain(err)[j + 1];
      assert Chain(err)[0].logLevel == "";
      LogLevelFirstNonEmpty(x.err, i - 1);
    }
  }

  /** When no node of the chain sets a level, the result is "error". */
  lemma {:induction false} LogLevelUnsetChain(err: Error)
    requires forall j | 0 <= j < |Chain(err)| :: Chain(err)[j].logLevel == ""
    ensures LogLevel(err) == LevelError
  {
    if err.Wrapped? {
      var x := err.node;
      assert forall j | 0 <= j < |Chain(x.err)| :: Chain(x.err)[j] == Chain(err)[j + 1];
      assert Chain(err)[0].logLevel == "";
      LogLevelUnsetChain(x.err);
    }
  }

  /** A node with a non-empty level decides alone: its cause is not consulted. */
  lemma LogLevelSetIgnoresCause(x: Errorx, cause: Error)
    requires x.logLevel != ""
    ensures LogLevel(Wrapped(x)) == LogLevel(Wrapped(x.(err := cause)))
    ensures LogLevel(Wrapped(x)) == Resolve(x.logLevel)
  {
  }

  /**
   * Three nested nodes where only the innermost sets "debug" resolve to
   * "debug"; an unrecognised outer level gives "error" even over that chain.
   */
  lemma LogLevelExamples(t: string, bad: string)
    requires bad != "" && bad != LevelInfo && bad != LevelDebug && bad != LevelWarn
    ensures var inner := Errorx(ErrCodeNotSet, "a", LevelDebug, Leaf(t));
            var middle := Errorx(ErrCodeNotSet, "b", "", Wrapped(inner));
            && LogLevel(Wrapped(Errorx(ErrCodeNotSet, "c", "", Wrapped(middle)))) == LevelDebug
            && LogLevel(Wrapped(Errorx(ErrCodeNotSet, "c", bad, Wrapped(middle)))) == LevelError
  {
    var inner := Errorx(ErrCodeNotSet, "a", LevelDebug, Leaf(t));
    var middle := Errorx(ErrCodeNotSet, "b", "", Wrapped(inner));
    assert LogLevel(Wrapped(middle)) == LevelDebug;
  }

  // ---------------------------------------------------------------------------
  // Log: severity tag and message parts
  // ---------------------------------------------------------------------------

  const TagInfo: string := "[info ]"
  const TagDebug: string := "[debug]"
  const TagWarn: string := "[warn ]"
  const TagError: string := "[error]"

  /**
   * The tag `Log` prints for a node, chosen from the node's own level field:
   * "warning" is accepted beside "warn", and everything else, the empty level
   * included, is logged as an error.
   */
  function LogTag(level: string): (tag: string)
    ensures tag == TagInfo <==> level == LevelInfo
    ensures tag == TagDebug <==> level == LevelDebug
    ensures tag == TagWarn <==> level == LevelWarn || level == "warning"
    ensures tag == TagError <==> !(level in [LevelInfo, LevelDebug, LevelWarn, "warning"])
  {
    match level
    case "info" => TagInfo
    case "debug" => TagDebug
    case "warn" => TagWarn
    case "warning" => TagWarn
    case _ => TagError
  }

  /** One log line: a bare rendering, or a tag with the operation trail and the node's text. */
  datatype LogEntry = Plain(text: string) | Tagged(tag: string, operations: seq<string>, text: string)

  /** What `Log(err)` writes: a node gets its tag, its operations and its text; anything else is printed bare. */
  function Log(err: Error): (entry: LogEntry)
    ensures entry.Tagged? <==> err.Wrapped?
    ensures err.Wrapped? ==> entry.tag == LogTag(err.node.logLevel) && entry.text == ErrorText(err.node)
    ensures err.Wrapped? ==> entry.operations == Operations(err)
    ensures err.Leaf? ==> entry == Plain(err.text)
    ensures err.Nil? ==> entry == Plain("<nil>")
  {
    match err
    case Wrapped(x) => Tagged(LogTag(x.logLevel), Operations(err), ErrorText(x))
    case Leaf(t) => Plain(t)
    case Nil => Plain("<nil>")
  }

  /** The tag for a resolved severity. */
  function SeverityTag(level: string): (tag: string)
    requires IsSeverity(level)
  {
    if level == LevelInfo then TagInfo
    else if level == LevelDebug then TagDebug
    else if level == LevelWarn then TagWarn
    else TagError
  }

  /**
   * `Log`'s tag is the tag of `LogLevel` except in two cases: the own level is
   * "warning", or it is empty while the cause resolves to something other
   * than "error". An empty own level is always logged as an error.
   */
  lemma LogTagAgainstLogLevel(x: Errorx)
    ensures Log(Wrapped(x)).tag == SeverityTag(LogLevel(Wrapped(x))) <==>
              !(x.logLevel == "warning" || (x.logLevel == "" && LogLevel(x.err) != LevelError))
    ensures x.logLevel == "" ==> Log(Wrapped(x)).tag == TagError
  {
  }

  /**
   * The two places where `Log` departs from `LogLevel`: an unset outer level
   * over a "debug" cause, and the spelling "warning".
   */
  lemma LogTagDivergesFromLogLevel()
    ensures var inner := Errorx(ErrCodeNotSet, "", LevelDebug, Nil);
            var outer := Wrapped(Errorx(ErrCodeNotSet, "", "", Wrapped(inner)));
            LogLevel(outer) == LevelDebug && Log(outer).tag == TagError
    ensures var w := Wrapped(Errorx(ErrCodeNotSet, "", "warning", Nil));
            LogLevel(w) == LevelError && Log(w).tag == TagWarn
  {
  }

  // ---------------------------------------------------------------------------
  // Worked chains
  // ---------------------------------------------------------------------------

  /** Wrapping a leaf with no metadata leaves its text unchanged. */
  lemma WrapLeafKeepsText(t: string)
    ensures Construct([AError(Leaf(t))]).Success?
    ensures ErrorText(Construct([AError(Leaf(t))]).value) == t
  {
  }

  /** `E(E(leaf, "op1"), "op2")`: operations are ["op2", "op1"]. */
  lemma TwoWrapsOperations(t: string)
    ensures var inner := Construct([AError(Leaf(t)), AString("op1")]);
            inner.Success? &&
            var outer := Construct([AError(Wrapped(inner.value)), AString("op2")]);
            outer.Success? && Operations(Wrapped(outer.value)) == ["op2", "op1"]
  {
    var innerArgs := [AError(Leaf(t)), AString("op1")];
    ConstructExact(innerArgs);
    var inner := Construct(innerArgs).value;
    assert Holds(inner, innerArgs[0]) && Holds(inner, innerArgs[1]);
    var outerArgs := [AError(Wrapped(inner)), AString("op2")];
    ConstructExact(outerArgs);
    var outer := Construct(outerArgs).value;
    assert Holds(outer, outerArgs[0]) && Holds(outer, outerArgs[1]);
  }

  /**
   * A leaf wrapped with an operation and code 1001, then wrapped again with a
   * second operation: the code comes from the inner node, the operations are
   * listed outermost first and the text is the leaf's.
   */
  lemma TwoWrapsCodeAndText(t: string)
    ensures var inner := Construct([AError(Leaf(t)), AString("wrap 1"), ACode(1001)]);
            inner.Success? &&
            var outer := Construct([AError(Wrapped(inner.value)), AString("wrap 2")]);
            outer.Success? &&
            var e := Wrapped(outer.value);
            Code(e) == 1001 && Operations(e) == ["wrap 2", "wrap 1"] && ErrorText(outer.value) == t
  {
    var innerArgs := [AError(Leaf(t)), AString("wrap 1"), ACode(1001)];
    ConstructExact(innerArgs);
    var inner := Construct(innerArgs).value;
    assert Holds(inner, innerArgs[0]) && Holds(inner, innerArgs[1]) && Holds(inner, innerArgs[2]);
    var outerArgs := [AError(Wrapped(inner)), AString("wrap 2")];
    ConstructExact(outerArgs);
    var outer := Construct(outerArgs).value;
    assert Holds(outer, outerArgs[0]) && Holds(outer, outerArgs[1]);
    assert outer.code == ErrCodeNotSet by {
      assert forall i | 0 <= i < |outerArgs| :: CodeOf(outerArgs[i]).None?;
    }
  }
}
