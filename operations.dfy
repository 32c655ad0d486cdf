/** The unit of translation (src/operation.rs:23-42, 123-175): one operation
    kind, the captured arguments in group order, the normalised source line,
    its 1-based line number and the file it came from. */
module Operations {
  import Wrappers
  import Text

  /** `OperationType`, in declaration order. */
  datatype OperationType =
    | SetWriter
    | Move
    | FunctionStart
    | FunctionEnd
    | FunctionEnter
    | Add
    | Subtract
    | Multiply
    | Divide
    | TextSection
    | DataSection
    | UninitializedDataSection
    | SetStartFunction
    | ExitProcess
    | PushToStack
    | PopFromStack
    | ReadFromMemory
    | WriteToMemory
    | DefineVariable
    | DefineUninitVariable
    | RunInterrupt
    | None

  /** `Operation`. The Rust struct has no `file` field although the Intel
      writer reads `operation.file`; the model adds it, and the parser fills
      it with the path it was given. `line` is a `usize`, unbounded here. */
  datatype Operation = Operation(
    op: OperationType,
    args: seq<string>,
    orig: string,
    line: nat,
    file: string)

  /** Upper-case letters and spaces, the alphabet of the kind names. */
  predicate IsNameChar(ch: char)
  {
    ('A' <= ch <= 'Z') || ch == ' '
  }

  /** `impl Display for OperationType`: the kind's name in log lines.
      `SetStartFunction` shows as "FUNC BEGIN" and `RunInterrupt` carries a
      trailing space, as in the source. */
  function Display(k: OperationType): (name: string)
    ensures |name| >= 3
    ensures forall i :: 0 <= i < |name| ==> IsNameChar(name[i])
  {
    match k
    case Move => "MOV"
    case None => "NONE"
    case FunctionStart => "FUNC START"
    case FunctionEnd => "FUNC END"
    case SetStartFunction => "FUNC BEGIN"
    case FunctionEnter => "FUNC CALL"
    case Add => "ADD"
    case Subtract => "SUB"
    case Multiply => "MUL"
    case Divide => "DIV"
    case TextSection => "SECT TEXT"
    case DataSection => "SECT DATA"
    case UninitializedDataSection => "SECT UDATA"
    case ExitProcess => "EXIT PROC"
    case SetWriter => "SET WRITER"
    case PushToStack => "PUSH"
    case PopFromStack => "POP"
    case ReadFromMemory => "READ"
    case WriteToMemory => "WRITE"
    case DefineVariable => "VARIABLE"
    case DefineUninitVariable => "UVARIABLE"
    case RunInterrupt => "INTERRUPT "
  }

  /** The kind a log name stands for, if any: the reading direction of
      `Display`. */
  function KindNamed(name: string): Wrappers.Option<OperationType>
  {
    if |name| == 3 then
      if name == "MOV" then Wrappers.Some(Move)
      else if name == "ADD" then Wrappers.Some(Add)
      else if name == "SUB" then Wrappers.Some(Subtract)
      else if name == "MUL" then Wrappers.Some(Multiply)
      else if name == "DIV" then Wrappers.Some(Divide)
      else if name == "POP" then Wrappers.Some(PopFromStack)
      else Wrappers.None
    else if |name| == 4 then
      if name == "NONE" then Wrappers.Some(None)
      else if name == "PUSH" then Wrappers.Some(PushToStack)
      else if name == "READ" then Wrappers.Some(ReadFromMemory)
      else Wrappers.None
    else if |name| == 5 then
      if name == "WRITE" then Wrappers.Some(WriteToMemory) else Wrappers.None
    else if |name| == 8 then
      if name == "FUNC END" then Wrappers.Some(FunctionEnd)
      else if name == "VARIABLE" then Wrappers.Some(DefineVariable)
      else Wrappers.None
    else if |name| == 9 then
      if name == "FUNC CALL" then Wrappers.Some(FunctionEnter)
      else if name == "SECT TEXT" then Wrappers.Some(TextSection)
      else if name == "SECT DATA" then Wrappers.Some(DataSection)
      else if name == "EXIT PROC" then Wrappers.Some(ExitProcess)
      else if name == "UVARIABLE" then Wrappers.Some(DefineUninitVariable)
      else Wrappers.None
    else if |name| == 10 then
      if name == "FUNC START" then Wrappers.Some(FunctionStart)
      else if name == "FUNC BEGIN" then Wrappers.Some(SetStartFunction)
      else if name == "SECT UDATA" then Wrappers.Some(UninitializedDataSection)
      else if name == "SET WRITER" then Wrappers.Some(SetWriter)
      else if name == "INTERRUPT " then Wrappers.Some(RunInterrupt)
      else Wrappers.None
    else Wrappers.None
  }

  /** Every kind's log name reads back as that kind. */
  lemma DisplayNamed(k: OperationType)
    ensures KindNamed(Display(k)) == Wrappers.Some(k)
  {
    match k
    case Move | Add | Subtract | Multiply | Divide | PopFromStack => ShortNamed(k);
    case None | PushToStack | ReadFromMemory | WriteToMemory => FourOrFiveNamed(k);
    case FunctionEnd | DefineVariable | FunctionEnter | TextSection | DataSection
       | ExitProcess | DefineUninitVariable => EightOrNineNamed(k);
    case FunctionStart | SetStartFunction | UninitializedDataSection | SetWriter
       | RunInterrupt => TenNamed(k);
  }

  lemma ShortNamed(k: OperationType)
    requires k in {Move, Add, Subtract, Multiply, Divide, PopFromStack}
    ensures KindNamed(Display(k)) == Wrappers.Some(k)
  {
  }

  lemma FourOrFiveNamed(k: OperationType)
    requires k in {None, PushToStack, ReadFromMemory, WriteToMemory}
    ensures KindNamed(Display(k)) == Wrappers.Some(k)
  {
  }

  lemma EightOrNineNamed(k: OperationType)
    requires k in {FunctionEnd, DefineVariable, FunctionEnter, TextSection, DataSection,
                   ExitProcess, DefineUninitVariable}
    ensures KindNamed(Display(k)) == Wrappers.Some(k)
  {
  }

  lemma TenNamed(k: OperationType)
    requires k in {FunctionStart, SetStartFunction, UninitializedDataSection, SetWriter, RunInterrupt}
    ensures KindNamed(Display(k)) == Wrappers.Some(k)
  {
  }

  /** Distinct kinds are logged under distinct names. */
  lemma DisplayInjective(a: OperationType, b: OperationType)
    ensures Display(a) == Display(b) <==> a == b
  {
    if Display(a) == Display(b) {
      DisplayNamed(a);
      DisplayNamed(b);
    }
  }

  /** `impl ToString for Operation`: "(<kind>, <args joined by ", ">)". */
  function ToString(o: Operation): (r: string)
    ensures |r| >= |Display(o.op)| + 4
    ensures r[..|Display(o.op)| + 3] == "(" + Display(o.op) + ", "
    ensures r[|r| - 1] == ')'
    ensures forall i :: 0 <= i < |o.args| ==> Text.Contains(r, o.args[i])
  {
    var joined := Text.Join(o.args, ", ");
    var r := "(" + Display(o.op) + ", " + joined + ")";
    forall i | 0 <= i < |o.args|
      ensures Text.Contains(r, o.args[i])
    {
      Text.JoinContains(o.args, ", ", i);
      var j :| Text.OccursAt(joined, o.args[i], j);
      var head := "(" + Display(o.op) + ", ";
      assert r == head + joined + ")";
      assert r[|head| + j..|head| + j + |o.args[i]|] == o.args[i];
      assert Text.OccursAt(r, o.args[i], |head| + j);
    }
    r
  }

  /** `impl Index<usize> for Operation`: `op[i]` is the i-th argument; an
      index past the arguments panics in the source, so callers must stay
      below the argument count. */
  function Index(o: Operation, i: nat): (r: string)
    requires i < |o.args|
    ensures r in o.args
  {
    o.args[i]
  }
}
