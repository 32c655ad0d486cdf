/** `check` and `parse` (src/operation.rs:44-94). `parse` does not pick one
    rule per line: for every line it records the outcome of all 21 rules in
    table order, an unmatched rule leaving a `None` operation that carries
    the raw line. It never fails. Reading the file is left to the caller:
    the model takes the file's text, and the file's path, which fills the
    operations' `file` field. */
module Parser {
  import opened Wrappers
  import opened Text
  import opened Whitespace
  import opened Operations
  import opened Rules

  /** What `check` returns for a raw line: the operation built from the
      regex's groups when it matches the normalised line, nothing otherwise. */
  function CheckResult(kind: OperationType, pattern: Pattern, raw: string, index: nat, file: string): Option<Operation>
  {
    var line := Normalise(raw);
    match Captures(pattern, line)
    case Some(groups) => Some(Operation(kind, groups, line, index, file))
    case None => Option.None
  }

  /** `check`: normalise, test the regex, and copy the groups after group 0
      into the argument vector one by one. */
  method Check(kind: OperationType, pattern: Pattern, raw: string, index: nat, file: string)
    returns (r: Option<Operation>)
    ensures r == CheckResult(kind, pattern, raw, index, file)
  {
    var line := Normalise(raw);
    match Captures(pattern, line) {
      case None =>
        r := Option.None;
      case Some(groups) =>
        var args: seq<string> := [];
        for i := 0 to |groups|
          invariant args == groups[..i]
        {
          PrefixStep(groups, i);
          args := args + [groups[i]];
        }
        assert groups[..|groups|] == groups;
        r := Some(Operation(kind, args, line, index, file));
    }
  }

  /** A check succeeds exactly when the regex matches the normalised line;
      the operation then has the rule's kind, the normalised line, the
      caller's line number and file, and one argument per group. */
  lemma CheckCases(kind: OperationType, pattern: Pattern, raw: string, index: nat, file: string)
    ensures var r := CheckResult(kind, pattern, raw, index, file);
      && (r.Some? <==> Matches(pattern, Normalise(raw)))
      && (r.Some? ==> && r.value.op == kind && r.value.orig == Normalise(raw)
                      && r.value.line == index && r.value.file == file
                      && |r.value.args| == GroupCount(pattern))
  {
    CapturesAgree(pattern, Normalise(raw));
  }

  /** The fallback of `unwrap_or_else`: kind `None`, no arguments, the raw
      (not normalised) line. */
  function NoneOp(raw: string, index: nat, file: string): Operation
  {
    Operation(OperationType.None, [], raw, index, file)
  }

  /** What `parse` pushes for one rule on one line. */
  function Slot(k: nat, raw: string, index: nat, file: string): Operation
    requires k < RuleCount
  {
    CheckResult(RuleAt(k).kind, RuleAt(k).pattern, raw, index, file).GetOr(NoneOp(raw, index, file))
  }

  /** The 21 operations `parse` pushes for one line. */
  function LineOps(raw: string, index: nat, file: string): (ops: seq<Operation>)
    ensures |ops| == RuleCount
  {
    seq(RuleCount, k requires 0 <= k < RuleCount => Slot(k, raw, index, file))
  }

  /** The blocks `block(line, number)` of `lines`, one after the other,
      the lines numbered on from `first`. */
  function Blocks<T>(lines: seq<string>, first: nat, block: (string, nat) -> seq<T>): seq<T>
    decreases |lines|
  {
    if lines == [] then [] else block(lines[0], first) + Blocks(lines[1..], first + 1, block)
  }

  /** The slots of a line of `file`, as a function of the line and its number. */
  function LineBlock(file: string): (string, nat) -> seq<Operation>
  {
    (raw: string, index: nat) => LineOps(raw, index, file)
  }

  /** The operations for `lines`, the first of which has number `first`. */
  function ParsedFrom(lines: seq<string>, first: nat, file: string): seq<Operation>
  {
    Blocks(lines, first, LineBlock(file))
  }

  /** `contents.split("\n")`. */
  function Lines(text: string): seq<string>
  {
    Split(text, '\n')
  }

  /** What `parse` returns for the contents of `file`. */
  function Parsed(text: string, file: string): seq<Operation>
  {
    ParsedFrom(Lines(text), 1, file)
  }

  /** The 21 `ops.push(check(..).unwrap_or_else(..))` statements of `parse`
      for one line, in rule-table order, written as a loop over the table. */
  method CheckLine(line: string, index: nat, file: string) returns (lineOps: seq<Operation>)
    ensures lineOps == LineOps(line, index, file)
  {
    lineOps := [];
    for k := 0 to RuleCount
      invariant lineOps == LineOps(line, index, file)[..k]
    {
      var checked := Check(RuleAt(k).kind, RuleAt(k).pattern, line, index, file);
      LineOpsStep(line, index, file, k);
      lineOps := lineOps + [checked.GetOr(NoneOp(line, index, file))];
    }
    assert LineOps(line, index, file)[..RuleCount] == LineOps(line, index, file);
  }

  /** `parse`: split the text into lines, push each line's 21 outcomes, then
      copy the vector into the boxed result. */
  method Parse(text: string, file: string) returns (finalOps: seq<Operation>)
    ensures finalOps == Parsed(text, file)
    ensures |finalOps| == RuleCount * |Lines(text)|
  {
    var lines := Split(text, '\n');
    var ops: seq<Operation> := [];
    for index := 0 to |lines|
      invariant ops + ParsedFrom(lines[index..], index + 1, file) == ParsedFrom(lines, 1, file)
    {
      var lineOps := CheckLine(lines[index], index + 1, file);
      ParsedFromStep(lines, index, file);
      AppendStep(ops, lineOps, ParsedFrom(lines[index + 1..], index + 1 + 1, file), ParsedFrom(lines, 1, file));
      ops := ops + lineOps;
    }
    finalOps := [];
    for i := 0 to |ops|
      invariant finalOps == ops[..i]
    {
      PrefixStep(ops, i);
      finalOps := finalOps + [ops[i]];
    }
    assert ops[..|ops|] == ops;
    ParsedLength(lines, 1, file);
  }

  lemma PrefixStep<T>(s: seq<T>, k: nat)
    requires k < |s|
    ensures s[..k + 1] == s[..k] + [s[k]]
  {
  }

  /** One more rule's outcome extends a line's prefix of slots. */
  lemma LineOpsStep(raw: string, index: nat, file: string, k: nat)
    requires k < RuleCount
    ensures LineOps(raw, index, file)[..k + 1] == LineOps(raw, index, file)[..k] + [Slot(k, raw, index, file)]
  {
    var ops := LineOps(raw, index, file);
    PrefixStep(ops, k);
  }

  /** The operations from line `index` on are that line's slots followed by
      the operations of the lines after it. */
  lemma ParsedFromStep(lines: seq<string>, index: nat, file: string)
    requires index < |lines|
    ensures ParsedFrom(lines[index..], index + 1, file)
      == LineOps(lines[index], index + 1, file) + ParsedFrom(lines[index + 1..], index + 1 + 1, file)
  {
    ParsedCons(lines[index..], index + 1, file);
    assert lines[index..][1..] == lines[index + 1..];
  }

  // ---------------------------------------------------------------------
  // What a check yields
  // ---------------------------------------------------------------------

  /** The argument `op[i]` of a checked operation is its regex's group i+1. */
  lemma IndexedGroups(kind: OperationType, pattern: Pattern, raw: string, index: nat, file: string, i: nat)
    requires CheckResult(kind, pattern, raw, index, file).Some?
    requires i < GroupCount(pattern)
    ensures var op := CheckResult(kind, pattern, raw, index, file).value;
      i < |op.args| && Index(op, i) == Captures(pattern, Normalise(raw)).value[i]
  {
    CapturesAgree(pattern, Normalise(raw));
  }

  /** A slot holds the rule's operation when the rule matched the normalised
      line, and the `None` fallback with the raw line otherwise; either way
      it carries the line number and the file. */
  lemma SlotCases(k: nat, raw: string, index: nat, file: string)
    requires k < RuleCount
    ensures Slot(k, raw, index, file).line == index && Slot(k, raw, index, file).file == file
    ensures Slot(k, raw, index, file).op == OperationType.None <==> !Matches(RuleAt(k).pattern, Normalise(raw))
    ensures !Matches(RuleAt(k).pattern, Normalise(raw)) ==> Slot(k, raw, index, file) == NoneOp(raw, index, file)
    ensures Matches(RuleAt(k).pattern, Normalise(raw)) ==>
      var op := Slot(k, raw, index, file);
      && op.op == RuleAt(k).kind && op.orig == Normalise(raw)
      && op.args == Captures(RuleAt(k).pattern, Normalise(raw)).value
  {
    CapturesAgree(RuleAt(k).pattern, Normalise(raw));
    RuleArity(k);
  }

  /** Every slot carries exactly as many arguments as its kind's regex has
      groups (a `None` slot carries none). */
  lemma SlotArity(k: nat, raw: string, index: nat, file: string)
    requires k < RuleCount
    ensures |Slot(k, raw, index, file).args| == CaptureArity(Slot(k, raw, index, file).op)
  {
    CapturesAgree(RuleAt(k).pattern, Normalise(raw));
    RuleArity(k);
  }

  // ---------------------------------------------------------------------
  // The shape of the parse
  // ---------------------------------------------------------------------

  /** Every block has 21 elements. */
  ghost predicate Uniform<T>(block: (string, nat) -> seq<T>)
  {
    forall raw, index :: |block(raw, index)| == RuleCount
  }

  lemma {:induction false} BlocksLength<T>(lines: seq<string>, first: nat, block: (string, nat) -> seq<T>)
    requires Uniform(block)
    ensures |Blocks(lines, first, block)| == RuleCount * |lines|
    decreases |lines|
  {
    if lines != [] {
      BlocksLength(lines[1..], first + 1, block);
    }
  }

  /** Block i of a block of 21 followed by further blocks of 21. */
  lemma BlockSlice<T>(head: seq<T>, tail: seq<T>, i: nat)
    requires |head| == RuleCount
    requires i > 0 ==> RuleCount * i <= |tail|
    ensures RuleCount * (i + 1) <= |head + tail|
    ensures i == 0 ==> (head + tail)[RuleCount * i..RuleCount * (i + 1)] == head
    ensures i > 0 ==> (head + tail)[RuleCount * i..RuleCount * (i + 1)] == tail[RuleCount * (i - 1)..RuleCount * i]
  {
  }

  /** Block i of `Blocks` is the block of line i. */
  lemma {:induction false} BlocksAt<T>(lines: seq<string>, first: nat, block: (string, nat) -> seq<T>, i: nat)
    requires Uniform(block) && i < |lines|
    ensures |Blocks(lines, first, block)| == RuleCount * |lines|
    ensures Blocks(lines, first, block)[RuleCount * i..RuleCount * (i + 1)] == block(lines[i], first + i)
    decreases |lines|
  {
    BlocksLength(lines, first, block);
    BlocksLength(lines[1..], first + 1, block);
    var head, tail := block(lines[0], first), Blocks(lines[1..], first + 1, block);
    BlockSlice(head, tail, i);
    if i > 0 {
      BlocksAt(lines[1..], first + 1, block, i - 1);
      assert lines[1..][i - 1] == lines[i];
    }
  }

  /** Element j = 21·i + k of a sequence whose block i is `b` is `b[k]`. */
  lemma BlockElement<T>(s: seq<T>, i: nat, k: nat, j: nat, b: seq<T>)
    requires k < RuleCount && j == RuleCount * i + k && RuleCount * (i + 1) <= |s|
    requires s[RuleCount * i..RuleCount * (i + 1)] == b
    ensures j < |s| && s[j] == b[k]
  {
  }

  lemma LineBlockUniform(file: string)
    ensures Uniform(LineBlock(file))
  {
  }

  lemma LineBlockApply(file: string)
    ensures forall raw: string, index: nat :: LineBlock(file)(raw, index) == LineOps(raw, index, file)
  {
  }

  lemma ParsedLength(lines: seq<string>, first: nat, file: string)
    ensures |ParsedFrom(lines, first, file)| == RuleCount * |lines|
  {
    LineBlockUniform(file);
    BlocksLength(lines, first, LineBlock(file));
  }

  /** The operations for non-empty `lines` are the first line's slots
      followed by the operations for the rest. */
  lemma ParsedCons(lines: seq<string>, first: nat, file: string)
    requires lines != []
    ensures ParsedFrom(lines, first, file) == LineOps(lines[0], first, file) + ParsedFrom(lines[1..], first + 1, file)
  {
  }

  /** Slot k of a line's operations is rule k's outcome on it. */
  lemma LineOpsAt(raw: string, index: nat, file: string, k: nat)
    requires k < RuleCount
    ensures LineOps(raw, index, file)[k] == Slot(k, raw, index, file)
  {
  }

  /** Block i of the parse, operations 21·i to 21·i + 20, is line i's slots. */
  lemma ParsedAt(lines: seq<string>, first: nat, file: string, i: nat)
    requires i < |lines|
    ensures |ParsedFrom(lines, first, file)| == RuleCount * |lines|
    ensures ParsedFrom(lines, first, file)[RuleCount * i..RuleCount * (i + 1)] == LineOps(lines[i], first + i, file)
  {
    LineBlockUniform(file);
    BlocksAt(lines, first, LineBlock(file), i);
    LineBlockApply(file);
  }

  lemma SlotLine(k: nat, raw: string, index: nat, file: string)
    requires k < RuleCount
    ensures Slot(k, raw, index, file).line == index
  {
    var r := CheckResult(RuleAt(k).kind, RuleAt(k).pattern, raw, index, file);
    assert r.Some? ==> r.value.line == index;
  }

  /** Position j of 21·n positions lies in block j div 21, at j mod 21. */
  lemma BlockOf(j: nat, n: nat)
    requires j < RuleCount * n
    ensures j / RuleCount < n && j % RuleCount < RuleCount
    ensures j == RuleCount * (j / RuleCount) + j % RuleCount
  {
  }

  /** Operation j of the operations for `lines` is rule j mod 21 applied to
      line j div 21, numbered accordingly. */
  lemma ParsedSlot(lines: seq<string>, first: nat, file: string, j: nat)
    requires j < RuleCount * |lines|
    ensures |ParsedFrom(lines, first, file)| == RuleCount * |lines|
    ensures j / RuleCount < |lines|
    ensures ParsedFrom(lines, first, file)[j] == Slot(j % RuleCount, lines[j / RuleCount], first + j / RuleCount, file)
    ensures ParsedFrom(lines, first, file)[j].line == first + j / RuleCount
  {
    BlockOf(j, |lines|);
    var i, k := j / RuleCount, j % RuleCount;
    ParsedAt(lines, first, file, i);
    BlockElement(ParsedFrom(lines, first, file), i, k, j, LineOps(lines[i], first + i, file));
    LineOpsAt(lines[i], first + i, file, k);
    SlotLine(k, lines[i], first + i, file);
  }

  lemma ParsedSlots(lines: seq<string>, file: string)
    ensures |ParsedFrom(lines, 1, file)| == RuleCount * |lines|
    ensures forall j :: 0 <= j < RuleCount * |lines| ==>
      && j / RuleCount < |lines|
      && ParsedFrom(lines, 1, file)[j] == Slot(j % RuleCount, lines[j / RuleCount], j / RuleCount + 1, file)
      && ParsedFrom(lines, 1, file)[j].line == j / RuleCount + 1
  {
    ParsedLength(lines, 1, file);
    forall j | 0 <= j < RuleCount * |lines|
      ensures j / RuleCount < |lines|
      ensures ParsedFrom(lines, 1, file)[j] == Slot(j % RuleCount, lines[j / RuleCount], j / RuleCount + 1, file)
      ensures ParsedFrom(lines, 1, file)[j].line == j / RuleCount + 1
    {
      ParsedSlot(lines, 1, file, j);
    }
  }

  /** For text of n lines `parse` yields 21·n operations: those of line i
      (1-based) come in rule-table order, all numbered i, each the rule's
      operation or the `None` fallback. */
  lemma ParsedShape(text: string, file: string)
    ensures |Lines(text)| == Count(text, '\n') + 1
    ensures |Parsed(text, file)| == RuleCount * |Lines(text)|
    ensures forall j :: 0 <= j < |Parsed(text, file)| ==>
      Parsed(text, file)[j] == Slot(j % RuleCount, Lines(text)[j / RuleCount], j / RuleCount + 1, file)
    ensures forall j :: 0 <= j < |Parsed(text, file)| ==> Parsed(text, file)[j].line == j / RuleCount + 1
  {
    SplitCount(text, '\n');
    ParsedSlots(Lines(text), file);
  }

  /** Every operation of a parse carries its kind's number of arguments. */
  lemma {:induction false} ParsedArity(lines: seq<string>, first: nat, file: string)
    ensures forall j :: 0 <= j < |ParsedFrom(lines, first, file)| ==>
      |ParsedFrom(lines, first, file)[j].args| == CaptureArity(ParsedFrom(lines, first, file)[j].op)
    decreases |lines|
  {
    if lines != [] {
      ParsedArity(lines[1..], first + 1, file);
      ParsedCons(lines, first, file);
      var head := LineOps(lines[0], first, file);
      forall k | 0 <= k < RuleCount
        ensures |head[k].args| == CaptureArity(head[k].op)
      {
        SlotArity(k, lines[0], first, file);
      }
    }
  }

  /** The `#writer` rule has one group, so every `SetWriter` operation that
      `parse` produces has exactly one argument. */
  lemma ParsedSetWriterHasOneArg(text: string, file: string)
    ensures forall j :: 0 <= j < |Parsed(text, file)| && Parsed(text, file)[j].op == SetWriter ==>
      |Parsed(text, file)[j].args| == 1
  {
    ParsedArity(Lines(text), 1, file);
  }

  // ---------------------------------------------------------------------
  // The variable-definition examples
  // ---------------------------------------------------------------------

  /** `variable counter: d set to 0` defines an initialised variable with
      arguments name, type letter and value; the uninitialised rule does not
      match it. */
  lemma InitialisedVariableExample(index: nat, file: string)
    ensures CheckResult(DefineVariable, TypedInit, "variable counter: d set to 0", index, file)
         == Some(Operation(DefineVariable, ["counter", "d", "0"], "variable counter: d set to 0", index, file))
    ensures CheckResult(DefineUninitVariable, TypedUninit, "variable counter: d set to 0", index, file) == Option.None
  {
    InitLineNormal();
    InitLineCaptures();
    InitLineNotUninit();
  }

  /** `variable counter: d` defines an uninitialised variable with arguments
      name and type letter; the initialised rule does not match it. */
  lemma UninitialisedVariableExample(index: nat, file: string)
    ensures CheckResult(DefineUninitVariable, TypedUninit, "variable counter: d", index, file)
         == Some(Operation(DefineUninitVariable, ["counter", "d"], "variable counter: d", index, file))
    ensures CheckResult(DefineVariable, TypedInit, "variable counter: d", index, file) == Option.None
  {
    UninitLineNormal();
    UninitLineCaptures();
  }
}
