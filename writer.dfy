/** `write` (src/operation.rs:103-121): the operations are handed one by one
    to the current writer, which starts as the Intel writer and can be
    replaced by a `SetWriter` operation; a forced output type bypasses it.
    The model returns the concatenated buffers instead of writing them to a
    file. */
module Writer {
  import opened Text
  import opened Operations
  import opened Rules
  import opened Parser
  import opened IntelAsmWriter

  /** `OutputType`. */
  datatype OutputType = IntelAsm | Dynamic

  /** The writer selector of `main` (src/main.rs:31-35): `intel_asm` forces
      the Intel writer, anything else leaves the choice to the program. */
  function OutputTypeOf(selector: string): (t: OutputType)
    ensures t == IntelAsm <==> selector == "intel_asm"
  {
    if selector == "intel_asm" then IntelAsm else Dynamic
  }

  /** The two functions `current_writer` can hold: `IntelAsmWriter::generate`
      and the closure that returns an empty buffer. */
  datatype Generator = IntelAsmGenerate | Discard

  /** A `SetWriter` operation that replaces the current writer: the one
      condition of src/operation.rs:106. */
  predicate IsSwitch(o: Operation)
  {
    o.op == SetWriter && |o.args| > 1
  }

  /** The writer a name selects. */
  function Selected(name: string): (g: Generator)
    ensures g == IntelAsmGenerate <==> name == "intel_asm"
  {
    if name == "intel_asm" then IntelAsmGenerate else Discard
  }

  /** The current writer after seeing `o`. */
  function NextWriter(w: Generator, o: Operation): Generator
  {
    if IsSwitch(o) then Selected(o.args[0]) else w
  }

  /** The writer that actually generates for an operation. */
  function Effective(w: Generator, mode: OutputType): Generator
  {
    if mode == IntelAsm then IntelAsmGenerate else w
  }

  /** The current writer after a run of operations. */
  function WriterAfter(w: Generator, ops: seq<Operation>): Generator
    decreases |ops|
  {
    if ops == [] then w else WriterAfter(NextWriter(w, ops[0]), ops[1..])
  }

  /** The writer that generates each operation, starting from writer `w`:
      the current writer after the operation itself has been seen, unless
      the output type forces the Intel writer. */
  function Plan(w: Generator, ops: seq<Operation>, mode: OutputType): (plan: seq<Generator>)
    ensures |plan| == |ops|
    decreases |ops|
  {
    if ops == [] then []
    else
      var next := NextWriter(w, ops[0]);
      [Effective(next, mode)] + Plan(next, ops[1..], mode)
  }

  /** Every operation handed to the Intel writer is one `gen` accepts. The
      lemmas about the output hold for any generator function `gen`;
      `Written` instantiates it with `Rendered`, whose precondition is that
      the operation has the arguments its template reads (`generate` panics
      otherwise). */
  ghost predicate Fits(plan: seq<Generator>, ops: seq<Operation>, gen: Operation --> string)
  {
    && |plan| == |ops|
    && forall i :: 0 <= i < |ops| && plan[i] == IntelAsmGenerate ==> gen.requires(ops[i])
  }

  /** The buffer a writer produces for one operation. */
  function Emit(g: Generator, o: Operation, gen: Operation --> string): string
    requires g == IntelAsmGenerate ==> gen.requires(o)
  {
    if g == IntelAsmGenerate then gen(o) else ""
  }

  /** The buffers of `ops`, each from its planned writer, in order. */
  function Output(plan: seq<Generator>, ops: seq<Operation>, gen: Operation --> string): string
    requires Fits(plan, ops, gen)
    decreases |ops|
  {
    if ops == [] then "" else Emit(plan[0], ops[0], gen) + Output(plan[1..], ops[1..], gen)
  }

  /** `write` does not panic on `ops`. */
  ghost predicate Safe(ops: seq<Operation>, mode: OutputType)
  {
    Fits(Plan(IntelAsmGenerate, ops, mode), ops, Rendered)
  }

  /** What `write` puts in its file. */
  function Written(ops: seq<Operation>, mode: OutputType): string
    requires Safe(ops, mode)
  {
    Output(Plan(IntelAsmGenerate, ops, mode), ops, Rendered)
  }

  /** `write`: for each operation, switch the current writer when the
      operation says so, pick the forced or the current writer and append
      its buffer. */
  method Write(ops: seq<Operation>, mode: OutputType) returns (out: string)
    requires Safe(ops, mode)
    ensures out == Written(ops, mode)
  {
    ghost var plan := Plan(IntelAsmGenerate, ops, mode);
    var current := IntelAsmGenerate;
    out := "";
    for i := 0 to |ops|
      invariant current == WriterAfter(IntelAsmGenerate, ops[..i])
      invariant Fits(plan[..i], ops[..i], Rendered) && out == Output(plan[..i], ops[..i], Rendered)
    {
      var op := ops[i];
      if op.op == SetWriter && |op.args| > 1 {
        current := if op.args[0] == "intel_asm" then IntelAsmGenerate else Discard;
      }
      var gen := if mode == IntelAsm then IntelAsmGenerate else current;
      PlanAt(IntelAsmGenerate, ops, mode, i);
      var buf := "";
      if gen == IntelAsmGenerate {
        buf := Generate(op);
      }
      OutputSnoc(plan, ops, Rendered, i);
      out := out + buf;
    }
    assert plan[..|ops|] == plan && ops[..|ops|] == ops;
  }

  // ---------------------------------------------------------------------
  // The writer plan
  // ---------------------------------------------------------------------

  lemma {:induction false} WriterAfterAppend(w: Generator, a: seq<Operation>, b: seq<Operation>)
    ensures WriterAfter(w, a + b) == WriterAfter(WriterAfter(w, a), b)
    decreases |a|
  {
    if a == [] {
      assert a + b == b;
    } else {
      assert (a + b)[0] == a[0] && (a + b)[1..] == a[1..] + b;
      WriterAfterAppend(NextWriter(w, a[0]), a[1..], b);
    }
  }

  /** Operation `i` is generated by the writer current once it has been
      seen, or by the Intel writer when that is forced. */
  lemma {:induction false} PlanAt(w: Generator, ops: seq<Operation>, mode: OutputType, i: nat)
    requires i < |ops|
    ensures WriterAfter(w, ops[..i + 1]) == NextWriter(WriterAfter(w, ops[..i]), ops[i])
    ensures Plan(w, ops, mode)[i] == Effective(WriterAfter(w, ops[..i + 1]), mode)
    decreases i
  {
    WriterAfterAppend(w, ops[..i], [ops[i]]);
    assert ops[..i + 1] == ops[..i] + [ops[i]];
    if i > 0 {
      var next := NextWriter(w, ops[0]);
      PlanAt(next, ops[1..], mode, i - 1);
      assert ops[1..][..i] == ops[1..i + 1];
      assert ops[..i + 1] == [ops[0]] + ops[1..i + 1];
    }
  }

  /** Planning two runs one after the other is planning the second from
      the writer the first left behind. */
  lemma {:induction false} PlanAppend(w: Generator, a: seq<Operation>, b: seq<Operation>, mode: OutputType)
    ensures Plan(w, a + b, mode) == Plan(w, a, mode) + Plan(WriterAfter(w, a), b, mode)
    decreases |a|
  {
    if a == [] {
      assert a + b == b;
    } else {
      assert (a + b)[0] == a[0] && (a + b)[1..] == a[1..] + b;
      PlanAppend(NextWriter(w, a[0]), a[1..], b, mode);
    }
  }

  lemma FitsPrefix(plan: seq<Generator>, ops: seq<Operation>, gen: Operation --> string, i: nat)
    requires Fits(plan, ops, gen) && i <= |ops|
    ensures Fits(plan[..i], ops[..i], gen)
  {
    assert forall j :: 0 <= j < i ==> plan[..i][j] == plan[j] && ops[..i][j] == ops[j];
  }

  lemma FitsSuffix(plan: seq<Generator>, ops: seq<Operation>, gen: Operation --> string, i: nat)
    requires Fits(plan, ops, gen) && i <= |ops|
    ensures Fits(plan[i..], ops[i..], gen)
  {
    assert forall j :: 0 <= j < |ops| - i ==> plan[i..][j] == plan[i + j] && ops[i..][j] == ops[i + j];
  }

  lemma FitsAppend(p: seq<Generator>, a: seq<Operation>, q: seq<Generator>, b: seq<Operation>, gen: Operation --> string)
    requires Fits(p, a, gen) && Fits(q, b, gen)
    ensures Fits(p + q, a + b, gen)
  {
    forall i | 0 <= i < |a| + |b| && (p + q)[i] == IntelAsmGenerate
      ensures gen.requires((a + b)[i])
    {
      if i < |a| {
        assert (p + q)[i] == p[i] && (a + b)[i] == a[i];
      } else {
        assert (p + q)[i] == q[i - |a|] && (a + b)[i] == b[i - |a|];
      }
    }
  }

  // ---------------------------------------------------------------------
  // The output is the buffers in order
  // ---------------------------------------------------------------------

  /** The output of two runs one after the other is the output of the first
      followed by that of the second. */
  lemma {:induction false} OutputAppend(p: seq<Generator>, a: seq<Operation>, q: seq<Generator>, b: seq<Operation>,
                                        gen: Operation --> string)
    requires Fits(p, a, gen) && Fits(q, b, gen)
    ensures Fits(p + q, a + b, gen)
    ensures Output(p + q, a + b, gen) == Output(p, a, gen) + Output(q, b, gen)
    decreases |a|
  {
    FitsAppend(p, a, q, b, gen);
    if a == [] {
      assert p + q == q && a + b == b;
    } else {
      FitsSuffix(p, a, gen, 1);
      OutputAppend(p[1..], a[1..], q, b, gen);
      assert (a + b)[0] == a[0] && (a + b)[1..] == a[1..] + b;
      assert (p + q)[0] == p[0] && (p + q)[1..] == p[1..] + q;
    }
  }

  lemma OutputSnoc(plan: seq<Generator>, ops: seq<Operation>, gen: Operation --> string, i: nat)
    requires Fits(plan, ops, gen) && i < |ops|
    ensures Fits(plan[..i], ops[..i], gen) && Fits(plan[..i + 1], ops[..i + 1], gen)
    ensures Output(plan[..i + 1], ops[..i + 1], gen) == Output(plan[..i], ops[..i], gen) + Emit(plan[i], ops[i], gen)
  {
    FitsPrefix(plan, ops, gen, i);
    FitsPrefix(plan, ops, gen, i + 1);
    assert plan[..i + 1] == plan[..i] + [plan[i]];
    assert ops[..i + 1] == ops[..i] + [ops[i]];
    OutputAppend(plan[..i], ops[..i], [plan[i]], [ops[i]], gen);
    assert Output([plan[i]], [ops[i]], gen)
        == Emit(plan[i], ops[i], gen) + Output([plan[i]][1..], [ops[i]][1..], gen);
  }

  /** Operations given to the empty-output writer contribute nothing. */
  lemma {:induction false} OutputDiscarded(plan: seq<Generator>, ops: seq<Operation>, gen: Operation --> string)
    requires |plan| == |ops| && forall i :: 0 <= i < |plan| ==> plan[i] == Discard
    ensures Fits(plan, ops, gen) && Output(plan, ops, gen) == ""
    decreases |ops|
  {
    if ops != [] {
      assert forall i :: 0 <= i < |plan| - 1 ==> plan[1..][i] == plan[i + 1];
      OutputDiscarded(plan[1..], ops[1..], gen);
    }
  }

  // ---------------------------------------------------------------------
  // The forced Intel writer
  // ---------------------------------------------------------------------

  predicate AllGenerable(ops: seq<Operation>)
  {
    forall i :: 0 <= i < |ops| ==> Generable(ops[i])
  }

  /** Every operation generated by `gen`, in order. */
  function RenderAll(ops: seq<Operation>, gen: Operation --> string): string
    requires forall i :: 0 <= i < |ops| ==> gen.requires(ops[i])
    decreases |ops|
  {
    if ops == [] then "" else gen(ops[0]) + RenderAll(ops[1..], gen)
  }

  /** With the output type forced to `IntelAsm`, the Intel writer generates
      every operation, whatever the current writer is. */
  lemma {:induction false} ForcedPlan(w: Generator, ops: seq<Operation>)
    ensures forall i :: 0 <= i < |ops| ==> Plan(w, ops, IntelAsm)[i] == IntelAsmGenerate
    decreases |ops|
  {
    if ops != [] {
      ForcedPlan(NextWriter(w, ops[0]), ops[1..]);
    }
  }

  /** A plan that uses the Intel writer throughout outputs every operation
      generated by `gen`, in order. */
  lemma {:induction false} OutputAllIntel(plan: seq<Generator>, ops: seq<Operation>, gen: Operation --> string)
    requires |plan| == |ops| && forall i :: 0 <= i < |plan| ==> plan[i] == IntelAsmGenerate
    requires forall i :: 0 <= i < |ops| ==> gen.requires(ops[i])
    ensures Fits(plan, ops, gen) && Output(plan, ops, gen) == RenderAll(ops, gen)
    decreases |ops|
  {
    if ops != [] {
      assert forall i :: 0 <= i < |plan| - 1 ==> plan[1..][i] == plan[i + 1] && ops[1..][i] == ops[i + 1];
      OutputAllIntel(plan[1..], ops[1..], gen);
    }
  }

  /** The forced mode is safe exactly when every operation is generable,
      and then writes every operation rendered by `generate`, in order. */
  lemma ForcedIntel(ops: seq<Operation>)
    ensures Safe(ops, IntelAsm) <==> AllGenerable(ops)
    ensures AllGenerable(ops) ==> Written(ops, IntelAsm) == RenderAll(ops, Rendered)
  {
    var plan := Plan(IntelAsmGenerate, ops, IntelAsm);
    ForcedPlan(IntelAsmGenerate, ops);
    if AllGenerable(ops) {
      OutputAllIntel(plan, ops, Rendered);
    }
  }

  // ---------------------------------------------------------------------
  // The current writer
  // ---------------------------------------------------------------------

  predicate NoSwitch(ops: seq<Operation>)
  {
    forall i :: 0 <= i < |ops| ==> !IsSwitch(ops[i])
  }

  /** The current writer changes only at a switching operation. */
  lemma {:induction false} WriterKept(w: Generator, ops: seq<Operation>)
    requires NoSwitch(ops)
    ensures WriterAfter(w, ops) == w
    decreases |ops|
  {
    if ops != [] {
      assert !IsSwitch(ops[0]);
      assert forall i :: 0 <= i < |ops| - 1 ==> ops[1..][i] == ops[i + 1];
      WriterKept(w, ops[1..]);
    }
  }

  /** The current writer after a run is the one named by its last
      switching operation. */
  lemma WriterAfterSwitch(w: Generator, ops: seq<Operation>, j: nat)
    requires j < |ops| && IsSwitch(ops[j]) && NoSwitch(ops[j + 1..])
    ensures WriterAfter(w, ops) == Selected(ops[j].args[0])
  {
    assert ops == ops[..j + 1] + ops[j + 1..];
    WriterAfterAppend(w, ops[..j + 1], ops[j + 1..]);
    PlanAt(w, ops, Dynamic, j);
    WriterKept(Selected(ops[j].args[0]), ops[j + 1..]);
  }

  /** Without a switching operation the dynamic plan is the forced one. */
  lemma {:induction false} NoSwitchPlan(w: Generator, ops: seq<Operation>)
    requires NoSwitch(ops)
    ensures Plan(w, ops, Dynamic) == seq(|ops|, _ => w)
    decreases |ops|
  {
    if ops != [] {
      assert !IsSwitch(ops[0]);
      assert forall i :: 0 <= i < |ops| - 1 ==> ops[1..][i] == ops[i + 1];
      NoSwitchPlan(w, ops[1..]);
      assert seq(|ops|, _ => w) == [w] + seq(|ops| - 1, _ => w);
    }
  }

  /** Without a switching operation, the dynamic writer is the Intel writer
      throughout, so `write` in dynamic mode writes what the forced mode
      writes. */
  lemma DynamicIsForced(ops: seq<Operation>)
    requires NoSwitch(ops) && AllGenerable(ops)
    ensures Safe(ops, Dynamic) && Safe(ops, IntelAsm)
    ensures Written(ops, Dynamic) == Written(ops, IntelAsm) == RenderAll(ops, Rendered)
  {
    NoSwitchPlan(IntelAsmGenerate, ops);
    OutputAllIntel(Plan(IntelAsmGenerate, ops, Dynamic), ops, Rendered);
    ForcedIntel(ops);
  }

  /** After a switch to a name other than `intel_asm`, the dynamic plan uses
      the empty-output writer as long as no later switch names `intel_asm`. */
  lemma {:induction false} DiscardPlan(ops: seq<Operation>)
    requires forall i :: 0 <= i < |ops| && IsSwitch(ops[i]) ==> ops[i].args[0] != "intel_asm"
    ensures forall i :: 0 <= i < |ops| ==> Plan(Discard, ops, Dynamic)[i] == Discard
    decreases |ops|
  {
    if ops != [] {
      assert NextWriter(Discard, ops[0]) == Discard;
      assert forall i :: 0 <= i < |ops| - 1 ==> ops[1..][i] == ops[i + 1];
      DiscardPlan(ops[1..]);
    }
  }

  /** Once a `SetWriter` operation names anything but `intel_asm`, the
      dynamic `write` emits nothing more unless a later one names
      `intel_asm` again: the output is that of the operations before it. */
  lemma Silenced(ops: seq<Operation>, j: nat)
    requires Safe(ops, Dynamic)
    requires j < |ops| && IsSwitch(ops[j]) && ops[j].args[0] != "intel_asm"
    requires forall i :: j < i < |ops| && IsSwitch(ops[i]) ==> ops[i].args[0] != "intel_asm"
    ensures Safe(ops[..j], Dynamic)
    ensures Written(ops, Dynamic) == Written(ops[..j], Dynamic)
  {
    var a, b := ops[..j], ops[j..];
    var plan := Plan(IntelAsmGenerate, ops, Dynamic);
    assert ops == a + b;
    PlanAppend(IntelAsmGenerate, a, b, Dynamic);
    var w := WriterAfter(IntelAsmGenerate, a);
    assert plan[..j] == Plan(IntelAsmGenerate, a, Dynamic);
    assert plan[j..] == Plan(w, b, Dynamic);
    FitsPrefix(plan, ops, Rendered, j);
    assert b[0] == ops[j] && NextWriter(w, b[0]) == Discard;
    assert forall i :: 0 <= i < |b| - 1 ==> b[1..][i] == ops[j + 1 + i];
    DiscardPlan(b[1..]);
    OutputDiscarded(plan[j..], b, Rendered);
    assert plan == plan[..j] + plan[j..];
    OutputAppend(plan[..j], a, plan[j..], b, Rendered);
  }

  // ---------------------------------------------------------------------
  // Writing what `parse` produced
  // ---------------------------------------------------------------------

  /** Every slot of a parse can be generated. */
  lemma SlotGenerable(k: nat, raw: string, index: nat, file: string)
    requires k < RuleCount
    ensures Generable(Slot(k, raw, index, file))
  {
    SlotArity(k, raw, index, file);
    ArityCovered(Slot(k, raw, index, file).op);
  }

  lemma {:induction false} ParsedFromGenerable(lines: seq<string>, first: nat, file: string)
    ensures AllGenerable(ParsedFrom(lines, first, file))
    decreases |lines|
  {
    if lines != [] {
      ParsedFromGenerable(lines[1..], first + 1, file);
      ParsedCons(lines, first, file);
      var head := LineOps(lines[0], first, file);
      forall k | 0 <= k < RuleCount
        ensures Generable(head[k])
      {
        SlotGenerable(k, lines[0], first, file);
      }
    }
  }

  /** No operation `parse` produces switches the writer, since its
      `SetWriter` operations carry one argument, never more; and the Intel
      writer can generate every one of them. With `DynamicIsForced`: `write`
      never panics on parsed operations, and the dynamic mode writes exactly
      what the forced Intel mode writes. */
  lemma ParsedWritable(text: string, file: string)
    ensures NoSwitch(Parsed(text, file))
    ensures AllGenerable(Parsed(text, file))
  {
    ParsedSetWriterHasOneArg(text, file);
    ParsedFromGenerable(Lines(text), 1, file);
  }

  /** The operation `check` makes of `variable counter: d set to 0`
      (`InitialisedVariableExample`) becomes a double-word data directive
      with the initial value. */
  lemma InitialisedVariableGenerate(index: nat, file: string)
    ensures Template(Operation(DefineVariable, ["counter", "d", "0"], "variable counter: d set to 0", index, file))
         == "counter: dd 0"
  {
  }

  /** The operation `check` makes of `variable counter: d`
      (`UninitialisedVariableExample`) reserves one double word. */
  lemma UninitialisedVariableGenerate(index: nat, file: string)
    ensures Template(Operation(DefineUninitVariable, ["counter", "d"], "variable counter: d", index, file))
         == "counter: resd 1"
  {
  }
}
