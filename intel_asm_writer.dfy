/** `IntelAsmWriter::generate` (src/intel_asm_writer.rs:8-56): an operation
    becomes a few lines of Intel-syntax assembly, each followed by a comment
    that points back to the source line it came from. The Rust function
    returns the UTF-8 bytes of that text; the model returns the text. */
module IntelAsmWriter {
  import opened Text
  import opened Operations
  import opened Rules

  /** How many arguments the template of each kind reads: one more than the
      highest index it uses. */
  function TemplateArity(k: OperationType): nat
  {
    match k
    case SetWriter | None | FunctionEnd | TextSection | DataSection | UninitializedDataSection => 0
    case FunctionStart | SetStartFunction | FunctionEnter | ExitProcess
       | PushToStack | PopFromStack | RunInterrupt => 1
    case Move | Add | Subtract | Multiply | Divide
       | ReadFromMemory | WriteToMemory | DefineUninitVariable => 2
    case DefineVariable => 3
  }

  /** The operations `generate` can translate without indexing past the end
      of `args` (which panics in the source). */
  predicate Generable(o: Operation)
  {
    TemplateArity(o.op) <= |o.args|
  }

  /** The assembly for one operation, the `match` of `generate`
      (src/intel_asm_writer.rs:9-30); several lines are joined by line feeds. */
  function Template(o: Operation): string
    requires Generable(o)
  {
    var a := o.args;
    match o.op
    case Move => "     mov " + a[0] + ", " + a[1]
    case FunctionStart => a[0] + ":"
    case FunctionEnd => "     ret"
    case SetStartFunction => "  global _start " + "\n" + " _start: jmp " + a[0]
    case FunctionEnter => "    call " + a[0]
    case Add => "     add " + a[0] + ", " + a[1]
    case Subtract => "     sub " + a[0] + ", " + a[1]
    case Multiply => "     mul " + a[0] + ", " + a[1]
    case Divide => "     div " + a[0] + ", " + a[1]
    case TextSection => " section .text"
    case DataSection => " section .data"
    case UninitializedDataSection => " section .bss"
    case ExitProcess => "     mov rax, 60" + "\n" + "     mov rdi, " + a[0] + "\n" + " syscall"
    case SetWriter | None => ""
    case PushToStack => "    push " + a[0]
    case PopFromStack => "     pop " + a[0]
    case ReadFromMemory => "     mov " + a[1] + ", [" + a[0] + "]"
    case WriteToMemory => "     mov [" + a[1] + "], " + a[0]
    case DefineVariable => a[0] + ": d" + a[1] + " " + a[2]
    case DefineUninitVariable => a[0] + ": res" + a[1] + " 1"
    case RunInterrupt => "     int " + a[0] + "h"
  }

  /** One output line without its line feed:
      `format!("{:<60} ; [{:>3} / {}] {}", piece, line, file, orig)`. */
  function TraceBody(piece: string, o: Operation): string
  {
    PadRight(piece, 60) + " ; [" + PadLeft(Decimal(o.line), 3) + " / " + o.file + "] " + o.orig
  }

  function TraceLine(piece: string, o: Operation): string
  {
    TraceBody(piece, o) + "\n"
  }

  /** The decorated lines of `pieces`, in order. */
  function Decorated(pieces: seq<string>, o: Operation): string
    decreases |pieces|
  {
    if pieces == [] then "" else TraceLine(pieces[0], o) + Decorated(pieces[1..], o)
  }

  /** What `generate` returns: nothing for an empty template, otherwise one
      decorated line per line-feed-separated piece of the template. */
  function Rendered(o: Operation): string
    requires Generable(o)
  {
    var rs := Template(o);
    if rs == "" then "" else Decorated(Split(rs, '\n'), o)
  }

  /** `generate`: build the template and, unless it is empty, split it on
      line feeds and decorate the pieces. */
  method Generate(o: Operation) returns (r: string)
    requires Generable(o)
    ensures r == Rendered(o)
    ensures r == "" <==> o.op == SetWriter || o.op == OperationType.None
    ensures r != "" ==> r[|r| - 1] == '\n'
  {
    var rs := Template(o);
    r := "";
    var spl := Split(rs, '\n');
    if rs != "" {
      r := Decorate(spl, o);
      DecoratedEnds(spl, o);
    }
    TemplateEmpty(o);
  }

  /** The loop of `generate` that appends one decorated line per piece to
      `r`. */
  method Decorate(spl: seq<string>, o: Operation) returns (r: string)
    ensures r == Decorated(spl, o)
  {
    r := "";
    for i := 0 to |spl|
      invariant r + Decorated(spl[i..], o) == Decorated(spl, o)
    {
      DecoratedStep(spl, i, o);
      AppendStep(r, TraceLine(spl[i], o), Decorated(spl[i + 1..], o), Decorated(spl, o));
      r := r + TraceLine(spl[i], o);
    }
    assert spl[|spl|..] == [];
  }

  lemma DecoratedStep(spl: seq<string>, i: nat, o: Operation)
    requires i < |spl|
    ensures Decorated(spl[i..], o) == TraceLine(spl[i], o) + Decorated(spl[i + 1..], o)
  {
    assert spl[i..][1..] == spl[i + 1..];
  }

  // ---------------------------------------------------------------------
  // The template
  // ---------------------------------------------------------------------

  /** Only `SetWriter` and `None` have an empty template. */
  lemma TemplateEmpty(o: Operation)
    requires Generable(o)
    ensures Template(o) == "" <==> o.op == SetWriter || o.op == OperationType.None
  {
    if o.op == FunctionStart {
      assert |Template(o)| == |o.args[0]| + 1;
    }
  }

  /** `generate` reads only arguments that the rule producing the operation
      captured, so it never panics on an operation `check` returns. Only
      `SetWriter`, whose template ignores its argument, reads fewer. */
  lemma ArityCovered(k: OperationType)
    ensures TemplateArity(k) <= CaptureArity(k)
    ensures TemplateArity(k) < CaptureArity(k) <==> k == SetWriter
  {
  }

  /** A plain instruction line: five spaces of indentation, the mnemonic
      and its operands separated by commas, destination first. */
  function Instruction(mnemonic: string, operands: seq<string>): string
  {
    "     " + mnemonic + (if operands == [] then "" else " " + Join(operands, ", "))
  }

  lemma Join1(x: string, sep: string)
    ensures Join([x], sep) == x
  {
  }

  lemma Join2(x: string, y: string, sep: string)
    ensures Join([x, y], sep) == x + sep + y
  {
    assert [x, y][1..] == [y];
  }

  /** The mnemonics of the two-operand arithmetic kinds and `Move`. */
  function Mnemonic(k: OperationType): string
  {
    match k
    case Move => "mov"
    case Add => "add"
    case Subtract => "sub"
    case Multiply => "mul"
    case Divide => "div"
    case _ => ""
  }

  /** Operand order of `Move` and the arithmetic kinds: `args[0]`, the
      destination, then `args[1]`. */
  lemma BinaryOperands(o: Operation)
    requires Generable(o)
    requires o.op in {Move, Add, Subtract, Multiply, Divide}
    ensures Template(o) == Instruction(Mnemonic(o.op), [o.args[0], o.args[1]])
  {
    Join2(o.args[0], o.args[1], ", ");
  }

  /** A memory read is a move from the bracketed address `args[0]` into
      `args[1]`. */
  lemma ReadOperands(o: Operation)
    requires Generable(o) && o.op == ReadFromMemory
    ensures Template(o) == Instruction("mov", [o.args[1], "[" + o.args[0] + "]"])
  {
    Join2(o.args[1], "[" + o.args[0] + "]", ", ");
  }

  /** A memory write is a move of `args[0]` to the bracketed address
      `args[1]`. */
  lemma WriteOperands(o: Operation)
    requires Generable(o) && o.op == WriteToMemory
    ensures Template(o) == Instruction("mov", ["[" + o.args[1] + "]", o.args[0]])
  {
    Join2("[" + o.args[1] + "]", o.args[0], ", ");
  }

  /** `RunInterrupt` is `int` with the code as a hexadecimal literal, and
      `ret` and `pop` are plain instructions too. */
  lemma UnaryOperands(o: Operation)
    requires Generable(o)
    requires o.op in {RunInterrupt, PopFromStack, FunctionEnd}
    ensures o.op == RunInterrupt ==> Template(o) == Instruction("int", [o.args[0] + "h"])
    ensures o.op == PopFromStack ==> Template(o) == Instruction("pop", [o.args[0]])
    ensures o.op == FunctionEnd ==> Template(o) == Instruction("ret", [])
  {
    if o.op == RunInterrupt {
      Join1(o.args[0] + "h", ", ");
    } else if o.op == PopFromStack {
      Join1(o.args[0], ", ");
    }
  }

  /** `ExitProcess` loads the number of the exit system call and the exit
      code, then traps: three pieces. */
  lemma ExitProcessPieces(o: Operation)
    requires Generable(o) && o.op == ExitProcess
    requires '\n' !in o.args[0]
    ensures Split(Template(o), '\n') == ["     mov rax, 60", "     mov rdi, " + o.args[0], " syscall"]
  {
    var p := ["     mov rax, 60", "     mov rdi, " + o.args[0], " syscall"];
    assert p[1..] == [p[1], p[2]];
    Join2(p[1], p[2], "\n");
    assert Join(p, "\n") == p[0] + "\n" + (p[1] + "\n" + p[2]);
    assert Join(p, "\n") == Template(o);
    SplitJoin(p, '\n');
  }

  /** `SetStartFunction` exports `_start` and jumps from it to the named
      function: two pieces. */
  lemma StartFunctionPieces(o: Operation)
    requires Generable(o) && o.op == SetStartFunction
    requires '\n' !in o.args[0]
    ensures Split(Template(o), '\n') == ["  global _start ", " _start: jmp " + o.args[0]]
  {
    var p := ["  global _start ", " _start: jmp " + o.args[0]];
    Join2(p[0], p[1], "\n");
    assert Join(p, "\n") == Template(o);
    SplitJoin(p, '\n');
  }

  /** The templates of every other non-empty kind are a single piece. */
  lemma SingleLineTemplates(o: Operation)
    requires Generable(o)
    requires forall i :: 0 <= i < |o.args| ==> '\n' !in o.args[i]
    requires o.op !in {ExitProcess, SetStartFunction, SetWriter, OperationType.None}
    ensures Split(Template(o), '\n') == [Template(o)]
  {
    SplitWithout(Template(o), '\n');
  }

  // ---------------------------------------------------------------------
  // The traceability trailer
  // ---------------------------------------------------------------------

  /** The layout of an output line: the piece kept whole and padded with
      spaces up to column 60, ` ; [`, the line number right-aligned in
      three columns, ` / `, the file, `] `, the normalised source line and a
      line feed. */
  lemma TraceLayout(piece: string, o: Operation)
    ensures var n := Decimal(o.line);
      TraceLine(piece, o)
        == piece + Spaces(Max(|piece|, 60) - |piece|) + " ; [" + Spaces(Max(|n|, 3) - |n|) + n
           + " / " + o.file + "] " + o.orig + "\n"
    ensures |piece + Spaces(Max(|piece|, 60) - |piece|)| >= 60
  {
    PadRightSpaces(piece, 60);
    PadLeftSpaces(Decimal(o.line), 3);
  }

  /** The line names the source line number, the file and the normalised
      source line of `o`. */
  ghost predicate Traceable(line: string, o: Operation)
  {
    Contains(line, Decimal(o.line)) && Contains(line, o.file) && Contains(line, o.orig)
  }

  /** Every output line is traceable to its operation. */
  lemma TraceContains(piece: string, o: Operation)
    ensures Traceable(TraceBody(piece, o), o)
  {
    var p, n := PadRight(piece, 60), Decimal(o.line);
    var q := PadLeft(n, 3);
    var l1, l2 := p + " ; [" + q, p + " ; [" + q + " / " + o.file;
    // the number
    PadLeftSpaces(n, 3);
    ContainsSelf(n);
    ContainsRight(Spaces(Max(|n|, 3) - |n|), n, n);
    ContainsRight(p + " ; [", q, n);
    ContainsLeft(l1, " / ", n);
    ContainsLeft(l1 + " / ", o.file, n);
    ContainsLeft(l2, "] ", n);
    ContainsLeft(l2 + "] ", o.orig, n);
    // the file
    ContainsSelf(o.file);
    ContainsRight(l1 + " / ", o.file, o.file);
    ContainsLeft(l2, "] ", o.file);
    ContainsLeft(l2 + "] ", o.orig, o.file);
    // the source line
    ContainsSelf(o.orig);
    ContainsRight(l2 + "] ", o.orig, o.orig);
  }

  lemma NoNewlineConcat(a: string, b: string)
    requires '\n' !in a && '\n' !in b
    ensures '\n' !in a + b
  {
  }

  /** No line feed appears inside a decorated line when there is none in the
      piece, the file or the source line. */
  lemma TraceBodyNoNewline(piece: string, o: Operation)
    requires '\n' !in piece && '\n' !in o.file && '\n' !in o.orig
    ensures '\n' !in TraceBody(piece, o)
  {
    var p := PadRight(piece, 60);
    var n := Decimal(o.line);
    var q := PadLeft(n, 3);
    PadRightSpaces(piece, 60);
    PadLeftSpaces(n, 3);
    DecimalRoundTrip(o.line);
    NoNewlineConcat(piece, Spaces(Max(|piece|, 60) - |piece|));
    assert '\n' !in n by {
      forall i | 0 <= i < |n| ensures n[i] != '\n' {
        assert IsDigit(n[i]);
      }
    }
    NoNewlineConcat(Spaces(Max(|n|, 3) - |n|), n);
    NoNewlineConcat(p, " ; [");
    NoNewlineConcat(p + " ; [", q);
    NoNewlineConcat(p + " ; [" + q, " / ");
    NoNewlineConcat(p + " ; [" + q + " / ", o.file);
    NoNewlineConcat(p + " ; [" + q + " / " + o.file, "] ");
    NoNewlineConcat(p + " ; [" + q + " / " + o.file + "] ", o.orig);
  }

  /** Decorating at least one piece yields text that ends in a line feed. */
  lemma {:induction false} DecoratedEnds(pieces: seq<string>, o: Operation)
    requires pieces != []
    ensures Decorated(pieces, o) != "" && Decorated(pieces, o)[|Decorated(pieces, o)| - 1] == '\n'
    decreases |pieces|
  {
    if pieces[1..] != [] {
      DecoratedEnds(pieces[1..], o);
    }
  }

  /** The output lines, before each line feed, one per piece. */
  function Bodies(pieces: seq<string>, o: Operation): (r: seq<string>)
    ensures |r| == |pieces|
  {
    seq(|pieces|, i requires 0 <= i < |pieces| => TraceBody(pieces[i], o))
  }

  /** A piece-by-piece image of `pieces` is the image of the first piece
      followed by the image of the rest. */
  lemma MapCons(pieces: seq<string>, f: string -> string, b: seq<string>, t: seq<string>)
    requires pieces != []
    requires |b| == |pieces| && forall i :: 0 <= i < |pieces| ==> b[i] == f(pieces[i])
    requires |t| == |pieces| - 1 && forall i :: 0 <= i < |t| ==> t[i] == f(pieces[1..][i])
    ensures b == [f(pieces[0])] + t
  {
    forall i | 0 <= i < |t|
      ensures b[i + 1] == t[i]
    {
      assert pieces[1..][i] == pieces[i + 1];
    }
  }

  lemma BodiesCons(pieces: seq<string>, o: Operation)
    requires pieces != []
    ensures Bodies(pieces, o) == [TraceBody(pieces[0], o)] + Bodies(pieces[1..], o)
  {
    MapCons(pieces, p => TraceBody(p, o), Bodies(pieces, o), Bodies(pieces[1..], o));
  }

  /** A line without line feeds, a line feed and then text whose pieces are
      `bodies` and an empty tail split into that line, `bodies` and the
      tail. */
  lemma SplitLine(head: string, rest: string, bodies: seq<string>)
    requires '\n' !in head
    requires Split(rest, '\n') == bodies + [""]
    ensures Split(head + "\n" + rest, '\n') == [head] + bodies + [""]
  {
    SplitAround(head, rest, '\n');
    SplitWithout(head, '\n');
  }

  /** Splitting decorated pieces on line feeds recovers exactly one line per
      piece, the last followed by nothing. */
  lemma {:induction false} DecoratedLines(pieces: seq<string>, o: Operation)
    requires forall i :: 0 <= i < |pieces| ==> '\n' !in pieces[i]
    requires '\n' !in o.file && '\n' !in o.orig
    ensures Split(Decorated(pieces, o), '\n') == Bodies(pieces, o) + [""]
    decreases |pieces|
  {
    if pieces != [] {
      var head := TraceBody(pieces[0], o);
      var rest := Decorated(pieces[1..], o);
      DecoratedLines(pieces[1..], o);
      TraceBodyNoNewline(pieces[0], o);
      SplitLine(head, rest, Bodies(pieces[1..], o));
      BodiesCons(pieces, o);
    }
  }

  /** Decorating the pieces of a text gives one line-feed-terminated line
      per piece. */
  lemma DecoratedSplit(rs: string, o: Operation)
    requires '\n' !in o.file && '\n' !in o.orig
    ensures Split(Decorated(Split(rs, '\n'), o), '\n') == Bodies(Split(rs, '\n'), o) + [""]
    ensures Count(Decorated(Split(rs, '\n'), o), '\n') == |Split(rs, '\n')|
  {
    DecoratedLines(Split(rs, '\n'), o);
    SplitCount(Decorated(Split(rs, '\n'), o), '\n');
  }

  /** The output of `generate`, split on line feeds, is one decorated line
      per piece of the template followed by the empty rest after the last
      line feed: the output has exactly as many lines as the template has
      pieces. */
  lemma RenderedLines(o: Operation)
    requires Generable(o)
    requires '\n' !in o.file && '\n' !in o.orig
    requires Template(o) != ""
    ensures Split(Rendered(o), '\n') == Bodies(Split(Template(o), '\n'), o) + [""]
    ensures Count(Rendered(o), '\n') == |Split(Template(o), '\n')|
  {
    DecoratedSplit(Template(o), o);
  }

  lemma BodiesTraceable(pieces: seq<string>, o: Operation)
    ensures forall i :: 0 <= i < |pieces| ==> Traceable(Bodies(pieces, o)[i], o)
  {
    forall i | 0 <= i < |pieces|
      ensures Traceable(Bodies(pieces, o)[i], o)
    {
      TraceContains(pieces[i], o);
    }
  }

  /** Every line `generate` emits names the source line number, the file
      and the normalised source line. */
  lemma RenderedTraceable(o: Operation)
    requires Generable(o)
    requires '\n' !in o.file && '\n' !in o.orig
    requires Template(o) != ""
    ensures forall i :: 0 <= i < |Split(Rendered(o), '\n')| - 1 ==> Traceable(Split(Rendered(o), '\n')[i], o)
  {
    var pieces := Split(Template(o), '\n');
    RenderedLines(o);
    BodiesTraceable(pieces, o);
    LinesTraceable(Split(Rendered(o), '\n'), Bodies(pieces, o), o);
  }

  lemma LinesTraceable(lines: seq<string>, bodies: seq<string>, o: Operation)
    requires lines == bodies + [""]
    requires forall i :: 0 <= i < |bodies| ==> Traceable(bodies[i], o)
    ensures forall i :: 0 <= i < |lines| - 1 ==> Traceable(lines[i], o)
  {
    assert forall i :: 0 <= i < |bodies| ==> lines[i] == bodies[i];
  }

  /** `ExitProcess` produces three output lines and `SetStartFunction` two. */
  lemma ExitProcessLines(o: Operation)
    requires Generable(o) && o.op == ExitProcess
    requires '\n' !in o.file && '\n' !in o.orig && '\n' !in o.args[0]
    ensures Count(Rendered(o), '\n') == 3
  {
    ExitProcessPieces(o);
    RenderedLines(o);
  }

  lemma StartFunctionLines(o: Operation)
    requires Generable(o) && o.op == SetStartFunction
    requires '\n' !in o.file && '\n' !in o.orig && '\n' !in o.args[0]
    ensures Count(Rendered(o), '\n') == 2
  {
    StartFunctionPieces(o);
    RenderedLines(o);
  }
}
