/** The 21 anchored regular expressions of `parse` (src/operation.rs:51-71),
    each hand-coded as a matcher over a normalised line. They come in five
    shapes; the declarative predicates below say which strings each regex
    accepts and how it splits them, and the lemmas show that the matcher
    agrees, including the leftmost-first choice of the regex crate, under
    which a greedy `(.+)` takes the longest prefix that still lets the rest
    match. */
module Rules {
  import opened Wrappers
  import opened Operations

  datatype Pattern =
    | Exact(text: string)               // ^text$
    | Prefix(head: string)              // ^head(.+)$
    | Infix(head: string, sep: string)  // ^head(.+)sep(.+)$
    | TypedInit                         // ^variable (.+): ([bwdq]) set to (.+)$
    | TypedUninit                       // ^variable (.+): ([bwdq])$

  /** The letters the class `[bwdq]` admits. */
  const TypeLetters: string := "bwdq"

  /** Number of capture groups of each shape. */
  function GroupCount(p: Pattern): nat
  {
    match p
    case Exact(_) => 0
    case Prefix(_) => 1
    case Infix(_, _) => 2
    case TypedInit => 3
    case TypedUninit => 2
  }

  datatype Rule = Rule(kind: OperationType, pattern: Pattern)

  /** How many arguments an operation of each kind carries when its rule
      matched: the group count of that kind's regex. */
  function CaptureArity(k: OperationType): nat
  {
    match k
    case FunctionEnd | TextSection | DataSection | UninitializedDataSection | None => 0
    case SetWriter | FunctionStart | FunctionEnter | SetStartFunction
       | ExitProcess | PushToStack | PopFromStack | RunInterrupt => 1
    case Move | Add | Subtract | Multiply | Divide
       | ReadFromMemory | WriteToMemory | DefineUninitVariable => 2
    case DefineVariable => 3
  }

  /** The number of rules `parse` tries on every line. */
  const RuleCount: nat := 21

  /** The rules in the order `parse` tries them: rule `k` is the regex of
      src/operation.rs line 51 + k. */
  function RuleAt(k: nat): Rule
    requires k < RuleCount
  {
    match k
    case 0 => Rule(SetWriter, Prefix("#writer "))
    case 1 => Rule(Move, Infix("", " = "))
    case 2 => Rule(FunctionStart, Prefix("func begin "))
    case 3 => Rule(FunctionEnd, Exact("func end"))
    case 4 => Rule(FunctionEnter, Prefix("call "))
    case 5 => Rule(SetStartFunction, Prefix("#start_func "))
    case 6 => Rule(Add, Infix("", " += "))
    case 7 => Rule(Subtract, Infix("", " -= "))
    case 8 => Rule(Multiply, Infix("", " *= "))
    case 9 => Rule(Divide, Infix("", " /= "))
    case 10 => Rule(TextSection, Exact("#text"))
    case 11 => Rule(DataSection, Exact("#data"))
    case 12 => Rule(UninitializedDataSection, Exact("#udata"))
    case 13 => Rule(ExitProcess, Prefix("exit proc with "))
    case 14 => Rule(PushToStack, Prefix("push value "))
    case 15 => Rule(PopFromStack, Prefix("pop value "))
    case 16 => Rule(ReadFromMemory, Infix("read ", " into "))
    case 17 => Rule(WriteToMemory, Infix("write ", " into "))
    case 18 => Rule(DefineVariable, TypedInit)
    case 19 => Rule(DefineUninitVariable, TypedUninit)
    case 20 => Rule(RunInterrupt, Prefix("run interrupt "))
  }

  // ---------------------------------------------------------------------
  // What each regex accepts, and how it splits the line
  // ---------------------------------------------------------------------

  ghost predicate PrefixSplit(s: string, head: string, rest: string)
  {
    |rest| > 0 && s == head + rest
  }

  ghost predicate InfixSplit(s: string, head: string, sep: string, a: string, b: string)
  {
    |a| > 0 && |b| > 0 && s == head + a + sep + b
  }

  ghost predicate TypedInitSplit(s: string, name: string, t: char, value: string)
  {
    |name| > 0 && |value| > 0 && t in TypeLetters && s == "variable " + name + ": " + [t] + " set to " + value
  }

  ghost predicate TypedUninitSplit(s: string, name: string, t: char)
  {
    |name| > 0 && t in TypeLetters && s == "variable " + name + ": " + [t]
  }

  /** `re.is_match(s)`. `.` matches anything but a line feed, and no literal
      of the table holds one, so no line with a line feed matches. */
  ghost predicate Matches(p: Pattern, s: string)
  {
    && '\n' !in s
    && match p
       case Exact(x) => s == x
       case Prefix(h) => exists rest :: PrefixSplit(s, h, rest)
       case Infix(h, sep) => exists a, b :: InfixSplit(s, h, sep, a, b)
       case TypedInit => exists name, t, value :: TypedInitSplit(s, name, t, value)
       case TypedUninit => exists name, t :: TypedUninitSplit(s, name, t)
  }

  // ---------------------------------------------------------------------
  // The matcher
  // ---------------------------------------------------------------------

  /** Length of the text between the two groups of a split shape. */
  function SepLen(p: Pattern): nat
    requires p.Infix? || p.TypedInit?
  {
    if p.Infix? then |p.sep| else 11
  }

  /** The text between the groups starts at index `k` of `s`: the literal
      separator, or `: X set to ` with `X` one of the type letters. */
  predicate SepAt(p: Pattern, s: string, k: nat)
    requires p.Infix? || p.TypedInit?
    requires k + SepLen(p) <= |s|
  {
    if p.Infix? then s[k..k + |p.sep|] == p.sep
    else s[k..k + 2] == ": " && s[k + 2] in TypeLetters && s[k + 3..k + 11] == " set to "
  }

  /** The largest `k` in `lo..hi` with a separator at `k`, searching down
      from `hi`: what backtracking a greedy left group amounts to. */
  function LastSep(p: Pattern, s: string, lo: nat, hi: int): (r: Option<nat>)
    requires p.Infix? || p.TypedInit?
    requires hi + SepLen(p) <= |s|
    ensures r.Some? ==> lo <= r.value <= hi && SepAt(p, s, r.value)
    ensures r.Some? ==> forall k: nat :: r.value < k <= hi ==> !SepAt(p, s, k)
    ensures r.None? ==> forall k: nat :: lo <= k <= hi ==> !SepAt(p, s, k)
    decreases hi - lo
  {
    if hi < lo then Option.None
    else if SepAt(p, s, hi) then Some(hi)
    else LastSep(p, s, lo, hi - 1)
  }

  /** The length of the literal text in front of the first group. */
  function HeadLen(p: Pattern): nat
    requires p.Infix? || p.TypedInit?
  {
    if p.Infix? then |p.head| else 9
  }

  predicate HasHead(p: Pattern, s: string)
    requires p.Infix? || p.TypedInit?
  {
    HeadLen(p) <= |s| && s[..HeadLen(p)] == (if p.Infix? then p.head else "variable ")
  }

  /** The capture groups, in group order, of a split shape. */
  function SplitCaptures(p: Pattern, s: string): Option<seq<string>>
    requires p.Infix? || p.TypedInit?
  {
    var h := HeadLen(p);
    if |s| < h + SepLen(p) + 2 || !HasHead(p, s) then Option.None
    else match LastSep(p, s, h + 1, |s| - SepLen(p) - 1)
      case None => Option.None
      case Some(k) =>
        if p.Infix? then Some([s[h..k], s[k + SepLen(p)..]])
        else Some([s[h..k], [s[k + 2]], s[k + SepLen(p)..]])
  }

  /** `re.captures(s)` without group 0 (the whole line): the groups in
      left-to-right order, or nothing when the regex does not match. */
  function Captures(p: Pattern, s: string): Option<seq<string>>
  {
    if '\n' in s then Option.None
    else match p
      case Exact(x) => if s == x then Some([]) else Option.None
      case Prefix(h) => if |s| > |h| && s[..|h|] == h then Some([s[|h|..]]) else Option.None
      case Infix(_, _) => SplitCaptures(p, s)
      case TypedInit => SplitCaptures(p, s)
      case TypedUninit =>
        if |s| >= 13 && s[..9] == "variable " && s[|s| - 3..|s| - 1] == ": " && s[|s| - 1] in TypeLetters
        then Some([s[9..|s| - 3], [s[|s| - 1]]])
        else Option.None
  }

  // ---------------------------------------------------------------------
  // The matcher against the regexes
  // ---------------------------------------------------------------------

  lemma ExactCaptures(x: string, s: string)
    ensures Captures(Exact(x), s).Some? <==> Matches(Exact(x), s)
    ensures Captures(Exact(x), s).Some? ==> Captures(Exact(x), s).value == []
  {
  }

  /** A prefix rule captures everything after its literal, which must not be
      empty. */
  lemma PrefixCaptures(h: string, s: string)
    ensures Captures(Prefix(h), s).Some? <==> Matches(Prefix(h), s)
    ensures Captures(Prefix(h), s).Some? ==>
      var caps := Captures(Prefix(h), s).value;
      |caps| == 1 && PrefixSplit(s, h, caps[0])
  {
    if Matches(Prefix(h), s) {
      var rest :| PrefixSplit(s, h, rest);
      assert s[..|h|] == h;
    }
    if Captures(Prefix(h), s).Some? {
      assert s == h + s[|h|..];
      assert PrefixSplit(s, h, s[|h|..]);
    }
  }

  /** Where a split of an infix line puts the separator. */
  lemma InfixSplitAt(s: string, h: string, sep: string, a: string, b: string)
    requires InfixSplit(s, h, sep, a, b)
    ensures var k := |h| + |a|;
      && HasHead(Infix(h, sep), s) && |h| + 1 <= k && k + |sep| + 1 <= |s|
      && SepAt(Infix(h, sep), s, k) && s[|h|..k] == a && s[k + |sep|..] == b
  {
    var k := |h| + |a|;
    assert s[..|h|] == h;
    assert s[|h|..k] == a;
    assert s[k..k + |sep|] == sep;
    assert s[k + |sep|..] == b;
  }

  /** An infix line that the regex accepts is one the matcher accepts. */
  lemma InfixMatched(h: string, sep: string, s: string)
    requires Matches(Infix(h, sep), s)
    ensures Captures(Infix(h, sep), s).Some?
  {
    var a, b :| InfixSplit(s, h, sep, a, b);
    InfixSplitAt(s, h, sep, a, b);
  }

  /** The pieces around a separator found at `k` put the line back together. */
  lemma InfixReassemble(s: string, h: string, sep: string, k: nat)
    requires HasHead(Infix(h, sep), s) && |h| <= k && k + |sep| <= |s|
    requires SepAt(Infix(h, sep), s, k)
    ensures s == h + s[|h|..k] + sep + s[k + |sep|..]
  {
    assert s == s[..|h|] + s[|h|..k] + s[k..k + |sep|] + s[k + |sep|..];
  }

  /** What the matcher captures on an infix line is a split of it. */
  lemma InfixCaptured(h: string, sep: string, s: string)
    requires Captures(Infix(h, sep), s).Some?
    ensures var caps := Captures(Infix(h, sep), s).value;
      && |caps| == 2 && InfixSplit(s, h, sep, caps[0], caps[1])
      && forall a, b :: InfixSplit(s, h, sep, a, b) ==> |a| <= |caps[0]|
  {
    var p := Infix(h, sep);
    var k := LastSep(p, s, |h| + 1, |s| - |sep| - 1).value;
    var caps := Captures(p, s).value;
    assert caps == [s[|h|..k], s[k + |sep|..]];
    InfixReassemble(s, h, sep, k);
    forall a, b | InfixSplit(s, h, sep, a, b)
      ensures |a| <= |caps[0]|
    {
      InfixSplitAt(s, h, sep, a, b);
    }
  }

  /** An infix rule matches exactly the lines that split around its
      separator with both sides non-empty, and captures the split whose
      left side is longest. */
  lemma InfixCaptures(h: string, sep: string, s: string)
    ensures Captures(Infix(h, sep), s).Some? <==> Matches(Infix(h, sep), s)
    ensures Captures(Infix(h, sep), s).Some? ==>
      var caps := Captures(Infix(h, sep), s).value;
      && |caps| == 2 && InfixSplit(s, h, sep, caps[0], caps[1])
      && forall a, b :: InfixSplit(s, h, sep, a, b) ==> |a| <= |caps[0]|
  {
    if Matches(Infix(h, sep), s) {
      InfixMatched(h, sep, s);
    }
    if Captures(Infix(h, sep), s).Some? {
      InfixCaptured(h, sep, s);
    }
  }

  /** Where a split of an initialised variable puts the separator. */
  lemma TypedInitSplitAt(s: string, name: string, t: char, value: string)
    requires TypedInitSplit(s, name, t, value)
    ensures var k := 9 + |name|;
      && HasHead(TypedInit, s) && 10 <= k && k + 12 <= |s|
      && SepAt(TypedInit, s, k) && s[9..k] == name && s[k + 2] == t && s[k + 11..] == value
  {
    var k := 9 + |name|;
    assert s[..9] == "variable ";
    assert s[9..k] == name;
    assert s[k..k + 2] == ": ";
    assert s[k + 2] == t;
    assert s[k + 3..k + 11] == " set to ";
    assert s[k + 11..] == value;
  }

  /** An initialised-variable line that the regex accepts is one the
      matcher accepts. */
  lemma TypedInitMatched(s: string)
    requires Matches(TypedInit, s)
    ensures Captures(TypedInit, s).Some?
  {
    var name, t, value :| TypedInitSplit(s, name, t, value);
    TypedInitSplitAt(s, name, t, value);
  }

  /** The pieces around a separator found at `k` put the line back together. */
  lemma TypedInitReassemble(s: string, k: nat)
    requires HasHead(TypedInit, s) && 9 <= k && k + 11 <= |s|
    requires SepAt(TypedInit, s, k)
    ensures s == "variable " + s[9..k] + ": " + [s[k + 2]] + " set to " + s[k + 11..]
  {
    assert s == s[..9] + s[9..k] + s[k..k + 2] + [s[k + 2]] + s[k + 3..k + 11] + s[k + 11..];
  }

  /** What the matcher captures on an initialised-variable line is a split
      of it. */
  lemma TypedInitCaptured(s: string)
    requires Captures(TypedInit, s).Some?
    ensures var caps := Captures(TypedInit, s).value;
      && |caps| == 3 && |caps[1]| == 1 && TypedInitSplit(s, caps[0], caps[1][0], caps[2])
      && forall name, t, value :: TypedInitSplit(s, name, t, value) ==> |name| <= |caps[0]|
  {
    var k := LastSep(TypedInit, s, 10, |s| - 12).value;
    var caps := Captures(TypedInit, s).value;
    assert caps == [s[9..k], [s[k + 2]], s[k + 11..]];
    TypedInitReassemble(s, k);
    forall name, t, value | TypedInitSplit(s, name, t, value)
      ensures |name| <= |caps[0]|
    {
      TypedInitSplitAt(s, name, t, value);
    }
  }

  /** `variable (.+): ([bwdq]) set to (.+)$` matches exactly the lines of
      that form, and captures name, type letter and value, the name being
      the longest that still leaves a separator after it. */
  lemma TypedInitCaptures(s: string)
    ensures Captures(TypedInit, s).Some? <==> Matches(TypedInit, s)
    ensures Captures(TypedInit, s).Some? ==>
      var caps := Captures(TypedInit, s).value;
      && |caps| == 3 && |caps[1]| == 1 && TypedInitSplit(s, caps[0], caps[1][0], caps[2])
      && forall name, t, value :: TypedInitSplit(s, name, t, value) ==> |name| <= |caps[0]|
  {
    if Matches(TypedInit, s) {
      TypedInitMatched(s);
    }
    if Captures(TypedInit, s).Some? {
      TypedInitCaptured(s);
    }
  }

  /** `variable (.+): ([bwdq])$` has one split only: the type letter is the
      last character and the name the text before `: `. */
  lemma TypedUninitCaptures(s: string)
    ensures Captures(TypedUninit, s).Some? <==> Matches(TypedUninit, s)
    ensures Captures(TypedUninit, s).Some? ==>
      var caps := Captures(TypedUninit, s).value;
      && |caps| == 2 && |caps[1]| == 1 && TypedUninitSplit(s, caps[0], caps[1][0])
  {
    var r := Captures(TypedUninit, s);
    if Matches(TypedUninit, s) {
      var name, t :| TypedUninitSplit(s, name, t);
      assert s[..9] == "variable " && s[9..|s| - 3] == name;
      assert s[|s| - 3..|s| - 1] == ": " && s[|s| - 1] == t;
      assert r.Some?;
    }
    if r.Some? {
      var caps := r.value;
      assert s == s[..9] + s[9..|s| - 3] + s[|s| - 3..|s| - 1] + [s[|s| - 1]];
      assert TypedUninitSplit(s, caps[0], caps[1][0]);
    }
  }

  /** For every shape, the matcher finds groups exactly when the regex
      matches, and as many groups as the regex has. */
  lemma CapturesAgree(p: Pattern, s: string)
    ensures Captures(p, s).Some? <==> Matches(p, s)
    ensures Captures(p, s).Some? ==> |Captures(p, s).value| == GroupCount(p)
  {
    match p
    case Exact(x) => ExactCaptures(x, s);
    case Prefix(h) => PrefixCaptures(h, s);
    case Infix(h, sep) => InfixCaptures(h, sep, s);
    case TypedInit => TypedInitCaptures(s);
    case TypedUninit => TypedUninitCaptures(s);
  }

  /** No rule produces the kind `None`, and each rule's regex has as many
      groups as its kind's arity. */
  lemma RuleArity(k: nat)
    requires k < RuleCount
    ensures RuleAt(k).kind != OperationType.None
    ensures GroupCount(RuleAt(k).pattern) == CaptureArity(RuleAt(k).kind)
  {
  }

  // ---------------------------------------------------------------------
  // The variable-definition examples
  // ---------------------------------------------------------------------

  lemma InitLineShape(line: string)
    requires line == "variable counter: d set to 0"
    ensures '\n' !in line && HasHead(TypedInit, line) && SepAt(TypedInit, line, 16)
  {
    assert '\n' !in line;
    assert line[..9] == "variable ";
    assert line[16..18] == ": " && line[18] in TypeLetters && line[19..27] == " set to ";
  }

  lemma InitLinePieces(line: string)
    requires line == "variable counter: d set to 0"
    ensures line[9..16] == "counter" && [line[18]] == "d" && line[27..] == "0"
  {
  }

  lemma InitLineCaptures()
    ensures Captures(TypedInit, "variable counter: d set to 0") == Some(["counter", "d", "0"])
  {
    var line := "variable counter: d set to 0";
    InitLineShape(line);
    InitLinePieces(line);
    assert LastSep(TypedInit, line, 10, 16) == Some(16);
  }

  lemma InitLineNotUninit()
    ensures Captures(TypedUninit, "variable counter: d set to 0") == Option.None
  {
  }

  lemma UninitLineCaptures()
    ensures Captures(TypedUninit, "variable counter: d") == Some(["counter", "d"])
    ensures Captures(TypedInit, "variable counter: d") == Option.None
  {
    var line := "variable counter: d";
    assert '\n' !in line;
    assert line[9..16] == "counter";
  }
}
