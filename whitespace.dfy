/** The line normaliser of `check` (src/operation.rs:81-83): three regex
    replacements, `^\s+` by nothing, `\s+$` by nothing, then every `\s+` by
    one space. `\s` is the regex crate's Unicode class, the White_Space
    property of Unicode. */
module Whitespace {
  import Text

  /** Unicode White_Space: tab, line feed, vertical tab, form feed, carriage
      return, space, next line, no-break space, Ogham space mark, the
      en quad .. hair space block, line and paragraph separators, narrow
      no-break space, medium mathematical space and ideographic space. */
  predicate IsSpace(ch: char)
  {
    || ('\t' <= ch <= '\r')
    || ch == ' '
    || ch == '\U{85}'
    || ch == '\U{A0}'
    || ch == '\U{1680}'
    || ('\U{2000}' <= ch <= '\U{200A}')
    || ch == '\U{2028}'
    || ch == '\U{2029}'
    || ch == '\U{202F}'
    || ch == '\U{205F}'
    || ch == '\U{3000}'
  }

  /** `^\s+` replaced by nothing: the leading whitespace run is dropped. */
  function TrimStart(s: string): (r: string)
    ensures |r| <= |s| && r == s[|s| - |r|..]
    ensures forall i :: 0 <= i < |s| - |r| ==> IsSpace(s[i])
    ensures r == [] || !IsSpace(r[0])
    decreases |s|
  {
    if s != [] && IsSpace(s[0]) then TrimStart(s[1..]) else s
  }

  /** `\s+$` replaced by nothing: the trailing whitespace run is dropped. */
  function TrimEnd(s: string): (r: string)
    ensures |r| <= |s| && r == s[..|r|]
    ensures forall i :: |r| <= i < |s| ==> IsSpace(s[i])
    ensures r == [] || !IsSpace(r[|r| - 1])
    decreases |s|
  {
    if s != [] && IsSpace(s[|s| - 1]) then TrimEnd(s[..|s| - 1]) else s
  }

  /** `\s+` replaced by " ": the regex finds each maximal whitespace run,
      leftmost first, and each becomes one space. */
  function Collapse(s: string): (r: string)
    ensures r == [] <==> s == []
    ensures r != [] ==> (IsSpace(r[0]) <==> IsSpace(s[0]))
    ensures r != [] ==> (IsSpace(r[|r| - 1]) <==> IsSpace(s[|s| - 1]))
    ensures SingleSpaced(r)
    decreases |s|
  {
    if s == [] then []
    else if IsSpace(s[0]) then [' '] + Collapse(TrimStart(s))
    else [s[0]] + Collapse(s[1..])
  }

  /** Every whitespace character is a plain space and no two are adjacent. */
  predicate SingleSpaced(s: string)
  {
    && (forall i :: 0 <= i < |s| && IsSpace(s[i]) ==> s[i] == ' ')
    && (forall i :: 0 <= i < |s| - 1 ==> !(IsSpace(s[i]) && IsSpace(s[i + 1])))
  }

  /** The shape of a normalised line: no whitespace at either end, and only
      single spaces inside. */
  predicate Normal(s: string)
  {
    && (s == [] || (!IsSpace(s[0]) && !IsSpace(s[|s| - 1])))
    && SingleSpaced(s)
  }

  /** The line that `check` matches against: trimmed at both ends, in the
      source's order, then with its whitespace runs collapsed. */
  function Normalise(s: string): (r: string)
    ensures Normal(r)
  {
    Collapse(TrimEnd(TrimStart(s)))
  }

  /** A normalised line has no line feed, so the regexes' `.` matches every
      character of it. */
  lemma NormalHasNoNewline(s: string)
    requires Normal(s)
    ensures '\n' !in s
  {
    if '\n' in s {
      var i :| 0 <= i < |s| && s[i] == '\n';
      assert IsSpace(s[i]);
    }
  }

  lemma SingleSpacedTail(s: string)
    requires s != [] && SingleSpaced(s)
    ensures SingleSpaced(s[1..])
  {
    forall i | 0 <= i < |s[1..]| - 1
      ensures !(IsSpace(s[1..][i]) && IsSpace(s[1..][i + 1]))
    {
      assert s[1..][i] == s[i + 1] && s[1..][i + 1] == s[i + 2];
    }
  }

  /** A lone whitespace character becomes one space. */
  lemma CollapseLoneSpace(s: string)
    requires s != [] && IsSpace(s[0]) && (|s| == 1 || !IsSpace(s[1]))
    ensures Collapse(s) == [' '] + Collapse(s[1..])
  {
    assert TrimStart(s[1..]) == s[1..];
  }

  lemma SingleSpacedHead(s: string)
    requires s != [] && SingleSpaced(s) && IsSpace(s[0])
    ensures s[0] == ' ' && (|s| == 1 || !IsSpace(s[1]))
  {
  }

  lemma HeadTail(s: string)
    requires s != []
    ensures [s[0]] + s[1..] == s
  {
  }

  lemma CollapseKeepsSpace(s: string)
    requires s != [] && s[0] == ' ' && (|s| == 1 || !IsSpace(s[1]))
    requires Collapse(s[1..]) == s[1..]
    ensures Collapse(s) == s
  {
    HeadTail(s);
    CollapseLoneSpace(s);
  }

  lemma CollapseKeepsOther(s: string)
    requires s != [] && !IsSpace(s[0])
    requires Collapse(s[1..]) == s[1..]
    ensures Collapse(s) == s
  {
    HeadTail(s);
  }

  /** Collapsing leaves a single-spaced string as it is. */
  lemma {:induction false} CollapseSingleSpaced(s: string)
    requires SingleSpaced(s)
    ensures Collapse(s) == s
    decreases |s|
  {
    if s != [] {
      SingleSpacedTail(s);
      CollapseSingleSpaced(s[1..]);
      if IsSpace(s[0]) {
        SingleSpacedHead(s);
        CollapseKeepsSpace(s);
      } else {
        CollapseKeepsOther(s);
      }
    }
  }

  /** A line that is already normal is its own normal form. */
  lemma NormaliseNormal(s: string)
    requires Normal(s)
    ensures Normalise(s) == s
  {
    assert TrimStart(s) == s;
    assert TrimEnd(s) == s;
    CollapseSingleSpaced(s);
  }

  /** Normalising twice is normalising once. */
  lemma NormaliseIdempotent(s: string)
    ensures Normalise(Normalise(s)) == Normalise(s)
  {
    NormaliseNormal(Normalise(s));
  }

  // ---------------------------------------------------------------------
  // Nothing but whitespace is ever removed or changed
  // ---------------------------------------------------------------------

  /** The characters of `s` that are not whitespace, in order. */
  function Visible(s: string): string
    decreases |s|
  {
    if s == [] then [] else (if IsSpace(s[0]) then [] else [s[0]]) + Visible(s[1..])
  }

  lemma {:induction false} VisibleAppend(a: string, b: string)
    ensures Visible(a + b) == Visible(a) + Visible(b)
    decreases |a|
  {
    if a == [] {
      assert a + b == b;
    } else {
      assert (a + b)[0] == a[0] && (a + b)[1..] == a[1..] + b;
      VisibleAppend(a[1..], b);
    }
  }

  lemma {:induction false} VisibleOfSpaces(s: string)
    requires forall i :: 0 <= i < |s| ==> IsSpace(s[i])
    ensures Visible(s) == []
    decreases |s|
  {
    if s != [] {
      VisibleOfSpaces(s[1..]);
    }
  }

  lemma VisibleCollapseSpace(s: string)
    requires s != [] && IsSpace(s[0])
    requires Visible(Collapse(TrimStart(s))) == Visible(TrimStart(s))
    ensures Visible(Collapse(s)) == Visible(s)
  {
    var t := TrimStart(s);
    assert Collapse(s) == [' '] + Collapse(t);
    VisibleAppend([' '], Collapse(t));
    VisibleTrimStart(s);
  }

  lemma VisibleCollapseOther(s: string)
    requires s != [] && !IsSpace(s[0])
    requires Visible(Collapse(s[1..])) == Visible(s[1..])
    ensures Visible(Collapse(s)) == Visible(s)
  {
    assert Collapse(s) == [s[0]] + Collapse(s[1..]);
    VisibleAppend([s[0]], Collapse(s[1..]));
  }

  lemma {:induction false} VisibleCollapse(s: string)
    ensures Visible(Collapse(s)) == Visible(s)
    decreases |s|
  {
    if s != [] {
      if IsSpace(s[0]) {
        VisibleCollapse(TrimStart(s));
        VisibleCollapseSpace(s);
      } else {
        VisibleCollapse(s[1..]);
        VisibleCollapseOther(s);
      }
    }
  }

  lemma VisibleTrimStart(s: string)
    ensures Visible(TrimStart(s)) == Visible(s)
  {
    var a := TrimStart(s);
    var k := |s| - |a|;
    assert s == s[..k] + a;
    VisibleAppend(s[..k], a);
    VisibleOfSpaces(s[..k]);
  }

  lemma VisibleTrimEnd(s: string)
    ensures Visible(TrimEnd(s)) == Visible(s)
  {
    var b := TrimEnd(s);
    assert s == b + s[|b|..];
    VisibleAppend(b, s[|b|..]);
    VisibleOfSpaces(s[|b|..]);
  }

  /** Normalisation keeps every non-whitespace character, in order: it only
      drops and rewrites whitespace. */
  lemma NormaliseVisible(s: string)
    ensures Visible(Normalise(s)) == Visible(s)
  {
    VisibleTrimStart(s);
    VisibleTrimEnd(TrimStart(s));
    VisibleCollapse(TrimEnd(TrimStart(s)));
  }

  // ---------------------------------------------------------------------
  // A normalised line is its words joined by single spaces
  // ---------------------------------------------------------------------

  /** The longest prefix of `s` holding no whitespace. */
  function Word(s: string): (w: string)
    ensures |w| <= |s| && w == s[..|w|]
    ensures forall i :: 0 <= i < |w| ==> !IsSpace(w[i])
    ensures |w| < |s| ==> IsSpace(s[|w|])
    decreases |s|
  {
    if s == [] || IsSpace(s[0]) then [] else [s[0]] + Word(s[1..])
  }

  /** The maximal whitespace-free runs of `s`, left to right. */
  function Words(s: string): (ws: seq<string>)
    ensures forall k :: 0 <= k < |ws| ==> ws[k] != []
    ensures forall k, i :: 0 <= k < |ws| && 0 <= i < |ws[k]| ==> !IsSpace(ws[k][i])
    decreases |s|
  {
    if s == [] then []
    else if IsSpace(s[0]) then Words(s[1..])
    else [Word(s)] + Words(s[|Word(s)|..])
  }

  lemma CollapseOtherStep(s: string)
    requires s != [] && !IsSpace(s[0])
    ensures Collapse(s) == [s[0]] + Collapse(s[1..])
  {
  }

  lemma CollapseSpaceStep(s: string)
    requires s != [] && IsSpace(s[0])
    ensures Collapse(s) == [' '] + Collapse(TrimStart(s))
  {
  }

  /** A whitespace-free prefix is copied unchanged. */
  lemma {:induction false} CollapseWord(w: string, rest: string)
    requires forall i :: 0 <= i < |w| ==> !IsSpace(w[i])
    ensures Collapse(w + rest) == w + Collapse(rest)
    decreases |w|
  {
    if w == [] {
      assert w + rest == rest;
    } else {
      var s := w + rest;
      assert s[0] == w[0] && s[1..] == w[1..] + rest;
      CollapseOtherStep(s);
      CollapseWord(w[1..], rest);
      AppendHead(w, Collapse(rest));
    }
  }

  lemma AppendHead(w: string, t: string)
    requires w != []
    ensures [w[0]] + (w[1..] + t) == w + t
  {
    assert w == [w[0]] + w[1..];
  }

  /** Leading whitespace does not change the words. */
  lemma {:induction false} WordsTrimStart(s: string)
    ensures Words(TrimStart(s)) == Words(s)
    decreases |s|
  {
    if s != [] && IsSpace(s[0]) {
      WordsTrimStart(s[1..]);
    }
  }

  /** A whitespace tail does not change the first word. */
  lemma {:induction false} WordAppendSpaces(a: string, sp: string)
    requires forall i :: 0 <= i < |sp| ==> IsSpace(sp[i])
    ensures Word(a + sp) == Word(a)
    decreases |a|
  {
    if a == [] {
      assert a + sp == sp;
    } else {
      var s := a + sp;
      assert s[0] == a[0] && s[1..] == a[1..] + sp;
      if !IsSpace(a[0]) {
        WordAppendSpaces(a[1..], sp);
      }
    }
  }

  lemma SpaceHeadAppend(a: string, sp: string)
    requires a != [] && IsSpace(a[0])
    requires Words(a[1..] + sp) == Words(a[1..])
    ensures Words(a + sp) == Words(a)
  {
    assert (a + sp)[0] == a[0] && (a + sp)[1..] == a[1..] + sp;
  }

  lemma SliceAppend(a: string, b: string, k: nat)
    requires k <= |a|
    ensures (a + b)[k..] == a[k..] + b
  {
  }

  /** The words of `t`, given its first word `w` and what follows it. */
  lemma WordsOfHead(t: string, w: string, r: string)
    requires t != [] && !IsSpace(t[0]) && Word(t) == w && t[|w|..] == r
    ensures Words(t) == [w] + Words(r)
  {
  }

  lemma WordHeadAppend(a: string, sp: string)
    requires a != [] && !IsSpace(a[0])
    requires forall i :: 0 <= i < |sp| ==> IsSpace(sp[i])
    requires Words(a[|Word(a)|..] + sp) == Words(a[|Word(a)|..])
    ensures Words(a + sp) == Words(a)
  {
    var w := Word(a);
    var r := a[|w|..];
    WordAppendSpaces(a, sp);
    SliceAppend(a, sp, |w|);
    assert (a + sp)[0] == a[0];
    WordsOfHead(a + sp, w, r + sp);
    WordsOfHead(a, w, r);
  }

  /** Trailing whitespace does not change the words. */
  lemma {:induction false} WordsAppendSpaces(a: string, sp: string)
    requires forall i :: 0 <= i < |sp| ==> IsSpace(sp[i])
    ensures Words(a + sp) == Words(a)
    decreases |a|
  {
    if a == [] {
      assert a + sp == sp + [];
      WordsSkipSpaces(sp, []);
    } else if IsSpace(a[0]) {
      WordsAppendSpaces(a[1..], sp);
      SpaceHeadAppend(a, sp);
    } else {
      WordHead(a);
      WordsAppendSpaces(a[|Word(a)|..], sp);
      WordHeadAppend(a, sp);
    }
  }

  lemma WordsTrimEnd(s: string)
    ensures Words(TrimEnd(s)) == Words(s)
  {
    var b := TrimEnd(s);
    assert s == b + s[|b|..];
    WordsAppendSpaces(b, s[|b|..]);
  }

  lemma JoinCons(w: string, ws: seq<string>)
    requires ws != []
    ensures Text.Join([w] + ws, " ") == w + " " + Text.Join(ws, " ")
  {
    assert ([w] + ws)[1..] == ws;
  }

  /** One space when `t` ends in whitespace, nothing otherwise. */
  function Trail(t: string): string
  {
    if t != [] && IsSpace(t[|t| - 1]) then " " else ""
  }

  /** `t` is its first word followed by the rest of the line. */
  lemma WordHead(t: string)
    requires t != [] && !IsSpace(t[0])
    ensures Word(t) != [] && t == Word(t) + t[|Word(t)|..]
  {
    assert Word(t) == [t[0]] + Word(t[1..]);
  }

  lemma WordsHead(t: string)
    requires t != [] && !IsSpace(t[0])
    ensures Words(t) == [Word(t)] + Words(t[|Word(t)|..])
  {
  }

  /** What follows the first word and the whitespace after it. */
  function Next(t: string): string
  {
    TrimStart(t[|Word(t)|..])
  }

  /** The space the collapse puts after the first word, if anything
      follows it. */
  function Gap(t: string): string
  {
    if |Word(t)| < |t| then " " else ""
  }

  lemma NextWords(t: string)
    requires t != [] && !IsSpace(t[0])
    ensures |Next(t)| < |t|
    ensures Words(t) == [Word(t)] + Words(Next(t))
  {
    WordHead(t);
    WordsHead(t);
    WordsTrimStart(t[|Word(t)|..]);
  }

  lemma NextCollapse(t: string)
    requires t != [] && !IsSpace(t[0])
    ensures Collapse(t) == Word(t) + (Gap(t) + Collapse(Next(t)))
  {
    WordHead(t);
    var w := Word(t);
    var rest := t[|w|..];
    CollapseWord(w, rest);
    if rest == [] {
      assert Next(t) == [];
    } else {
      CollapseSpaceStep(rest);
    }
  }

  lemma NextTrail(t: string)
    requires t != [] && !IsSpace(t[0])
    ensures Next(t) == [] ==> Trail(t) == Gap(t)
    ensures Next(t) != [] ==> Gap(t) == " " && !IsSpace(Next(t)[0]) && Trail(Next(t)) == Trail(t)
  {
    WordHead(t);
    var w := Word(t);
    var rest := t[|w|..];
    var n := Next(t);
    if rest == [] {
      assert t[|t| - 1] == w[|w| - 1];
    } else if n == [] {
      assert t[|t| - 1] == rest[|rest| - 1];
    } else {
      assert t[|t| - 1] == n[|n| - 1];
    }
  }

  lemma LastWordJoin(w: string, g: string, tr: string)
    requires g == tr
    ensures Text.Join([w] + [], " ") + tr == w + (g + [])
  {
  }

  lemma MoreWordsJoin(w: string, ws: seq<string>, c: string, tr: string)
    requires ws != [] && c == Text.Join(ws, " ") + tr
    ensures Text.Join([w] + ws, " ") + tr == w + (" " + c)
  {
    JoinCons(w, ws);
  }

  /** On a line with no leading whitespace, collapsing gives the words
      joined by single spaces, plus one space when the line ends in
      whitespace. */
  lemma {:induction false} CollapseWords(t: string)
    requires t == [] || !IsSpace(t[0])
    ensures Collapse(t) == Text.Join(Words(t), " ") + Trail(t)
    decreases |t|
  {
    if t != [] {
      NextWords(t);
      NextCollapse(t);
      NextTrail(t);
      var n := Next(t);
      if n == [] {
        assert Collapse(n) == [] && Words(n) == [];
        LastWordJoin(Word(t), Gap(t), Trail(t));
      } else {
        CollapseWords(n);
        WordsHead(n);
        MoreWordsJoin(Word(t), Words(n), Collapse(n), Trail(t));
      }
    }
  }

  /** The normal form of a line is its words, in order, joined by single
      spaces: every whitespace run between two words becomes one space and
      the runs at either end disappear. */
  lemma NormaliseWords(s: string)
    ensures Normalise(s) == Text.Join(Words(s), " ")
  {
    var a := TrimStart(s);
    var t := TrimEnd(a);
    WordsTrimStart(s);
    WordsTrimEnd(a);
    assert t == [] || t[0] == a[0];
    CollapseWords(t);
    assert Trail(t) == "";
  }

  /** A whitespace-free run followed by whitespace or the end is the first
      word. */
  lemma {:induction false} WordWhole(a: string, rest: string)
    requires forall i :: 0 <= i < |a| ==> !IsSpace(a[i])
    requires rest == [] || IsSpace(rest[0])
    ensures Word(a + rest) == a
    decreases |a|
  {
    if a == [] {
      assert a + rest == rest;
    } else {
      var s := a + rest;
      assert s[0] == a[0] && s[1..] == a[1..] + rest;
      WordWhole(a[1..], rest);
      assert [a[0]] + a[1..] == a;
    }
  }

  /** A leading whitespace run adds no word. */
  lemma {:induction false} WordsSkipSpaces(w: string, b: string)
    requires forall i :: 0 <= i < |w| ==> IsSpace(w[i])
    ensures Words(w + b) == Words(b)
    decreases |w|
  {
    if w == [] {
      assert w + b == b;
    } else {
      var s := w + b;
      assert s[0] == w[0] && s[1..] == w[1..] + b;
      WordsSkipSpaces(w[1..], b);
    }
  }

  /** Two words separated by any non-empty whitespace run normalise to the
      two words with exactly one space between them. */
  lemma NormaliseBetweenWords(a: string, w: string, b: string)
    requires a != [] && forall i :: 0 <= i < |a| ==> !IsSpace(a[i])
    requires b != [] && forall i :: 0 <= i < |b| ==> !IsSpace(b[i])
    requires w != [] && forall i :: 0 <= i < |w| ==> IsSpace(w[i])
    ensures Normalise(a + w + b) == a + " " + b
  {
    var t := a + (w + b);
    assert a + w + b == t;
    WordWhole(a, w + b);
    WordHead(t);
    WordsHead(t);
    assert t[|a|..] == w + b;
    WordsSkipSpaces(w, b);
    WordWhole(b, []);
    assert b + [] == b;
    WordHead(b);
    WordsHead(b);
    assert b[|b|..] == [];
    assert Words(t) == [a] + [b];
    JoinCons(a, [b]);
    NormaliseWords(t);
  }

  // ---------------------------------------------------------------------
  // The variable-definition examples are already normal
  // ---------------------------------------------------------------------

  lemma InitLineNormal()
    ensures Normalise("variable counter: d set to 0") == "variable counter: d set to 0"
  {
    var s := "variable counter: d set to 0";
    assert forall i :: 0 <= i < |s| ==> s[i] == ' ' || !IsSpace(s[i]);
    NormaliseNormal(s);
  }

  lemma UninitLineNormal()
    ensures Normalise("variable counter: d") == "variable counter: d"
  {
    var s := "variable counter: d";
    assert forall i :: 0 <= i < |s| ==> s[i] == ' ' || !IsSpace(s[i]);
    NormaliseNormal(s);
  }
}
