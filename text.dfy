/** The pieces of Rust's standard library that the transpiler leans on:
    `str::split` on one character, `join`, `str::contains`, the decimal
    rendering of a `usize` and the `{:<w}` / `{:>w}` padding of `format!`.
    Rust strings are sequences of Unicode scalar values, and so are Dafny's
    `string`s; `format!` widths count scalar values too. */
module Text {

  /** Occurrences of `c` in `s`. */
  function Count(s: string, c: char): nat
  {
    multiset(s)[c]
  }

  /** `t` occurs in `s` as a contiguous block (`str::contains`). */
  ghost predicate Contains(s: string, t: string)
  {
    exists i :: OccursAt(s, t, i)
  }

  /** `t` occurs in `s` starting at index `i`. */
  predicate OccursAt(s: string, t: string, i: int)
  {
    0 <= i && i + |t| <= |s| && s[i..i + |t|] == t
  }

  lemma ContainsMiddle(a: string, t: string, b: string)
    ensures Contains(a + t + b, t)
  {
    var s := a + t + b;
    assert s[|a|..|a| + |t|] == t;
    assert OccursAt(s, t, |a|);
  }

  lemma ContainsSelf(t: string)
    ensures Contains(t, t)
  {
    assert t[0..|t|] == t;
    assert OccursAt(t, t, 0);
  }

  /** Text found in `a` is still found after appending `b`. */
  lemma ContainsLeft(a: string, b: string, t: string)
    requires Contains(a, t)
    ensures Contains(a + b, t)
  {
    var i :| OccursAt(a, t, i);
    assert (a + b)[i..i + |t|] == a[i..i + |t|];
    assert OccursAt(a + b, t, i);
  }

  /** Text found in `b` is still found after prepending `a`. */
  lemma ContainsRight(a: string, b: string, t: string)
    requires Contains(b, t)
    ensures Contains(a + b, t)
  {
    var i :| OccursAt(b, t, i);
    assert (a + b)[|a| + i..|a| + i + |t|] == b[i..i + |t|];
    assert OccursAt(a + b, t, |a| + i);
  }

  /** Moving one piece from the unconsumed rest to the accumulated front
      keeps the whole: the step of a loop that builds a sequence by
      appending. */
  lemma AppendStep<T>(r: seq<T>, t: seq<T>, d: seq<T>, whole: seq<T>)
    requires r + (t + d) == whole
    ensures (r + t) + d == whole
  {
    assert r + (t + d) == (r + t) + d;
  }

  // ---------------------------------------------------------------------
  // Splitting on one character and joining back
  // ---------------------------------------------------------------------

  /** `s.split(c)`: the pieces between the occurrences of `c`, first to last.
      There is always one more piece than there are separators, so the empty
      string splits into one empty piece and a trailing separator leaves an
      empty last piece. */
  function Split(s: string, c: char): (r: seq<string>)
    ensures |r| >= 1
    ensures forall i :: 0 <= i < |r| ==> c !in r[i]
    decreases |s|
  {
    if s == [] then [""]
    else
      var rest := Split(s[1..], c);
      assert s == [s[0]] + s[1..];
      if s[0] == c then [""] + rest
      else [[s[0]] + rest[0]] + rest[1..]
  }

  /** `pieces.join(sep)`. */
  function Join(pieces: seq<string>, sep: string): string
    decreases |pieces|
  {
    if |pieces| == 0 then ""
    else if |pieces| == 1 then pieces[0]
    else pieces[0] + sep + Join(pieces[1..], sep)
  }

  /** Every piece can be found in the joined text. */
  lemma {:induction false} JoinContains(pieces: seq<string>, sep: string, i: nat)
    requires i < |pieces|
    ensures Contains(Join(pieces, sep), pieces[i])
    decreases |pieces|
  {
    if |pieces| == 1 {
      ContainsSelf(pieces[0]);
    } else {
      var rest := Join(pieces[1..], sep);
      assert Join(pieces, sep) == pieces[0] + (sep + rest);
      if i == 0 {
        ContainsSelf(pieces[0]);
        ContainsLeft(pieces[0], sep + rest, pieces[0]);
      } else {
        JoinContains(pieces[1..], sep, i - 1);
        assert pieces[1..][i - 1] == pieces[i];
        ContainsRight(pieces[0] + sep, rest, pieces[i]);
        assert pieces[0] + sep + rest == pieces[0] + (sep + rest);
      }
    }
  }

  /** Joining the pieces of a split with the same separator gives the text back. */
  lemma {:induction false} JoinSplit(s: string, c: char)
    ensures Join(Split(s, c), [c]) == s
    decreases |s|
  {
    if s != [] {
      JoinSplit(s[1..], c);
      var rest := Split(s[1..], c);
      assert s == [s[0]] + s[1..];
      if s[0] == c {
        assert Split(s, c) == [""] + rest;
        assert ([""] + rest)[1..] == rest;
      } else if |rest| == 1 {
        assert Split(s, c) == [[s[0]] + rest[0]];
      } else {
        var r := [[s[0]] + rest[0]] + rest[1..];
        assert Split(s, c) == r;
        assert r[1..] == rest[1..];
        assert Join(r, [c]) == r[0] + [c] + Join(rest[1..], [c]);
        assert Join(rest, [c]) == rest[0] + [c] + Join(rest[1..], [c]);
      }
    }
  }

  /** There is one more piece than there are separators. */
  lemma {:induction false} SplitCount(s: string, c: char)
    ensures |Split(s, c)| == Count(s, c) + 1
    decreases |s|
  {
    if s != [] {
      SplitCount(s[1..], c);
      assert s == [s[0]] + s[1..];
      assert multiset(s) == multiset([s[0]]) + multiset(s[1..]);
    }
  }

  /** A leading separator ends an empty first piece. */
  lemma SplitSep(t: string, c: char)
    ensures Split([c] + t, c) == [""] + Split(t, c)
  {
    assert ([c] + t)[1..] == t;
  }

  /** Any other leading character joins the front of the first piece. */
  lemma SplitOther(x: char, t: string, c: char)
    requires x != c
    ensures Split([x] + t, c) == [[x] + Split(t, c)[0]] + Split(t, c)[1..]
  {
    assert ([x] + t)[1..] == t;
  }

  /** Prefixing a character to the first piece commutes with appending
      further pieces. */
  lemma OtherAppend(x: char, ra: seq<string>, rb: seq<string>)
    requires |ra| >= 1
    ensures [[x] + (ra + rb)[0]] + (ra + rb)[1..] == ([[x] + ra[0]] + ra[1..]) + rb
  {
    assert (ra + rb)[0] == ra[0];
    assert (ra + rb)[1..] == ra[1..] + rb;
  }

  /** A separator in the middle splits into the pieces of either side. */
  lemma {:induction false} SplitAround(a: string, b: string, c: char)
    ensures Split(a + [c] + b, c) == Split(a, c) + Split(b, c)
    decreases |a|
  {
    if a == [] {
      assert a + [c] + b == [c] + b;
      SplitSep(b, c);
    } else {
      var x, a' := a[0], a[1..];
      var s' := a' + [c] + b;
      assert a == [x] + a';
      assert a + [c] + b == [x] + s';
      SplitAround(a', b, c);
      if x == c {
        SplitSep(s', c);
        SplitSep(a', c);
      } else {
        SplitOther(x, s', c);
        SplitOther(x, a', c);
        OtherAppend(x, Split(a', c), Split(b, c));
      }
    }
  }

  /** A text without the separator is a single piece. */
  lemma {:induction false} SplitWithout(s: string, c: char)
    requires c !in s
    ensures Split(s, c) == [s]
  {
    SplitCount(s, c);
    assert c !in multiset(s);
    JoinSplit(s, c);
  }

  /** Splitting a join of separator-free pieces gives the pieces back. */
  lemma {:induction false} SplitJoin(pieces: seq<string>, c: char)
    requires |pieces| >= 1
    requires forall i :: 0 <= i < |pieces| ==> c !in pieces[i]
    ensures Split(Join(pieces, [c]), c) == pieces
    decreases |pieces|
  {
    if |pieces| == 1 {
      SplitWithout(pieces[0], c);
    } else {
      SplitJoin(pieces[1..], c);
      SplitWithout(pieces[0], c);
      SplitAround(pieces[0], Join(pieces[1..], [c]), c);
      assert pieces == [pieces[0]] + pieces[1..];
    }
  }

  // ---------------------------------------------------------------------
  // Decimal rendering of a natural number (`{}` on a `usize`)
  // ---------------------------------------------------------------------

  predicate IsDigit(ch: char)
  {
    '0' <= ch <= '9'
  }

  function DigitChar(d: nat): (ch: char)
    requires d < 10
    ensures IsDigit(ch)
  {
    ['0', '1', '2', '3', '4', '5', '6', '7', '8', '9'][d]
  }

  function DigitValue(ch: char): (d: nat)
    requires IsDigit(ch)
    ensures d < 10
  {
    ch as int - '0' as int
  }

  /** Shortest decimal numeral of `n`. */
  function Decimal(n: nat): string
    decreases n
  {
    if n < 10 then [DigitChar(n)] else Decimal(n / 10) + [DigitChar(n % 10)]
  }

  /** Reading a string of digits back as a number. */
  function ParseDecimal(s: string): nat
    requires forall i :: 0 <= i < |s| ==> IsDigit(s[i])
    decreases |s|
  {
    if s == [] then 0 else 10 * ParseDecimal(s[..|s| - 1]) + DigitValue(s[|s| - 1])
  }

  /** The numeral is digits only, with no leading zero except for 0 itself,
      and reading it back gives the number: the line number a trailer shows
      is exactly the operation's line. */
  lemma {:induction false} DecimalRoundTrip(n: nat)
    ensures |Decimal(n)| >= 1
    ensures forall i :: 0 <= i < |Decimal(n)| ==> IsDigit(Decimal(n)[i])
    ensures Decimal(n)[0] == '0' ==> n == 0 && Decimal(n) == "0"
    ensures ParseDecimal(Decimal(n)) == n
    decreases n
  {
    var d := ['0', '1', '2', '3', '4', '5', '6', '7', '8', '9'];
    assert forall k :: 0 <= k < 10 ==> DigitValue(d[k]) == k;
    if n >= 10 {
      DecimalRoundTrip(n / 10);
      var r := Decimal(n);
      assert r[..|r| - 1] == Decimal(n / 10);
      assert r[0] == Decimal(n / 10)[0];
    }
  }

  // ---------------------------------------------------------------------
  // Padding (`{:<w}` and `{:>w}` with the default fill, a space)
  // ---------------------------------------------------------------------

  /** `k` spaces. */
  function Spaces(k: nat): string
  {
    seq(k, _ => ' ')
  }

  function Max(a: nat, b: nat): nat
  {
    if a < b then b else a
  }

  /** `{:<w}`: left-aligned in a field of `w`, never truncated. */
  function PadRight(s: string, w: nat): string
  {
    if |s| < w then s + Spaces(w - |s|) else s
  }

  /** `{:>w}`: right-aligned in a field of `w`, never truncated. */
  function PadLeft(s: string, w: nat): string
  {
    if |s| < w then Spaces(w - |s|) + s else s
  }

  /** Left alignment keeps the text whole and fills the field with spaces
      after it; the result is as wide as the field or the text, whichever
      is wider. */
  lemma PadRightSpaces(s: string, w: nat)
    ensures PadRight(s, w) == s + Spaces(Max(|s|, w) - |s|)
    ensures |PadRight(s, w)| == Max(|s|, w)
  {
  }

  /** Right alignment keeps the text whole and fills the field with spaces
      before it. */
  lemma PadLeftSpaces(s: string, w: nat)
    ensures PadLeft(s, w) == Spaces(Max(|s|, w) - |s|) + s
    ensures |PadLeft(s, w)| == Max(|s|, w)
  {
  }
}
