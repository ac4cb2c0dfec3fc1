/** JavaScript strings: finite sequences of UTF-16 code units, lone surrogates included. */
module Text {

  type CodeUnit = u: int | 0 <= u < 0x1_0000
  type Str = seq<CodeUnit>

  const BACKSLASH: CodeUnit := 0x5C

  /** The code units of a literal; a character outside the basic plane, which none of ours has, would be replaced. */
  function Ascii(s: string): (r: Str)
    ensures |r| == |s| && forall i :: 0 <= i < |s| && s[i] < '\U{10000}' ==> r[i] == s[i] as int
  {
    seq(|s|, i requires 0 <= i < |s| => if s[i] < '\U{10000}' then s[i] as int else 0xFFFD)
  }

  predicate IsHigh(u: CodeUnit) { 0xD800 <= u <= 0xDBFF }

  predicate IsLow(u: CodeUnit) { 0xDC00 <= u <= 0xDFFF }

  /** A high surrogate starts with the bits 110110, a low one with 110111. */
  lemma {:induction false} SurrogateBits(u: CodeUnit)
    ensures IsHigh(u) <==> u / 0x400 == 0x36
    ensures IsLow(u) <==> u / 0x400 == 0x37
  {
  }

  /** How many code units `codePointAt(i)` reads: 2 for a surrogate pair, otherwise 1. */
  function Width(s: Str, i: nat): (w: nat)
    requires i < |s|
    ensures 1 <= w <= 2 && i + w <= |s|
    ensures w == 2 ==> IsHigh(s[i]) && IsLow(s[i + 1])
  {
    if IsHigh(s[i]) && i + 1 < |s| && IsLow(s[i + 1]) then 2 else 1
  }

  /** `t` occurs in `s` at position `i`. */
  predicate At(s: Str, i: nat, t: Str) {
    i + |t| <= |s| && s[i..i + |t|] == t
  }

  lemma {:induction false} AtConcat(s: Str, i: nat, a: Str, b: Str)
    ensures At(s, i, a + b) <==> At(s, i, a) && At(s, i + |a|, b)
  {
    if i + |a| + |b| <= |s| {
      var whole := s[i..i + |a| + |b|];
      assert s[i..i + |a|] == whole[..|a|];
      assert s[i + |a|..i + |a| + |b|] == whole[|a|..];
      assert (a + b)[..|a|] == a && (a + b)[|a|..] == b;
      assert whole == whole[..|a|] + whole[|a|..];
    }
  }

  lemma {:induction false} AtCons(s: Str, i: nat, c: CodeUnit, t: Str)
    ensures At(s, i, [c] + t) <==> i < |s| && s[i] == c && At(s, i + 1, t)
  {
    AtConcat(s, i, [c], t);
    if i < |s| {
      assert s[i..i + 1] == [s[i]];
    }
  }

  /** A text that occurs at `i` fixes the unit at each of its places. */
  lemma {:induction false} AtUnit(s: Str, i: nat, t: Str, k: nat)
    requires k < |t|
    ensures At(s, i, t) ==> s[i + k] == t[k]
  {
    if At(s, i, t) { assert s[i..i + |t|][k] == t[k]; }
  }

  // ----- Slices -----

  lemma {:induction false} Reassociate<T>(a: seq<T>, b: seq<T>, c: seq<T>)
    ensures a + b + c == a + (b + c)
  {
  }

  lemma {:induction false} PrefixAndRest<T>(a: seq<T>, b: seq<T>)
    requires a <= b
    ensures b == a + b[|a|..]
  {
  }

  lemma {:induction false} PrefixOfConcat<T>(a: seq<T>, b: seq<T>)
    ensures a <= a + b
  {
  }

  lemma {:induction false} CancelFront<T>(front: seq<T>, a: seq<T>, b: seq<T>)
    ensures front + a == front + b <==> a == b
    ensures front + a <= front + b <==> a <= b
  {
    assert (front + a)[|front|..] == a && (front + b)[|front|..] == b;
    if front + a <= front + b {
      PrefixAndRest(front + a, front + b);
      assert b == a + (front + b)[|front + a|..];
    }
  }

  lemma {:induction false} EmptyFront<T>(a: seq<T>)
    ensures [] + a == a && a + [] == a
  {
  }

  lemma {:induction false} HeadAndTail<T>(x: T, a: seq<T>)
    ensures ([x] + a)[0] == x && ([x] + a)[1..] == a
  {
  }
}
