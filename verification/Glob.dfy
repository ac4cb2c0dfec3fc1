/** The wildcard matcher behind the `like` predicate (predicate.ts). */
module Glob {
  import opened Text

  const STAR: CodeUnit := 0x2A

  datatype Token = Lit(unit: CodeUnit) | Wild

  /** What a pattern means: `\*` is a literal star, `*` a wildcard, anything else stands for itself. */
  function Tokens(pattern: Str): seq<Token> {
    if pattern == [] then []
    else if pattern[0] == STAR then [Wild] + Tokens(pattern[1..])
    else if pattern[0] == BACKSLASH && |pattern| > 1 && pattern[1] == STAR then [Lit(STAR)] + Tokens(pattern[2..])
    else [Lit(pattern[0])] + Tokens(pattern[1..])
  }

  /** Spelled out: `*` is a wildcard, `\*` a literal star, and any other character stands for itself. */
  lemma {:induction false} TokensSpelled(c: CodeUnit, rest: Str)
    ensures Tokens([]) == []
    ensures Tokens(Ascii("*") + rest) == [Wild] + Tokens(rest)
    ensures Tokens(Ascii("\\*") + rest) == [Lit(0x2A)] + Tokens(rest)
    ensures c != 0x2A && !(c == 0x5C && rest != [] && rest[0] == 0x2A) ==>
              Tokens([c] + rest) == [Lit(c)] + Tokens(rest)
  {
    HeadAndTail(c, rest);
    HeadAndTail(STAR, rest);
    assert Ascii("*") == [STAR] && Ascii("\\*") == [BACKSLASH, STAR];
    var escaped := [BACKSLASH, STAR] + rest;
    assert escaped[0] == BACKSLASH && escaped[1] == STAR && escaped[2..] == rest;
  }

  function Wildcards(ts: seq<Token>): nat {
    if ts == [] then 0 else (if ts[0].Wild? then 1 else 0) + Wildcards(ts[1..])
  }

  /** Replace the wildcards, left to right, by the given strings. */
  function Expand(ts: seq<Token>, fills: seq<Str>): Str
    requires |fills| == Wildcards(ts)
  {
    if ts == [] then []
    else match ts[0]
      case Lit(c) => [c] + Expand(ts[1..], fills)
      case Wild => fills[0] + Expand(ts[1..], fills[1..])
  }

  predicate IsExpansion(input: Str, ts: seq<Token>, fills: seq<Str>) {
    |fills| == Wildcards(ts) && Expand(ts, fills) == input
  }

  /** Backtracking reference matcher: every wildcard may take any number of units. */
  predicate Matches(ts: seq<Token>, input: Str)
    decreases |ts|
  {
    if ts == [] then input == []
    else match ts[0]
      case Lit(c) => input != [] && input[0] == c && Matches(ts[1..], input[1..])
      case Wild => exists k :: 0 <= k <= |input| && Matches(ts[1..], input[k..])
  }

  // ----- The reference matcher accepts exactly the expansions of the pattern -----

  lemma {:induction false} ExpandLiteral(ts: seq<Token>, input: Str, fills: seq<Str>)
    requires ts != [] && ts[0].Lit? && input != [] && input[0] == ts[0].unit
    requires IsExpansion(input[1..], ts[1..], fills)
    ensures IsExpansion(input, ts, fills)
  {
    hide Matches;
  }

  lemma {:induction false} ExpandWildcard(ts: seq<Token>, input: Str, k: nat, rest: seq<Str>)
    requires ts != [] && ts[0].Wild? && k <= |input| && IsExpansion(input[k..], ts[1..], rest)
    ensures IsExpansion(input, ts, [input[..k]] + rest)
  {
    hide Matches;
    var fills := [input[..k]] + rest;
    assert fills[1..] == rest;
    assert input[..k] + input[k..] == input;
  }

  lemma {:induction false} MatchesHasExpansion(ts: seq<Token>, input: Str) returns (fills: seq<Str>)
    requires Matches(ts, input)
    ensures IsExpansion(input, ts, fills)
    decreases |ts|
  {
    if ts == [] {
      fills := [];
    } else if ts[0].Lit? {
      hide Expand, IsExpansion;
      fills := MatchesHasExpansion(ts[1..], input[1..]);
      ExpandLiteral(ts, input, fills);
    } else {
      hide Expand, IsExpansion;
      var k :| 0 <= k <= |input| && Matches(ts[1..], input[k..]);
      fills := MatchesHasExpansion(ts[1..], input[k..]);
      ExpandWildcard(ts, input, k, fills);
      fills := [input[..k]] + fills;
    }
  }

  lemma {:induction false} ExpansionMatches(ts: seq<Token>, fills: seq<Str>)
    requires |fills| == Wildcards(ts)
    ensures Matches(ts, Expand(ts, fills))
    decreases |ts|
  {
    if ts == [] {
    } else if ts[0].Lit? {
      ExpansionMatches(ts[1..], fills);
      assert Expand(ts, fills)[1..] == Expand(ts[1..], fills);
    } else {
      ExpansionMatches(ts[1..], fills[1..]);
      assert Expand(ts, fills)[|fills[0]|..] == Expand(ts[1..], fills[1..]);
    }
  }

  /** Some text for each wildcard turns the pattern into the input. */
  ghost predicate Expands(ts: seq<Token>, input: Str) {
    exists fills :: IsExpansion(input, ts, fills)
  }

  lemma {:induction false} MatchesIffExpansion(ts: seq<Token>, input: Str)
    ensures Matches(ts, input) <==> Expands(ts, input)
  {
    if Matches(ts, input) {
      var fills := MatchesHasExpansion(ts, input);
    }
    if fills :| IsExpansion(input, ts, fills) {
      ExpansionMatches(ts, fills);
    }
  }

  // ----- Literal fragments between wildcards -----

  /** Prepend a literal to the first fragment. */
  function Glue(literal: Str, fragments: seq<Str>): seq<Str>
    requires |fragments| > 0
  {
    [literal + fragments[0]] + fragments[1..]
  }

  function Fragments(ts: seq<Token>): (r: seq<Str>)
    ensures |r| == Wildcards(ts) + 1
  {
    if ts == [] then [[]]
    else match ts[0]
      case Lit(c) => Glue([c], Fragments(ts[1..]))
      case Wild => [[]] + Fragments(ts[1..])
  }

  /** From `from` to the very end: arbitrary text, first fragment, arbitrary text, ..., last fragment. */
  predicate Tail(input: Str, from: nat, fragments: seq<Str>)
    decreases |fragments|
  {
    if fragments == [] then from == |input|
    else exists p: nat :: from <= p <= |input| && At(input, p, fragments[0])
                          && Tail(input, p + |fragments[0]|, fragments[1..])
  }

  predicate Fits(input: Str, from: nat, fragments: seq<Str>)
    requires |fragments| > 0
  {
    At(input, from, fragments[0]) && Tail(input, from + |fragments[0]|, fragments[1..])
  }

  lemma {:induction false} MatchesIffFits(ts: seq<Token>, input: Str, from: nat)
    requires from <= |input|
    ensures Matches(ts, input[from..]) <==> Fits(input, from, Fragments(ts))
    decreases |ts|
  {
    if ts == [] {
      hide *;
      NothingFits(ts, input, from);
    } else if ts[0].Lit? {
      hide *;
      if from < |input| { MatchesIffFits(ts[1..], input, from + 1); }
      LiteralFits(ts, input, from);
    } else {
      hide *;
      forall p: nat | from <= p <= |input|
        ensures Matches(ts[1..], input[p..]) <==> Fits(input, p, Fragments(ts[1..]))
      {
        MatchesIffFits(ts[1..], input, p);
      }
      WildcardMatches(ts, input, from);
      WildcardFits(ts, input, from);
    }
  }

  lemma {:induction false} NothingFits(ts: seq<Token>, input: Str, from: nat)
    requires from <= |input| && ts == []
    ensures Matches(ts, input[from..]) <==> Fits(input, from, Fragments(ts))
  {
    assert input[from..from] == [];
    assert input[from..] == [] <==> from == |input|;
  }

  lemma {:induction false} LiteralFits(ts: seq<Token>, input: Str, from: nat)
    requires from <= |input| && ts != [] && ts[0].Lit?
    requires from < |input| ==>
               (Matches(ts[1..], input[from + 1..]) <==> Fits(input, from + 1, Fragments(ts[1..])))
    ensures Matches(ts, input[from..]) <==> Fits(input, from, Fragments(ts))
  {
    var frags, rest := Fragments(ts), Fragments(ts[1..]);
    assert frags[0] == [ts[0].unit] + rest[0] && frags[1..] == rest[1..];
    AtCons(input, from, ts[0].unit, rest[0]);
    hide Fragments, Tail;
    if from < |input| { assert input[from..][1..] == input[from + 1..]; }
  }

  lemma {:induction false} WildcardFits(ts: seq<Token>, input: Str, from: nat)
    requires from <= |input| && ts != [] && ts[0].Wild?
    ensures Fits(input, from, Fragments(ts))
            <==> exists p: nat :: from <= p <= |input| && Fits(input, p, Fragments(ts[1..]))
  {
    var frags, rest := Fragments(ts), Fragments(ts[1..]);
    assert frags[0] == [] && frags[1..] == rest && input[from..from] == [];
    hide Fragments;
    assert from + |frags[0]| == from;
    assert Fits(input, from, frags) == Tail(input, from, rest);
    if Tail(input, from, rest) {
      var p: nat :| from <= p <= |input| && At(input, p, rest[0]) && Tail(input, p + |rest[0]|, rest[1..]);
      assert Fits(input, p, rest);
    }
  }

  lemma {:induction false} WildcardMatches(ts: seq<Token>, input: Str, from: nat)
    requires from <= |input| && ts != [] && ts[0].Wild?
    ensures Matches(ts, input[from..]) <==> exists p: nat :: from <= p <= |input| && Matches(ts[1..], input[p..])
  {
    assert forall k :: 0 <= k <= |input| - from ==> input[from..][k..] == input[from + k..];
    if p: nat :| from <= p <= |input| && Matches(ts[1..], input[p..]) {
      assert input[from..][p - from..] == input[p..];
    }
  }

  // ----- Greedy placement -----

  /** The fragments can be placed in order, without overlap, inside `input[from..to]`. */
  predicate Placeable(fragments: seq<Str>, input: Str, from: nat, to: nat)
    decreases |fragments|
  {
    if fragments == [] then from <= to
    else exists p: nat :: from <= p <= to && At(input, p, fragments[0]) && p + |fragments[0]| <= to
                          && Placeable(fragments[1..], input, p + |fragments[0]|, to)
  }

  /** Starting further left never hurts: this is why leftmost placement needs no backtracking. */
  lemma {:induction false} PlaceableFurtherLeft(fragments: seq<Str>, input: Str, from: nat, later: nat, to: nat)
    requires from <= later && Placeable(fragments, input, later, to)
    ensures Placeable(fragments, input, from, to)
  {
    if fragments != [] {
      var p: nat :| later <= p <= to && At(input, p, fragments[0]) && p + |fragments[0]| <= to
                    && Placeable(fragments[1..], input, p + |fragments[0]|, to);
    }
  }

  /** The leftmost occurrence of the first fragment decides. */
  lemma {:induction false} LeftmostDecides(fragments: seq<Str>, input: Str, from: nat, to: nat, found: nat)
    requires |fragments| > 0 && from <= found && At(input, found, fragments[0])
    requires forall p: nat :: from <= p < found ==> !At(input, p, fragments[0])
    ensures Placeable(fragments, input, from, to)
            <==> found + |fragments[0]| <= to && Placeable(fragments[1..], input, found + |fragments[0]|, to)
  {
    if Placeable(fragments, input, from, to) {
      var p: nat :| from <= p <= to && At(input, p, fragments[0]) && p + |fragments[0]| <= to
                    && Placeable(fragments[1..], input, p + |fragments[0]|, to);
      PlaceableFurtherLeft(fragments[1..], input, found + |fragments[0]|, p + |fragments[0]|, to);
    }
  }

  lemma {:induction false} TailIffPlaceable(mids: seq<Str>, last: Str, input: Str, from: nat)
    ensures Tail(input, from, mids + [last])
            <==> |last| <= |input| && At(input, |input| - |last|, last)
                 && Placeable(mids, input, from, |input| - |last|)
    decreases |mids|
  {
    var all := mids + [last];
    if mids == [] {
      assert all[1..] == [];
      if Tail(input, from, all) {
        var p: nat :| from <= p <= |input| && At(input, p, all[0]) && Tail(input, p + |all[0]|, all[1..]);
      }
    } else {
      assert all[0] == mids[0] && all[1..] == mids[1..] + [last];
      forall p: nat | from <= p <= |input| && At(input, p, mids[0])
        ensures Tail(input, p + |mids[0]|, all[1..])
                <==> |last| <= |input| && At(input, |input| - |last|, last)
                     && Placeable(mids[1..], input, p + |mids[0]|, |input| - |last|)
      {
        TailIffPlaceable(mids[1..], last, input, p + |mids[0]|);
      }
      hide At;
      if Tail(input, from, all) { TailPlaces(mids, last, input, from); }
      if |last| <= |input| && At(input, |input| - |last|, last) && Placeable(mids, input, from, |input| - |last|) {
        PlacesTail(mids, last, input, from);
      }
    }
  }

  lemma {:induction false} TailPlaces(mids: seq<Str>, last: Str, input: Str, from: nat)
    requires mids != [] && (mids + [last])[0] == mids[0] && Tail(input, from, mids + [last])
    requires forall p: nat :: from <= p <= |input| && At(input, p, mids[0])
                              && Tail(input, p + |mids[0]|, (mids + [last])[1..]) ==>
                                |last| <= |input| && At(input, |input| - |last|, last)
                                && Placeable(mids[1..], input, p + |mids[0]|, |input| - |last|)
    ensures |last| <= |input| && At(input, |input| - |last|, last) && Placeable(mids, input, from, |input| - |last|)
  {
    hide At;
    var all := mids + [last];
    var p: nat :| from <= p <= |input| && At(input, p, all[0]) && Tail(input, p + |all[0]|, all[1..]);
    PlaceableBounds(mids[1..], input, p + |mids[0]|, |input| - |last|);
  }

  lemma {:induction false} PlacesTail(mids: seq<Str>, last: Str, input: Str, from: nat)
    requires mids != [] && (mids + [last])[0] == mids[0]
    requires |last| <= |input| && Placeable(mids, input, from, |input| - |last|)
    requires forall p: nat :: from <= p <= |input| && At(input, p, mids[0])
                              && Placeable(mids[1..], input, p + |mids[0]|, |input| - |last|) ==>
                                Tail(input, p + |mids[0]|, (mids + [last])[1..])
    ensures Tail(input, from, mids + [last])
  {
    hide At;
    var p: nat :| from <= p <= |input| - |last| && At(input, p, mids[0]) && p + |mids[0]| <= |input| - |last|
                  && Placeable(mids[1..], input, p + |mids[0]|, |input| - |last|);
  }

  lemma {:induction false} PlaceableBounds(fragments: seq<Str>, input: Str, from: nat, to: nat)
    ensures Placeable(fragments, input, from, to) ==> from <= to
  {
  }

  /** An empty last fragment may be dropped. */
  lemma {:induction false} PlaceableSnocEmpty(fragments: seq<Str>, input: Str, from: nat, to: nat)
    requires to <= |input|
    ensures Placeable(fragments + [[]], input, from, to) <==> Placeable(fragments, input, from, to)
    decreases |fragments|
  {
    var all := fragments + [[]];
    if fragments == [] {
      assert all[1..] == [];
      if from <= to {
        assert At(input, from, all[0]);
      }
    } else {
      assert all[1..] == fragments[1..] + [[]];
      forall p: nat | from <= p <= to && At(input, p, fragments[0])
        ensures Placeable(all[1..], input, p + |fragments[0]|, to)
                <==> Placeable(fragments[1..], input, p + |fragments[0]|, to)
      {
        PlaceableSnocEmpty(fragments[1..], input, p + |fragments[0]|, to);
      }
    }
  }

  // ----- The matcher itself -----

  /** `String.prototype.indexOf(frag, from)`: the leftmost occurrence at or after `from`, or -1. */
  function IndexOf(input: Str, frag: Str, from: nat): (found: int)
    ensures found == -1 ==> forall p: nat :: from <= p ==> !At(input, p, frag)
    ensures found != -1 ==> from <= found && At(input, found, frag)
    ensures found != -1 ==> forall p: nat :: from <= p < found ==> !At(input, p, frag)
    decreases |input| - from
  {
    if from > |input| then -1
    else if At(input, from, frag) then from
    else IndexOf(input, frag, from + 1)
  }

  /** What is still to be read of the pattern, with a pending backslash put back. */
  function Pending(sawEscape: bool, pattern: Str, i: nat): Str
    requires i <= |pattern|
  {
    (if sawEscape then [BACKSLASH] else []) + pattern[i..]
  }

  /** The fragment list that a half-finished split stands for. */
  function Whole(patterns: seq<Str>, working: Str, sawEscape: bool, pattern: Str, i: nat): seq<Str>
    requires i <= |pattern|
  {
    patterns + Glue(working, Fragments(Tokens(Pending(sawEscape, pattern, i))))
  }

  lemma {:induction false} ReadWildcard(rest: Str)
    requires rest != [] && rest[0] == STAR
    ensures Fragments(Tokens(rest)) == [[]] + Fragments(Tokens(rest[1..]))
  {
    assert Tokens(rest)[1..] == Tokens(rest[1..]);
  }

  lemma {:induction false} ReadEscapedStar(rest: Str)
    requires |rest| > 1 && rest[0] == BACKSLASH && rest[1] == STAR
    ensures Fragments(Tokens(rest)) == Glue([STAR], Fragments(Tokens(rest[2..])))
  {
    assert Tokens(rest)[1..] == Tokens(rest[2..]);
  }

  lemma {:induction false} ReadLiteral(rest: Str)
    requires rest != [] && rest[0] != STAR
    requires !(|rest| > 1 && rest[0] == BACKSLASH && rest[1] == STAR)
    ensures Fragments(Tokens(rest)) == Glue([rest[0]], Fragments(Tokens(rest[1..])))
  {
    assert Tokens(rest)[1..] == Tokens(rest[1..]);
  }

  lemma {:induction false} GlueGlue(a: Str, b: Str, fragments: seq<Str>)
    requires |fragments| > 0
    ensures Glue(a, Glue(b, fragments)) == Glue(a + b, fragments)
  {
    assert a + (b + fragments[0]) == (a + b) + fragments[0];
  }

  lemma {:induction false} GlueNothing(fragments: seq<Str>)
    requires |fragments| > 0
    ensures Glue([], fragments) == fragments
  {
    assert [] + fragments[0] == fragments[0];
  }

  lemma {:induction false} ReadCodePoint(pattern: Str, i: nat, w: nat)
    requires i < |pattern| && w == Width(pattern, i)
    requires pattern[i] != STAR && pattern[i] != BACKSLASH
    ensures Fragments(Tokens(pattern[i..])) == Glue(pattern[i..i + w], Fragments(Tokens(pattern[i + w..])))
  {
    var rest := pattern[i..];
    assert pattern[i..i + 1] == [pattern[i]];
    ReadLiteral(rest);
    assert rest[1..] == pattern[i + 1..];
    if w == 2 {
      ReadLiteral(rest[1..]);
      assert rest[1..][1..] == pattern[i + 2..];
      GlueGlue([rest[0]], [rest[1]], Fragments(Tokens(pattern[i + 2..])));
      assert [rest[0]] + [rest[1]] == pattern[i..i + 2];
    }
  }

  lemma {:induction false} StepStar(patterns: seq<Str>, working: Str, sawEscape: bool, pattern: Str, i: nat)
    requires i < |pattern| && pattern[i] == STAR
    ensures Whole(patterns, working, sawEscape, pattern, i)
            == if sawEscape then Whole(patterns, working + [STAR], false, pattern, i + 1)
               else Whole(patterns + [working], [], false, pattern, i + 1)
  {
    var before := Pending(sawEscape, pattern, i);
    var after := Pending(false, pattern, i + 1);
    var rest := Fragments(Tokens(after));
    if sawEscape {
      ReadEscapedStar(before);
      assert before[2..] == after;
      GlueGlue(working, [STAR], rest);
    } else {
      ReadWildcard(before);
      assert before[1..] == after;
      GlueNothing(rest);
      assert working + [] == working;
    }
  }

  lemma {:induction false} StepBackslash(patterns: seq<Str>, working: Str, sawEscape: bool, pattern: Str, i: nat)
    requires i < |pattern| && pattern[i] == BACKSLASH
    ensures Whole(patterns, working, sawEscape, pattern, i)
            == Whole(patterns, if sawEscape then working + [BACKSLASH] else working, true, pattern, i + 1)
  {
    var before := Pending(sawEscape, pattern, i);
    var after := Pending(true, pattern, i + 1);
    if sawEscape {
      ReadLiteral(before);
      assert before[1..] == after;
      GlueGlue(working, [BACKSLASH], Fragments(Tokens(after)));
    } else {
      assert before == after;
    }
  }

  lemma {:induction false} StepOther(patterns: seq<Str>, working: Str, sawEscape: bool, pattern: Str, i: nat, w: nat)
    requires i < |pattern| && w == Width(pattern, i)
    requires pattern[i] != STAR && pattern[i] != BACKSLASH
    ensures Whole(patterns, working, sawEscape, pattern, i)
            == Whole(patterns, (if sawEscape then working + [BACKSLASH] else working) + pattern[i..i + w], false,
                     pattern, i + w)
  {
    var c := pattern[i..i + w];
    var rest := Fragments(Tokens(pattern[i + w..]));
    assert pattern[i..i + 1] == [pattern[i]];
    ReadCodePoint(pattern, i, w);
    assert Pending(false, pattern, i) == pattern[i..] && Pending(false, pattern, i + w) == pattern[i + w..];
    if sawEscape {
      var before := Pending(true, pattern, i);
      ReadLiteral(before);
      assert before[1..] == pattern[i..];
      GlueGlue(working, [BACKSLASH], Fragments(Tokens(pattern[i..])));
      GlueGlue(working + [BACKSLASH], c, rest);
    } else {
      GlueGlue(working, c, rest);
    }
  }

  lemma {:induction false} StepStart(pattern: Str)
    ensures Whole([], [], false, pattern, 0) == Fragments(Tokens(pattern))
  {
    assert Pending(false, pattern, 0) == pattern;
    GlueNothing(Fragments(Tokens(pattern)));
  }

  lemma {:induction false} StepEnd(patterns: seq<Str>, working: Str, sawEscape: bool, pattern: Str)
    ensures Whole(patterns, working, sawEscape, pattern, |pattern|)
            == patterns + [if sawEscape then working + [BACKSLASH] else working]
  {
    assert working + [] == working && working + ([BACKSLASH] + []) == working + [BACKSLASH];
    assert Pending(sawEscape, pattern, |pattern|) == if sawEscape then [BACKSLASH] else [];
    if sawEscape { ReadLiteral([BACKSLASH]); }
  }

  /** Split the pattern at its unescaped stars, code point by code point. */
  method SplitPattern(pattern: Str) returns (patterns: seq<Str>, leadingWildcard: bool, trailingWildcard: bool)
    ensures patterns == Fragments(Tokens(pattern))
    ensures leadingWildcard ==> |patterns| > 1 && patterns[0] == []
    ensures trailingWildcard ==> |patterns| > 1 && patterns[|patterns| - 1] == []
  {
    hide Whole, Fragments, Tokens;
    patterns, leadingWildcard, trailingWildcard := [], false, false;
    var working: Str, sawEscape, i := [], false, 0;
    StepStart(pattern);
    while i < |pattern|
      invariant 0 <= i <= |pattern|
      invariant Whole(patterns, working, sawEscape, pattern, i) == Fragments(Tokens(pattern))
      invariant leadingWildcard ==> |patterns| > 0 && patterns[0] == []
      invariant trailingWildcard ==> |patterns| > 0 && working == [] && !sawEscape
    {
      var w := Width(pattern, i);
      var c := pattern[i..i + w];  // `*` and `\` are never halves of a surrogate pair
      if pattern[i] == STAR {
        StepStar(patterns, working, sawEscape, pattern, i);
        if sawEscape {
          working := working + [STAR];
          trailingWildcard := false;
        } else {
          if |patterns| == 0 && |working| == 0 { leadingWildcard := true; }
          patterns := patterns + [working];
          working := [];
          trailingWildcard := true;
        }
        sawEscape := false;
      } else if pattern[i] == BACKSLASH {
        StepBackslash(patterns, working, sawEscape, pattern, i);
        if sawEscape { working := working + [BACKSLASH]; }
        sawEscape := true;
        trailingWildcard := false;
      } else {
        StepOther(patterns, working, sawEscape, pattern, i, w);
        if sawEscape { working := working + [BACKSLASH]; }
        working := working + c;
        sawEscape := false;
        trailingWildcard := false;
      }
      i := i + w;
    }
    StepEnd(patterns, working, sawEscape, pattern);
    if sawEscape { working := working + [BACKSLASH]; }
    patterns := patterns + [working];
  }

  /** The two anchored ends and the middle fragments decide the match. */
  lemma {:induction false} AnchorsDecide(frags: seq<Str>, input: Str)
    requires |frags| > 1
    ensures Fits(input, 0, frags)
            <==> var last := frags[|frags| - 1];
                 && At(input, 0, frags[0])
                 && |last| <= |input| && At(input, |input| - |last|, last)
                 && Placeable(frags[1..|frags| - 1], input, |frags[0]|, |input| - |last|)
  {
    assert frags[1..] == frags[1..|frags| - 1] + [frags[|frags| - 1]];
    TailIffPlaceable(frags[1..|frags| - 1], frags[|frags| - 1], input, |frags[0]|);
  }

  /** Fragments the code treats as "middle" because a wildcard stands at that end are empty there. */
  lemma {:induction false} WidenMiddle(frags: seq<Str>, input: Str, first: nat, last: nat, from: nat, to: nat)
    requires |frags| > 1 && to <= |input|
    requires first == 1 || (first == 0 && frags[0] == [])
    requires last == |frags| - 1 || (last == |frags| && frags[|frags| - 1] == [])
    ensures Placeable(frags[first..last], input, from, to) <==> Placeable(frags[1..|frags| - 1], input, from, to)
  {
    var mids := frags[1..|frags| - 1];
    var right := frags[1..last];
    if last == |frags| {
      assert right == mids + [[]];
      PlaceableSnocEmpty(mids, input, from, to);
    }
    if first == 0 {
      var all := frags[0..last];
      assert all[1..] == right;
      if from <= to {
        LeftmostDecides(all, input, from, to, from);
      }
      PlaceableBounds(right, input, from, to);
    }
  }

  lemma {:induction false} EmptyPattern(input: Str, pattern: Str)
    requires pattern == []
    ensures Matches(Tokens(pattern), input) <==> input == []
  {
  }

  lemma {:induction false} PatternFits(input: Str, pattern: Str)
    ensures Matches(Tokens(pattern), input) <==> Fits(input, 0, Fragments(Tokens(pattern)))
  {
    assert input[0..] == input;
    MatchesIffFits(Tokens(pattern), input, 0);
  }

  lemma {:induction false} SingleFragment(frags: seq<Str>, input: Str)
    requires |frags| == 1
    ensures Fits(input, 0, frags) <==> input == frags[0]
  {
    if At(input, 0, frags[0]) && |frags[0]| == |input| { assert input[0..|input|] == input; }
  }

  /** What the two anchor tests and the placement of the middle decide together. */
  lemma {:induction false} AnchorsAndMiddleDecide(frags: seq<Str>, input: Str, leading: bool, trailing: bool)
    requires |frags| > 1 && (leading ==> frags[0] == []) && (trailing ==> frags[|frags| - 1] == [])
    ensures var first, last := frags[0], frags[|frags| - 1];
            Fits(input, 0, frags)
            <==> (leading || At(input, 0, first))
                 && (trailing || (|last| <= |input| && At(input, |input| - |last|, last)))
                 && |first| <= |input| - |last|
                 && Placeable(frags[if leading then 0 else 1..if trailing then |frags| else |frags| - 1], input,
                              |first|, |input| - |last|)
  {
    hide Fits, Placeable;
    var from, to := |frags[0]|, |input| - |frags[|frags| - 1]|;
    AnchorsDecide(frags, input);
    if to >= 0 {
      WidenMiddle(frags, input, if leading then 0 else 1, if trailing then |frags| else |frags| - 1, from, to);
      PlaceableBounds(frags[1..|frags| - 1], input, from, to);
    }
    assert leading ==> At(input, 0, frags[0]) by { assert input[0..0] == []; }
    assert trailing ==> At(input, |input|, frags[|frags| - 1]) by { assert input[|input|..] == []; }
  }

  /** The greedy matcher: sound and complete for the wildcard language. */
  method Glob(input: Str, pattern: Str) returns (matched: bool)
    ensures matched <==> Matches(Tokens(pattern), input)
    ensures matched <==> Expands(Tokens(pattern), input)
  {
    hide Matches, Expands, Tokens, Fragments, Tail, Placeable, At;
    MatchesIffExpansion(Tokens(pattern), input);
    if |pattern| == 0 {
      EmptyPattern(input, pattern);
      return |input| == 0;
    }
    var patterns, leadingWildcard, trailingWildcard := SplitPattern(pattern);
    PatternFits(input, pattern);
    if |patterns| == 1 {
      SingleFragment(patterns, input);
      return input == patterns[0];
    }
    AnchorsAndMiddleDecide(patterns, input, leadingWildcard, trailingWildcard);
    hide Fits;
    var start, end := 0, |input|;
    if !leadingWildcard {
      if !At(input, 0, patterns[0]) { return false; }
      start := |patterns[0]|;
    }
    if !trailingWildcard {
      var last := patterns[|patterns| - 1];
      if |last| > |input| || !At(input, |input| - |last|, last) { return false; }
      end := end - |last|;
    }
    if end < start {
      return false;
    }
    var firstMiddle := if leadingWildcard then 0 else 1;
    var lastMiddle := if trailingWildcard then |patterns| - 1 else |patterns| - 2;
    matched := PlaceMiddles(patterns, input, firstMiddle, lastMiddle, start, end);
  }

  /** Leftmost placement of `patterns[firstMiddle..=lastMiddle]` in the window `[start, end)`. */
  method PlaceMiddles(patterns: seq<Str>, input: Str, firstMiddle: nat, lastMiddle: int, start: nat, end: nat)
    returns (placed: bool)
    requires firstMiddle <= lastMiddle + 1 <= |patterns| && start <= end
    ensures placed <==> Placeable(patterns[firstMiddle..lastMiddle + 1], input, start, end)
  {
    var cursor: nat, idx := start, firstMiddle;
    while idx <= lastMiddle
      invariant firstMiddle <= idx <= lastMiddle + 1 && cursor <= end
      invariant Placeable(patterns[idx..lastMiddle + 1], input, cursor, end)
                <==> Placeable(patterns[firstMiddle..lastMiddle + 1], input, start, end)
    {
      ghost var rest := patterns[idx..lastMiddle + 1];
      assert rest[1..] == patterns[idx + 1..lastMiddle + 1];
      var frag := patterns[idx];
      var found := IndexOf(input, frag, cursor);
      if found == -1 { return false; }
      LeftmostDecides(rest, input, cursor, end, found);
      if found + |frag| > end { return false; }
      cursor := found + |frag|;
      idx := idx + 1;
    }
    return true;
  }
}
