/** Command paths such as `/crud/create` (command.ts). */
module Commands {
  import opened Text
  import opened Wrappers

  const SLASH: CodeUnit := 0x2F

  datatype Command = Command(segments: seq<Str>)

  datatype CommandError = MissingLeadingSlash | TrailingSlash | NotLowercase | EmptySegment

  /** `segments.join("/")`. */
  function Join(segments: seq<Str>): Str {
    if segments == [] then []
    else if |segments| == 1 then segments[0]
    else segments[0] + [SLASH] + Join(segments[1..])
  }

  /** `s.split("/")`. */
  function Split(s: Str): (r: seq<Str>)
    ensures |r| > 0
  {
    if s == [] then [[]]
    else if s[0] == SLASH then [[]] + Split(s[1..])
    else
      var rest := Split(s[1..]);
      [[s[0]] + rest[0]] + rest[1..]
  }

  function Print(c: Command): Str {
    if c.segments == [] then [SLASH] else [SLASH] + Join(c.segments)
  }

  /** `Command.parse`; `lower` is `toLowerCase`, whatever it does to any string. */
  function Parse(s: Str, lower: Str -> Str): Result<Command, CommandError> {
    if s == [] || s[0] != SLASH then Err(MissingLeadingSlash)
    else if s == [SLASH] then Ok(Command([]))
    else if s[|s| - 1] == SLASH then Err(TrailingSlash)
    else if s != lower(s) then Err(NotLowercase)
    else
      var segments := Split(s[1..]);
      if [] in segments then Err(EmptySegment) else Ok(Command(segments))
  }

  /** Segments are not empty and hold no slash. */
  predicate WellFormed(c: Command) {
    forall k :: 0 <= k < |c.segments| ==> c.segments[k] != [] && SLASH !in c.segments[k]
  }

  // ----- What is accepted, and why anything else is not -----

  /** Two slashes in a row, somewhere. */
  predicate DoubleSlash(s: Str) {
    exists i :: 0 <= i < |s| - 1 && s[i] == SLASH && s[i + 1] == SLASH
  }

  /** A split part is empty exactly when a slash is missing its neighbour: at an end, or next to another slash. */
  lemma {:induction false} EmptyPart(s: Str)
    ensures [] in Split(s) <==> s == [] || s[0] == SLASH || s[|s| - 1] == SLASH || DoubleSlash(s)
  {
    if s != [] {
      var tail, rest := s[1..], Split(s[1..]);
      EmptyPart(tail);
      FirstPart(tail);
      assert tail != [] ==> tail[|tail| - 1] == s[|s| - 1];
      DoubleSlashStep(s);
      hide Split, DoubleSlash;
      if s[0] == SLASH {
        assert Split(s)[0] == [] by { SplitAtSlash(s); }
      } else {
        SplitUnit(s);
        assert [] in Split(s) <==> [] in rest[1..];
        assert rest == [rest[0]] + rest[1..];
        if tail == [] {
          NoDoubleSlash(tail);
        } else if tail[0] == SLASH {
          EmptyPart(tail[1..]);
          DoubleSlashStep(tail);
          if tail[1..] == [] { NoDoubleSlash(tail[1..]); }
        }
      }
    }
  }

  lemma {:induction false} NoDoubleSlash(s: Str)
    requires s == []
    ensures !DoubleSlash(s)
  {
  }

  lemma {:induction false} SplitAtSlash(s: Str)
    requires s != [] && s[0] == SLASH
    ensures Split(s) == [[]] + Split(s[1..])
  {
  }

  lemma {:induction false} SplitUnit(s: Str)
    requires s != [] && s[0] != SLASH
    ensures Split(s) == [[s[0]] + Split(s[1..])[0]] + Split(s[1..])[1..]
  {
  }

  lemma {:induction false} FirstPart(s: Str)
    ensures Split(s)[0] == [] <==> s == [] || s[0] == SLASH
    ensures s == [] ==> Split(s)[1..] == []
    ensures s != [] && s[0] == SLASH ==> Split(s)[1..] == Split(s[1..])
  {
  }

  lemma {:induction false} DoubleSlashStep(s: Str)
    requires s != []
    ensures DoubleSlash(s) <==> (|s| > 1 && s[0] == SLASH && s[1] == SLASH) || DoubleSlash(s[1..])
  {
    var tail := s[1..];
    if DoubleSlash(s) {
      var i :| 0 <= i < |s| - 1 && s[i] == SLASH && s[i + 1] == SLASH;
      if i > 0 { assert tail[i - 1] == SLASH && tail[i] == SLASH; }
    }
    if DoubleSlash(tail) {
      var i :| 0 <= i < |tail| - 1 && tail[i] == SLASH && tail[i + 1] == SLASH;
      assert s[i + 1] == SLASH && s[i + 2] == SLASH;
    }
  }

  /** Which texts are commands, and the first reason why any other is not. */
  lemma {:induction false} ParseRefuses(s: Str, lower: Str -> Str)
    ensures var r := Parse(s, lower);
            if s == [] || s[0] != '/' as int then r == Err(MissingLeadingSlash)
            else if s == Ascii("/") then r == Ok(Command([]))
            else if s[|s| - 1] == '/' as int then r == Err(TrailingSlash)
            else if lower(s) != s then r == Err(NotLowercase)
            else if DoubleSlash(s) then r == Err(EmptySegment)
            else r.Ok?
  {
    assert Ascii("/") == [SLASH];
    if s != [] && s[0] == SLASH && s != [SLASH] {
      var t := s[1..];
      assert t[|t| - 1] == s[|s| - 1] && t[0] == s[1];
      EmptyPart(t);
      DoubleSlashStep(s);
      hide Split, DoubleSlash;
    }
  }

  // ----- Splitting and joining -----

  lemma {:induction false} SplitSegments(s: Str)
    ensures Join(Split(s)) == s
    ensures forall k :: 0 <= k < |Split(s)| ==> SLASH !in Split(s)[k]
  {
    if s != [] {
      var u, rest := s[0], Split(s[1..]);
      assert s == [u] + s[1..];
      SplitSegments(s[1..]);
      if u == SLASH { JoinAfterSlash(rest); } else { JoinWithUnit(u, rest); }
      hide Join;
    }
  }

  lemma {:induction false} JoinAfterSlash(rest: seq<Str>)
    requires rest != []
    ensures Join([[]] + rest) == [SLASH] + Join(rest)
  {
    assert ([[]] + rest)[1..] == rest;
    EmptyFront([SLASH]);
  }

  lemma {:induction false} JoinWithUnit(u: CodeUnit, rest: seq<Str>)
    requires rest != []
    ensures Join([[u] + rest[0]] + rest[1..]) == [u] + Join(rest)
  {
    HeadAndTail([u] + rest[0], rest[1..]);
    if |rest| > 1 {
      Reassociate([u], rest[0], [SLASH]);
      Reassociate([u], rest[0] + [SLASH], Join(rest[1..]));
    }
  }

  lemma {:induction false} SplitPlain(segment: Str, tail: Str)
    requires SLASH !in segment && (tail != [] ==> tail[0] == SLASH)
    ensures Split(segment + tail) == [segment] + (if tail == [] then [] else Split(tail[1..]))
  {
    if segment == [] {
      assert segment + tail == tail;
      assert [segment] + [] == [segment];
    } else {
      assert (segment + tail)[1..] == segment[1..] + tail;
      SplitPlain(segment[1..], tail);
      assert [segment[0]] + segment[1..] == segment;
    }
  }

  lemma {:induction false} JoinSegments(segments: seq<Str>)
    requires segments != [] && SlashFree(segments)
    ensures Split(Join(segments)) == segments
  {
    if |segments| == 1 {
      SplitPlain(segments[0], []);
      assert segments[0] + [] == segments[0];
    } else {
      var tail := [SLASH] + Join(segments[1..]);
      assert segments[0] + [SLASH] + Join(segments[1..]) == segments[0] + tail;
      SplitPlain(segments[0], tail);
      assert tail[1..] == Join(segments[1..]);
      JoinSegments(segments[1..]);
    }
  }

  // ----- Parsing and printing are inverse -----

  lemma {:induction false} PrintEndsInSegment(c: Command)
    requires WellFormed(c) && c.segments != []
    ensures Print(c)[|Print(c)| - 1] != SLASH && |Print(c)| > 1
  {
    JoinEnd(c.segments);
  }

  lemma {:induction false} JoinEnd(segments: seq<Str>)
    requires segments != [] && forall k :: 0 <= k < |segments| ==> segments[k] != [] && SLASH !in segments[k]
    ensures var j := Join(segments); j != [] && j[|j| - 1] != SLASH
  {
    if |segments| > 1 {
      JoinEnd(segments[1..]);
      var j, tail := Join(segments), Join(segments[1..]);
      assert j[|j| - 1] == tail[|tail| - 1];
    } else {
      assert segments[0][|segments[0]| - 1] in segments[0];
    }
  }

  /** Parsing what a command prints gives it back exactly when its segments are well formed and lower-case. */
  lemma {:induction false} PrintParse(c: Command, lower: Str -> Str)
    ensures Parse(Print(c), lower) == Ok(c)
            <==> WellFormed(c) && (c.segments != [] ==> lower(Print(c)) == Print(c))
  {
    var s := Print(c);
    if c.segments != [] {
      assert s[1..] == Join(c.segments);
      if WellFormed(c) {
        PrintEndsInSegment(c);
        JoinSegments(c.segments);
      }
      SplitSegments(s[1..]);
    }
  }

  /** Whatever is accepted prints back unchanged, and is well formed. */
  lemma {:induction false} ParsePrint(s: Str, lower: Str -> Str)
    requires Parse(s, lower).Ok?
    ensures Print(Parse(s, lower).value) == s && WellFormed(Parse(s, lower).value)
  {
    if s != [SLASH] {
      SplitSegments(s[1..]);
      assert [SLASH] + s[1..] == s;
      assert forall k :: 0 <= k < |Split(s[1..])| ==> Split(s[1..])[k] in Split(s[1..]);
    }
  }

  // ----- The prefix order -----

  method StartsWithLoop(c: Command, prefix: Command) returns (r: bool)
    ensures r == StartsWith(c, prefix)
  {
    if |prefix.segments| > |c.segments| { return false; }
    for i := 0 to |prefix.segments|
      invariant forall k :: 0 <= k < i ==> c.segments[k] == prefix.segments[k]
    {
      if c.segments[i] != prefix.segments[i] { return false; }
    }
    return true;
  }

  predicate StartsWith(c: Command, prefix: Command) {
    prefix.segments <= c.segments
  }

  lemma {:induction false} StartsWithIsPartialOrder(a: Command, b: Command, c: Command)
    ensures StartsWith(a, a)
    ensures StartsWith(a, b) && StartsWith(b, a) ==> a == b
    ensures StartsWith(a, b) && StartsWith(b, c) ==> StartsWith(a, c)
  {
  }

  /** On the printed paths: root, the same path, or a path that goes on after a slash. */
  lemma {:induction false} StartsWithOnPaths(c: Command, prefix: Command)
    requires WellFormed(c) && WellFormed(prefix)
    ensures StartsWith(c, prefix)
            <==> prefix.segments == [] || Print(c) == Print(prefix) || Print(prefix) + [SLASH] <= Print(c)
  {
    if prefix.segments != [] {
      hide Join;
      if c.segments == [] {
        PrintEndsInSegment(prefix);
      } else {
        var j, k := Join(c.segments), Join(prefix.segments);
        Reassociate([SLASH], k, [SLASH]);
        CancelFront([SLASH], k, j);
        CancelFront([SLASH], k + [SLASH], j);
        PathPrefix(c.segments, prefix.segments);
      }
    }
  }

  predicate SlashFree(segments: seq<Str>) {
    forall k :: 0 <= k < |segments| ==> SLASH !in segments[k]
  }

  lemma {:induction false} PathPrefix(segments: seq<Str>, prefix: seq<Str>)
    requires segments != [] && prefix != [] && SlashFree(segments) && SlashFree(prefix)
    ensures prefix <= segments <==> Join(segments) == Join(prefix) || Join(prefix) + [SLASH] <= Join(segments)
  {
    hide Join, Split, SlashFree;
    JoinSegments(segments);
    JoinSegments(prefix);
    if prefix <= segments {
      assert segments[..|prefix|] == prefix;
      JoinPrefix(segments, |prefix|);
    }
    if Join(prefix) + [SLASH] <= Join(segments) { PathGoesOn(segments, prefix); }
  }

  lemma {:induction false} PathGoesOn(segments: seq<Str>, prefix: seq<Str>)
    requires segments != [] && prefix != [] && SlashFree(segments) && SlashFree(prefix)
    requires Join(prefix) + [SLASH] <= Join(segments)
    ensures prefix <= segments
  {
    hide Join, Split, SlashFree;
    var path := Join(prefix) + [SLASH];
    var rest := Join(segments)[|path|..];
    PrefixAndRest(path, Join(segments));
    Reassociate(Join(prefix), [SLASH], rest);
    HeadAndTail(SLASH, rest);
    SplitJoined(prefix, [SLASH] + rest);
    JoinSegments(segments);
    PrefixOfConcat(prefix, Split(rest));
  }

  lemma {:induction false} JoinPrefix(segments: seq<Str>, n: nat)
    requires 0 < n <= |segments|
    ensures n == |segments| ==> Join(segments[..n]) == Join(segments)
    ensures n < |segments| ==> Join(segments[..n]) + [SLASH] <= Join(segments)
  {
    var front := segments[0] + [SLASH];
    if n == |segments| {
      assert segments[..n] == segments;
    } else if n == 1 {
      assert segments[..1] == [segments[0]];
      PrefixOfConcat(front, Join(segments[1..]));
    } else {
      JoinPrefix(segments[1..], n - 1);
      assert segments[..n][1..] == segments[1..][..n - 1];
      var shorter := Join(segments[1..][..n - 1]);
      assert Join(segments[..n]) == front + shorter && Join(segments) == front + Join(segments[1..]);
      hide Join;
      Reassociate(front, shorter, [SLASH]);
      CancelFront(front, shorter + [SLASH], Join(segments[1..]));
    }
  }

  lemma {:induction false} SplitJoined(segments: seq<Str>, tail: Str)
    requires segments != [] && SlashFree(segments)
    requires tail != [] && tail[0] == SLASH
    ensures Split(Join(segments) + tail) == segments + Split(tail[1..])
  {
    if |segments| == 1 {
      assert Join(segments) == segments[0] && [segments[0]] == segments;
      hide Join, Split;
      SplitPlain(segments[0], tail);
    } else {
      assert SlashFree(segments[1..]);
      hide Join, Split, SlashFree;
      JoinTail(segments, tail);
      SplitJoined(segments[1..], tail);
      AppendAssociative(segments, Split(tail[1..]));
    }
  }

  lemma {:induction false} AppendAssociative(segments: seq<Str>, more: seq<Str>)
    requires segments != []
    ensures [segments[0]] + (segments[1..] + more) == segments + more
  {
  }

  lemma {:induction false} JoinTail(segments: seq<Str>, tail: Str)
    requires |segments| > 1 && SlashFree(segments)
    ensures Split(Join(segments) + tail) == [segments[0]] + Split(Join(segments[1..]) + tail)
  {
    assert SLASH !in segments[0];
    var rest := Join(segments[1..]);
    assert Join(segments) == segments[0] + [SLASH] + rest;
    hide Join, Split, SlashFree;
    Reassociate(segments[0], [SLASH], rest);
    Reassociate(segments[0], [SLASH] + rest, tail);
    Reassociate([SLASH], rest, tail);
    HeadAndTail(SLASH, rest + tail);
    SplitPlain(segments[0], [SLASH] + (rest + tail));
  }
}
