/** UTF-8 in estring: isUTF8, UnicodeToUTF8, convertLatin1UTF8, and replacing one string by another,
  stepping by characters or searching by bytes. */
module Utf8Text {
  import opened Bytes

  type Text = seq<byte>

  // ----------------------------------------------------------------------------------- characters

  /** How many bytes the character has that begins with c; 0 when none does. */
  function CharLength(c: byte): (n: nat)
    ensures n <= 4
  {
    if c < 0x80 then 1
    else if 0xC0 <= c < 0xE0 then 2
    else if 0xE0 <= c < 0xF0 then 3
    else if 0xF0 <= c < 0xF8 then 4
    else 0
  }

  /** A first byte shows the length of its character by its high bits: 0, 110, 1110 or 11110. */
  lemma CharLengthIs(c: byte)
    ensures CharLength(c) == if c / 0x80 == 0x0 then 1
                             else if c / 0x20 == 0x6 then 2
                             else if c / 0x10 == 0xE then 3
                             else if c / 0x08 == 0x1E then 4
                             else 0
  {
  }

  /** And a continuation byte shows 10. */
  lemma ContinuesIff(c: byte)
    ensures Continues(c) <==> c / 0x40 == 0x2
  {
  }

  predicate Continues(c: byte) { 0x80 <= c < 0xC0 }

  /** The text begins with a whole character. */
  predicate StartsWithChar(s: Text) {
    s != [] && 1 <= CharLength(s[0]) <= |s| && forall k :: 1 <= k < CharLength(s[0]) ==> Continues(s[k])
  }

  /** The text is a list of whole characters. */
  predicate WellFormed(s: Text) { s == [] || (StartsWithChar(s) && WellFormed(s[CharLength(s[0])..])) }

  /** isUTF8. */
  method IsUTF8(s: Text) returns (r: bool)
    ensures r <==> WellFormed(s)
  {
    var i := 0;
    while i < |s|
      invariant 0 <= i <= |s| && (WellFormed(s) <==> WellFormed(s[i..]))
    {
      var l := 0;
      if s[i] < 0x80 {
        StepOver(s, i, 1);
        i := i + 1;
        continue;
      }
      if 0xC0 <= s[i] < 0xE0 {
        l := 1;
      } else if 0xE0 <= s[i] < 0xF0 {
        l := 2;
      } else if 0xF0 <= s[i] < 0xF8 {
        l := 3;
      }
      if l == 0 || i + l >= |s| {
        return false;
      }
      ghost var first, n := i, l + 1;
      while l > 0
        invariant 0 <= l < n && i == first + n - 1 - l
        invariant forall k :: 1 <= k < n - l ==> Continues(s[first..][k])
      {
        l, i := l - 1, i + 1;
        assert s[first..][i - first] == s[i];
        if !(0x80 <= s[i] < 0xC0) {
          return false;
        }
      }
      StepOver(s, first, n);
      i := i + 1;
    }
    return true;
  }

  lemma StepOver(s: Text, i: nat, n: nat)
    requires i < |s| && n == CharLength(s[i]) && 1 <= n <= |s| - i
    requires forall k :: 1 <= k < n ==> Continues(s[i..][k])
    ensures WellFormed(s[i..]) <==> WellFormed(s[i + n..])
  {
    assert s[i..][n..] == s[i + n..];
  }

  lemma {:induction false} WellFormedConcat(s: Text, t: Text)
    requires WellFormed(s)
    ensures WellFormed(s + t) <==> WellFormed(t)
    decreases |s|
  {
    if s == [] {
      assert s + t == t;
    } else {
      var n := CharLength(s[0]);
      assert (s + t)[n..] == s[n..] + t;
      WellFormedConcat(s[n..], t);
    }
  }

  // ------------------------------------------------------------------------------- code points

  /** UnicodeToUTF8, with shifts as divisions by powers of two. */
  function UnicodeToUTF8(c: int): Text {
    if c < 0x80 then [c % 0x100]
    else if c < 0x800 then [0xC0 + c / 0x40, 0x80 + c % 0x40]
    else if c < 0x10000 then [0xE0 + c / 0x1000, 0x80 + c / 0x40 % 0x40, 0x80 + c % 0x40]
    else if c < 0x200000 then
      [0xF0 + c / 0x40000, 0x80 + c / 0x1000 % 0x40, 0x80 + c / 0x40 % 0x40, 0x80 + c % 0x40]
    else []
  }

  function Payload(c: byte): int { c as int - 0x80 }

  /** The code point of the character a text begins with. */
  function CodePoint(s: Text): int
    requires StartsWithChar(s)
  {
    var first: int := s[0];
    match CharLength(s[0])
    case 1 => first
    case 2 => (first - 0xC0) * 0x40 + Payload(s[1])
    case 3 => (first - 0xE0) * 0x1000 + Payload(s[1]) * 0x40 + Payload(s[2])
    case _ => (first - 0xF0) * 0x40000 + Payload(s[1]) * 0x1000 + Payload(s[2]) * 0x40 + Payload(s[3])
  }

  function CodePoints(s: Text): seq<int>
    requires WellFormed(s)
  {
    if s == [] then [] else [CodePoint(s)] + CodePoints(s[CharLength(s[0])..])
  }

  /** Every code point below 0x200000 becomes one whole character, from which it can be read
      back. */
  lemma UnicodeRoundTrip(c: int, rest: Text)
    requires 0 <= c < 0x200000
    ensures var s := UnicodeToUTF8(c) + rest;
      StartsWithChar(s) && CharLength(s[0]) == |UnicodeToUTF8(c)| && CodePoint(s) == c
  {
    if 0x800 <= c < 0x10000 {
      assert c / 0x40 / 0x40 == c / 0x1000;
    } else if 0x10000 <= c {
      assert c / 0x40 / 0x40 == c / 0x1000 && c / 0x1000 / 0x40 == c / 0x40000;
    }
  }

  /** convertLatin1UTF8: the text is UTF-8, and its characters are the bytes of the input. */
  method ConvertLatin1UTF8(s: Text) returns (res: Text)
    ensures WellFormed(res) && CodePoints(res) == s
  {
    var i := 0;
    res := [];
    while i < |s|
      invariant 0 <= i <= |s|
      invariant WellFormed(res) && CodePoints(res) == s[..i]
    {
      var code := s[i];
      i := i + 1;
      AppendChar(res, code);
      res := res + UnicodeToUTF8(code);
      assert s[..i] == s[..i - 1] + [code];
    }
    assert s[..i] == s;
  }

  lemma {:induction false} AppendChar(s: Text, c: int)
    requires WellFormed(s) && 0 <= c < 0x200000
    ensures WellFormed(s + UnicodeToUTF8(c)) && CodePoints(s + UnicodeToUTF8(c)) == CodePoints(s) + [c]
    decreases |s|
  {
    var u := UnicodeToUTF8(c);
    UnicodeRoundTrip(c, []);
    assert u + [] == u;
    hide UnicodeToUTF8;
    if s == [] {
      assert s + u == u && u[|u|..] == [];
    } else {
      var n := CharLength(s[0]);
      assert (s + u)[n..] == s[n..] + u;
      AppendChar(s[n..], c);
      SameCodePoint(s, u);
    }
  }

  lemma SameCodePoint(s: Text, t: Text)
    requires StartsWithChar(s)
    ensures StartsWithChar(s + t) && CodePoint(s + t) == CodePoint(s)
  {
  }

  // ---------------------------------------------------------------------------------- replacement

  /** What a replacement leads to: a text, or a loop that does not end. */
  datatype Outcome = Done(text: Text) | Spins

  function Prepend(s: Text, o: Outcome): Outcome {
    if o.Done? then Done(s + o.text) else Spins
  }

  /** The character-stepping replacement of the text from the position on. */
  function ByChar(rest: Text, entity: Text, symbol: Text): Outcome
    decreases |rest|
  {
    if rest == [] then Done([])
    else if entity == [] then Spins
    else if entity <= rest then Prepend(symbol, ByChar(rest[|entity|..], entity, symbol))
    else
      var n := CharLength(rest[0]);
      if n == 0 then Spins
      else if n >= |rest| then Done(rest)
      else Prepend(rest[..n], ByChar(rest[n..], entity, symbol))
  }

  /** The byte-searching replacement of the text from the position on. */
  function ByByte(rest: Text, entity: Text, symbol: Text): Text
    requires entity != []
    decreases |rest|
  {
    if rest == [] then []
    else if entity <= rest then symbol + ByByte(rest[|entity|..], entity, symbol)
    else [rest[0]] + ByByte(rest[1..], entity, symbol)
  }

  /** replace_all with the UTF-8 encoding.  `spins`: the program would go round for ever, which for
      a UTF-8 entity depends on the input alone. */
  method ReplaceByChar(input: Text, entity: Text, symbol: Text) returns (out: Text, spins: bool)
    ensures spins <==> ByChar(input, entity, symbol).Spins?
    ensures !spins ==> ByChar(input, entity, symbol) == Done(out)
    ensures WellFormed(entity) && entity != [] ==> (spins <==> Stuck(input))
  {
    hide Stuck, WellFormed, ByChar;
    SpinsWhen(input, entity, symbol);
    ByCharEnds(entity, symbol);
    out := input;
    var loc := 0;
    spins := false;
    ghost var goal := ByChar(input, entity, symbol);
    NothingBefore(goal);
    while loc < |out| && !spins
      invariant 0 <= loc && !spins && (loc > |out| ==> goal == Done(out))
      invariant loc <= |out| ==> goal == Prepend(out[..loc], ByChar(out[loc..], entity, symbol))
      decreases |out| - loc, !spins
    {
      if |entity| + loc <= |out| && out[loc..loc + |entity|] == entity {
        if entity == [] {
          EmptyEntitySpins(out[loc..], symbol);
          return out, true;
        }
        ReplaceStep(out, loc, entity, symbol);
        out := out[..loc] + symbol + out[loc + |entity|..];
        loc := loc + |symbol|;
        continue;
      }
      NoMatch(out, loc, entity);
      KeepStep(out, loc, entity, symbol);
      var c := out[loc];
      if c < 0x80 {
        loc := loc + 1;
      } else if 0xC0 <= c < 0xE0 {
        loc := loc + 2;
      } else if 0xE0 <= c < 0xF0 {
        loc := loc + 3;
      } else if 0xF0 <= c < 0xF8 {
        loc := loc + 4;
      } else {
        return out, true;
      }
    }
    if loc == |out| {
      assert out[..loc] == out && out[loc..] == [] && out + [] == out;
    }
  }

  lemma SpinsWhen(input: Text, entity: Text, symbol: Text)
    ensures WellFormed(entity) && entity != [] ==> (ByChar(input, entity, symbol).Spins? <==> Stuck(input))
  {
    if WellFormed(entity) && entity != [] {
      SpinsIffStuck(input, entity, symbol);
    }
  }

  lemma ByCharEnds(entity: Text, symbol: Text)
    ensures ByChar([], entity, symbol) == Done([])
  {
  }

  lemma EmptyEntitySpins(rest: Text, symbol: Text)
    requires rest != []
    ensures ByChar(rest, [], symbol) == Spins
  {
  }

  lemma NothingBefore(o: Outcome)
    ensures Prepend([], o) == o
  {
    if o.Done? {
      assert [] + o.text == o.text;
    }
  }

  lemma NoMatch(out: Text, loc: nat, entity: Text)
    requires loc < |out| && !(|entity| + loc <= |out| && out[loc..loc + |entity|] == entity)
    ensures !(entity <= out[loc..]) && entity != []
  {
    if |entity| + loc <= |out| {
      assert out[loc..loc + |entity|] == out[loc..][..|entity|];
    }
  }

  lemma PrependTwice(a: Text, b: Text, o: Outcome)
    ensures Prepend(a, Prepend(b, o)) == Prepend(a + b, o)
  {
    if o.Done? {
      assert a + (b + o.text) == a + b + o.text;
    }
  }

  /** One replacement: what is before the new position, and what is behind it. */
  lemma ReplaceStep(out: Text, loc: nat, entity: Text, symbol: Text)
    requires entity != [] && loc + |entity| <= |out| && out[loc..loc + |entity|] == entity
    ensures var out' := out[..loc] + symbol + out[loc + |entity|..];
      && Prepend(out[..loc], ByChar(out[loc..], entity, symbol))
           == Prepend(out'[..loc + |symbol|], ByChar(out'[loc + |symbol|..], entity, symbol))
      && |out'| - (loc + |symbol|) < |out| - loc
  {
    var rest := out[loc..];
    assert rest[..|entity|] == entity;
    assert rest[|entity|..] == out[loc + |entity|..];
    var out' := out[..loc] + symbol + out[loc + |entity|..];
    assert out'[..loc + |symbol|] == out[..loc] + symbol && out'[loc + |symbol|..] == out[loc + |entity|..];
    PrependTwice(out[..loc], symbol, ByChar(rest[|entity|..], entity, symbol));
  }

  lemma ByCharUnfolds(rest: Text, entity: Text, symbol: Text)
    requires rest != [] && entity != [] && !(entity <= rest)
    ensures ByChar([], entity, symbol) == Done([])
    ensures var n := CharLength(rest[0]);
      ByChar(rest, entity, symbol)
        == if n == 0 then Spins else if n >= |rest| then Done(rest)
           else Prepend(rest[..n], ByChar(rest[n..], entity, symbol))
  {
    hide CharLength;
  }

  /** One character stepped over; past the end when the last one is not whole. */
  lemma KeepStep(out: Text, loc: nat, entity: Text, symbol: Text)
    requires loc < |out| && entity != [] && !(entity <= out[loc..])
    ensures var n := CharLength(out[loc]);
      var before := Prepend(out[..loc], ByChar(out[loc..], entity, symbol));
      && (n == 0 ==> before == Spins)
      && (n > 0 && loc + n <= |out| ==> before == Prepend(out[..loc + n], ByChar(out[loc + n..], entity, symbol)))
      && (loc + n > |out| ==> before == Done(out))
  {
    hide ByChar, CharLength;
    var n, rest := CharLength(out[loc]), out[loc..];
    ByCharUnfolds(rest, entity, symbol);
    if n >= |rest| {
      assert out[..loc] + rest == out;
      if n == |rest| {
        assert out[loc + n..] == [] && out[..loc + n] == out && out + [] == out;
      }
    } else if n > 0 {
      assert rest[n..] == out[loc + n..] && out[..loc + n] == out[..loc] + rest[..n];
      PrependTwice(out[..loc], rest[..n], ByChar(rest[n..], entity, symbol));
    }
  }

  /** std::string::find: the first position from loc on where the entity is, or -1. */
  method Find(s: Text, entity: Text, loc: nat) returns (p: int)
    requires loc <= |s| && entity != []
    ensures p == -1 || (loc <= p && p + |entity| <= |s| && s[p..p + |entity|] == entity)
    ensures forall q :: loc <= q < (if p == -1 then |s| else p) ==> !(entity <= s[q..])
  {
    p := loc;
    while p + |entity| <= |s|
      invariant loc <= p <= |s|
      invariant forall q :: loc <= q < p ==> !(entity <= s[q..])
    {
      if s[p..p + |entity|] == entity {
        return;
      }
      NoMatch(s, p, entity);
      p := p + 1;
    }
    return -1;
  }

  /** replace_all with the default encodings.  The empty entity is found at once, every time. */
  method ReplaceByByte(input: Text, entity: Text, symbol: Text) returns (out: Text, spins: bool)
    ensures spins <==> entity == []
    ensures !spins ==> out == ByByte(input, entity, symbol)
  {
    out, spins := input, entity == [];
    if spins {
      return;
    }
    var loc := 0;
    ghost var goal := ByByte(input, entity, symbol);
    assert out[..0] + goal == goal && out[0..] == out;
    var p := Find(out, entity, loc);
    while p != -1
      invariant 0 <= loc <= |out| && goal == out[..loc] + ByByte(out[loc..], entity, symbol)
      invariant p == -1 || (loc <= p && p + |entity| <= |out| && out[p..p + |entity|] == entity)
      invariant forall q :: loc <= q < (if p == -1 then |out| else p) ==> !(entity <= out[q..])
      decreases |out| - loc, p != -1
    {
      SkipStep(out, loc, p, entity, symbol);
      ByByteReplaceStep(out, p, entity, symbol);
      out := out[..p] + symbol + out[p + |entity|..];
      loc := p + |symbol|;
      p := Find(out, entity, loc);
    }
    SkipStep(out, loc, |out|, entity, symbol);
    assert out[|out|..] == [] && out[..|out|] == out && out + [] == out;
  }

  lemma ByByteReplaceStep(out: Text, p: nat, entity: Text, symbol: Text)
    requires entity != [] && p + |entity| <= |out| && out[p..p + |entity|] == entity
    ensures var out' := out[..p] + symbol + out[p + |entity|..];
      out[..p] + ByByte(out[p..], entity, symbol)
        == out'[..p + |symbol|] + ByByte(out'[p + |symbol|..], entity, symbol)
  {
    var rest, out' := out[p..], out[..p] + symbol + out[p + |entity|..];
    assert rest[..|entity|] == entity && rest[|entity|..] == out[p + |entity|..];
    assert out'[..p + |symbol|] == out[..p] + symbol && out'[p + |symbol|..] == out[p + |entity|..];
    var tail := ByByte(out[p + |entity|..], entity, symbol);
    assert out[..p] + (symbol + tail) == out[..p] + symbol + tail;
  }

  /** Bytes at which the entity does not begin are kept. */
  lemma {:induction false} SkipStep(out: Text, loc: nat, p: nat, entity: Text, symbol: Text)
    requires loc <= p <= |out| && entity != []
    requires forall q :: loc <= q < p ==> !(entity <= out[q..])
    ensures out[..loc] + ByByte(out[loc..], entity, symbol) == out[..p] + ByByte(out[p..], entity, symbol)
    decreases p - loc
  {
    if loc < p {
      SkipStep(out, loc + 1, p, entity, symbol);
      assert out[loc..][1..] == out[loc + 1..] && out[..loc + 1] == out[..loc] + [out[loc]];
      var tail := ByByte(out[loc + 1..], entity, symbol);
      assert out[..loc] + ([out[loc]] + tail) == out[..loc] + [out[loc]] + tail;
    }
  }

  // ------------------------------------------------------------------------------ what it means

  /** The pieces between the occurrences of the entity, found from the left. */
  function Split(s: Text, entity: Text): (pieces: seq<Text>)
    requires entity != []
    ensures pieces != []
    decreases |s|
  {
    if s == [] then [[]]
    else if entity <= s then [[]] + Split(s[|entity|..], entity)
    else
      var pieces := Split(s[1..], entity);
      [[s[0]] + pieces[0]] + pieces[1..]
  }

  function Join(pieces: seq<Text>, between: Text): Text
    requires pieces != []
  {
    if |pieces| == 1 then pieces[0] else pieces[0] + between + Join(pieces[1..], between)
  }

  lemma JoinFirst(x: Text, pieces: seq<Text>, between: Text)
    requires pieces != []
    ensures Join([x + pieces[0]] + pieces[1..], between) == x + Join(pieces, between)
  {
    var longer := [x + pieces[0]] + pieces[1..];
    assert longer[1..] == pieces[1..];
    if |pieces| > 1 {
      var tail := Join(pieces[1..], between);
      assert x + pieces[0] + between + tail == x + (pieces[0] + between + tail);
    }
  }

  lemma JoinEmpty(pieces: seq<Text>, between: Text)
    requires pieces != []
    ensures Join([[]] + pieces, between) == between + Join(pieces, between)
  {
    assert ([[]] + pieces)[1..] == pieces;
    assert [] + between == between;
  }

  /** No piece holds the entity, nor does it begin earlier at the end of a piece: the occurrences
      are the leftmost ones. */
  predicate Leftmost(pieces: seq<Text>, entity: Text)
    requires pieces != [] && entity != []
  {
    if |pieces| == 1 then forall q :: 0 <= q < |pieces[0]| ==> !(entity <= pieces[0][q..])
    else
      && (forall q :: 0 <= q < |pieces[0]| ==> !(entity <= Join(pieces, entity)[q..]))
      && Leftmost(pieces[1..], entity)
  }

  lemma SplitUnfolds(s: Text, entity: Text, symbol: Text)
    requires entity != []
    ensures Split(s, entity)
         == if s == [] then [[]]
            else if entity <= s then [[]] + Split(s[|entity|..], entity)
            else [[s[0]] + Split(s[1..], entity)[0]] + Split(s[1..], entity)[1..]
    ensures ByByte(s, entity, symbol)
         == if s == [] then []
            else if entity <= s then symbol + ByByte(s[|entity|..], entity, symbol)
            else [s[0]] + ByByte(s[1..], entity, symbol)
  {
  }

  lemma EmptyFirst(pieces: seq<Text>, entity: Text)
    requires pieces != [] && entity != [] && Leftmost(pieces, entity)
    ensures Leftmost([[]] + pieces, entity)
  {
    assert ([[]] + pieces)[1..] == pieces;
  }

  /** The result is the input with each leftmost occurrence of the entity replaced: cut at those,
      the input is its pieces with the entity between them, the result the same pieces with the
      symbol. */
  lemma {:induction false} ReplacesEachOccurrence(s: Text, entity: Text, symbol: Text)
    requires entity != []
    ensures var pieces := Split(s, entity);
      && Join(pieces, entity) == s && Leftmost(pieces, entity)
      && Join(pieces, symbol) == ByByte(s, entity, symbol)
    decreases |s|
  {
    hide Split, ByByte, Leftmost, Join;
    SplitUnfolds(s, entity, symbol);
    if s == [] {
      OnePiece([], entity, symbol);
    } else if entity <= s {
      ReplacesEachOccurrence(s[|entity|..], entity, symbol);
      var pieces := Split(s[|entity|..], entity);
      JoinEmpty(pieces, entity);
      JoinEmpty(pieces, symbol);
      assert s == entity + s[|entity|..];
      EmptyFirst(pieces, entity);
    } else {
      ReplacesEachOccurrence(s[1..], entity, symbol);
      var pieces := Split(s[1..], entity);
      JoinFirst([s[0]], pieces, entity);
      JoinFirst([s[0]], pieces, symbol);
      assert s == [s[0]] + s[1..];
      StaysLeftmost(s, pieces, entity);
    }
  }

  lemma OnePiece(s: Text, entity: Text, symbol: Text)
    requires s == [] && entity != []
    ensures Join([s], entity) == Join([s], symbol) == s && Leftmost([s], entity)
  {
  }

  lemma StaysLeftmost(s: Text, pieces: seq<Text>, entity: Text)
    requires s != [] && pieces != [] && entity != [] && !(entity <= s)
    requires Leftmost(pieces, entity) && Join(pieces, entity) == s[1..]
    ensures Leftmost([[s[0]] + pieces[0]] + pieces[1..], entity)
  {
    var longer := [[s[0]] + pieces[0]] + pieces[1..];
    JoinFirst([s[0]], pieces, entity);
    assert Join(longer, entity) == s;
    assert longer[1..] == pieces[1..];
    forall q | 0 <= q < |longer[0]| ensures !(entity <= s[q..]) && (|pieces| == 1 ==> s == longer[0]) {
      assert s[0..] == s;
      if q > 0 {
        assert s[q..] == s[1..][q - 1..];
      }
    }
  }

  /** Self-synchronisation, as section 3 of RFC 3629 has it: no character begins inside another. */
  lemma {:induction false} BytesInsideMatchNothing(rest: Text, entity: Text, symbol: Text, k: nat)
    requires StartsWithChar(rest) && entity != [] && !Continues(entity[0])
    requires 1 <= k <= CharLength(rest[0])
    ensures ByByte(rest[k..], entity, symbol)
         == rest[k..CharLength(rest[0])] + ByByte(rest[CharLength(rest[0])..], entity, symbol)
    decreases CharLength(rest[0]) - k
  {
    hide ByByte, CharLength;
    var n := CharLength(rest[0]);
    if k < n {
      BytesInsideMatchNothing(rest, entity, symbol, k + 1);
      assert rest[k..][0] == rest[k] && Continues(rest[k]);
      ByByteKeeps(rest[k..], entity, symbol);
      assert rest[k..][1..] == rest[k + 1..];
      var tail := ByByte(rest[n..], entity, symbol);
      assert rest[k..n] + tail == [rest[k]] + (rest[k + 1..n] + tail);
    } else {
      assert rest[k..n] == [];
    }
  }

  /** A character at which the entity does not begin is kept whole. */
  lemma WholeCharKept(input: Text, entity: Text, symbol: Text)
    requires WellFormed(input) && input != [] && StartsWithChar(input) && WellFormed(entity) && entity != [] && !(entity <= input)
    ensures var n := CharLength(input[0]);
      ByByte(input, entity, symbol) == input[..n] + ByByte(input[n..], entity, symbol) && WellFormed(input[..n])
  {
    hide ByByte;
    assert !Continues(entity[0]);
    var n := CharLength(input[0]);
    BytesInsideMatchNothing(input, entity, symbol, 1);
    var tail := ByByte(input[n..], entity, symbol);
    WholeCharsOnly(input, n);
    assert input[..n] == [input[0]] + input[1..n];
    assert [input[0]] + (input[1..n] + tail) == input[..n] + tail;
    assert ByByte(input, entity, symbol) == [input[0]] + ByByte(input[1..], entity, symbol) by {
      ByByteKeeps(input, entity, symbol);
    }
  }

  lemma ByByteKeeps(input: Text, entity: Text, symbol: Text)
    requires input != [] && entity != [] && !(entity <= input)
    ensures ByByte(input, entity, symbol) == [input[0]] + ByByte(input[1..], entity, symbol)
  {
  }

  lemma WholeCharsOnly(input: Text, n: nat)
    requires StartsWithChar(input) && n == CharLength(input[0])
    ensures WellFormed(input[..n])
  {
    assert input[..n][n..] == [];
  }

  /** Behind an occurrence a well-formed text goes on well-formed. */
  lemma BehindEntity(input: Text, entity: Text)
    requires WellFormed(input) && WellFormed(entity) && entity <= input
    ensures WellFormed(input[|entity|..])
  {
    assert input == entity + input[|entity|..];
    WellFormedConcat(entity, input[|entity|..]);
  }

  /** On UTF-8, stepping by characters ends and gives what searching by bytes gives. */
  lemma {:induction false} ByCharIsByByte(input: Text, entity: Text, symbol: Text)
    requires WellFormed(input) && WellFormed(entity) && entity != []
    ensures ByChar(input, entity, symbol) == Done(ByByte(input, entity, symbol))
    decreases |input|
  {
    if input != [] {
      if entity <= input {
        BehindEntity(input, entity);
        ByCharIsByByte(input[|entity|..], entity, symbol);
      } else {
        var n := CharLength(input[0]);
        WholeCharKept(input, entity, symbol);
        ByCharIsByByte(input[n..], entity, symbol);
        ByCharKeeps(input, entity, symbol);
        hide ByByte, ByChar;
      }
    }
  }

  lemma ByCharKeeps(input: Text, entity: Text, symbol: Text)
    requires input != [] && StartsWithChar(input) && entity != [] && !(entity <= input)
    ensures var n := CharLength(input[0]);
      ByChar(input, entity, symbol) == Prepend(input[..n], ByChar(input[n..], entity, symbol))
  {
    var n := CharLength(input[0]);
    if n == |input| {
      assert input[n..] == [] && input[..n] == input && input + [] == input;
    }
  }

  /** And the result is UTF-8 again when the symbol is. */
  lemma {:induction false} ReplacementStaysUTF8(input: Text, entity: Text, symbol: Text)
    requires WellFormed(input) && WellFormed(entity) && entity != [] && WellFormed(symbol)
    ensures WellFormed(ByByte(input, entity, symbol))
    decreases |input|
  {
    if input != [] {
      if entity <= input {
        BehindEntity(input, entity);
        ReplacementStaysUTF8(input[|entity|..], entity, symbol);
        WellFormedConcat(symbol, ByByte(input[|entity|..], entity, symbol));
      } else {
        var n := CharLength(input[0]);
        WholeCharKept(input, entity, symbol);
        ReplacementStaysUTF8(input[n..], entity, symbol);
        WellFormedConcat(input[..n], ByByte(input[n..], entity, symbol));
      }
    }
  }

  // ---------------------------------------------------------------- any input, UTF-8 or not

  /** Stepping over the text character by character comes to a byte that begins none. */
  predicate Stuck(s: Text) {
    s != [] && (CharLength(s[0]) == 0 || (CharLength(s[0]) < |s| && Stuck(s[CharLength(s[0])..])))
  }

  /** Stepping over whole characters changes nothing about what comes after them. */
  lemma {:induction false} StuckBehind(s: Text, t: Text)
    requires WellFormed(s)
    ensures Stuck(s + t) <==> Stuck(t)
    decreases |s|
  {
    if s == [] {
      assert s + t == t;
    } else {
      var n := CharLength(s[0]);
      assert (s + t)[n..] == s[n..] + t;
      StuckBehind(s[n..], t);
      if n == |s| && t == [] {
        assert s + t == s;
      }
    }
  }

  /** For a UTF-8 entity and any input whatever: the loop over characters goes round for ever if
      and only if stepping over the input comes to a byte that begins no character. */
  lemma {:induction false} SpinsIffStuck(input: Text, entity: Text, symbol: Text)
    requires WellFormed(entity) && entity != []
    ensures ByChar(input, entity, symbol) == Spins <==> Stuck(input)
    decreases |input|
  {
    if input != [] {
      if entity <= input {
        assert input == entity + input[|entity|..];
        StuckBehind(entity, input[|entity|..]);
        SpinsIffStuck(input[|entity|..], entity, symbol);
      } else {
        var n := CharLength(input[0]);
        if 0 < n < |input| {
          SpinsIffStuck(input[n..], entity, symbol);
        }
      }
    }
  }

  /** The entity begins inside a character that is stepped over, as it can only when the input or
      the entity is not UTF-8. */
  predicate Swallowed(s: Text, entity: Text)
    requires entity != []
    decreases |s|
  {
    s != []
    && if entity <= s then Swallowed(s[|entity|..], entity)
       else
         var n := CharLength(s[0]);
         || (exists k :: 1 <= k < n && k < |s| && entity <= s[k..])
         || (0 < n < |s| && Swallowed(s[n..], entity))
  }

  /** Bytes at which the entity does not begin are kept by the search. */
  lemma SearchKeeps(s: Text, n: nat, entity: Text, symbol: Text)
    requires n <= |s| && entity != [] && forall k :: 0 <= k < n ==> !(entity <= s[k..])
    ensures ByByte(s, entity, symbol) == s[..n] + ByByte(s[n..], entity, symbol)
  {
    SkipStep(s, 0, n, entity, symbol);
    assert s[..0] + ByByte(s[0..], entity, symbol) == ByByte(s, entity, symbol) by {
      assert s[0..] == s && s[..0] == [];
    }
  }

  /** Where nothing is swallowed the two ways agree. */
  lemma {:induction false} AgreeUnlessSwallowed(input: Text, entity: Text, symbol: Text)
    requires entity != [] && !Swallowed(input, entity) && ByChar(input, entity, symbol).Done?
    ensures ByChar(input, entity, symbol) == Done(ByByte(input, entity, symbol))
    decreases |input|
  {
    if input != [] {
      if entity <= input {
        AgreeUnlessSwallowed(input[|entity|..], entity, symbol);
      } else {
        assert input[0..] == input;
        var n := CharLength(input[0]);
        SearchKeeps(input, if n < |input| then n else |input|, entity, symbol);
        if n < |input| {
          AgreeUnlessSwallowed(input[n..], entity, symbol);
        } else {
          assert input[|input|..] == [] && input[..|input|] == input && input + [] == input;
        }
      }
    }
  }

  /** Where something is swallowed they differ, for any symbol that does not begin as the entity
      does. */
  lemma {:induction false} DifferIfSwallowed(input: Text, entity: Text, symbol: Text)
    requires entity != [] && Swallowed(input, entity) && symbol != [] && symbol[0] != entity[0]
    ensures ByChar(input, entity, symbol) != Done(ByByte(input, entity, symbol))
    decreases |input|
  {
    if ByChar(input, entity, symbol).Done? {
      if entity <= input {
        var rest := input[|entity|..];
        DifferIfSwallowed(rest, entity, symbol);
        SamePrefix(symbol, ByChar(rest, entity, symbol).text, ByByte(rest, entity, symbol));
      } else {
        var n := CharLength(input[0]);
        if k :| 1 <= k < n && k < |input| && entity <= input[k..] {
          FirstSwallowed(input, n, k, entity, symbol);
        } else {
          assert input[0..] == input;
          SearchKeeps(input, n, entity, symbol);
          DifferIfSwallowed(input[n..], entity, symbol);
          SamePrefix(input[..n], ByChar(input[n..], entity, symbol).text, ByByte(input[n..], entity, symbol));
        }
      }
    }
  }

  lemma SamePrefix(a: Text, s: Text, t: Text)
    ensures a + s == a + t ==> s == t
  {
    if a + s == a + t {
      assert s == (a + s)[|a|..] && t == (a + t)[|a|..];
    }
  }

  /** Within the first character the search finds what the step passes over. */
  lemma FirstSwallowed(input: Text, n: nat, k: nat, entity: Text, symbol: Text)
    requires entity != [] && input != [] && !(entity <= input) && n == CharLength(input[0])
    requires 1 <= k < n && k < |input| && entity <= input[k..]
    requires symbol != [] && symbol[0] != entity[0] && ByChar(input, entity, symbol).Done?
    ensures ByChar(input, entity, symbol) != Done(ByByte(input, entity, symbol))
    decreases k
  {
    if j :| 1 <= j < k && entity <= input[j..] {
      FirstSwallowed(input, n, j, entity, symbol);
    } else {
      assert input[0..] == input;
      SearchKeeps(input, k, entity, symbol);
      assert ByByte(input[k..], entity, symbol)[0] == symbol[0];
      assert ByByte(input, entity, symbol)[k] == symbol[0];
      assert input[k] == input[k..][0] == entity[0];
      var out := ByChar(input, entity, symbol).text;
      if n < |input| {
        assert out == input[..n] + ByChar(input[n..], entity, symbol).text;
      }
      assert out[k] == input[k];
    }
  }

  /** For any input and a UTF-8 entity: the two ways agree for every symbol if and only if stepping
      over the input neither gets stuck nor swallows the entity. */
  lemma AgreeIff(input: Text, entity: Text)
    requires WellFormed(entity) && entity != []
    ensures (forall symbol :: ByChar(input, entity, symbol) == Done(ByByte(input, entity, symbol)))
       <==> !Stuck(input) && !Swallowed(input, entity)
  {
    var other: byte := if entity[0] == 0 then 1 else 0;
    SpinsIffStuck(input, entity, [other]);
    if Stuck(input) {
    } else if Swallowed(input, entity) {
      DifferIfSwallowed(input, entity, [other]);
    } else {
      forall symbol ensures ByChar(input, entity, symbol) == Done(ByByte(input, entity, symbol)) {
        SpinsIffStuck(input, entity, symbol);
        AgreeUnlessSwallowed(input, entity, symbol);
      }
    }
  }

  /** UTF-8 input is neither. */
  lemma {:induction false} UTF8IsNeither(input: Text, entity: Text)
    requires WellFormed(input) && WellFormed(entity) && entity != []
    ensures !Stuck(input) && !Swallowed(input, entity)
  {
    forall symbol ensures ByChar(input, entity, symbol) == Done(ByByte(input, entity, symbol)) {
      ByCharIsByByte(input, entity, symbol);
    }
    AgreeIff(input, entity);
  }

  /** A lone continuation byte gets the loop stuck; a lead byte without its continuation makes it
      swallow what follows. */
  lemma NotUTF8()
    ensures Stuck([0x80]) && forall entity: Text | |entity| > 1 :: ByChar([0x80], entity, []) == Spins
    ensures !Stuck([0xC2, 0x41]) && Swallowed([0xC2, 0x41], [0x41])
    ensures ByChar([0xC2, 0x41], [0x41], []) == Done([0xC2, 0x41]) && ByByte([0xC2, 0x41], [0x41], []) == [0xC2]
  {
    assert !([0x41] <= [0xC2, 0x41]);
    assert [0xC2, 0x41][1..] == [0x41] && [0x41][1..] == [];
    assert ByByte([0x41], [0x41], []) == [];
  }
}
