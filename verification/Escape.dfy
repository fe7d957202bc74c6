/** htmlSpecialCharReplace: the bounded escaper for text shown in HTML. */
module Escape {
  import opened Config
  import opened CStrings

  const AMP: byte := 38
  const LT: byte := 60
  const GT: byte := 62
  const QUOTE: byte := 34

  predicate Special(c: byte) {
    c == LT || c == GT || c == QUOTE
  }

  /** What is put out for one character of the input. */
  function Unit(c: byte): seq<byte> {
    if c == LT then Ascii("&lt;")
    else if c == GT then Ascii("&gt;")
    else if c == QUOTE then Ascii("&quot;")
    else [c]
  }

  function Escaped(text: seq<byte>): seq<byte> {
    if text == [] then [] else Unit(text[0]) + Escaped(text[1..])
  }

  function Zeros(n: nat): seq<byte> {
    seq(n, _ => 0)
  }

  /** How many characters go out into this many cells, with two cells to spare behind each. */
  function Kept(text: seq<byte>, room: int): (k: nat)
    ensures k <= |text|
  {
    if text == [] || |Unit(text[0])| + 2 > room then 0
    else 1 + Kept(text[1..], room - |Unit(text[0])|)
  }

  lemma {:induction false} EscapedAppend(a: seq<byte>, b: seq<byte>)
    ensures Escaped(a + b) == Escaped(a) + Escaped(b)
    decreases |a|
  {
    if a == [] {
      assert a + b == b;
    } else {
      assert (a + b)[1..] == a[1..] + b;
      EscapedAppend(a[1..], b);
    }
  }

  lemma EscapedNext(text: seq<byte>, i: nat)
    requires i < |text|
    ensures Escaped(text[..i + 1]) == Escaped(text[..i]) + Unit(text[i])
  {
    assert text[..i + 1] == text[..i] + [text[i]];
    EscapedAppend(text[..i], [text[i]]);
    assert [text[i]][1..] == [];
  }

  /** No longer front of the text fits: Kept is the largest number of characters that do. */
  lemma {:induction false} KeptLongest(text: seq<byte>, room: int, k: nat)
    requires 0 < k <= |text|
    ensures k <= Kept(text, room) <==> |Escaped(text[..k])| + 2 <= room
    decreases |text|
  {
    assert text[..k][1..] == text[1..][..k - 1];
    if k > 1 {
      KeptLongest(text[1..], room - |Unit(text[0])|, k - 1);
    }
  }

  /** The unit for one character is put behind what has gone out, if it fits. */
  method PutUnit(unit: seq<byte>, output: array<byte>, bufLen: nat, j: nat, ghost out: seq<byte>)
    requires bufLen <= output.Length && j == |out| && j + |unit| < bufLen
    requires output[..bufLen] == out + Zeros(bufLen - j)
    modifies output
    ensures output[..bufLen] == out + unit + Zeros(bufLen - j - |unit|)
    ensures forall k :: bufLen <= k < output.Length ==> output[k] == old(output[k])
  {
    ghost var was := output[..bufLen];
    StrcpyAt(output, j, unit);
    assert forall k :: 0 <= k < j ==> output[k] == was[k];
    assert forall k :: j + |unit| < k < bufLen ==> output[k] == was[k];
  }

  /** The switch of the loop: one character goes out, or does not fit. */
  method PutOut(c: byte, output: array<byte>, bufLen: nat, j: nat, ghost out: seq<byte>) returns (ok: bool, next: nat)
    requires c != 0 && bufLen <= output.Length && j == |out| <= bufLen
    requires output[..bufLen] == out + Zeros(bufLen - j)
    modifies output
    ensures ok == (j + |Unit(c)| + 2 <= bufLen)
    ensures !ok ==> next == j && output[..bufLen] == out + Zeros(bufLen - j)
    ensures ok ==> next == j + |Unit(c)| && output[..bufLen] == out + Unit(c) + Zeros(bufLen - next)
    ensures forall k :: bufLen <= k < output.Length ==> output[k] == old(output[k])
  {
    ok, next := false, j;
    if c == LT {
      if j + 5 >= bufLen {
        return;
      }
      PutUnit(Ascii("&lt;"), output, bufLen, j, out);
      next := j + 4;
    } else if c == GT {
      if j + 5 >= bufLen {
        return;
      }
      PutUnit(Ascii("&gt;"), output, bufLen, j, out);
      next := j + 4;
    } else if c == QUOTE {
      if j + 7 >= bufLen {
        return;
      }
      PutUnit(Ascii("&quot;"), output, bufLen, j, out);
      next := j + 6;
    } else {
      if j + 2 >= bufLen {
        return;
      }
      PutPlain(c, output, bufLen, j, out);
      next := j + 1;
    }
    ok := true;
  }

  /** A character that goes out as it is. */
  method PutPlain(c: byte, output: array<byte>, bufLen: nat, j: nat, ghost out: seq<byte>)
    requires bufLen <= output.Length && j == |out| < bufLen
    requires output[..bufLen] == out + Zeros(bufLen - j)
    modifies output
    ensures output[..bufLen] == out + [c] + Zeros(bufLen - j - 1)
    ensures forall k :: bufLen <= k < output.Length ==> output[k] == old(output[k])
  {
    ghost var was := output[..bufLen];
    output[j] := c;
    assert output[..bufLen] == was[j := c];
  }

  /** So far the first k characters of the text have gone out, and they fit. */
  ghost predicate OutSoFar(cells: seq<byte>, text: seq<byte>, k: nat) {
    && k <= |text| && |Escaped(text[..k])| <= |cells| && (k > 0 ==> |Escaped(text[..k])| + 2 <= |cells|)
    && cells == Escaped(text[..k]) + Zeros(|cells| - |Escaped(text[..k])|)
  }

  /** Either the text has ended, or its next character does not fit, or there are no cells at all. */
  ghost predicate Ended(text: seq<byte>, bufLen: nat, k: nat, r: int) {
    && k <= |text|
    && if r == 0 then k == |text| && bufLen >= 1
       else r == -1 && if k < |text| then |Escaped(text[..k + 1])| + 2 > bufLen else bufLen == 0
  }

  lemma EndedKept(cells: seq<byte>, text: seq<byte>, k: nat, r: int)
    requires OutSoFar(cells, text, k) && Ended(text, |cells|, k, r)
    ensures k == Kept(text, |cells|)
    ensures r == 0 <==> |cells| >= 1 && (text == [] || |Escaped(text)| + 2 <= |cells|)
  {
    assert text[..|text|] == text;
    if k > 0 {
      KeptLongest(text, |cells|, k);
    }
    if k < |text| {
      KeptLongest(text, |cells|, k + 1);
    }
    if text != [] {
      KeptLongest(text, |cells|, |text|);
    }
  }

  /** The character at i goes out behind the first i. */
  lemma OneMore(cells: seq<byte>, text: seq<byte>, i: nat, j: nat)
    requires i < |text| && j == |Escaped(text[..i])| + |Unit(text[i])| && j + 2 <= |cells|
    requires cells == Escaped(text[..i]) + Unit(text[i]) + Zeros(|cells| - j)
    ensures OutSoFar(cells, text, i + 1) && j == |Escaped(text[..i + 1])|
  {
    EscapedNext(text, i);
  }

  /** A turn of the loop that does not find the NUL. */
  method EscapeOne(c: byte, output: array<byte>, bufLen: nat, j: nat, ghost text: seq<byte>, ghost i: nat)
    returns (ok: bool, next: nat)
    requires i < |text| && c == text[i] != 0 && bufLen <= output.Length
    requires OutSoFar(output[..bufLen], text, i) && j == |Escaped(text[..i])|
    modifies output
    ensures if ok then OutSoFar(output[..bufLen], text, i + 1) && next == |Escaped(text[..i + 1])|
            else OutSoFar(output[..bufLen], text, i) && Ended(text, bufLen, i, -1)
    ensures forall l :: bufLen <= l < output.Length ==> output[l] == old(output[l])
  {
    EscapedNext(text, i);
    ok, next := PutOut(c, output, bufLen, j, Escaped(text[..i]));
    if ok {
      OneMore(output[..bufLen], text, i, next);
    }
  }

  /** The NUL behind what has gone out is there already. */
  method PutNul(output: array<byte>, bufLen: nat, j: nat)
    requires j < bufLen <= output.Length && output[..bufLen][j] == 0
    modifies output
    ensures output[..bufLen] == old(output[..bufLen])
    ensures forall l :: bufLen <= l < output.Length ==> output[l] == old(output[l])
  {
    output[j] := 0;
  }

  lemma NulBehind(cells: seq<byte>, text: seq<byte>, i: nat, j: nat)
    requires OutSoFar(cells, text, i) && j == |Escaped(text[..i])| && i < |cells| && i == |text|
    ensures j < |cells| && cells[j] == 0
  {
  }

  /** A turn of the loop: it is over at the NUL, or when the character does not fit. */
  method EscapeTurn(input: seq<byte>, output: array<byte>, bufLen: nat, i: nat, j: nat, ghost text: seq<byte>)
    returns (over: bool, r: int, next: nat)
    requires 0 in input && text == Text(input) && i < bufLen <= output.Length
    requires OutSoFar(output[..bufLen], text, i) && j == |Escaped(text[..i])|
    modifies output
    ensures over ==> OutSoFar(output[..bufLen], text, i) && Ended(text, bufLen, i, r)
    ensures !over ==> OutSoFar(output[..bufLen], text, i + 1) && next == |Escaped(text[..i + 1])|
    ensures forall l :: bufLen <= l < output.Length ==> output[l] == old(output[l])
  {
    ReadFront(input, i);
    if input[i] == 0 {
      NulBehind(output[..bufLen], text, i, j);
      PutNul(output, bufLen, j);
      return true, 0, j;
    }
    var ok;
    ok, next := EscapeOne(input[i], output, bufLen, j, text, i);
    over, r := !ok, -1;
  }

  /** The loop of the escaper, on a cleared buffer. */
  method EscapeLoop(input: seq<byte>, output: array<byte>, bufLen: nat) returns (r: int, ghost k: nat)
    requires 0 in input && bufLen <= output.Length && output[..bufLen] == Zeros(bufLen)
    modifies output
    ensures OutSoFar(output[..bufLen], Text(input), k) && Ended(Text(input), bufLen, k, r)
    ensures forall l :: bufLen <= l < output.Length ==> output[l] == old(output[l])
  {
    ghost var text := Text(input);
    var i, j := 0, 0;
    assert output[..bufLen] == [] + Zeros(bufLen);
    while i < bufLen
      invariant i <= bufLen && OutSoFar(output[..bufLen], text, i) && j == |Escaped(text[..i])|
      invariant forall l :: bufLen <= l < output.Length ==> output[l] == old(output[l])
    {
      var over, result, next := EscapeTurn(input, output, bufLen, i, j, text);
      if over {
        return result, i;
      }
      i, j := i + 1, next;
    }
    LongEnough(text[..i]);
    r, k := -1, i;
  }

  /** Nothing gets shorter by escaping. */
  lemma {:induction false} LongEnough(text: seq<byte>)
    ensures |Escaped(text)| >= |text|
  {
    if text != [] {
      LongEnough(text[1..]);
    }
  }

  /**
   The escaper. The text goes out completely if it is empty and there is a cell for the
   NUL, or if two cells more than its escape are there; otherwise the longest front of it
   that fits goes out. The rest of the buffer is zero; what lies behind stays as it is.
   */
  method HtmlSpecialCharReplace(input: seq<byte>, output: array<byte>, bufLen: nat) returns (r: int)
    requires 0 in input && bufLen <= output.Length
    modifies output
    ensures r == 0 || r == -1
    ensures r == 0 <==> bufLen >= 1 && (Text(input) == [] || |Escaped(Text(input))| + 2 <= bufLen)
    ensures var out := Escaped(Text(input)[..Kept(Text(input), bufLen)]);
      |out| <= bufLen && output[..bufLen] == out + Zeros(bufLen - |out|)
    ensures r == 0 ==> Kept(Text(input), bufLen) == |Text(input)|
    ensures forall k :: bufLen <= k < output.Length ==> output[k] == old(output[k])
  {
    for i := 0 to bufLen  // bzero
      invariant forall l :: 0 <= l < i ==> output[l] == 0
      invariant forall l :: bufLen <= l < output.Length ==> output[l] == old(output[l])
    {
      output[i] := 0;
    }
    ghost var k;
    r, k := EscapeLoop(input, output, bufLen);
    EndedKept(output[..bufLen], Text(input), k, r);
  }

  // ----- what comes out

  /** The output holds nothing that HTML would take for markup, and no NUL of its own. */
  lemma {:induction false} NoMarkup(text: seq<byte>)
    requires 0 !in text
    ensures forall c :: c in Escaped(text) ==> c != 60 && c != 62 && c != 34 && c != 0
  {
    if text != [] {
      NoMarkup(text[1..]);
    }
  }

  // ----- reading it back

  predicate StartsWith(s: seq<byte>, w: seq<byte>) {
    |w| <= |s| && s[..|w|] == w
  }

  /** The escape that a text starts with: what it stands for and its length, or length 0. */
  function Entity(s: seq<byte>): (byte, nat) {
    if StartsWith(s, [38, 108, 116, 59]) then (60, 4)                // "&lt;"
    else if StartsWith(s, [38, 103, 116, 59]) then (62, 4)           // "&gt;"
    else if StartsWith(s, [38, 113, 117, 111, 116, 59]) then (34, 6) // "&quot;"
    else (0, 0)
  }

  /** What goes out for each character. */
  lemma UnitMeans(c: byte)
    ensures Escaped([c]) ==
      if c == 60 then Ascii("&lt;") else if c == 62 then Ascii("&gt;") else if c == 34 then Ascii("&quot;") else [c]
    ensures Ascii("<") == [60] && Ascii(">") == [62] && Ascii("\"") == [34]
  {
    assert [c][1..] == [];
  }

  /** These are the escapes that are looked for. */
  lemma UnitBytes()
    ensures Unit(60) == [38, 108, 116, 59] && Unit(62) == [38, 103, 116, 59]
    ensures Unit(34) == [38, 113, 117, 111, 116, 59]
  {
  }

  function Unescaped(s: seq<byte>): seq<byte>
    decreases |s|
  {
    if s == [] then []
    else
      var (c, n) := Entity(s);
      if n > 0 && n <= |s| then [c] + Unescaped(s[n..]) else [s[0]] + Unescaped(s[1..])
  }

  /** Nowhere in the text does one of the three escapes stand. */
  predicate EscapeFree(text: seq<byte>) {
    text == [] || (Entity(text).1 == 0 && EscapeFree(text[1..]))
  }

  lemma PlainStep(text: seq<byte>)
    requires text != [] && !Special(text[0])
    ensures Escaped(text)[0] == text[0] && Escaped(text)[1..] == Escaped(text[1..])
    ensures Escaped(text) == [text[0]] + Escaped(text[1..])
  {
  }

  lemma SpecialFront(c: byte)
    requires Special(c)
    ensures Unit(c)[0] == AMP && |Unit(c)| > 1
    ensures forall i :: 0 <= i < |Unit(c)| ==> !Special(Unit(c)[i]) && (i > 0 ==> Unit(c)[i] != AMP)
  {
  }

  /** Behind the ampersand an escape is made of characters that go out as they are. */
  lemma {:induction false} PlainFront(text: seq<byte>, w: seq<byte>)
    requires forall i :: 0 <= i < |w| ==> !Special(w[i]) && w[i] != AMP
    ensures StartsWith(Escaped(text), w) <==> StartsWith(text, w)
    decreases |w|
  {
    if w != [] && text != [] {
      Cons(text, w);
      Cons(Escaped(text), w);
      if Special(text[0]) {
        SpecialFront(text[0]);
        assert Escaped(text)[0] == Unit(text[0])[0];
      } else {
        PlainStep(text);
        PlainFront(text[1..], w[1..]);
      }
    }
  }

  lemma Cons(s: seq<byte>, w: seq<byte>)
    requires s != [] && w != []
    ensures StartsWith(s, w) <==> s[0] == w[0] && StartsWith(s[1..], w[1..])
  {
    if s[0] == w[0] && StartsWith(s[1..], w[1..]) {
      assert s[..|w|] == [s[0]] + s[1..][..|w| - 1];
    }
    if StartsWith(s, w) {
      assert s[1..][..|w| - 1] == s[..|w|][1..];
    }
  }

  lemma UnitSeen(text: seq<byte>, c: byte)
    requires text != [] && !Special(text[0]) && Special(c)
    ensures StartsWith(Escaped(text), Unit(c)) <==> StartsWith(text, Unit(c))
  {
    SpecialFront(c);
    PlainStep(text);
    Cons(text, Unit(c));
    Cons(Escaped(text), Unit(c));
    PlainFront(text[1..], Unit(c)[1..]);
  }

  /** An escape stands at the start of the output just where one stands at the start of the text. */
  lemma EntitySeen(text: seq<byte>)
    requires text != [] && !Special(text[0])
    ensures Entity(Escaped(text)) == Entity(text)
  {
    UnitBytes();
    UnitSeen(text, LT);
    UnitSeen(text, GT);
    UnitSeen(text, QUOTE);
  }

  lemma FrontStarts(w: seq<byte>, rest: seq<byte>)
    ensures StartsWith(w + rest, w)
  {
  }

  lemma EntityOfUnit(c: byte, rest: seq<byte>)
    requires Special(c)
    ensures Entity(Unit(c) + rest) == (c, |Unit(c)|)
  {
    UnitBytes();
    FrontStarts(Unit(c), rest);
    assert (Unit(c) + rest)[1] == Unit(c)[1];
  }

  lemma UnescapedUnit(c: byte, rest: seq<byte>)
    requires Special(c)
    ensures Unescaped(Unit(c) + rest) == [c] + Unescaped(rest)
  {
    EntityOfUnit(c, rest);
    var s := Unit(c) + rest;
    assert s[|Unit(c)|..] == rest;
  }

  lemma {:induction false} PlainEscaped(w: seq<byte>)
    requires forall i :: 0 <= i < |w| ==> !Special(w[i])
    ensures Escaped(w) == w
    decreases |w|
  {
    if w != [] {
      PlainStep(w);
      PlainEscaped(w[1..]);
    }
  }

  lemma EntityUnit(text: seq<byte>, c: byte, n: nat)
    requires (c, n) == Entity(text) && n > 0
    ensures Special(c) && n == |Unit(c)| <= |text| && text == Unit(c) + text[n..]
  {
    UnitBytes();
  }

  /** The text starts with an escape of its own: it comes back as the character that this stands for. */
  lemma EntityLost(text: seq<byte>, c: byte, n: nat)
    requires (c, n) == Entity(text) && n > 0
    ensures n <= |text| && Unescaped(Escaped(text)) == [c] + Unescaped(Escaped(text[n..]))
  {
    EntityUnit(text, c, n);
    SpecialFront(c);
    PlainEscaped(Unit(c));
    EscapedAppend(Unit(c), text[n..]);
    UnescapedUnit(c, Escaped(text[n..]));
  }

  lemma FirstRestored(text: seq<byte>)
    requires text != [] && Entity(text).1 == 0
    ensures Unescaped(Escaped(text)) == [text[0]] + Unescaped(Escaped(text[1..]))
  {
    if Special(text[0]) {
      UnescapedUnit(text[0], Escaped(text[1..]));
    } else {
      EntitySeen(text);
      PlainStep(text);
    }
  }

  /** Unescaping gives the text back, or something shorter if an escape stands in it. */
  lemma {:induction false} Restored(text: seq<byte>, back: seq<byte>)
    requires back == Unescaped(Escaped(text))
    ensures |back| <= |text| && (EscapeFree(text) ==> back == text) && (!EscapeFree(text) ==> |back| < |text|)
    decreases |text|
  {
    if text != [] {
      var (c, n) := Entity(text);
      if n == 0 {
        FirstRestored(text);
        Restored(text[1..], Unescaped(Escaped(text[1..])));
      } else {
        EntityLost(text, c, n);
        Restored(text[n..], Unescaped(Escaped(text[n..])));
      }
    }
  }

  /** Unescaping undoes the escaper exactly on the texts in which no escape stands, as on all without ampersands. */
  lemma RestoredExactly(text: seq<byte>)
    ensures Unescaped(Escaped(text)) == text <==> EscapeFree(text)
  {
    Restored(text, Unescaped(Escaped(text)));
  }

  lemma {:induction false} NoAmpersands(text: seq<byte>)
    requires 38 !in text
    ensures EscapeFree(text)
  {
    if text != [] {
      NoAmpersands(text[1..]);
      assert Unit(LT)[0] == Unit(GT)[0] == Unit(QUOTE)[0] == AMP;
      assert text[0] != AMP;
    }
  }
}
