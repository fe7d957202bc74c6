/**
 The format of the code, byte by byte and in plain numbers, and a decoder without a ring: a
 pair repeats what has been put out last for each cell that it names.
 */
module Format {
  import opened Config
  import opened Matching
  import opened Tokens
  import opened History
  import opened SlidingWindow
  import opened EncoderModel
  import opened BitOperators
  import Theorems

  // ----- reading

  /** A flag byte says of eight units whether they are bytes, the first in the lowest bit. */
  lemma {:induction false} FlagDigits(f: nat, n: nat, k: nat)
    requires k < n
    ensures Bits(f, n)[k] <==> And(f, Pow2(k)) != 0
    decreases n
  {
    if k > 0 {
      FlagDigits(f / 2, n - 1, k - 1);
      AndEven(f, Pow2(k - 1), Pow2(k));
    } else {
      AndOnes(f, 1);
      assert Pow2(1) == 2 && Pow2(0) == 1;
    }
  }

  /** The masks of the eight flags. */
  lemma Masks()
    ensures Pow2(0) == 1 && Pow2(1) == 2 && Pow2(2) == 4 && Pow2(3) == 8
    ensures Pow2(4) == 16 && Pow2(5) == 32 && Pow2(6) == 64 && Pow2(7) == 128
  {
  }

  /** The units of a code, with the flags that are left of the last flag byte. */
  lemma UnitsRead(bs: seq<byte>, left: seq<bool>)
    ensures bs == [] ==> Parse(bs, left) == []
    ensures bs != [] && left == [] ==>
      Parse(bs, left) == Parse(bs[1..], seq(8, k requires 0 <= k => And(bs[0], Pow2(k)) != 0))
    ensures bs != [] && left != [] && left[0] ==> Parse(bs, left) == [Literal(bs[0])] + Parse(bs[1..], left[1..])
    ensures |bs| == 1 && left != [] && !left[0] ==> Parse(bs, left) == []
    ensures |bs| >= 2 && left != [] && !left[0] ==>
      Parse(bs, left) ==
        [Pair(Or(bs[0], 16 * And(bs[1], 0xf0)), And(bs[1], 0x0f) + 3)] + Parse(bs[2..], left[1..])
  {
    if bs != [] && left == [] {
      forall k | 0 <= k < 8 ensures Bits(bs[0], 8)[k] <==> And(bs[0], Pow2(k)) != 0 {
        FlagDigits(bs[0], 8, k);
      }
      assert Bits(bs[0], 8) == seq(8, k requires 0 <= k => And(bs[0], Pow2(k)) != 0);
    } else if |bs| >= 2 {
      PairNumbers(bs[0], bs[1]);
    }
  }

  lemma PairNumbers(i: byte, j: byte)
    ensures ReadPair(i, j) == Pair(Or(i, 16 * And(j, 0xf0)), And(j, 0x0f) + 3)
  {
    assert PairPosition(i, j) == Or(i, HighNibble(j) * 16);
    assert LowNibble(j) == And(j, 0x0f);
  }

  /** A flag byte 0 and a pair. */
  lemma PairRead(i: byte, j: byte)
    ensures Parse([0, i, j], []) == [Pair(Or(i, 16 * And(j, 0xf0)), And(j, 0x0f) + 3)]
  {
    var bs: seq<byte>, unit: seq<byte>, left := [0, i, j], [i, j], Bits(0, 8);
    assert bs[1..] == unit && unit[2..] == [];
    assert Parse(bs, []) == Parse(unit, left);
    PairNumbers(i, j);
  }

  /** A flag byte 1 and a byte. */
  lemma LiteralRead(c: byte)
    ensures Parse([1, c], []) == [Literal(c)]
  {
    var bs: seq<byte>, unit: seq<byte>, left := [1, c], [c], Bits(1, 8);
    assert bs[1..] == unit && unit[1..] == [];
    assert Parse(bs, []) == Parse(unit, left);
  }

  lemma {:induction false} UnitKinds(bs: seq<byte>, left: seq<bool>, k: nat)
    requires k < |Parse(bs, left)| && k < |left|
    ensures Parse(bs, left)[k].Literal? <==> left[k]
    decreases |bs|
  {
    if k > 0 {
      UnitKinds(if left[0] then bs[1..] else bs[2..], left[1..], k - 1);
    }
  }

  /** Unit k behind a flag byte f is a byte exactly when bit k of f is set. */
  lemma FlagRead(f: byte, rest: seq<byte>, k: nat)
    requires k < 8 && k < |Parse([f] + rest, [])|
    ensures Parse([f] + rest, [])[k].Literal? <==> And(f, Pow2(k)) != 0
  {
    assert ([f] + rest)[1..] == rest;
    UnitKinds(rest, Bits(f, 8), k);
    FlagDigits(f, 8, k);
  }

  // ----- writing

  lemma PairWritten(pos: nat, len: nat)
    requires pos < 4096 && 3 <= len <= 18
    ensures And(pos, 0xff) == pos % 256 && Or(And(pos / 16, 0xf0), len - 3) == pos / 256 * 16 + (len - 3)
  {
    AndOnes(pos, 8);
    assert Pow2(8) == 256;
    assert PairByte(pos, len - 3) == Or(HighNibble(pos / 16), len - 3);
  }

  /** The bytes of a unit. */
  lemma UnitWritten(t: Token)
    requires WellFormed(t)
    ensures t.Literal? ==> Body([t]) == [t.c]
    ensures t.Pair? ==> t.pos < 4096 && 3 <= t.len <= 18
    ensures t.Pair? ==> Body([t]) == [And(t.pos, 0xff), Or(And(t.pos / 16, 0xf0), t.len - 3)]
  {
    assert [t][1..] == [] && Body([t]) == TokenBytes(t);
    if t.Pair? {
      PairWritten(t.pos, t.len);
    }
  }

  /** A group is a flag byte and its units; bit k is set exactly if there is a unit k and it is a byte. */
  lemma GroupWritten(g: seq<Token>, k: nat)
    requires AllWellFormed(g) && |g| <= 8 && k < 8
    ensures |Group(g)| > 0 && Group(g)[1..] == Body(g)
    ensures And(Group(g)[0], Pow2(k)) != 0 <==> k < |g| && g[k].Literal?
  {
    FlagsFit(g);
    FlagDigits(Flags(g), 8, k);
    if k < |g| {
      FlagBits(g, 8);
    } else {
      HighFlags(g, 8, k);
    }
  }

  lemma {:induction false} HighFlags(g: seq<Token>, n: nat, k: nat)
    requires |g| <= k < n
    ensures !Bits(Flags(g), n)[k]
    decreases n
  {
    if g == [] {
      if k > 0 {
        HighFlags([], n - 1, k - 1);
      }
    } else {
      assert Flags(g) / 2 == Flags(g[1..]);
      HighFlags(g[1..], n - 1, k - 1);
    }
  }

  // ----- a decoder without a ring

  /** What was put out last for cell c, the first byte having gone to cell 4078; before that it held a space or junk. */
  function Remembered(junk: Text, out: seq<byte>, c: nat): byte
    requires c < 4096
  {
    var m := |out| - 1 - (4077 + |out| - c) % 4096;
    if m >= 0 then out[m] else if c < 4078 then 32 else junk[c]
  }

  /** n bytes from cell i on, each as it was put out last. */
  function Repeated(junk: Text, out: seq<byte>, i: nat, n: nat): seq<byte>
    decreases n
  {
    if n == 0 then out else Repeated(junk, out + [Remembered(junk, out, i % 4096)], i + 1, n - 1)
  }

  function ReadAll(junk: Text, ts: seq<Token>, out: seq<byte>): seq<byte>
    decreases |ts|
  {
    if ts == [] then out
    else ReadAll(junk, ts[1..],
      if ts[0].Literal? then out + [ts[0].c] else Repeated(junk, out, ts[0].pos, ts[0].len))
  }

  /** The ring holds what is remembered. */
  ghost predicate Remembers(junk: Text, d: Decoder) {
    d.r == (4078 + |d.out|) % 4096 && forall c :: 0 <= c < 4096 ==> d.ring[c] == Remembered(junk, d.out, c)
  }

  /** The distance back to the cell that is written next is a whole turn, and to all others one more than before. */
  lemma OneFurther(n: nat, c: nat)
    requires c < 4096
    ensures (4078 + n - c) % 4096 == if c == (4078 + n) % 4096 then 0 else (4077 + n - c) % 4096 + 1
  {
    var q := (4078 + n) / 4096;
    assert 4078 + n == 4096 * q + (4078 + n) % 4096;
  }

  lemma RememberedNext(junk: Text, out: seq<byte>, b: byte, c: nat)
    requires c < 4096
    ensures Remembered(junk, out + [b], c) == if c == (4078 + |out|) % 4096 then b else Remembered(junk, out, c)
  {
    OneFurther(|out|, c);
  }

  lemma EmitRemembers(junk: Text, d: Decoder, b: byte)
    requires Remembers(junk, d)
    ensures d.r < N && Remembers(junk, d.Emit(b)) && d.Emit(b).out == d.out + [b]
  {
    forall c | 0 <= c < 4096 ensures d.Emit(b).ring[c] == Remembered(junk, d.out + [b], c) {
      RememberedNext(junk, d.out, b, c);
    }
  }

  lemma {:induction false} CopyRemembers(junk: Text, d: Decoder, i: nat, n: nat)
    requires Remembers(junk, d) && d.r < N
    ensures Remembers(junk, d.Copy(i, n)) && d.Copy(i, n).out == Repeated(junk, d.out, i, n)
    decreases n
  {
    if n > 0 {
      var b := d.ring[Cell(i)];
      EmitRemembers(junk, d, b);
      CopyRemembers(junk, d.Emit(b), i + 1, n - 1);
    }
  }

  lemma {:induction false} AllRemembered(junk: Text, d: Decoder, ts: seq<Token>)
    requires Remembers(junk, d) && d.r < N
    ensures d.ApplyAll(ts).out == ReadAll(junk, ts, d.out)
    decreases |ts|
  {
    if ts != [] {
      if ts[0].Literal? {
        EmitRemembers(junk, d, ts[0].c);
      } else {
        CopyRemembers(junk, d, ts[0].pos, ts[0].len);
      }
      AllRemembered(junk, d.Apply(ts[0]), ts[1..]);
    }
  }

  /** On every input, well formed or not, Decode puts out what the units say, read without a ring. */
  lemma DecodedWithoutRing(bs: seq<byte>, junk: Text)
    ensures Decoded(bs, junk) == ReadAll(junk, Parse(bs, []), [])
  {
    forall c | 0 <= c < 4096 ensures Cleared(junk).ring[c] == Remembered(junk, [], c) {
    }
    AllRemembered(junk, Cleared(junk), Parse(bs, []));
  }

  // ----- examples

  lemma {:induction false} SpacesRepeated(junk: Text, out: seq<byte>, i: nat, n: nat)
    requires out == seq(|out|, _ => 32) && i == |out| && i + n <= 4078
    ensures Repeated(junk, out, i, n) == seq(|out| + n, _ => 32)
    decreases n
  {
    if n > 0 {
      assert Remembered(junk, out, i) == 32;
      assert out + [32] == seq(|out| + 1, _ => 32);
      SpacesRepeated(junk, out + [32], i + 1, n - 1);
    }
  }

  /** A pair of position 0 and length 18, at the start. */
  lemma EighteenSpaces(junk: Text)
    ensures Decoded([0, 0, 0x0f], junk) == seq(18, _ => 32)
  {
    PairRead(0, 0x0f);
    PairNumbers(0, 0x0f);
    assert ReadPair(0, 0x0f) == Pair(0, 18);
    DecodedWithoutRing([0, 0, 0x0f], junk);
    SpacesRepeated(junk, [], 0, 18);
    assert [Pair(0, 18)][1..] == [];
  }

  // "abcabc"

  predicate Twice(x: seq<byte>) {
    x == [97, 98, 99, 97, 98, 99]
  }

  /** What is known of the tokens that are sent. */
  ghost predicate Sent(x: seq<byte>, r: int, t: Token) {
    START <= r && SoundAt(x, r, t) && WellFormed(t) && LongestAt(x, r, t)
  }

  /** A new character goes out as a byte. */
  lemma NewByte(x: seq<byte>, k: nat, t: Token)
    requires Twice(x) && k < 3 && Sent(x, START + k, t)
    ensures t == Literal(x[k])
  {
    if t.Pair? {
      NotBefore(x, k, Source(START + k, t.pos));
    }
  }

  lemma NotBefore(x: seq<byte>, k: nat, a: int)
    requires Twice(x) && k < 3 && 0 <= a < START + k
    ensures !Echo(x, a, START + k, 0)
  {
  }

  /** The second "abc" goes out as a pair. */
  lemma OldBytes(x: seq<byte>, t: Token)
    requires Twice(x) && Sent(x, START + 3, t)
    ensures t == Pair(4078, 3)
  {
    var r := START + 3;
    assert Prefix(x, START, r, 3) by {
      assert Echo(x, START, r, 0) && Echo(x, START, r, 1) && Echo(x, START, r, 2);
    }
    assert Echo(x, Source(r, t.pos), r, 0);
  }

  /** The tokens that are sent from place r on. */
  ghost predicate AllSent(x: seq<byte>, r: int, ts: seq<Token>) {
    START <= r && Sound(x, r, ts) && Greedy(x, r, ts) && AllWellFormed(ts)
  }

  lemma FirstSent(x: seq<byte>, r: int, ts: seq<Token>)
    requires AllSent(x, r, ts) && r < START + |x|
    ensures ts != [] && Sent(x, r, ts[0]) && AllSent(x, r + Covers(ts[0]), ts[1..])
  {
  }

  lemma TwiceTokens(x: seq<byte>, ts: seq<Token>)
    requires Twice(x) && AllSent(x, START, ts)
    ensures ts == [Literal(97), Literal(98), Literal(99), Pair(4078, 3)]
  {
    FirstSent(x, START, ts);
    NewByte(x, 0, ts[0]);
    var t1 := ts[1..];
    FirstSent(x, START + 1, t1);
    NewByte(x, 1, t1[0]);
    var t2 := t1[1..];
    FirstSent(x, START + 2, t2);
    NewByte(x, 2, t2[0]);
    var t3 := t2[1..];
    FirstSent(x, START + 3, t3);
    OldBytes(x, t3[0]);
    assert t3[1..] == [];
  }

  /** "abcabc" gives three bytes and a pair that leads back to cell 4078. */
  lemma TwiceEncoded(x: seq<byte>)
    requires Twice(x)
    ensures Encoded(x) == [7, 97, 98, 99, 0xee, 0xf0]
  {
    StartGood(x);
    TokensSound(Start(x));
    TokensGreedy(Start(x));
    TwiceTokens(x, EncodedTokens(x));
    FourPacked();
  }

  lemma FourPacked()
    ensures AllWellFormed([Literal(97), Literal(98), Literal(99), Pair(4078, 3)])
    ensures Pack([Literal(97), Literal(98), Literal(99), Pair(4078, 3)]) == [7, 97, 98, 99, 0xee, 0xf0]
  {
    var t0: seq<Token> := [Literal(97), Literal(98), Literal(99), Pair(4078, 3)];
    var t1: seq<Token> := [Literal(98), Literal(99), Pair(4078, 3)];
    var t2, t3: seq<Token> := [Literal(99), Pair(4078, 3)], [Pair(4078, 3)];
    assert t0[1..] == t1 && t1[1..] == t2 && t2[1..] == t3 && t3[1..] == [];
    assert Flags(t3) == 0 && Flags(t2) == 1 && Flags(t1) == 3;
    assert Body(t3) == [0xee, 0xf0] && Body(t2) == [99, 0xee, 0xf0] && Body(t1) == [98, 99, 0xee, 0xf0];
  }
}
