/** Units of code, and how eight of them share a flag byte. */
module Tokens {
  import opened Config

  /** An unencoded byte, or a reference to ring cell pos and the match length. */
  datatype Token = Literal(c: byte) | Pair(pos: nat, len: nat)

  predicate WellFormed(t: Token) {
    t.Pair? ==> t.pos < N && THRESHOLD < t.len <= F
  }

  predicate AllWellFormed(ts: seq<Token>) {
    forall i :: 0 <= i < |ts| ==> WellFormed(ts[i])
  }

  /** How many bytes of text a token stands for. */
  function Covers(t: Token): nat {
    if t.Literal? then 1 else t.len
  }

  function CoversAll(ts: seq<Token>): nat {
    if ts == [] then 0 else Covers(ts[0]) + CoversAll(ts[1..])
  }

  /** Position in 12 bits and length in 4: low byte, then the high nibble and the length. */
  function TokenBytes(t: Token): seq<byte>
    requires WellFormed(t)
  {
    if t.Literal? then [t.c] else [t.pos % 256, t.pos / 256 * 16 + (t.len - (THRESHOLD + 1))]
  }

  function ReadPair(i: byte, j: byte): Token {
    Pair(i + j / 16 * 256, j % 16 + THRESHOLD + 1)
  }

  function Body(g: seq<Token>): seq<byte>
    requires AllWellFormed(g)
  {
    if g == [] then [] else TokenBytes(g[0]) + Body(g[1..])
  }

  function Pow2(n: nat): (p: nat)
    ensures p > 0
  {
    if n == 0 then 1 else 2 * Pow2(n - 1)
  }

  /** One bit per token, the first in the lowest place, set for a literal. */
  function Flags(g: seq<Token>): (v: nat)
    ensures v < Pow2(|g|)
  {
    if g == [] then 0 else (if g[0].Literal? then 1 else 0) + 2 * Flags(g[1..])
  }

  /** A full or partial group as the encoder keeps it in code_buf. */
  function Group(g: seq<Token>): seq<byte>
    requires AllWellFormed(g) && |g| <= 8
  {
    FlagsFit(g);
    [Flags(g)] + Body(g)
  }

  lemma FlagsFit(g: seq<Token>)
    requires |g| <= 8
    ensures Flags(g) < 256
  {
    assert Pow2(8) == 256;
    Pow2Mono(|g|, 8);
  }

  lemma {:induction false} Pow2Mono(m: nat, n: nat)
    requires m <= n
    ensures Pow2(m) <= Pow2(n)
  {
    if m < n {
      Pow2Mono(m, n - 1);
    }
  }

  /** The code of a token sequence: groups of eight. */
  function Pack(ts: seq<Token>): seq<byte>
    requires AllWellFormed(ts)
  {
    if ts == [] then []
    else if |ts| <= 8 then Group(ts)
    else Group(ts[..8]) + Pack(ts[8..])
  }

  /** The lowest n bits of v, lowest first. */
  function Bits(v: nat, n: nat): (b: seq<bool>)
    ensures |b| == n
  {
    if n == 0 then [] else [v % 2 == 1] + Bits(v / 2, n - 1)
  }

  /**
   The tokens in a byte string, where flags are the bits left of the last flag byte.
   A pair cut short at the end is dropped.
   */
  function Parse(bs: seq<byte>, flags: seq<bool>): seq<Token>
    decreases |bs|
  {
    if bs == [] then []
    else if flags == [] then Parse(bs[1..], Bits(bs[0], 8))
    else if flags[0] then [Literal(bs[0])] + Parse(bs[1..], flags[1..])
    else if |bs| == 1 then []
    else [ReadPair(bs[0], bs[1])] + Parse(bs[2..], flags[1..])
  }

  // ----- Parse undoes Pack

  /** The 12/4-bit packing loses nothing. */
  lemma PairRoundTrip(t: Token)
    requires WellFormed(t) && t.Pair?
    ensures ReadPair(TokenBytes(t)[0], TokenBytes(t)[1]) == t
  {
  }

  lemma {:induction false} FlagBits(g: seq<Token>, n: nat)
    requires |g| <= n
    ensures forall i :: 0 <= i < |g| ==> Bits(Flags(g), n)[i] == g[i].Literal?
  {
    if g != [] {
      FlagBits(g[1..], n - 1);
      assert Flags(g) / 2 == Flags(g[1..]);
      forall i | 0 <= i < |g| ensures Bits(Flags(g), n)[i] == g[i].Literal? {
        if i > 0 {
          assert Bits(Flags(g), n)[i] == Bits(Flags(g[1..]), n - 1)[i - 1];
          assert g[i] == g[1..][i - 1];
        }
      }
    }
  }

  lemma Assoc<T>(a: seq<T>, b: seq<T>, c: seq<T>)
    ensures (a + b) + c == a + (b + c)
  {
  }

  /** One unit is read back from its bytes. */
  lemma ParseUnit(t: Token, after: seq<byte>, flags: seq<bool>)
    requires WellFormed(t) && flags != [] && flags[0] == t.Literal?
    ensures Parse(TokenBytes(t) + after, flags) == [t] + Parse(after, flags[1..])
  {
    var bs := TokenBytes(t) + after;
    assert bs[|TokenBytes(t)|..] == after;
    if t.Pair? {
      PairRoundTrip(t);
      assert bs[0] == TokenBytes(t)[0] && bs[1] == TokenBytes(t)[1];
    }
  }

  lemma {:induction false} ParseBody(g: seq<Token>, flags: seq<bool>, rest: seq<byte>)
    requires AllWellFormed(g) && |g| <= |flags|
    requires forall i :: 0 <= i < |g| ==> flags[i] == g[i].Literal?
    ensures Parse(Body(g) + rest, flags) == g + Parse(rest, flags[|g|..])
  {
    if g == [] {
      assert Body(g) + rest == rest && flags[0..] == flags;
    } else {
      var t, g1, f1 := g[0], g[1..], flags[1..];
      assert WellFormed(t) && flags[0] == t.Literal?;
      Assoc(TokenBytes(t), Body(g1), rest);
      ParseUnit(t, Body(g1) + rest, flags);
      ParseBody(g1, f1, rest);
      assert f1[|g1|..] == flags[|g|..];
      Assoc([t], g1, Parse(rest, flags[|g|..]));
      assert [t] + g1 == g;
    }
  }

  /** One group is read back from its flag byte and its units. */
  lemma ParseGroup(g: seq<Token>, rest: seq<byte>)
    requires AllWellFormed(g) && |g| <= 8 && (|g| == 8 || rest == [])
    ensures Parse(Group(g) + rest, []) == g + Parse(rest, [])
  {
    FlagsFit(g);
    var fl := Bits(Flags(g), 8);
    FlagBits(g, 8);
    ParseBody(g, fl, rest);
    Assoc([Flags(g) as byte], Body(g), rest);
    assert (Group(g) + rest)[1..] == Body(g) + rest;
    assert |g| == 8 ==> fl[|g|..] == [];
  }

  /** Reading back the code of any well-formed token sequence yields that sequence. */
  lemma {:induction false} ParsePack(ts: seq<Token>)
    requires AllWellFormed(ts)
    ensures Parse(Pack(ts), []) == ts
    decreases |ts|
  {
    if ts == [] {
    } else if |ts| <= 8 {
      ParseGroup(ts, []);
      assert Group(ts) + [] == Group(ts) && ts + [] == ts;
    } else {
      ParseGroup(ts[..8], Pack(ts[8..]));
      ParsePack(ts[8..]);
      assert ts[..8] + ts[8..] == ts;
    }
  }

  // ----- growing a packed sequence, as the encoder does

  lemma {:induction false} FlagsSnoc(g: seq<Token>, t: Token)
    ensures Flags(g + [t]) == Flags(g) + if t.Literal? then Pow2(|g|) else 0
  {
    if g == [] {
      assert [t][1..] == [];
    } else {
      assert (g + [t])[1..] == g[1..] + [t];
      FlagsSnoc(g[1..], t);
    }
  }

  lemma {:induction false} BodySnoc(g: seq<Token>, t: Token)
    requires AllWellFormed(g) && WellFormed(t)
    ensures AllWellFormed(g + [t]) && Body(g + [t]) == Body(g) + TokenBytes(t)
  {
    if g == [] {
      assert [t][1..] == [] && Body([t]) == TokenBytes(t);
    } else {
      assert (g + [t])[1..] == g[1..] + [t];
      BodySnoc(g[1..], t);
    }
  }

  /** Whole groups can be packed on their own. */
  lemma {:induction false} PackAppend(ts: seq<Token>, us: seq<Token>)
    requires AllWellFormed(ts) && AllWellFormed(us) && |ts| % 8 == 0
    ensures AllWellFormed(ts + us) && Pack(ts + us) == Pack(ts) + Pack(us)
    decreases |ts|
  {
    if ts == [] {
      assert ts + us == us;
    } else if us == [] {
      assert ts + us == ts;
    } else {
      var h, t := ts[..8], ts[8..];
      assert h + t == ts;
      Assoc(h, t, us);
      PackAppend(t, us);
      PackHead(h, t);
      PackHead(h, t + us);
      Assoc(Group(h), Pack(t), Pack(us));
    }
  }

  lemma PackHead(h: seq<Token>, t: seq<Token>)
    requires AllWellFormed(h) && AllWellFormed(t) && |h| == 8
    ensures AllWellFormed(h + t) && Pack(h + t) == Group(h) + Pack(t)
  {
    if t == [] {
      assert h + t == h;
    } else {
      assert (h + t)[..8] == h && (h + t)[8..] == t;
    }
  }

  lemma {:induction false} CoversSnoc(ts: seq<Token>, t: Token)
    ensures CoversAll(ts + [t]) == CoversAll(ts) + Covers(t)
  {
    if ts == [] {
      assert [t][1..] == [];
    } else {
      assert (ts + [t])[1..] == ts[1..] + [t];
      CoversSnoc(ts[1..], t);
    }
  }

  /**
   The flag bit of the next unit is still clear, a further unit fits into the 17 bytes
   of the code buffer, and the mask runs out of its byte after eight units.
   */
  lemma {:induction false} RoomForUnit(g: seq<Token>, t: Token)
    requires |g| < 8 && AllWellFormed(g) && WellFormed(t)
    ensures AllWellFormed(g + [t]) && Body(g + [t]) == Body(g) + TokenBytes(t)
    ensures 1 + |Body(g)| + |TokenBytes(t)| <= 17
    ensures Flags(g + [t]) == Flags(g) + (if t.Literal? then Pow2(|g|) else 0)
    ensures Flags(g) < 256 && Flags(g + [t]) < 256
    ensures Pow2(|g|) * 2 % 256 == if |g| == 7 then 0 else Pow2(|g| + 1)
  {
    BodySnoc(g, t);
    BodyBound(g);
    FlagsSnoc(g, t);
    FlagsFit(g);
    FlagsFit(g + [t]);
    MaskStep(|g|);
  }

  /** Shifting the mask: after eight units it runs out of its byte. */
  lemma MaskStep(n: nat)
    requires n < 8
    ensures Pow2(n) * 2 % 256 == if n == 7 then 0 else Pow2(n + 1)
  {
    assert Pow2(1) == 2 && Pow2(2) == 4 && Pow2(3) == 8 && Pow2(4) == 16;
    assert Pow2(5) == 32 && Pow2(6) == 64 && Pow2(7) == 128;
  }

  // ----- the bit tricks of the decoder's flag register

  /** n ones. */
  function Ones(n: nat): nat {
    if n == 0 then 0 else 2 * Ones(n - 1) + 1
  }

  /**
   The register after shifting out the last flag: the flags not yet used, lowest first,
   then as many ones, counted from bit 8 of the next shift on.
   */
  predicate Register(flags: nat, left: seq<bool>) {
    flags / 2 / 256 == Ones(|left|) && Bits(flags / 2, |left|) == left
  }

  /** Bits above the lowest n do not matter. */
  lemma {:induction false} BitsLow(v: nat, w: nat, n: nat)
    ensures Bits(v + Pow2(n) * w, n) == Bits(v, n)
  {
    if n > 0 {
      assert Pow2(n) * w == 2 * (Pow2(n - 1) * w);
      BitsLow(v / 2, w, n - 1);
      assert (v + Pow2(n) * w) / 2 == v / 2 + Pow2(n - 1) * w;
    }
  }

  /** A fresh flag byte with ones above it. */
  lemma RegisterLoad(c: byte)
    ensures Bits(c + 0xff00, 8) == Bits(c, 8)
    ensures ((c + 0xff00) % 2 == 1) == Bits(c, 8)[0]
    ensures Register(c + 0xff00, Bits(c, 8)[1..])
  {
    assert Pow2(8) * 255 == 0xff00;
    BitsLow(c, 255, 8);
    assert Ones(7) == 127;
    assert Bits((c + 0xff00) / 2, 7) == Bits(c + 0xff00, 8)[1..];
  }

  /** Shifting: bit 8 tells whether a flag is left, bit 0 is that flag. */
  lemma RegisterShift(flags: nat, left: seq<bool>)
    requires Register(flags, left)
    ensures flags / 2 / 256 % 2 == 0 <==> left == []
    ensures left != [] ==> (flags / 2 % 2 == 1) == left[0] && Register(flags / 2, left[1..])
  {
    if left != [] {
      assert Bits(flags / 2, |left|)[1..] == Bits(flags / 2 / 2, |left| - 1);
      assert Ones(|left|) / 2 == Ones(|left| - 1);
    }
  }

  // ----- sizes

  lemma {:induction false} BodyBound(g: seq<Token>)
    requires AllWellFormed(g)
    ensures |g| <= |Body(g)| <= CoversAll(g) && |Body(g)| <= 2 * |g|
  {
    if g != [] {
      BodyBound(g[1..]);
    }
  }

  lemma {:induction false} CoversSplit(a: seq<Token>, b: seq<Token>)
    ensures CoversAll(a + b) == CoversAll(a) + CoversAll(b)
  {
    if a == [] {
      assert a + b == b;
    } else {
      assert (a + b)[1..] == a[1..] + b;
      CoversSplit(a[1..], b);
    }
  }

  /** Packing never adds more than one byte in eight. */
  lemma {:induction false} PackBound(ts: seq<Token>)
    requires AllWellFormed(ts)
    ensures |Pack(ts)| <= CoversAll(ts) + (CoversAll(ts) + 7) / 8
    decreases |ts|
  {
    if ts != [] {
      if |ts| <= 8 {
        BodyBound(ts);
      } else {
        BodyBound(ts[..8]);
        PackBound(ts[8..]);
        CoversSplit(ts[..8], ts[8..]);
        assert ts == ts[..8] + ts[8..];
      }
    }
  }

  /** No input, well formed or not, expands by more than 144/17. */
  lemma {:induction false} ExpansionBound(bs: seq<byte>, flags: seq<bool>)
    requires |flags| <= 8
    ensures 17 * CoversAll(Parse(bs, flags)) <= 144 * |bs| + 18 * |flags|
    decreases |bs|
  {
    if bs == [] {
    } else if flags == [] {
      ExpansionBound(bs[1..], Bits(bs[0], 8));
    } else if flags[0] {
      ExpansionBound(bs[1..], flags[1..]);
    } else if |bs| > 1 {
      ExpansionBound(bs[2..], flags[1..]);
    }
  }
}
