/**
 What tokens mean. The text is seen as one unbounded history: N - F spaces, then the
 input. The decoder's ring is a window on it.
 */
module History {
  import opened Config
  import opened Matching
  import opened Tokens

  const START: int := N - F   // absolute position of the first input byte

  /** The byte at an absolute position of the history of x. */
  function At(x: seq<byte>, a: int): byte
    requires 0 <= a < START + |x|
  {
    if a < START then SPACE else x[a - START]
  }

  // ----- the decoder on values

  datatype Decoder = Decoder(ring: Text, r: nat, out: seq<byte>) {
    /** One byte to the output and into the ring. */
    function Emit(c: byte): (d: Decoder)
      requires r < N
      ensures d.r < N
    {
      Decoder(ring[r := c], Cell(r + 1), out + [c])
    }

    /** n bytes copied one by one from cell i on; the copy may run into its own output. */
    function Copy(i: nat, n: nat): (d: Decoder)
      requires r < N
      ensures d.r < N
      decreases n
    {
      if n == 0 then this else Emit(ring[Cell(i)]).Copy(i + 1, n - 1)
    }

    function Apply(t: Token): (d: Decoder)
      requires r < N
      ensures d.r < N
    {
      if t.Literal? then Emit(t.c) else Copy(t.pos, t.len)
    }

    function ApplyAll(ts: seq<Token>): (d: Decoder)
      requires r < N
      ensures d.r < N
      decreases |ts|
    {
      if ts == [] then this else Apply(ts[0]).ApplyAll(ts[1..])
    }
  }

  /** The start of Decode: a buffer of which only the first N - F cells are cleared. */
  function Cleared(junk: Text): Decoder {
    Decoder(seq(START, _ => SPACE) + junk[START..], START, [])
  }

  /** What Decode makes of bs when its buffer holds junk before the clearing loop. */
  function Decoded(bs: seq<byte>, junk: Text): seq<byte> {
    Cleared(junk).ApplyAll(Parse(bs, [])).out
  }

  lemma {:induction false} CopyLength(d: Decoder, i: nat, n: nat)
    requires d.r < N
    ensures |d.Copy(i, n).out| == |d.out| + n
    decreases n
  {
    if n > 0 {
      CopyLength(d.Emit(d.ring[Cell(i)]), i + 1, n - 1);
    }
  }

  /** The output has the length that the tokens announce, whatever the ring holds. */
  lemma {:induction false} ApplyLength(d: Decoder, ts: seq<Token>)
    requires d.r < N
    ensures |d.ApplyAll(ts).out| == |d.out| + CoversAll(ts)
    decreases |ts|
  {
    if ts != [] {
      if ts[0].Pair? {
        CopyLength(d, ts[0].pos, ts[0].len);
      }
      ApplyLength(d.Apply(ts[0]), ts[1..]);
    }
  }

  // ----- sound tokens

  /** The latest absolute position before r that lies in ring cell pos. */
  function Source(r: int, pos: nat): (a: int)
    requires pos < N
    ensures r - N <= a < r && Cell(a) == pos
  {
    r - 1 - (r - 1 - pos) % N
  }

  /** The bytes j places after a and after r are the same. */
  predicate Echo(x: seq<byte>, a: int, r: int, j: int)
    requires 0 <= a + j < START + |x| && 0 <= r + j < START + |x|
  {
    At(x, a + j) == At(x, r + j)
  }

  /** From position r on, t says what the text says, and refers back at most N - F bytes. */
  predicate SoundAt(x: seq<byte>, r: int, t: Token)
    requires r >= START
  {
    match t
    case Literal(c) => r < START + |x| && At(x, r) == c
    case Pair(pos, len) =>
      && pos < N && r + len <= START + |x|
      && r - START <= Source(r, pos)
      && forall j :: 0 <= j < len ==> Echo(x, Source(r, pos), r, j)
  }

  /** The tokens spell out the text from r to its end. */
  predicate Sound(x: seq<byte>, r: int, ts: seq<Token>)
    requires r >= START
    decreases |ts|
  {
    if ts == [] then r == START + |x|
    else SoundAt(x, r, ts[0]) && Sound(x, r + Covers(ts[0]), ts[1..])
  }

  /** The ring shows the last N - F bytes of the history before r. */
  ghost predicate Shows(x: seq<byte>, ring: Text, r: int)
    requires START <= r <= START + |x|
  {
    forall a :: r - START <= a < r ==> ring[Cell(a)] == At(x, a)
  }

  /** A decoder that is at r in the text of x has put out all text before r. */
  ghost predicate InStep(x: seq<byte>, d: Decoder, r: int) {
    START <= r <= START + |x| && d.r == Cell(r) && Shows(x, d.ring, r) && d.out == x[..r - START]
  }

  lemma EmitInStep(x: seq<byte>, d: Decoder, r: int)
    requires InStep(x, d, r) && r < START + |x|
    ensures InStep(x, d.Emit(At(x, r)), r + 1)
  {
    var e := d.Emit(At(x, r));
    forall a | r + 1 - START <= a < r + 1 ensures e.ring[Cell(a)] == At(x, a) {
      assert a < r ==> Cell(a) != Cell(r) && d.ring[Cell(a)] == At(x, a);
    }
    assert x[..r + 1 - START] == x[..r - START] + [x[r - START]];
  }

  lemma CellNext(a: int, b: int)
    requires Cell(a) == Cell(b)
    ensures Cell(a + 1) == Cell(b + 1)
  {
  }

  /** One byte of a copy. */
  lemma CopyByte(x: seq<byte>, d: Decoder, r: int, i: nat, a: int)
    requires InStep(x, d, r) && r < START + |x|
    requires r - START <= a < r && Cell(a) == Cell(i) && Echo(x, a, r, 0)
    ensures InStep(x, d.Emit(d.ring[Cell(i)]), r + 1)
  {
    assert d.ring[Cell(a)] == At(x, a);
    EmitInStep(x, d, r);
  }

  /** The n bytes from a and from r are the same, and a lies at most N - F before r. */
  predicate Echoes(x: seq<byte>, a: int, r: int, n: nat) {
    START <= r && r - START <= a < r && r + n <= START + |x| && forall j :: 0 <= j < n ==> Echo(x, a, r, j)
  }

  lemma EchoOn(x: seq<byte>, a: int, r: int, n: nat)
    requires Echoes(x, a, r, n) && n > 0
    ensures Echo(x, a, r, 0) && Echoes(x, a + 1, r + 1, n - 1)
  {
    var a1, r1 := a + 1, r + 1;
    forall j | 0 <= j < n - 1 ensures Echo(x, a1, r1, j) {
      assert Echo(x, a, r, j + 1);
    }
  }

  /** One byte of a copy, and what is left of it. */
  lemma CopyOn(x: seq<byte>, d: Decoder, r: int, i: nat, a: int, n: nat) returns (e: Decoder)
    requires InStep(x, d, r) && Echoes(x, a, r, n) && Cell(a) == Cell(i) && n > 0
    ensures e == d.Emit(d.ring[Cell(i)]) && InStep(x, e, r + 1) && Echoes(x, a + 1, r + 1, n - 1)
    ensures Cell(a + 1) == Cell(i + 1)
  {
    EchoOn(x, a, r, n);
    CopyByte(x, d, r, i, a);
    CellNext(a, i);
    e := d.Emit(d.ring[Cell(i)]);
  }

  /**
   Byte by byte, a copy from back position a writes the text that starts at r, even
   where it reads what it has just written.
   */
  lemma {:induction false} CopyInStep(x: seq<byte>, d: Decoder, r: int, i: nat, a: int, n: nat)
    requires InStep(x, d, r) && Echoes(x, a, r, n) && Cell(a) == Cell(i)
    ensures InStep(x, d.Copy(i, n), r + n)
    decreases n
  {
    if n > 0 {
      var e := CopyOn(x, d, r, i, a, n);
      CopyInStep(x, e, r + 1, i + 1, a + 1, n - 1);
    }
  }

  lemma ApplyInStep(x: seq<byte>, d: Decoder, r: int, t: Token)
    requires InStep(x, d, r) && SoundAt(x, r, t)
    ensures InStep(x, d.Apply(t), r + Covers(t))
  {
    if t.Literal? {
      EmitInStep(x, d, r);
    } else {
      CopyInStep(x, d, r, t.pos, Source(r, t.pos), t.len);
    }
  }

  /** Lockstep: after each sound token the decoder is where the encoder was. */
  lemma {:induction false} SoundInStep(x: seq<byte>, d: Decoder, r: int, ts: seq<Token>)
    requires InStep(x, d, r) && Sound(x, r, ts)
    ensures InStep(x, d.ApplyAll(ts), START + |x|)
    decreases |ts|
  {
    if ts != [] {
      ApplyInStep(x, d, r, ts[0]);
      SoundInStep(x, d.Apply(ts[0]), r + Covers(ts[0]), ts[1..]);
    }
  }

  lemma ClearedInStep(x: seq<byte>, junk: Text)
    ensures InStep(x, Cleared(junk), START)
  {
  }

  /** Sound tokens, packed, decode to the text whatever the buffer held before. */
  lemma SoundDecodes(x: seq<byte>, ts: seq<Token>, junk: Text)
    requires AllWellFormed(ts) && Sound(x, START, ts)
    ensures Decoded(Pack(ts), junk) == x
  {
    ClearedInStep(x, junk);
    SoundInStep(x, Cleared(junk), START, ts);
    ParsePack(ts);
    assert x[..|x|] == x;
  }
}
