/** The method Decode, over arrays. */
module Decoding {
  import opened Config
  import opened Matching
  import opened Tokens
  import opened History
  import opened BitOperators

  /** The decoder that the locals of Decode stand for. */
  ghost function Now(textBuf: array<byte>, r: nat, ucOutput: array<byte>, n: nat): Decoder
    requires textBuf.Length == N + F - 1 && n <= ucOutput.Length
    reads textBuf, ucOutput
  {
    Decoder(textBuf[..], r, ucOutput[..n])
  }

  /** What is left to do when the next unit is a literal. */
  lemma LiteralNext(d: Decoder, bs: seq<byte>, left: seq<bool>)
    requires d.r < N && bs != [] && left != [] && left[0]
    ensures d.ApplyAll(Parse(bs, left)) == d.Emit(bs[0]).ApplyAll(Parse(bs[1..], left[1..]))
    ensures CoversAll(Parse(bs, left)) == 1 + CoversAll(Parse(bs[1..], left[1..]))
  {
    var ts := Parse(bs[1..], left[1..]);
    assert ([Literal(bs[0])] + ts)[1..] == ts;
  }

  /** What is left to do when the next unit is a whole pair. */
  lemma PairNext(d: Decoder, bs: seq<byte>, left: seq<bool>)
    requires d.r < N && |bs| >= 2 && left != [] && !left[0]
    ensures var t := ReadPair(bs[0], bs[1]);
      && d.ApplyAll(Parse(bs, left)) == d.Copy(t.pos, t.len).ApplyAll(Parse(bs[2..], left[1..]))
      && CoversAll(Parse(bs, left)) == t.len + CoversAll(Parse(bs[2..], left[1..]))
  {
    var ts := Parse(bs[2..], left[1..]);
    assert ([ReadPair(bs[0], bs[1])] + ts)[1..] == ts;
  }

  /** One byte to the output and into the ring. */
  method EmitByte(textBuf: array<byte>, r: nat, ucOutput: array<byte>, n: nat, c: byte) returns (r2: nat)
    requires textBuf.Length == N + F - 1 && r < N && n < ucOutput.Length && textBuf != ucOutput
    modifies textBuf, ucOutput
    ensures r2 < N && Now(textBuf, r2, ucOutput, n + 1) == old(Now(textBuf, r, ucOutput, n)).Emit(c)
    ensures ucOutput[n + 1..] == old(ucOutput[n + 1..])
  {
    ucOutput[n] := c;
    textBuf[r] := c;
    r2 := Wrap(r + 1);
    assert ucOutput[..n + 1] == old(ucOutput[..n]) + [c];
  }

  /** The copy of a pair: the source's loop from 0 to and including j. */
  method CopyPair(textBuf: array<byte>, r: nat, ucOutput: array<byte>, n: nat, i: nat, j: nat) returns (r2: nat)
    requires textBuf.Length == N + F - 1 && r < N && n + j + 1 <= ucOutput.Length && textBuf != ucOutput
    modifies textBuf, ucOutput
    ensures r2 < N && Now(textBuf, r2, ucOutput, n + j + 1) == old(Now(textBuf, r, ucOutput, n)).Copy(i, j + 1)
    ensures ucOutput[n + j + 1..] == old(ucOutput[n + j + 1..])
  {
    ghost var goal := Now(textBuf, r, ucOutput, n).Copy(i, j + 1);
    ghost var tail := ucOutput[n + j + 1..];
    r2 := r;
    var k := 0;
    while k <= j
      invariant 0 <= k <= j + 1 && r2 < N
      invariant Now(textBuf, r2, ucOutput, n + k).Copy(i + k, j + 1 - k) == goal
      invariant ucOutput[n + j + 1..] == tail
    {
      var c := textBuf[Wrap(i + k)];
      ghost var rest := ucOutput[n + k + 1..];
      r2 := EmitByte(textBuf, r2, ucOutput, n + k, c);
      assert ucOutput[n + j + 1..] == rest[j - k..];
      k := k + 1;
    }
  }

  /** The ring of the decoder, its first N - F cells cleared; junk is what the memory held before. */
  method ClearedBuffer(junk: Text) returns (textBuf: array<byte>)
    ensures fresh(textBuf) && textBuf[..] == seq(START, _ => SPACE) + junk[START..]
  {
    textBuf := new byte[N + F - 1](i requires 0 <= i < |junk| => junk[i]);
    for i := 0 to N - F
      invariant forall j :: 0 <= j < textBuf.Length ==> textBuf[j] == if j < i then SPACE else junk[j]
    {
      textBuf[i] := SPACE;
    }
  }

  /** Fetches a byte of the input; behind the end of the array it may be any byte. */
  method Fetch(ucInput: array<byte>, ulPos: nat) returns (c: byte)
    ensures ulPos < ucInput.Length ==> c == ucInput[ulPos]
  {
    c := *;
    if ulPos < ucInput.Length {
      c := ucInput[ulPos];
    }
  }

  /** An unencoded byte. It stops when the input ends before it. */
  method DecodeLiteral(textBuf: array<byte>, r: nat, ucInput: array<byte>, inLen: nat, ulPos: nat,
                       ucOutput: array<byte>, n: nat, ghost left: seq<bool>)
    returns (more: bool, r2: nat, pos2: nat, n2: nat)
    requires textBuf.Length == N + F - 1 && r < N && ulPos <= inLen <= ucInput.Length
    requires textBuf != ucOutput && textBuf != ucInput && ucInput != ucOutput && left != [] && left[0]
    requires n + CoversAll(Parse(ucInput[ulPos..inLen], left)) <= ucOutput.Length
    modifies textBuf, ucOutput
    ensures r2 < N && n <= n2 <= ucOutput.Length
    ensures more ==> ulPos < pos2 <= inLen
    ensures more ==>
      n2 + CoversAll(Parse(ucInput[pos2..inLen], left[1..])) == n + CoversAll(Parse(ucInput[ulPos..inLen], left))
    ensures more ==>
      Now(textBuf, r2, ucOutput, n2).ApplyAll(Parse(ucInput[pos2..inLen], left[1..]))
      == old(Now(textBuf, r, ucOutput, n)).ApplyAll(Parse(ucInput[ulPos..inLen], left))
    ensures !more ==> Parse(ucInput[ulPos..inLen], left) == [] && n2 == n && r2 == r
    ensures !more ==> textBuf[..] == old(textBuf[..]) && ucOutput[..] == old(ucOutput[..])
    ensures ucOutput[n2..] == old(ucOutput[n2..])
  {
    ghost var rest, d := ucInput[ulPos..inLen], Now(textBuf, r, ucOutput, n);
    var c := Fetch(ucInput, ulPos);
    r2, pos2, n2 := r, ulPos + 1, n;
    if pos2 > inLen {
      return false, r2, pos2, n2;
    }
    LiteralNext(d, rest, left);
    assert ucInput[pos2..inLen] == rest[1..];
    r2 := EmitByte(textBuf, r2, ucOutput, n2, c);
    n2 := n2 + 1;
    more := true;
  }

  /** Position and length in the two bytes of a pair. */
  method UnpackPair(i0: nat, j0: nat) returns (i: nat, j: nat)
    requires i0 < 256 && j0 < 256
    ensures Pair(i, j + 1) == ReadPair(i0, j0)
  {
    i := PairPosition(i0, j0);
    j := LowNibble(j0) + THRESHOLD;
  }

  /** A pair to copy. It stops when the input ends inside it. */
  method DecodePair(textBuf: array<byte>, r: nat, ucInput: array<byte>, inLen: nat, ulPos: nat,
                    ucOutput: array<byte>, n: nat, ghost left: seq<bool>)
    returns (more: bool, r2: nat, pos2: nat, n2: nat)
    requires textBuf.Length == N + F - 1 && r < N && ulPos <= inLen <= ucInput.Length
    requires textBuf != ucOutput && textBuf != ucInput && ucInput != ucOutput && left != [] && !left[0]
    requires n + CoversAll(Parse(ucInput[ulPos..inLen], left)) <= ucOutput.Length
    modifies textBuf, ucOutput
    ensures r2 < N && n <= n2 <= ucOutput.Length
    ensures more ==> ulPos < pos2 <= inLen
    ensures more ==>
      n2 + CoversAll(Parse(ucInput[pos2..inLen], left[1..])) == n + CoversAll(Parse(ucInput[ulPos..inLen], left))
    ensures more ==>
      Now(textBuf, r2, ucOutput, n2).ApplyAll(Parse(ucInput[pos2..inLen], left[1..]))
      == old(Now(textBuf, r, ucOutput, n)).ApplyAll(Parse(ucInput[ulPos..inLen], left))
    ensures !more ==> Parse(ucInput[ulPos..inLen], left) == [] && n2 == n && r2 == r
    ensures !more ==> textBuf[..] == old(textBuf[..]) && ucOutput[..] == old(ucOutput[..])
    ensures ucOutput[n2..] == old(ucOutput[n2..])
  {
    ghost var rest, d := ucInput[ulPos..inLen], Now(textBuf, r, ucOutput, n);
    var i: nat := Fetch(ucInput, ulPos);
    r2, pos2, n2 := r, ulPos + 1, n;
    if pos2 > inLen {
      return false, r2, pos2, n2;
    }
    var j: nat := Fetch(ucInput, pos2);
    pos2 := pos2 + 1;
    if pos2 > inLen {
      return false, r2, pos2, n2;
    }
    PairNext(d, rest, left);
    assert ucInput[pos2..inLen] == rest[2..];
    i, j := UnpackPair(i, j);
    r2 := CopyPair(textBuf, r2, ucOutput, n2, i, j);
    n2 := n2 + j + 1;
    more := true;
  }

  /** One unit of code: a byte, or a pair to copy. It stops when the input ends inside the unit. */
  method DecodeUnit(textBuf: array<byte>, r: nat, ucInput: array<byte>, inLen: nat, ulPos: nat,
                    ucOutput: array<byte>, n: nat, flags: nat, ghost left: seq<bool>)
    returns (more: bool, r2: nat, pos2: nat, n2: nat)
    requires textBuf.Length == N + F - 1 && r < N && ulPos <= inLen <= ucInput.Length
    requires textBuf != ucOutput && textBuf != ucInput && ucInput != ucOutput
    requires left != [] && (flags % 2 == 1) == left[0]
    requires n + CoversAll(Parse(ucInput[ulPos..inLen], left)) <= ucOutput.Length
    modifies textBuf, ucOutput
    ensures r2 < N && n <= n2 <= ucOutput.Length
    ensures more ==> ulPos < pos2 <= inLen
    ensures more ==>
      n2 + CoversAll(Parse(ucInput[pos2..inLen], left[1..])) == n + CoversAll(Parse(ucInput[ulPos..inLen], left))
    ensures more ==>
      Now(textBuf, r2, ucOutput, n2).ApplyAll(Parse(ucInput[pos2..inLen], left[1..]))
      == old(Now(textBuf, r, ucOutput, n)).ApplyAll(Parse(ucInput[ulPos..inLen], left))
    ensures !more ==> Parse(ucInput[ulPos..inLen], left) == [] && n2 == n && r2 == r
    ensures !more ==> textBuf[..] == old(textBuf[..]) && ucOutput[..] == old(ucOutput[..])
    ensures ucOutput[n2..] == old(ucOutput[n2..])
  {
    if BitZero(flags) != 0 {
      more, r2, pos2, n2 := DecodeLiteral(textBuf, r, ucInput, inLen, ulPos, ucOutput, n, left);
    } else {
      more, r2, pos2, n2 := DecodePair(textBuf, r, ucInput, inLen, ulPos, ucOutput, n, left);
    }
  }

  /** The flag of the next unit comes to bit 0; when the eight are used up, the next byte is loaded. */
  method NextFlag(ucInput: array<byte>, inLen: nat, ulPos0: nat, flags0: nat, ghost left0: seq<bool>)
    returns (more: bool, flags: nat, ulPos: nat, ghost left: seq<bool>)
    requires ulPos0 <= inLen <= ucInput.Length && Register(flags0, left0)
    ensures !more ==> Parse(ucInput[ulPos0..inLen], left0) == []
    ensures more ==> ulPos0 <= ulPos <= inLen && left != [] && (flags % 2 == 1) == left[0] && Register(flags, left[1..])
    ensures more ==> Parse(ucInput[ulPos..inLen], left) == Parse(ucInput[ulPos0..inLen], left0)
  {
    RegisterShift(flags0, left0);
    flags, ulPos, left := flags0 / 2, ulPos0, left0;
    if BitEight(flags) == 0 {
      var c := Fetch(ucInput, ulPos);
      ulPos := ulPos + 1;
      if ulPos > inLen {
        return false, flags, ulPos, left;
      }
      RegisterLoad(c);
      flags := Loaded(c);
      assert ucInput[ulPos0..inLen][1..] == ucInput[ulPos..inLen];
      left := Bits(c, 8);
    }
    more := true;
  }

  /**
   Rebuilds the text from its code. The buffer is allocated but only its first N - F
   cells are cleared; junk is what that memory held before. Every byte is fetched before
   the test whether it was one too many.
   */
  method Decode(ucInput: array<byte>, inLen: nat, ucOutput: array<byte>, junk: Text) returns (ulExpLen: nat)
    requires inLen <= ucInput.Length && ucInput != ucOutput
    requires CoversAll(Parse(ucInput[..inLen], [])) <= ucOutput.Length
    modifies ucOutput
    ensures ulExpLen == CoversAll(Parse(ucInput[..inLen], [])) && ulExpLen <= ucOutput.Length
    ensures ucOutput[..ulExpLen] == Decoded(ucInput[..inLen], junk)
    ensures ucOutput[ulExpLen..] == old(ucOutput[ulExpLen..])
  {
    ghost var before := ucOutput[..];
    var textBuf := ClearedBuffer(junk);
    var r: nat, flags: nat, ulPos: nat := N - F, 0, 0;
    ulExpLen := 0;
    ghost var left: seq<bool> := [];
    ghost var goal := Now(textBuf, r, ucOutput, 0).ApplyAll(Parse(ucInput[..inLen], []));
    ghost var total := CoversAll(Parse(ucInput[..inLen], []));
    assert ucInput[0..inLen] == ucInput[..inLen];
    while true
      invariant ulPos <= inLen && r < N && ulExpLen <= ucOutput.Length
      invariant Register(flags, left)
      invariant ulExpLen + CoversAll(Parse(ucInput[ulPos..inLen], left)) == total
      invariant Now(textBuf, r, ucOutput, ulExpLen).ApplyAll(Parse(ucInput[ulPos..inLen], left)) == goal
      invariant ucOutput[ulExpLen..] == before[ulExpLen..]
      decreases inLen - ulPos
    {
      var more;
      more, flags, ulPos, left := NextFlag(ucInput, inLen, ulPos, flags, left);
      if !more {
        break;
      }
      ghost var rest := before[ulExpLen..];
      ghost var n := ulExpLen;
      more, r, ulPos, ulExpLen := DecodeUnit(textBuf, r, ucInput, inLen, ulPos, ucOutput, ulExpLen, flags, left);
      if !more {
        break;
      }
      assert ucOutput[ulExpLen..] == before[ulExpLen..] by {
        assert rest[ulExpLen - n..] == before[ulExpLen..];
      }
      left := left[1..];
    }
  }
}
