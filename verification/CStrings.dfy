/** Strings of C: bytes up to the first NUL, and what string.h does with them. */
module CStrings {
  import opened Config

  function Ascii(s: string): (bs: seq<byte>)
    requires forall i :: 0 <= i < |s| ==> s[i] < 256 as char
    ensures |bs| == |s|
  {
    seq(|s|, i requires 0 <= i < |s| => s[i] as int)
  }

  /** The text of a C string: what stands before the first NUL. */
  function Text(input: seq<byte>): (text: seq<byte>)
    requires 0 in input
    ensures |text| < |input| && input[..|text|] == text && input[|text|] == 0 && 0 !in text
  {
    if input[0] == 0 then [] else [input[0]] + Text(input[1..])
  }

  lemma ReadFront(input: seq<byte>, i: nat)
    requires 0 in input && i <= |Text(input)|
    ensures i < |input| && (input[i] == 0 <==> i == |Text(input)|)
    ensures i < |Text(input)| ==> input[i] == Text(input)[i]
  {
    if i < |Text(input)| {
      assert input[..|Text(input)|][i] == Text(input)[i];
      assert Text(input)[i] in Text(input);
    }
  }

  lemma {:induction false} TextIs(cells: seq<byte>, text: seq<byte>)
    requires |text| < |cells| && cells[..|text|] == text && cells[|text|] == 0 && 0 !in text
    ensures 0 in cells && Text(cells) == text
    decreases |text|
  {
    assert cells[|text|] in cells;
    if text != [] {
      assert cells[0] == cells[..|text|][0] == text[0] && text[0] in text;
      assert cells[1..][..|text| - 1] == cells[..|text|][1..];
      TextIs(cells[1..], text[1..]);
    }
  }

  predicate OccursAt(h: seq<byte>, n: seq<byte>, i: nat) {
    i + |n| <= |h| && h[i..i + |n|] == n
  }

  /** strstr from index i on: the first occurrence before the terminating NUL, or -1. */
  function Strstr(h: seq<byte>, n: seq<byte>, i: nat): (j: int)
    ensures j == -1 || (i <= j && OccursAt(h, n, j))
    decreases |h| - i
  {
    if OccursAt(h, n, i) then i
    else if i >= |h| || h[i] == 0 then -1
    else Strstr(h, n, i + 1)
  }

  /** Before what strstr finds there is no occurrence; it finds nothing only if none starts before the NUL. */
  lemma {:induction false} StrstrFirst(h: seq<byte>, n: seq<byte>, i: nat, k: nat)
    requires i <= k && OccursAt(h, n, k) && 0 !in h[i..k]
    ensures i <= Strstr(h, n, i) <= k
    decreases k - i
  {
    if i < k && !OccursAt(h, n, i) {
      assert h[i] == h[i..k][0];
      assert h[i + 1..k] == h[i..k][1..];
      StrstrFirst(h, n, i + 1, k);
    }
  }

  /** The first occurrence from index i on is at k, and no NUL stands between. */
  predicate FirstAt(h: seq<byte>, n: seq<byte>, i: nat, k: nat) {
    i <= k && OccursAt(h, n, k) && 0 !in h[i..k] && forall m :: i <= m < k ==> !OccursAt(h, n, m)
  }

  /** Strstr is that place; there is none exactly when Strstr is -1. */
  lemma {:induction false} StrstrIs(h: seq<byte>, n: seq<byte>, i: nat)
    requires i <= |h|
    ensures Strstr(h, n, i) == -1 ==> forall k: nat :: !FirstAt(h, n, i, k)
    ensures Strstr(h, n, i) >= 0 ==> FirstAt(h, n, i, Strstr(h, n, i))
    decreases |h| - i
  {
    if !OccursAt(h, n, i) && i < |h| && h[i] != 0 {
      StrstrIs(h, n, i + 1);
      var j := Strstr(h, n, i + 1);
      if j >= 0 {
        assert h[i..j] == [h[i]] + h[i + 1..j];
      } else {
        forall k: nat ensures !FirstAt(h, n, i, k) {
          if FirstAt(h, n, i, k) {
            assert i < k && h[i + 1..k] == h[i..k][1..];
            assert FirstAt(h, n, i + 1, k);
          }
        }
      }
    } else if !OccursAt(h, n, i) {
      forall k: nat ensures !FirstAt(h, n, i, k) {
        if i < k <= |h| {
          assert h[i..k][0] == h[i];
        }
      }
    }
  }

  /** What is first is unique. */
  lemma FirstUnique(h: seq<byte>, n: seq<byte>, i: nat, k: nat)
    requires i <= |h| && FirstAt(h, n, i, k)
    ensures Strstr(h, n, i) == k
  {
    StrstrIs(h, n, i);
  }

  /** Copies a text and its NUL to cell j on, as strcpy does. */
  method StrcpyAt(output: array<byte>, j: nat, unit: seq<byte>)
    requires j + |unit| < output.Length
    modifies output
    ensures forall k :: 0 <= k < |unit| ==> output[j + k] == unit[k]
    ensures output[j + |unit|] == 0
    ensures forall k :: 0 <= k < output.Length && !(j <= k <= j + |unit|) ==> output[k] == old(output[k])
  {
    for i := 0 to |unit|
      invariant forall k :: 0 <= k < i ==> output[j + k] == unit[k]
      invariant forall k :: 0 <= k < output.Length && !(j <= k < j + i) ==> output[k] == old(output[k])
    {
      output[j + i] := unit[i];
    }
    output[j + |unit|] := 0;
  }
}
