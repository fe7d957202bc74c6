/** What the codec is for: main results about Encode and Decode. */
module Theorems {
  import opened Config
  import opened Trees
  import opened LinkArrays
  import opened Matching
  import opened DictionaryModel
  import opened Tokens
  import opened History
  import opened SlidingWindow
  import opened EncoderModel
  import opened Encoding
  import opened Decoding

  // ----- the round trip

  /** For every input, and whatever the decoder's buffer held before, decoding restores the input. */
  lemma RoundTrip(x: seq<byte>, junk: Text)
    ensures Decoded(Encoded(x), junk) == x
  {
    if x == [] {
      assert Pack([]) == [];
    } else {
      StartGood(x);
      TokensSound(Start(x));
      SoundDecodes(x, EncodedTokens(x), junk);
    }
  }

  /** Each token sent stands for the longest match that the window offers at its place. */
  lemma EncodedGreedy(x: seq<byte>)
    ensures Greedy(x, START, EncodedTokens(x)) && Sound(x, START, EncodedTokens(x))
    ensures CoversAll(EncodedTokens(x)) == |x|
  {
    if x != [] {
      StartGood(x);
      TokensSound(Start(x));
      TokensGreedy(Start(x));
    }
    SoundCovers(x, START, EncodedTokens(x));
  }

  /** The code is at most an eighth, rounded up, longer than the input. */
  lemma EncodedSize(x: seq<byte>)
    ensures |Encoded(x)| <= |x| + (|x| + 7) / 8
  {
    EncodedGreedy(x);
    PackBound(EncodedTokens(x));
  }

  /** The text that a code announces, token by token, has the length of the input. */
  lemma EncodedExpansion(x: seq<byte>)
    ensures CoversAll(Parse(Encoded(x), [])) == |x|
  {
    ParsePack(EncodedTokens(x));
    EncodedGreedy(x);
  }

  /** The two methods, one after the other, on buffers of the promised sizes. */
  method CompressAndRestore(ucInput: array<byte>, inLen: nat, code: array<byte>, restored: array<byte>, junk: Text)
    returns (codeLen: nat, outLen: nat)
    requires inLen <= ucInput.Length && inLen + (inLen + 7) / 8 <= code.Length && inLen <= restored.Length
    requires ucInput != code && code != restored && ucInput != restored
    modifies code, restored
    ensures outLen == inLen && restored[..outLen] == ucInput[..inLen]
    ensures codeLen <= inLen + (inLen + 7) / 8
  {
    ghost var x := ucInput[..inLen];
    EncodedSize(x);
    codeLen := Encode(ucInput, inLen, code);
    EncodedExpansion(x);
    outLen := Decode(code, codeLen, restored, junk);
    RoundTrip(x, junk);
  }

  // ----- the expansion rate

  /** The longest expansion: eight pairs of full length. */
  ghost function FullPairs(): seq<Token> {
    seq(8, _ => Pair(0, F))
  }

  lemma {:induction false} FullPairsSize(n: nat)
    ensures var ts := seq(n, _ => Pair(0, F));
      AllWellFormed(ts) && |Body(ts)| == 2 * n && CoversAll(ts) == 18 * n
  {
    if n > 0 {
      FullPairsSize(n - 1);
      assert seq(n, _ => Pair(0, F))[1..] == seq(n - 1, _ => Pair(0, F));
    }
  }

  /**
   A buffer of rate times the code length holds what Decode writes, for every code,
   exactly when the rate is at least 9.
   */
  lemma {:induction false} RateSuffices(rate: nat)
    ensures (forall bs: seq<byte> :: CoversAll(Parse(bs, [])) <= |bs| * rate) <==> rate >= 9
  {
    if rate >= 9 {
      forall bs: seq<byte> ensures CoversAll(Parse(bs, [])) <= |bs| * rate {
        ExpansionBound(bs, []);
        assert |bs| * rate >= |bs| * 9;
      }
    } else {
      FullPairsSize(8);
      ParsePack(FullPairs());
      var bs := Pack(FullPairs());
      assert CoversAll(Parse(bs, [])) == 144 && |bs| * rate <= 17 * 8;
    }
  }

  // ----- the dictionary in every reachable state

  /** n bytes into the input. */
  ghost function After(x: seq<byte>, n: nat): (st: Running)
    requires x != [] && n <= |x|
    ensures st.Here() == START + n && st.x == x
  {
    StartGood(x);
    Steps(Start(x), n)
  }

  /** Position p is one of the cells from s up to r, around the ring. */
  predicate Between(s: nat, p: nat, r: nat) {
    (p - s) % N <= (r - s) % N
  }

  /** n bytes into any input the 256 trees are chains, and each holds only positions of its byte. */
  lemma ChainInvariant(x: seq<byte>, n: nat, c: nat)
    requires x != [] && n <= |x| && c < 256
    ensures var d := After(x, n).dict;
      && |d.forest| == 256 && Chain(d.forest[c]) && Well(d.forest[c])
      && forall p :: p in Nodes(d.forest[c]) ==> p < N && d.text[p] == c
  {
    StateChains(After(x, n), c);
  }

  lemma StateChains(st: Running, c: nat)
    requires c < 256
    ensures |st.dict.forest| == 256
    ensures Chain(st.dict.forest[c]) && Well(st.dict.forest[c])
    ensures forall p :: p in Nodes(st.dict.forest[c]) ==> p < N && st.dict.text[p] == c
  {
    assert TreeOk(st.dict.text, c, st.dict.forest[c]);
  }

  lemma CellDifference(a: int, b: int)
    ensures (Cell(a) - Cell(b)) % N == (a - b) % N
  {
    var i, j := a / N, b / N;
    assert Cell(a) == a - N * i && Cell(b) == b - N * j;
    assert Cell(a) - Cell(b) == (a - b) + N * (j - i);
  }

  lemma BetweenCells(here: int, p: nat)
    requires p < N && here + F - N <= Source(here + 1, p)
    ensures Between(Cell(here + F), p, Cell(here))
  {
    var a := Source(here + 1, p);
    CellDifference(a, here + F);
    CellDifference(here, here + F);
    assert (a - (here + F)) % N == N + a - here - F && (here - (here + F)) % N == N - F;
  }

  lemma WindowBetween(text: Text, live: set<nat>, here: int, s: nat, r: nat)
    requires Window(text, live, LowAt(here), here + 1) && START <= here && s == Cell(here + F) && r == Cell(here)
    ensures forall p :: p in live ==> p < N && Between(s, p, r)
    ensures r in live
  {
    forall p | p in live ensures p < N && Between(s, p, r) {
      BetweenCells(here, p);
    }
    assert Followed(text, live, here + 1, here);
    var p :| p in live && p < N && here <= Source(here + 1, p) && Key(text, p) == Key(text, Cell(here));
    assert p == Cell(here);
  }

  /** In every state all live positions lie from s up to r, r among them, and have different keys. */
  lemma WindowInvariant(st: Running)
    requires st.len > 0
    ensures forall p :: p in Live(st.dict.forest) ==> p < N && Between(st.s, p, st.r)
    ensures st.r in Live(st.dict.forest) && Distinct(st.dict.text, Live(st.dict.forest))
  {
    StateWindow(st);
    WindowBetween(st.dict.text, Live(st.dict.forest), st.Here(), st.s, st.r);
  }

  lemma StateWindow(st: State)
    requires Good(st) && st.len > 0
    ensures Window(st.dict.text, Live(st.dict.forest), LowAt(st.Here()), st.Here() + 1) && START <= st.Here()
    ensures Distinct(st.dict.text, Live(st.dict.forest)) && st.s == Cell(st.Here() + F) && st.r == Cell(st.Here())
  {
  }

  // ----- keys

  /** While there is input left, the F linear bytes of a live position are its bytes around the ring. */
  lemma RingKey(st: Running, p: nat, j: nat)
    requires st.len > 0 && st.ulPos < |st.x| && p in Live(st.dict.forest) && p < N && j < F
    ensures Key(st.dict.text, p)[j] == st.dict.text[Cell(p + j)]
  {
    var a := Source(st.Top(), p);
    KeyReads(st.x, st.dict.text, st.Written(), a, j);
    CellAdd(a, p, j);
    assert st.dict.text[Cell(a + j)] == At(st.x, a + j);
  }

  lemma CellAdd(a: int, p: nat, j: int)
    requires Cell(a) == p
    ensures Cell(a + j) == Cell(p + j)
  {
    var i := a / N;
    assert a + j == p + j + N * i;
  }

  /** A step leaves the key of every position that stays in the window as it is. */
  lemma StableKey(st: Running, a: int)
    requires st.len > 0 && LowAt(st.Here() + 1) <= a <= st.Here()
    ensures Key(Step(st).dict.text, Cell(a)) == Key(st.dict.text, Cell(a))
  {
    SlidGood(st);
    assert Step(st).dict.text == Slid(st).text;
    SlidKey(st, a);
  }

  lemma SlidKey(st: State, a: int)
    requires Counters(st) && st.len > 0 && LowAt(st.Here() + 1) <= a <= st.Here()
    ensures Key(Slid(st).text, Cell(a)) == Key(st.dict.text, Cell(a))
  {
    if st.ulPos < |st.x| {
      WriteKeepsKey(st.dict.Delete(st.s), st.Written(), st.x[st.ulPos], a);
    }
  }
}
