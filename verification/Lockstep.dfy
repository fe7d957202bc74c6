/** Encoder and decoder side by side: token for token they keep the same ring. */
module Lockstep {
  import opened Config
  import opened Matching
  import opened Tokens
  import opened History
  import opened SlidingWindow
  import opened EncoderModel
  import opened Theorems

  /** Same r, same bytes in all cells from s up to but not including r, and all text before r put out. */
  ghost predicate Together(st: Running, d: Decoder) {
    && d.r == st.r && START <= st.Here() <= START + |st.x| && d.out == st.x[..st.Here() - START]
    && forall c: nat :: c < N && c != st.r && Between(st.s, c, st.r) ==> d.ring[c] == st.dict.text[c]
  }

  /** The cells from s up to r, seen as positions: the last N - F before here. */
  lemma BetweenSource(here: int, c: nat)
    requires c < N
    ensures c != Cell(here) && Between(Cell(here + F), c, Cell(here)) <==> here - START <= Source(here, c)
  {
    var a := Source(here, c);
    CellDifference(a, here + F);
    CellDifference(here, here + F);
    assert (here - (here + F)) % N == N - F;
    if c == Cell(here) {
      SameCell(here, a);
    } else if here - START <= a {
      assert (a - (here + F)) % N == N + a - here - F;
    } else {
      assert a != here - N;
      assert (a - (here + F)) % N == 2 * N + a - here - F;
    }
  }

  lemma SameCell(here: int, a: int)
    requires here - N <= a < here && Cell(a) == Cell(here)
    ensures a == here - N
  {
  }

  /** Being together is the same as having decoded the text before here. */
  lemma TogetherInStep(st: Running, d: Decoder)
    ensures Together(st, d) <==> InStep(st.x, d, st.Here())
  {
    RingsAgree(st.x, st.dict.text, st.Written(), st.Here(), st.s, st.r, d.ring);
  }

  lemma RingsAgree(x: seq<byte>, text: Text, w: int, here: int, s: nat, r: nat, ring: Text)
    requires Content(x, text, w) && START <= here <= w <= here + F
    requires s == Cell(here + F) && r == Cell(here)
    ensures Shows(x, ring, here) <==> forall c: nat :: c < N && c != r && Between(s, c, r) ==> ring[c] == text[c]
  {
    if Shows(x, ring, here) {
      forall c: nat | c < N && c != r && Between(s, c, r) ensures ring[c] == text[c] {
        BetweenSource(here, c);
        assert Cell(Source(here, c)) == c;
      }
    }
    if forall c: nat :: c < N && c != r && Between(s, c, r) ==> ring[c] == text[c] {
      forall a | here - START <= a < here ensures ring[Cell(a)] == At(x, a) {
        SourceIs(here, a);
        BetweenSource(here, Cell(a));
      }
    }
  }

  lemma SourceIs(here: int, a: int)
    requires here - N <= a < here
    ensures Source(here, Cell(a)) == a
  {
  }

  /** They start together, whatever the decoder's buffer held. */
  lemma StartTogether(x: seq<byte>, junk: Text) returns (st: Running)
    requires x != []
    ensures st == Start(x) && Together(st, Cleared(junk))
  {
    StartGood(x);
    st := Start(x);
    ClearedInStep(x, junk);
    TogetherInStep(st, Cleared(junk));
  }

  lemma SentInStep(x: seq<byte>, d: Decoder, here: int, t: Token, next: int)
    requires InStep(x, d, here) && SoundAt(x, here, t) && next == here + Covers(t)
    ensures InStep(x, d.Apply(t), next)
  {
    ApplyInStep(x, d, here, t);
  }

  /** They stay together: the decoder applies the token that the encoder sends, the encoder slides by its length. */
  lemma {:induction false} TokenTogether(st: Running, d: Decoder) returns (t: Token, st2: Running)
    requires st.len > 0 && Together(st, d)
    ensures t == TokenOf(st) && st.Here() + Covers(t) <= st.End() && st2 == Steps(st, Covers(t))
    ensures st2.Here() == st.Here() + Covers(t) && Together(st2, d.Apply(t))
  {
    TogetherInStep(st, d);
    t, st2 := TokensUnfold(st);
    TokenSound(st);
    SentInStep(st.x, d, st.Here(), t, st2.Here());
    TogetherInStep(st2, d.Apply(t));
  }
}
