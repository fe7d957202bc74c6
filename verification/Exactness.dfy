/**
 When the token that Encode sends is the longest match over the whole window, read off the
 input alone. Positions before the text can be forgotten: the spaces there go in with falling
 positions, and the one that stands for the others leaves the window first.
 */
module Exactness {
  import opened Config
  import opened Matching
  import opened DictionaryModel
  import opened Tokens
  import opened History
  import opened SlidingWindow
  import opened EncoderModel

  predicate Blanks(x: seq<byte>, a: int, n: nat) {
    0 <= a && a + n <= START + |x| && forall i :: a <= i < a + n ==> At(x, i) == SPACE
  }

  /** How many of the next n bytes are spaces, from the first one on. */
  function SpaceRun(x: seq<byte>, r: int, n: nat): (k: nat)
    requires 0 <= r && r + n <= START + |x|
    ensures k <= n && (k < n ==> At(x, r + k) != SPACE)
    decreases n
  {
    if n == 0 || At(x, r) != SPACE then 0 else 1 + SpaceRun(x, r + 1, n - 1)
  }

  lemma {:induction false} RunIsBlank(x: seq<byte>, r: int, n: nat)
    requires 0 <= r && r + n <= START + |x|
    ensures Blanks(x, r, SpaceRun(x, r, n))
    decreases n
  {
    if n > 0 && At(x, r) == SPACE {
      RunIsBlank(x, r + 1, n - 1);
    }
  }

  /** The spaces that the text at r starts with, as far as a match can reach. */
  function SpacesAt(x: seq<byte>, r: int): nat
    requires 0 <= r <= START + |x|
  {
    SpaceRun(x, r, Min(F, START + |x| - r))
  }

  /** What no match may exceed if t is to be the longest. */
  function Bound(t: Token): nat {
    if t.Literal? then THRESHOLD else t.len
  }

  /** No position of the window at all would have given a longer match than t. */
  ghost predicate LongestOfAll(x: seq<byte>, r: int, t: Token) {
    forall a, n: nat :: LowAt(r) <= a < r && n <= F && Prefix(x, a, r, n) ==> n <= Bound(t)
  }

  /** A position of the window that is not forgotten starts with k spaces. */
  ghost predicate Rival(x: seq<byte>, r: int, k: nat) {
    exists b :: LowAt(r) <= b < r && !Forgotten(x, r, b) && Blanks(x, b, k)
  }

  /** Some position of the window is forgotten. */
  ghost predicate SomeForgotten(x: seq<byte>, r: int) {
    exists a :: LowAt(r) <= a < r && Forgotten(x, r, a)
  }

  /**
   The token is the longest match over the whole window exactly when nothing is forgotten, or
   the spaces at r are too few for a match, or a position that is not forgotten starts with as
   many.
   */
  ghost predicate Exactly(x: seq<byte>, r: int, t: Token)
    requires START <= r <= START + |x|
  {
    LongestOfAll(x, r, t) <==>
      !SomeForgotten(x, r) || SpacesAt(x, r) <= THRESHOLD || Rival(x, r, SpacesAt(x, r))
  }

  lemma ForgottenIsBlank(x: seq<byte>, r: int, a: int)
    requires Forgotten(x, r, a) && 0 <= a
    ensures Blanks(x, a, F)
  {
    forall i | a <= i < a + F ensures At(x, i) == SPACE {
      if i >= START {
        assert 0 <= i - START < a + F - START;
      }
    }
  }

  /** A match at a forgotten position is of spaces only. */
  lemma ForgottenMatch(x: seq<byte>, r: int, a: int, n: nat)
    requires START <= r && Forgotten(x, r, a) && n <= F && Prefix(x, a, r, n)
    ensures n <= SpacesAt(x, r)
  {
    ForgottenIsBlank(x, r, a);
    forall i | r <= i < r + n ensures At(x, i) == SPACE {
      assert Echo(x, a, r, i - r);
    }
    assert Blanks(x, r, n);
  }

  /** Two runs of spaces match. */
  lemma BlanksMatch(x: seq<byte>, a: int, r: int, k: nat)
    requires 0 <= a < r && Blanks(x, a, k) && Blanks(x, r, k)
    ensures Prefix(x, a, r, k)
  {
    forall j | 0 <= j < k ensures Echo(x, a, r, j) {
      assert At(x, a + j) == SPACE && At(x, r + j) == SPACE;
    }
  }

  /** What echoes spaces is spaces. */
  lemma EchoBlank(x: seq<byte>, b: int, r: int, k: nat)
    requires 0 <= b < r && Blanks(x, r, k) && r + k <= START + |x| && forall j :: 0 <= j < k ==> Echo(x, b, r, j)
    ensures Blanks(x, b, k)
  {
    forall i | b <= i < b + k ensures At(x, i) == SPACE {
      assert Echo(x, b, r, i - b);
    }
  }

  /** The spaces at r match those at a forgotten position. */
  lemma ForgottenPrefix(x: seq<byte>, r: int, a: int)
    requires START <= r <= START + |x| && Forgotten(x, r, a) && 0 <= a < r
    ensures Prefix(x, a, r, SpacesAt(x, r))
  {
    RunIsBlank(x, r, Min(F, START + |x| - r));
    ForgottenIsBlank(x, r, a);
    BlanksMatch(x, a, r, SpacesAt(x, r));
  }

  lemma RivalLong(x: seq<byte>, r: int, t: Token)
    requires START <= r <= START + |x| && LongestAt(x, r, t) && Rival(x, r, SpacesAt(x, r))
    ensures SpacesAt(x, r) <= Bound(t)
  {
    var k := SpacesAt(x, r);
    var b :| LowAt(r) <= b < r && !Forgotten(x, r, b) && Blanks(x, b, k);
    RunIsBlank(x, r, Min(F, START + |x| - r));
    BlanksMatch(x, b, r, k);
  }

  lemma LongestWithRival(x: seq<byte>, r: int, t: Token)
    requires START <= r <= START + |x| && LongestAt(x, r, t) && WellFormed(t)
    requires !SomeForgotten(x, r) || SpacesAt(x, r) <= THRESHOLD || Rival(x, r, SpacesAt(x, r))
    ensures LongestOfAll(x, r, t)
  {
    if SpacesAt(x, r) > THRESHOLD && Rival(x, r, SpacesAt(x, r)) {
      RivalLong(x, r, t);
    }
    forall a, n: nat | LowAt(r) <= a < r && n <= F && Prefix(x, a, r, n) ensures n <= Bound(t) {
      if Forgotten(x, r, a) {
        assert SomeForgotten(x, r);
        ForgottenMatch(x, r, a, n);
      }
    }
  }

  lemma RivalNeeded(x: seq<byte>, r: int, t: Token)
    requires START <= r <= START + |x| && SoundAt(x, r, t) && LongestOfAll(x, r, t)
    requires t.Pair? ==> LowAt(r) <= Source(r, t.pos) && !Forgotten(x, r, Source(r, t.pos))
    requires SomeForgotten(x, r) && SpacesAt(x, r) > THRESHOLD
    ensures Rival(x, r, SpacesAt(x, r))
  {
    var k := SpacesAt(x, r);
    var a :| LowAt(r) <= a < r && Forgotten(x, r, a);
    ForgottenPrefix(x, r, a);
    assert k <= Bound(t);
    RunIsBlank(x, r, Min(F, START + |x| - r));
    EchoBlank(x, Source(r, t.pos), r, k);
  }

  lemma ExactAt(x: seq<byte>, r: int, t: Token)
    requires START <= r <= START + |x| && SoundAt(x, r, t) && WellFormed(t) && LongestAt(x, r, t)
    requires t.Pair? ==> LowAt(r) <= Source(r, t.pos) && !Forgotten(x, r, Source(r, t.pos))
    ensures Exactly(x, r, t)
  {
    if !SomeForgotten(x, r) || SpacesAt(x, r) <= THRESHOLD || Rival(x, r, SpacesAt(x, r)) {
      LongestWithRival(x, r, t);
    } else if LongestOfAll(x, r, t) {
      RivalNeeded(x, r, t);
    }
  }

  // ----- the tokens of Encode

  /** A forgotten position of the window has a blank key. */
  lemma ForgottenBlank(x: seq<byte>, text: Text, w: int, r: int, a: int)
    requires Content(x, text, w) && START <= r <= w <= r + F && LowAt(r) <= a < r && Forgotten(x, r, a)
    ensures Key(text, Cell(a)) == Blank()
  {
    forall j | 0 <= j < F ensures Key(text, Cell(a))[j] == SPACE {
      KeyReads(x, text, w, a, j);
    }
  }

  /** No token refers to a forgotten position, nor behind the window. */
  lemma SourceKept(x: seq<byte>, text: Text, w: int, r: int, best: Match)
    requires Content(x, text, w) && START <= r <= w <= r + F && MatchOk(text, best, LowAt(r), r) && best.len > 0
    ensures best.pos < N && LowAt(r) <= Source(r, best.pos) && !Forgotten(x, r, Source(r, best.pos))
  {
    var b := Source(r, best.pos);
    if Forgotten(x, r, b) {
      ForgottenBlank(x, text, w, r, b);
    }
  }

  lemma TokenExact(st: Running)
    requires st.len > 0
    ensures START <= st.Here() <= START + |st.x| && Exactly(st.x, st.Here(), TokenOf(st))
  {
    TokenSound(st);
    TokenLongest(st);
    if TokenOf(st).Pair? {
      SourceKept(st.x, st.dict.text, st.Written(), st.Here(), st.dict.best);
    }
    ExactAt(st.x, st.Here(), TokenOf(st));
  }

  /** Each token is exact at its place. */
  ghost predicate AllExact(x: seq<byte>, r: int, ts: seq<Token>)
    decreases |ts|
  {
    ts == [] || (START <= r <= START + |x| && Exactly(x, r, ts[0]) && AllExact(x, r + Covers(ts[0]), ts[1..]))
  }

  lemma ExactCons(x: seq<byte>, r: int, t: Token, r2: int, ts: seq<Token>)
    requires START <= r <= START + |x| && Exactly(x, r, t) && r2 == r + Covers(t) && AllExact(x, r2, ts)
    ensures AllExact(x, r, [t] + ts)
  {
    assert ([t] + ts)[1..] == ts;
  }

  lemma {:induction false} TokensExact(st: Running)
    ensures AllExact(st.x, st.Here(), TokensFrom(st))
    decreases st.End() - st.Here()
  {
    if st.len > 0 {
      TokenExact(st);
      var t, st2 := TokensUnfold(st);
      TokensExact(st2);
      ExactCons(st.x, st.Here(), t, st2.Here(), TokensFrom(st2));
    }
  }

  /** Every token sent for an input is the longest match over the whole window exactly under this condition. */
  lemma EncodedExact(x: seq<byte>)
    ensures AllExact(x, START, EncodedTokens(x))
  {
    if x != [] {
      StartGood(x);
      TokensExact(Start(x));
    }
  }
}
