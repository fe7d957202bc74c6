/** A token that Encode sends although the window offers a longer match. */
module Shortfall {
  import opened Config
  import opened Tokens
  import opened History
  import opened EncoderModel
  import opened Exactness
  import Coverage

  /** What is known of a token of Encode. */
  ghost predicate SentAt(x: seq<byte>, r: int, t: Token) {
    START <= r <= START + |x| && SoundAt(x, r, t) && WellFormed(t) && LongestAt(x, r, t) && Exactly(x, r, t)
  }

  ghost predicate AllSent(x: seq<byte>, r: int, ts: seq<Token>)
    decreases |ts|
  {
    if ts == [] then r == START + |x| else SentAt(x, r, ts[0]) && AllSent(x, r + Covers(ts[0]), ts[1..])
  }

  lemma {:induction false} SentAll(x: seq<byte>, r: int, ts: seq<Token>)
    requires START <= r && Sound(x, r, ts) && Greedy(x, r, ts) && AllExact(x, r, ts) && AllWellFormed(ts)
    ensures AllSent(x, r, ts)
    decreases |ts|
  {
    if ts != [] {
      SentAll(x, r + Covers(ts[0]), ts[1..]);
    }
  }

  lemma EncodedSent(x: seq<byte>)
    requires x != []
    ensures AllSent(x, START, EncodedTokens(x))
  {
    StartGood(x);
    TokensSound(Start(x));
    TokensGreedy(Start(x));
    EncodedExact(x);
    SentAll(x, START, EncodedTokens(x));
  }

  // ----- the tokens of an input of 17 spaces, 4060 other bytes and 18 spaces

  /** Where the tokens before the last spaces start: 0, 17, 18, then every 18 bytes up to 4068, then 4077. */
  predicate Place(n: int) {
    n == 0 || n == 17 || n == 4077 || (18 <= n <= 4068 && n % 18 == 0)
  }

  function NextPlace(n: int): (m: int)
    requires Place(n) && n != 4077
    ensures Place(m) && n < m <= n + F
  {
    if n == 0 then 17 else if n == 17 then 18 else if n == 4068 then 4077 else n + 18
  }

  lemma CulpritAt(x: seq<byte>, i: int)
    requires Coverage.Culprit(x) && 0 <= i < START + 4095
    ensures At(x, i) == if START + 17 <= i < START + 4077 then 97 else SPACE
  {
  }

  /** The text at a place matches what lies one byte before it, as far as the next place. */
  lemma MatchBefore(x: seq<byte>, n: int)
    requires Coverage.Culprit(x) && Place(n) && n != 17 && n != 4077
    ensures Prefix(x, START + n - 1, START + n, NextPlace(n) - n) && !Forgotten(x, START + n, START + n - 1)
  {
    var r := START + n;
    var a, k := r - 1, NextPlace(n) - n;
    forall j | 0 <= j < k ensures Echo(x, a, r, j) {
      CulpritAt(x, a + j);
      CulpritAt(x, r + j);
    }
  }

  /** No earlier text agrees with it beyond the next place. */
  lemma NoLonger(x: seq<byte>, n: int, a: int, r: int, k: nat)
    requires Coverage.Culprit(x) && (n == 0 || n == 17 || n == 4068) && 0 <= a < r == START + n && k == NextPlace(n) - n
    ensures exists j :: 0 <= j <= k && !Echo(x, a, r, j)
  {
    CulpritAt(x, a + k);
    CulpritAt(x, r + k);
    CulpritAt(x, a);
    CulpritAt(x, r);
    CulpritAt(x, a + 1);
    CulpritAt(x, r + 1);
    if Echo(x, a, r, 0) {
      assert !Echo(x, a, r, k);
    }
  }

  /** Each token leads to the next place. */
  lemma TokenPlace(x: seq<byte>, n: int, t: Token)
    requires Coverage.Culprit(x) && Place(n) && n != 4077 && SentAt(x, START + n, t)
    ensures n + Covers(t) == NextPlace(n)
  {
    var r := START + n;
    if n != 17 {
      MatchBefore(x, n);
    }
    if t.Pair? && (n == 0 || n == 17 || n == 4068) {
      NoLonger(x, n, Source(r, t.pos), r, NextPlace(n) - n);
    }
  }

  /** The tokens come to place 4077. */
  lemma {:induction false} TokensPlace(x: seq<byte>, n: int, ts: seq<Token>)
    returns (done: seq<Token>, t: Token, more: seq<Token>)
    requires Coverage.Culprit(x) && Place(n) && AllSent(x, START + n, ts)
    ensures ts == done + [t] + more && n + CoversAll(done) == 4077 && SentAt(x, START + 4077, t)
    decreases |ts|
  {
    if n == 4077 {
      done, t, more := [], ts[0], ts[1..];
    } else {
      TokenPlace(x, n, ts[0]);
      var rest;
      rest, t, more := TokensPlace(x, NextPlace(n), ts[1..]);
      done := [ts[0]] + rest;
      assert done[1..] == rest;
    }
  }

  /** There the space before the text is forgotten, and nothing else in the window starts with as many spaces. */
  lemma Unrivalled(x: seq<byte>)
    requires Coverage.Culprit(x)
    ensures SomeForgotten(x, START + 4077) && SpacesAt(x, START + 4077) == F && !Rival(x, START + 4077, F)
  {
    var r := START + 4077;
    assert Forgotten(x, r, START - 1);
    RunIsSpaces(x, r, F);
    forall b | LowAt(r) <= b < r && !Forgotten(x, r, b) ensures !Blanks(x, b, F) {
      assert START <= b;
      var i := if b < START + 17 then START + 17 else b;
      CulpritAt(x, i);
    }
  }

  lemma {:induction false} RunIsSpaces(x: seq<byte>, r: int, n: nat)
    requires Blanks(x, r, n)
    ensures SpaceRun(x, r, n) == n
    decreases n
  {
    if n > 0 {
      RunIsSpaces(x, r + 1, n - 1);
    }
  }

  lemma CulpritSent(x: seq<byte>, ts: seq<Token>) returns (done: seq<Token>, t: Token, more: seq<Token>)
    requires Coverage.Culprit(x) && AllSent(x, START, ts)
    ensures ts == done + [t] + more && !LongestOfAll(x, START + CoversAll(done), t)
  {
    done, t, more := TokensPlace(x, 0, ts);
    Unrivalled(x);
  }

  /** Encode sends a token for which the window offers a longer match. */
  lemma ShorterSent() returns (x: seq<byte>, done: seq<Token>, t: Token, more: seq<Token>)
    ensures EncodedTokens(x) == done + [t] + more
    ensures !LongestOfAll(x, START + CoversAll(done), t)
  {
    x := Coverage.MakeCulprit();
    EncodedSent(x);
    done, t, more := CulpritSent(x, EncodedTokens(x));
  }
}
