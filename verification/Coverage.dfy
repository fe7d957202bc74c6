/**
 What the dictionary knows. When a node is replaced by a newer one with the same key, the
 newer one should stand for it as long as both are in the window. That is so for all text.
 It is not so for the spaces inserted before the text: they go in with falling positions,
 so the newer node is the older position and leaves first.
 */
module Coverage {
  import opened Config
  import opened Matching
  import opened DictionaryModel
  import opened History
  import opened SlidingWindow
  import opened EncoderModel
  import opened Theorems

  /** Some live position has the key of a. */
  ghost predicate Covered(text: Text, live: set<nat>, a: int) {
    exists p :: p in live && p < N && Key(text, p) == Key(text, Cell(a))
  }

  /** Every inserted position of the window is represented. */
  ghost predicate AllCovered(text: Text, live: set<nat>, lo: int, here: int) {
    forall a :: lo <= a <= here ==> Covered(text, live, a)
  }

  /**
   The gap: the oldest run of spaces before the text has left the window, a blank one is
   still inside, and no text position of the window is blank.
   */
  ghost predicate Gap(text: Text, lo: int, here: int) {
    && (exists a :: lo <= a <= here && Lost(text, lo, a))
    && (forall b :: START <= b <= here && lo <= b ==> Key(text, Cell(b)) != Blank())
  }

  /** A position with a blank key is represented when no text position is blank only if it is not lost. */
  lemma GapUncovers(text: Text, live: set<nat>, lo: int, here: int, a: int)
    requires Window(text, live, lo, here + 1) && Gap(text, lo, here) && Lost(text, lo, a)
    ensures !Covered(text, live, a)
  {
    forall p | p in live && p < N ensures Key(text, p) != Key(text, Cell(a)) {
      assert Cell(Source(here + 1, p)) == p;
    }
  }

  lemma NoGapCovers(text: Text, live: set<nat>, lo: int, here: int, a: int)
    requires Window(text, live, lo, here + 1) && !Gap(text, lo, here) && lo <= a <= here
    ensures Covered(text, live, a)
  {
    if START <= a {
      assert Followed(text, live, here + 1, a);
    } else if Lost(text, lo, a) {
      var b :| START <= b <= here && lo <= b && Key(text, Cell(b)) == Blank();
      assert Followed(text, live, here + 1, b);
    } else {
      assert PreCovered(text, live, here + 1, a);
    }
  }

  /** In every state: all inserted positions of the window are represented exactly when there is no gap. */
  lemma CoverageExactly(st: Running)
    requires st.len > 0
    ensures AllCovered(st.dict.text, Live(st.dict.forest), st.Low(), st.Here())
       <==> !Gap(st.dict.text, st.Low(), st.Here())
  {
    CoverageAt(st.dict.text, Live(st.dict.forest), st.Low(), st.Here());
  }

  lemma CoverageAt(text: Text, live: set<nat>, lo: int, here: int)
    requires Window(text, live, lo, here + 1)
    ensures AllCovered(text, live, lo, here) <==> !Gap(text, lo, here)
  {
    if Gap(text, lo, here) {
      var a :| lo <= a <= here && Lost(text, lo, a);
      GapUncovers(text, live, lo, here, a);
    } else {
      forall a | lo <= a <= here ensures Covered(text, live, a) {
        NoGapCovers(text, live, lo, here, a);
      }
    }
  }

  /** A text position stays represented, by itself or by a later one, as long as it is in the window. */
  lemma TextCovered(st: Running, a: int) returns (p: nat)
    requires st.len > 0 && START <= a <= st.Here() && st.Low() <= a
    ensures p in Live(st.dict.forest) && p < N && a <= Source(st.Top(), p)
    ensures Key(st.dict.text, p) == Key(st.dict.text, Cell(a))
  {
    assert Followed(st.dict.text, Live(st.dict.forest), st.Top(), a);
    p :| p in Live(st.dict.forest) && p < N && a <= Source(st.Top(), p)
      && Key(st.dict.text, p) == Key(st.dict.text, Cell(a));
  }

  // ----- what that means for the match

  /** How many spaces a key starts with. */
  function Spaces(key: seq<byte>): (n: nat)
    ensures n <= |key|
  {
    if key == [] || key[0] != SPACE then 0 else 1 + Spaces(key[1..])
  }

  lemma {:induction false} SpacesAre(key: seq<byte>)
    ensures forall j :: 0 <= j < Spaces(key) ==> key[j] == SPACE
    ensures Spaces(key) < |key| ==> key[Spaces(key)] != SPACE
  {
    if key != [] && key[0] == SPACE {
      SpacesAre(key[1..]);
      assert forall j :: 1 <= j < Spaces(key) ==> key[j] == key[1..][j - 1];
    }
  }

  ghost predicate StartsBlank(key: seq<byte>, n: nat) {
    n <= |key| && forall j :: 0 <= j < n ==> key[j] == SPACE
  }

  /** The common prefix with a key that starts with enough spaces holds the spaces of the other. */
  lemma CommonSpaces(text: Text, p: nat, r: nat)
    requires p < N && r < N && StartsBlank(Key(text, p), Spaces(Key(text, r)))
    ensures Common(text, p, r, 0) >= Spaces(Key(text, r))
    ensures Key(text, p) == Blank() ==> Common(text, p, r, 0) == Spaces(Key(text, r))
  {
    var n, i := Spaces(Key(text, r)), Common(text, p, r, 0);
    SpacesAre(Key(text, r));
    CommonRange(text, p, r, 0);
    forall j | 0 <= j < n ensures Agree(text, p, r, j) {
      assert Key(text, p)[j] == Key(text, r)[j];
    }
    if n < F && Key(text, p) == Blank() {
      assert Key(text, p)[n] != Key(text, r)[n] && !Agree(text, p, r, n);
    }
  }

  /** The match is the longest one over all inserted positions of the window, lost ones too. */
  ghost predicate AllLongest(text: Text, best: Match, lo: int, here: int) {
    forall a :: lo <= a < here ==> Common(text, Cell(a), Cell(here), 0) <= best.len
  }

  /** A position of the window that is not lost starts with as many spaces as the text at here. */
  ghost predicate Rival(text: Text, lo: int, here: int) {
    exists b :: lo <= b < here && !Lost(text, lo, b) && StartsBlank(Key(text, Cell(b)), Spaces(Key(text, Cell(here))))
  }

  /** The match reported is the longest of the window exactly when nothing is lost, or a rival makes up for it. */
  lemma LongestExactly(st: Running)
    requires st.len > 0
    ensures AllLongest(st.dict.text, st.dict.best, st.Low(), st.Here()) <==>
      (forall a :: st.Low() <= a < st.Here() ==> !Lost(st.dict.text, st.Low(), a))
      || Rival(st.dict.text, st.Low(), st.Here())
  {
    LongestAt(st.dict.text, st.dict.best, st.Low(), st.Here());
  }

  lemma LongestAt(text: Text, best: Match, lo: int, here: int)
    requires MatchOk(text, best, lo, here) && lo == LowAt(here) && START <= here
    ensures AllLongest(text, best, lo, here) <==>
      (forall a :: lo <= a < here ==> !Lost(text, lo, a)) || Rival(text, lo, here)
  {
    var n := Spaces(Key(text, Cell(here)));
    if Rival(text, lo, here) {
      var b :| lo <= b < here && !Lost(text, lo, b) && StartsBlank(Key(text, Cell(b)), n);
      CommonSpaces(text, Cell(b), Cell(here));
      forall a | lo <= a < here ensures Common(text, Cell(a), Cell(here), 0) <= best.len {
        if Lost(text, lo, a) {
          CommonSpaces(text, Cell(a), Cell(here));
        }
      }
    } else if exists a :: lo <= a < here && Lost(text, lo, a) {
      var a :| lo <= a < here && Lost(text, lo, a);
      CommonSpaces(text, Cell(a), Cell(here));
      if best.len >= n {
        NoRivalNoMatch(text, best, lo, here);
      }
    }
  }

  /** A key that has the spaces of another in common with it starts with as many. */
  lemma MatchBlank(text: Text, p: nat, q: nat, n: nat)
    requires p < N && q < N && n == Spaces(Key(text, q)) <= Common(text, p, q, 0)
    ensures StartsBlank(Key(text, p), n)
  {
    CommonRange(text, p, q, 0);
    SpacesAre(Key(text, q));
    forall j | 0 <= j < n ensures Key(text, p)[j] == SPACE {
      assert Agree(text, p, q, j);
    }
  }

  /** A match as long as the spaces at here would be a rival. */
  lemma NoRivalNoMatch(text: Text, best: Match, lo: int, here: int)
    requires MatchOk(text, best, lo, here) && lo == LowAt(here) && START <= here && START - F < lo
    requires best.len >= Spaces(Key(text, Cell(here)))
    ensures Rival(text, lo, here)
  {
    var n := Spaces(Key(text, Cell(here)));
    if n == 0 {
      var b := here - 1;
      assert StartsBlank(Key(text, Cell(b)), n) && !Lost(text, lo, b);
    } else {
      var b := Source(here, best.pos);
      MatchBlank(text, best.pos, Cell(here), n);
      assert StartsBlank(Key(text, Cell(b)), n) && !Lost(text, lo, b);
    }
  }

  /** For an input that does not start with a space nothing is ever forgotten. */
  lemma PlainStart(x: seq<byte>, r: int, a: int)
    requires x == [] || x[0] != SPACE
    requires LowAt(r) <= a
    ensures !Forgotten(x, r, a)
  {
    assert 0 < a + F - START || LowAt(r) <= START - F;
  }

  // ----- an input that shows it

  /** 17 spaces, 4060 other bytes, 18 spaces. */
  predicate Culprit(x: seq<byte>) {
    |x| == 4095 && forall i :: 0 <= i < 4095 ==> x[i] == if 17 <= i < 4077 then 97 else SPACE
  }

  /** No position of the text before the last spaces starts a blank key. */
  lemma CulpritNotBlank(st: Running, b: int)
    requires Culprit(st.x) && st.Here() == START + 4077 && START <= b < st.Here() && st.Low() <= b
    ensures Key(st.dict.text, Cell(b)) != Blank()
  {
    var j := if b < START + 17 then START + 17 - b else 0;
    KeyReads(st.x, st.dict.text, st.Written(), b, j);
  }

  /** The last space before the text and the last 18 spaces have blank keys. */
  lemma CulpritBlank(st: Running, a: int)
    requires Culprit(st.x) && st.Here() == START + 4077 && (a == START - 1 || a == st.Here())
    ensures Key(st.dict.text, Cell(a)) == Blank()
  {
    assert st.ulPos == |st.x|;
    forall j | 0 <= j < F ensures Key(st.dict.text, Cell(a))[j] == SPACE {
      KeyReads(st.x, st.dict.text, st.Written(), a, j);
    }
  }

  lemma CulpritShort(st: Running)
    requires Culprit(st.x) && st.Here() == START + 4077 && st.len > 0
    ensures st.dict.best.len < F
  {
    CulpritBlank(st, st.Here());
    if st.dict.best.len == F {
      var b := Source(st.Here(), st.dict.best.pos);
      KeysAgree(st.dict.text, st.dict.best.pos, st.r);
      CulpritNotBlank(st, b);
    }
  }

  /**
   The text at r matches all F bytes at the last space before the text, which is inside the
   window, but the match found is shorter.
   */
  ghost predicate Missed(st: Running) {
    && st.len > 0 && st.Low() <= START - 1 < st.Here()
    && st.dict.best.len < Common(st.dict.text, Cell(START - 1), Cell(st.Here()), 0) == F
  }

  lemma CulpritGap(st: Running)
    requires Culprit(st.x) && st.Here() == START + 4077
    ensures Missed(st) && st.r == Cell(st.Here())
  {
    TextLeft(st);
    CulpritBlank(st, START - 1);
    CulpritBlank(st, st.Here());
    KeysAgree(st.dict.text, Cell(START - 1), Cell(st.Here()));
    CulpritShort(st);
  }

  lemma MakeCulprit() returns (x: seq<byte>)
    ensures Culprit(x)
  {
    x := seq(4095, i => if 17 <= i < 4077 then 97 else SPACE);
  }

  /**
   There is an input on which, after 4077 bytes, the match found is shorter than the one at
   the last space before the text, which was inserted and is still in the window.
   */
  lemma {:induction false} GapHappens() returns (x: seq<byte>, st: Running)
    ensures Culprit(x) && st == After(x, 4077) && Missed(st) && st.r == Cell(st.Here())
  {
    x := MakeCulprit();
    st := After(x, 4077);
    CulpritGap(st);
  }
}
