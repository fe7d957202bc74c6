/**
 The sliding window: which absolute positions the live nodes stand for, and which
 inserted positions have a live node with the same key.

 Positions START - F .. START - 1 are the spaces that are inserted before the text, in
 falling order; all text positions are inserted in rising order.
 */
module SlidingWindow {
  import opened Config
  import opened Matching
  import opened DictionaryModel
  import opened History

  /** The key of F spaces. */
  ghost function Blank(): (key: seq<byte>)
    ensures |key| == F && forall j :: 0 <= j < F ==> key[j] == SPACE
  {
    seq(F, _ => SPACE)
  }

  /** Every live position is, seen from top, not older than lo. */
  ghost predicate Spread(live: set<nat>, lo: int, top: int) {
    forall p :: p in live ==> p < N && lo <= Source(top, p)
  }

  /** Some live position from a on has the key of a. */
  ghost predicate Followed(text: Text, live: set<nat>, top: int, a: int) {
    exists p :: p in live && p < N && a <= Source(top, p) && Key(text, p) == Key(text, Cell(a))
  }

  /** Some live position has the key of a: a itself, one of the text, or the oldest blank one. */
  ghost predicate PreCovered(text: Text, live: set<nat>, top: int, a: int) {
    exists p :: p in live && p < N && Key(text, p) == Key(text, Cell(a))
      && (Source(top, p) == a || START <= Source(top, p) || Key(text, p) == Blank())
  }

  /** Among the spaces before the text only the oldest position keeps a blank key. */
  ghost predicate OneBlank(text: Text, live: set<nat>, top: int) {
    forall p :: p in live && p < N && START - F < Source(top, p) < START ==> Key(text, p) != Blank()
  }

  /** The live positions that can stand for the window from lo up to, not including, top. */
  ghost function Windows(text: Text, lo: int, top: int): iset<set<nat>> {
    iset live: set<nat> | WindowHolds(text, live, lo, top)
  }

  ghost predicate Window(text: Text, live: set<nat>, lo: int, top: int) {
    live in Windows(text, lo, top)
  }

  ghost predicate WindowHolds(text: Text, live: set<nat>, lo: int, top: int) {
    && START - F <= lo <= top && START <= top && top - lo <= N - F + 1
    && Spread(live, lo, top)
    && OneBlank(text, live, top)
    && (forall a :: START <= a < top && lo <= a ==> Followed(text, live, top, a))
    && (forall a :: lo <= a < START ==>
          PreCovered(text, live, top, a) || (Key(text, Cell(a)) == Blank() && START - F < lo))
  }

  lemma SourceNext(top: int, p: nat)
    requires p < N
    ensures Source(top + 1, p) == if p == Cell(top) then top else Source(top, p)
  {
  }

  /** A position less than N back is the latest one in its cell. */
  lemma SourceOf(top: int, a: int)
    requires top - N <= a < top
    ensures Source(top, Cell(a)) == a
  {
  }

  /** The cell for the next position is free. */
  lemma NextIsFree(live: set<nat>, lo: int, top: int)
    requires Spread(live, lo, top) && top - lo <= N - F
    ensures Cell(top) !in live
  {
    assert Cell(top - N) == Cell(top);
    SourceOf(top, top - N);
  }

  lemma FollowedInsert(text: Text, live: set<nat>, top: int, a: int)
    requires a <= top && (a < top ==> Followed(text, live, top, a))
    ensures Followed(text, Others(text, live, Cell(top)) + {Cell(top)}, top + 1, a)
  {
    var r := Cell(top);
    var live2 := Others(text, live, r) + {r};
    SourceNext(top, r);
    assert r in live2 && r < N && a <= Source(top + 1, r);
    if a < top {
      var p :| p in live && p < N && a <= Source(top, p) && Key(text, p) == Key(text, Cell(a));
      SourceNext(top, p);
      assert Key(text, p) != Key(text, r) ==> p in live2 && a <= Source(top + 1, p);
    }
  }

  lemma PreCoveredInsert(text: Text, live: set<nat>, top: int, a: int)
    requires START <= top && PreCovered(text, live, top, a)
    ensures PreCovered(text, Others(text, live, Cell(top)) + {Cell(top)}, top + 1, a)
  {
    var r := Cell(top);
    var live2 := Others(text, live, r) + {r};
    SourceNext(top, r);
    assert r in live2 && r < N && START <= Source(top + 1, r);
    var p :| p in live && p < N && Key(text, p) == Key(text, Cell(a))
      && (Source(top, p) == a || START <= Source(top, p) || Key(text, p) == Blank());
    SourceNext(top, p);
    assert Key(text, p) != Key(text, r) ==> p in live2;
  }

  /** Inserting the next position keeps the window. */
  lemma {:induction false} WindowInsert(text: Text, live: set<nat>, lo: int, top: int)
    requires Window(text, live, lo, top) && top - lo <= N - F
    ensures Window(text, Others(text, live, Cell(top)) + {Cell(top)}, lo, top + 1)
  {
    var r, top2 := Cell(top), top + 1;
    var live2 := Others(text, live, r) + {r};
    SourceNext(top, r);
    forall p | p in live2 ensures p < N && lo <= Source(top2, p) {
      SourceNext(top, p);
    }
    forall p | p in live2 && p < N && START - F < Source(top2, p) < START ensures Key(text, p) != Blank() {
      SourceNext(top, p);
    }
    forall a | START <= a < top2 && lo <= a ensures Followed(text, live2, top2, a) {
      FollowedInsert(text, live, top, a);
    }
    forall a | lo <= a < START && !(Key(text, Cell(a)) == Blank() && START - F < lo)
      ensures PreCovered(text, live2, top2, a)
    {
      PreCoveredInsert(text, live, top, a);
    }
  }

  /** Taking out the oldest position moves the lower end of the window. */
  lemma WindowDelete(text: Text, live: set<nat>, lo: int, top: int)
    requires Window(text, live, lo, top) && lo < top
    ensures Window(text, live - {Cell(lo)}, lo + 1, top)
  {
    var live2 := live - {Cell(lo)};
    SourceOf(top, lo);
    forall p | p in live2 ensures p < N && lo + 1 <= Source(top, p) {
    }
    forall a | START <= a < top && lo + 1 <= a ensures Followed(text, live2, top, a) {
      assert Followed(text, live, top, a);
      var p :| p in live && p < N && a <= Source(top, p) && Key(text, p) == Key(text, Cell(a));
      assert p in live2;
    }
    forall a | lo + 1 <= a < START && !(Key(text, Cell(a)) == Blank() && START - F < lo + 1)
      ensures PreCovered(text, live2, top, a)
    {
      assert PreCovered(text, live, top, a);
      var p :| p in live && p < N && Key(text, p) == Key(text, Cell(a))
        && (Source(top, p) == a || START <= Source(top, p) || Key(text, p) == Blank());
      assert p in live2;
    }
  }

  /** A cell older than the window is not live. */
  lemma OlderIsFree(live: set<nat>, lo: int, top: int, a: int)
    requires Spread(live, lo, top) && top - N <= a < lo && a < top
    ensures Cell(a) !in live
  {
    SourceOf(top, a);
  }

  /** The window depends on the text only through the keys of its positions. */
  lemma WindowSameKeys(text: Text, text2: Text, live: set<nat>, lo: int, top: int)
    requires Window(text, live, lo, top)
    requires forall a :: lo <= a < top ==> Key(text2, Cell(a)) == Key(text, Cell(a))
    ensures Window(text2, live, lo, top)
  {
    forall p | p in live ensures p < N && Key(text2, p) == Key(text, p) {
      assert Key(text2, Cell(Source(top, p))) == Key(text, Cell(Source(top, p)));
    }
    forall a | START <= a < top && lo <= a ensures Followed(text2, live, top, a) {
      assert Followed(text, live, top, a);
      var p :| p in live && p < N && a <= Source(top, p) && Key(text, p) == Key(text, Cell(a));
      assert p in live && p < N && a <= Source(top, p) && Key(text2, p) == Key(text2, Cell(a));
    }
    forall a | lo <= a < START && !(Key(text2, Cell(a)) == Blank() && START - F < lo)
      ensures PreCovered(text2, live, top, a)
    {
      assert PreCovered(text, live, top, a);
      var p :| p in live && p < N && Key(text, p) == Key(text, Cell(a))
        && (Source(top, p) == a || START <= Source(top, p) || Key(text, p) == Blank());
      assert p in live && p < N && Key(text2, p) == Key(text2, Cell(a))
        && (Source(top, p) == a || START <= Source(top, p) || Key(text2, p) == Blank());
    }
  }

  // ----- what the buffer holds

  /**
   The ring holds the last N bytes written, up to position w, and behind it every byte
   of those that fell into the first F - 1 cells after the first lap.
   */
  ghost predicate Content(x: seq<byte>, text: Text, w: int) {
    && START <= w <= START + |x|
    && (forall a :: 0 <= a < w && w - N <= a ==> text[Cell(a)] == At(x, a))
    && (forall a :: N <= a < w && w - N <= a && Cell(a) < F - 1 ==> text[N + Cell(a)] == At(x, a))
  }

  /** The linear key of a window position reads the history, as far as that has been written. */
  lemma KeyReads(x: seq<byte>, text: Text, w: int, a: int, j: int)
    requires Content(x, text, w) && 0 <= a && w - N <= a && 0 <= j < F && a + j < w
    ensures Key(text, Cell(a))[j] == At(x, a + j)
  {
    assert Cell(a + j) == if Cell(a) + j < N then Cell(a) + j else Cell(a) + j - N;
  }

  /** Writing the next byte changes no key of the window that ends F bytes before it. */
  lemma WriteKeepsKey(d: Dict, w: int, c: byte, a: int)
    requires w - N < a <= w - F
    ensures Key(d.Write(Cell(w), c).text, Cell(a)) == Key(d.text, Cell(a))
  {
    var text2 := d.Write(Cell(w), c).text;
    forall j | 0 <= j < F ensures Key(text2, Cell(a))[j] == Key(d.text, Cell(a))[j] {
      WriteKeepsByte(w, a, j);
    }
  }

  lemma OtherCell(a: int, b: int)
    requires a < b < a + N
    ensures Cell(a) != Cell(b)
  {
    assert a == N * (a / N) + Cell(a) && b == N * (b / N) + Cell(b);
  }

  lemma CellBehind(a: int, j: nat)
    requires j < N
    ensures Cell(a + j) == if Cell(a) + j < N then Cell(a) + j else Cell(a) + j - N
  {
    assert a + j == N * (a / N) + (Cell(a) + j);
  }

  /** The linear cell of byte j of a key is neither the cell written nor its copy. */
  lemma WriteKeepsByte(w: int, a: int, j: nat)
    requires w - N < a <= w - F && j < F
    ensures Cell(a) + j != Cell(w) && Cell(a) + j != Cell(w) + N
  {
    OtherCell(a + j, w);
    CellBehind(a, j);
  }

  lemma WriteContent(x: seq<byte>, d: Dict, w: int)
    requires Content(x, d.text, w) && w < START + |x|
    ensures Content(x, d.Write(Cell(w), At(x, w)).text, w + 1)
  {
    var text2 := d.Write(Cell(w), At(x, w)).text;
    forall a | 0 <= a < w + 1 && w + 1 - N <= a ensures text2[Cell(a)] == At(x, a) {
      assert a < w ==> Cell(a) != Cell(w);
    }
    forall a | N <= a < w + 1 && w + 1 - N <= a && Cell(a) < F - 1 ensures text2[N + Cell(a)] == At(x, a) {
      assert a < w ==> Cell(a) != Cell(w);
    }
  }
}
