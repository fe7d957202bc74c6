/** Encode on values: its states, one step of its sliding loops, and the tokens it sends. */
module EncoderModel {
  import opened Config
  import opened Trees
  import opened LinkArrays
  import opened Matching
  import opened DictionaryModel
  import opened Tokens
  import opened History
  import opened SlidingWindow

  /** The oldest position that may be live when r is reached. */
  function LowAt(r: int): int {
    Max(START - F, r + F - N)
  }

  /** The input of Encode, its dictionary and its locals. len counts the bytes read but not yet sent. */
  datatype State = State(x: seq<byte>, dict: Dict, s: nat, r: nat, len: nat, ulPos: nat) {
    /** The absolute position of r. */
    function Here(): int {
      START + ulPos - len
    }

    /** One past the latest inserted position. */
    function Top(): int {
      if len > 0 then Here() + 1 else Here()
    }

    /** The oldest position that may still be live. */
    function Low(): int {
      LowAt(Here())
    }

    /** One past the end of the history. */
    function End(): int {
      START + |x|
    }

    /** How far the history has been written into the buffer. */
    function Written(): int {
      START + ulPos
    }
  }

  /** How the counters hang together: what is sent plus what is buffered is what was read. */
  ghost predicate Counters(st: State) {
    && st.ulPos <= |st.x| && st.len <= F && st.len <= st.ulPos
    && (st.ulPos < |st.x| ==> st.len == F)
    && st.r == Cell(st.Here()) && st.s == Cell(st.Here() + F)
  }

  /**
   The match found for r: it attains its length, and is the longest one over all
   inserted positions of the window, but for a blank one whose last representative
   has left.
   */
  ghost predicate MatchOk(text: Text, best: Match, lo: int, here: int) {
    && best.len <= F
    && (best.len > 0 ==>
          best.pos < N && lo <= Source(here, best.pos) && Common(text, best.pos, Cell(here), 0) == best.len
          && (START - F < Source(here, best.pos) < START ==> Key(text, best.pos) != Blank()))
    && (forall a :: lo <= a < here && !Lost(text, lo, a) ==> Common(text, Cell(a), Cell(here), 0) <= best.len)
  }

  /** a is a blank position before the text, and the oldest of these has left the window. */
  ghost predicate Lost(text: Text, lo: int, a: int) {
    a < START && START - F < lo && Key(text, Cell(a)) == Blank()
  }

  ghost predicate DictOk(d: Dict) {
    Consistent(d.text, d.forest) && Distinct(d.text, Live(d.forest))
  }

  /** The invariant of every state of Encode. */
  ghost predicate Invariant(st: State) {
    && Counters(st)
    && Content(st.x, st.dict.text, st.Written())
    && DictOk(st.dict)
    && Window(st.dict.text, Live(st.dict.forest), st.Low(), st.Top())
    && (st.len > 0 ==> MatchOk(st.dict.text, st.dict.best, st.Low(), st.Here()))
  }

  /** The states that satisfy the invariant. */
  ghost function States(): iset<State> {
    iset st: State | Invariant(st)
  }

  ghost predicate Good(st: State) {
    st in States()
  }

  /** The states that Encode can be in. */
  type Running = st: State | Good(st) ghost witness (StartGood([SPACE]); Start([SPACE]))

  // ----- one insertion

  /** Inserting the next position keeps dictionary and window, and finds the longest match. */
  lemma InsertGood(d: Dict, lo: int, here: int)
    requires DictOk(d) && Window(d.text, Live(d.forest), lo, here) && here - lo <= N - F
    ensures Usable(d.forest)
    ensures var d2 := d.Insert(Cell(here));
      DictOk(d2) && Window(d.text, Live(d2.forest), lo, here + 1) && MatchOk(d.text, d2.best, lo, here)
  {
    var text, live, r := d.text, Live(d.forest), Cell(here);
    NextIsFree(live, lo, here);
    InsertExactly(text, d.forest, r, d.best.pos);
    WindowInsert(text, live, lo, here);
    var m := d.Insert(r).best;
    forall a | lo <= a < here && !Lost(text, lo, a) ensures Common(text, Cell(a), r, 0) <= m.len {
      CoveredMatch(text, live, lo, here, a, m);
    }
  }

  /** A position with a live equal has no longer match than the best. */
  lemma CoveredMatch(text: Text, live: set<nat>, lo: int, here: int, a: int, m: Match)
    requires Window(text, live, lo, here) && Best(text, live, Cell(here), m)
    requires lo <= a < here && !Lost(text, lo, a)
    ensures Common(text, Cell(a), Cell(here), 0) <= m.len
  {
    var p: nat;
    if START <= a {
      assert Followed(text, live, here, a);
      p :| p in live && p < N && a <= Source(here, p) && Key(text, p) == Key(text, Cell(a));
    } else {
      assert PreCovered(text, live, here, a);
      p :| p in live && p < N && Key(text, p) == Key(text, Cell(a))
        && (Source(here, p) == a || START <= Source(here, p) || Key(text, p) == Blank());
    }
    SameKeySameCommon(text, p, Cell(a), Cell(here), 0);
  }

  lemma {:induction false} SameKeySameCommon(text: Text, p: nat, q: nat, r: nat, i: nat)
    requires p < N && q < N && r < N && i <= F && Key(text, p) == Key(text, q)
    ensures Common(text, p, r, i) == Common(text, q, r, i)
    decreases F - i
  {
    if i < F {
      assert Key(text, p)[i] == Key(text, q)[i];
      SameKeySameCommon(text, p, q, r, i + 1);
    }
  }

  /** The dictionaries of x that can take in position here, when w is how far x has been written. */
  ghost function Ready(x: seq<byte>, w: int, here: int): iset<Dict> {
    iset d: Dict |
      Content(x, d.text, w) && DictOk(d) && Usable(d.forest) && Window(d.text, Live(d.forest), LowAt(here), here)
  }

  // ----- one step of the sliding loops

  /** The dictionary after DeleteNode(s) and, while there is input, the write of the next byte. */
  function Slid(st: State): Dict
    requires st.s < N
  {
    if st.ulPos < |st.x| then st.dict.Delete(st.s).Write(st.s, st.x[st.ulPos]) else st.dict.Delete(st.s)
  }

  /** The cell F ahead is the oldest one. */
  lemma CellAhead(here: int)
    ensures Cell(here + F) == Cell(here + F - N)
  {
  }

  /** Before the first lap is over the oldest cell is not in the dictionary. */
  lemma DeleteNothing(text: Text, live: set<nat>, here: int)
    requires Window(text, live, START - F, here + 1) && here + F - N < START - F
    ensures live - {Cell(here + F - N)} == live
  {
    OlderIsFree(live, START - F, here + 1, here + F - N);
  }

  /** Taking out the cell F ahead moves the window on. */
  lemma DeleteWindow(text: Text, live: set<nat>, here: int)
    requires Window(text, live, LowAt(here), here + 1)
    ensures Window(text, live - {Cell(here + F)}, LowAt(here + 1), here + 1)
  {
    CellAhead(here);
    if here + F - N >= START - F {
      WindowDelete(text, live, here + F - N, here + 1);
    } else {
      DeleteNothing(text, live, here);
    }
  }

  lemma DeletedGood(d: Dict, s: nat, here: int)
    requires DictOk(d) && Window(d.text, Live(d.forest), LowAt(here), here + 1) && s == Cell(here + F)
    ensures DictOk(d.Delete(s)) && Window(d.text, Live(d.Delete(s).forest), LowAt(here + 1), here + 1)
  {
    DeleteExactly(d.text, d.forest, s);
    DeleteWindow(d.text, Live(d.forest), here);
  }

  lemma DeleteGood(st: Running)
    requires st.len > 0
    ensures DictOk(st.dict.Delete(st.s))
    ensures Window(st.dict.text, Live(st.dict.Delete(st.s).forest), LowAt(st.Here() + 1), st.Here() + 1)
  {
    DeletedGood(st.dict, st.s, st.Here());
  }

  /** The written byte disturbs no key of a live position. */
  lemma WriteKeepsLive(d: Dict, w: int, c: byte, live: set<nat>, lo: int)
    requires Spread(live, lo, w - F + 1) && w - N < lo
    ensures forall p :: p in live ==> p < N && Key(d.Write(Cell(w), c).text, p) == Key(d.text, p)
  {
    forall p | p in live ensures p < N && Key(d.Write(Cell(w), c).text, p) == Key(d.text, p) {
      WriteKeepsKey(d, w, c, Source(w - F + 1, p));
    }
  }

  lemma WriteKeepsKeys(d: Dict, w: int, c: byte, lo: int)
    requires w - N < lo
    ensures forall a :: lo <= a < w - F + 1 ==> Key(d.Write(Cell(w), c).text, Cell(a)) == Key(d.text, Cell(a))
  {
    forall a | lo <= a < w - F + 1 ensures Key(d.Write(Cell(w), c).text, Cell(a)) == Key(d.text, Cell(a)) {
      WriteKeepsKey(d, w, c, a);
    }
  }

  lemma WriteWindow(d: Dict, w: int, c: byte, live: set<nat>, lo: int)
    requires Window(d.text, live, lo, w - F + 1) && w - N < lo
    ensures Window(d.Write(Cell(w), c).text, live, lo, w - F + 1)
  {
    WriteKeepsKeys(d, w, c, lo);
    WindowSameKeys(d.text, d.Write(Cell(w), c).text, live, lo, w - F + 1);
  }

  lemma SameKeysOk(d: Dict, d2: Dict)
    requires DictOk(d) && d2.forest == d.forest
    requires forall p :: p in Live(d.forest) ==> p < N && Key(d2.text, p) == Key(d.text, p)
    ensures DictOk(d2)
  {
    forall p | p in Live(d.forest) ensures d2.text[p] == d.text[p] {
      assert Key(d2.text, p)[0] == Key(d.text, p)[0];
    }
    WriteConsistent(d.text, d2.text, d.forest);
  }

  lemma WriteGood(x: seq<byte>, d: Dict, w: int)
    requires DictOk(d) && Content(x, d.text, w) && w < START + |x|
    requires Window(d.text, Live(d.forest), LowAt(w - F + 1), w - F + 1)
    ensures var d2 := d.Write(Cell(w), At(x, w));
      && DictOk(d2) && Content(x, d2.text, w + 1)
      && Window(d2.text, Live(d2.forest), LowAt(w - F + 1), w - F + 1)
  {
    WriteContent(x, d, w);
    WriteKeepsLive(d, w, At(x, w), Live(d.forest), LowAt(w - F + 1));
    WriteWindow(d, w, At(x, w), Live(d.forest), LowAt(w - F + 1));
    SameKeysOk(d, d.Write(Cell(w), At(x, w)));
  }

  lemma SlidGood(st: Running)
    requires st.len > 0
    ensures Usable(Slid(st).forest)
    ensures Slid(st) in Ready(st.x, if st.ulPos < |st.x| then st.Written() + 1 else st.Written(), st.Here() + 1)
  {
    DeleteGood(st);
    var d, w := st.dict.Delete(st.s), st.Written();
    if st.ulPos < |st.x| {
      assert st.Here() == w - F && st.s == Cell(w) && At(st.x, w) == st.x[st.ulPos];
      WriteGood(st.x, d, w);
      assert Slid(st) == d.Write(Cell(w), At(st.x, w));
    } else {
      assert Slid(st) == d && d.text == st.dict.text;
    }
    UsableWhenConsistent(Slid(st).text, Slid(st).forest);
  }

  /** The state after one turn of the reading loop or of the draining loop. */
  ghost function Turned(st: State): State
    requires st.s < N && st.len > 0 && Usable(Slid(st).forest)
  {
    var s, r := Cell(st.s + 1), Cell(st.r + 1);
    if st.ulPos < |st.x| then
      st.(dict := Slid(st).Insert(r), s := s, r := r, ulPos := st.ulPos + 1)
    else if st.len > 1 then
      st.(dict := Slid(st).Insert(r), s := s, r := r, len := st.len - 1)
    else
      st.(dict := Slid(st), s := s, r := r, len := 0)
  }

  /** b has the counters of a after one turn. */
  ghost predicate MovedOn(a: State, b: State) {
    && b.x == a.x && b.s == Cell(a.s + 1) && b.r == Cell(a.r + 1)
    && b.ulPos == (if a.ulPos < |a.x| then a.ulPos + 1 else a.ulPos)
    && b.len == (if a.ulPos < |a.x| then a.len else a.len - 1)
  }

  /** The counters stay in step, and the text grows only while there is input. */
  lemma MovedCounters(a: State, b: State)
    requires Counters(a) && a.len > 0 && MovedOn(a, b)
    ensures Counters(b) && b.Here() == a.Here() + 1
    ensures b.Written() == if a.ulPos < |a.x| then a.Written() + 1 else a.Written()
  {
    CellsMoved(a.s, a.r, a.Here(), b.Here());
  }

  lemma CellsMoved(s: nat, r: nat, here: int, next: int)
    requires s == Cell(here + F) && r == Cell(here) && next == here + 1
    ensures Cell(s + 1) == Cell(next + F) && Cell(r + 1) == Cell(next)
  {
    CellNext(s, here + F);
    CellNext(r, here);
  }

  lemma TurnedMoves(st: State)
    requires st.s < N && st.len > 0 && Usable(Slid(st).forest)
    ensures MovedOn(st, Turned(st))
    ensures Turned(st).dict == if Turned(st).len > 0 then Slid(st).Insert(Cell(st.r + 1)) else Slid(st)
  {
  }

  lemma GoodIf(st: State)
    requires Counters(st) && Content(st.x, st.dict.text, st.Written()) && DictOk(st.dict)
    requires Window(st.dict.text, Live(st.dict.forest), st.Low(), st.Top())
    requires st.len > 0 ==> MatchOk(st.dict.text, st.dict.best, st.Low(), st.Here())
    ensures Good(st)
  {
  }

  lemma ReadyOpen(d: Dict, x: seq<byte>, w: int, here: int)
    requires d in Ready(x, w, here) && START <= here
    ensures Usable(d.forest)
    ensures var d2 := d.Insert(Cell(here));
      && DictOk(d2) && d2.text == d.text && Content(x, d2.text, w)
      && Window(d2.text, Live(d2.forest), LowAt(here), here + 1) && MatchOk(d2.text, d2.best, LowAt(here), here)
  {
    InsertGood(d, LowAt(here), here);
  }

  lemma ReadyLast(d: Dict, x: seq<byte>, w: int, here: int)
    requires d in Ready(x, w, here)
    ensures DictOk(d) && Content(x, d.text, w) && Window(d.text, Live(d.forest), LowAt(here), here)
  {
  }

  /** A state put together from the dictionary d before the insertion of its position. */
  lemma Assemble(st: State, d: Dict, x: seq<byte>, w: int, here: int)
    requires Counters(st) && x == st.x && w == st.Written() && here == st.Here() && d in Ready(x, w, here)
    requires st.dict == if st.len > 0 then d.Insert(Cell(st.Here())) else d
    ensures Good(st)
  {
    if st.len > 0 {
      AssembleOpen(st, d, x, w, here);
    } else {
      ReadyLast(d, x, w, here);
      GoodIf(st);
    }
  }

  lemma AssembleOpen(st: State, d: Dict, x: seq<byte>, w: int, here: int)
    requires Counters(st) && x == st.x && w == st.Written() && here == st.Here() && d in Ready(x, w, here)
    requires st.len > 0 && st.dict == d.Insert(Cell(here))
    ensures Good(st)
  {
    ReadyOpen(d, x, w, here);
    GoodIf(st);
  }

  lemma MovedGood(a: State, d: Dict, b: State)
    requires Counters(a) && a.len > 0 && MovedOn(a, b) && Usable(d.forest)
    requires d in Ready(a.x, if a.ulPos < |a.x| then a.Written() + 1 else a.Written(), a.Here() + 1)
    requires b.dict == if b.len > 0 then d.Insert(Cell(a.r + 1)) else d
    ensures Good(b) && b.Here() == a.Here() + 1
  {
    MovedCounters(a, b);
    Assemble(b, d, a.x, b.Written(), b.Here());
  }

  /** Every turn keeps the invariant and moves the window by one. */
  lemma TurnedGood(st: Running)
    requires st.len > 0
    ensures Usable(Slid(st).forest) && Good(Turned(st)) && Turned(st).Here() == st.Here() + 1
  {
    SlidGood(st);
    TurnedMoves(st);
    MovedGood(st, Slid(st), Turned(st));
  }

  ghost function Step(st: Running): (st2: Running)
    requires st.len > 0
    ensures st2.Here() == st.Here() + 1 && st2.x == st.x
  {
    TurnedGood(st);
    Turned(st)
  }

  // ----- the start: F runs of spaces, then the text

  /** The buffer after the first bytes have been read; cells not yet reached hold 0. */
  function InitText(x: seq<byte>): Text {
    seq(START, _ => SPACE) + x[..Min(F, |x|)] + seq(N + F - 1 - START - Min(F, |x|), _ => 0)
  }

  /**
   After the insertion of the last i spaces before the text: all are live, but for the
   blank ones, which the last inserted stands for.
   */
  ghost predicate Preloaded(text: Text, live: set<nat>, i: nat) {
    && (forall p :: p in live ==> START - i <= p < START)
    && (forall p :: p in live && p < N && Key(text, p) == Blank() ==> p == START - i)
    && (forall a :: START - i <= a < START ==>
          a in live || (Key(text, Cell(a)) == Blank() && START - i in live && Key(text, Cell(START - i)) == Blank()))
  }

  /** Two runs of spaces before the text with the same key are blank. */
  lemma {:induction false} EqualIsBlank(text: Text, r: nat, p: nat, j: nat)
    requires r < p <= START && j < F && Key(text, p) == Key(text, r)
    requires forall a :: 0 <= a < START ==> text[a] == SPACE
    ensures Key(text, r)[j] == SPACE
    decreases j
  {
    if r + j >= START {
      EqualIsBlank(text, r, p, j - (p - r));
      assert Key(text, p)[j - (p - r)] == Key(text, r)[j];
    }
  }

  /** What starts earlier, with spaces, before a blank key, is blank. */
  lemma EarlierIsBlank(text: Text, r: nat, p: nat)
    requires r < p <= START && Key(text, p) == Blank()
    requires forall a :: 0 <= a < START ==> text[a] == SPACE
    ensures Key(text, r) == Blank()
  {
    forall j | 0 <= j < F ensures Key(text, r)[j] == SPACE {
      if r + j >= START {
        assert Key(text, p)[j - (p - r)] == SPACE;
      }
    }
  }

  /** One more run of spaces in front replaces a live one only if both are blank. */
  lemma ReplacedIsBlank(text: Text, live: set<nat>, i: nat, p: nat)
    requires i < F && Preloaded(text, live, i) && p in live && Key(text, p) == Key(text, START - (i + 1))
    requires forall a :: 0 <= a < START ==> text[a] == SPACE
    ensures Key(text, p) == Blank() && Key(text, START - (i + 1)) == Blank()
  {
    var r := START - (i + 1);
    forall j | 0 <= j < F ensures Key(text, r)[j] == SPACE {
      EqualIsBlank(text, r, p, j);
    }
  }

  lemma PreloadOneBlank(text: Text, live: set<nat>, i: nat, r: nat, p: nat)
    requires i < F && r == START - (i + 1) && (forall p :: p in live ==> START - i <= p < START)
    requires forall a :: 0 <= a < START ==> text[a] == SPACE
    requires p in Others(text, live, r) + {r} && p < N && Key(text, p) == Blank()
    ensures p == r
  {
    if p != r {
      EarlierIsBlank(text, r, p);
    }
  }

  lemma PreloadInsert(text: Text, live: set<nat>, i: nat)
    requires i < F && Preloaded(text, live, i)
    requires forall a :: 0 <= a < START ==> text[a] == SPACE
    ensures Preloaded(text, Others(text, live, START - (i + 1)) + {START - (i + 1)}, i + 1)
  {
    var r := START - (i + 1);
    var live2 := Others(text, live, r) + {r};
    forall p | p in live2 && p < N && Key(text, p) == Blank() ensures p == r {
      PreloadOneBlank(text, live, i, r, p);
    }
    PreloadCoversAll(text, live, i, r);
  }

  lemma PreloadCoversAll(text: Text, live: set<nat>, i: nat, r: nat)
    requires i < F && Preloaded(text, live, i) && r == START - (i + 1)
    requires forall a :: 0 <= a < START ==> text[a] == SPACE
    ensures forall a :: r <= a < START ==>
      a in Others(text, live, r) + {r} || (Key(text, Cell(a)) == Blank() && Key(text, Cell(r)) == Blank())
  {
    forall a | r <= a < START
      ensures a in Others(text, live, r) + {r} || (Key(text, Cell(a)) == Blank() && Key(text, Cell(r)) == Blank())
    {
      PreloadCovers(text, live, i, a);
    }
  }

  /** A position that is not live has a blank key. */
  lemma PreloadBlank(text: Text, live: set<nat>, i: nat, a: nat)
    requires Preloaded(text, live, i) && START - i <= a < START && a !in live
    ensures Key(text, a) == Blank()
  {
    assert Cell(a) == a;
  }

  lemma PreloadCovers(text: Text, live: set<nat>, i: nat, a: nat)
    requires i < F && Preloaded(text, live, i) && START - (i + 1) <= a < START
    requires forall a :: 0 <= a < START ==> text[a] == SPACE
    ensures a in Others(text, live, START - (i + 1)) + {START - (i + 1)}
         || (Key(text, Cell(a)) == Blank() && Key(text, Cell(START - (i + 1))) == Blank())
  {
    var r := START - (i + 1);
    assert Cell(a) == a && Cell(r) == r;
    if a in live {
      PreloadKept(text, live, i, r, a);
    } else if a != r {
      PreloadBlank(text, live, i, a);
      EarlierIsBlank(text, r, a);
    }
  }

  lemma PreloadKept(text: Text, live: set<nat>, i: nat, r: nat, a: nat)
    requires i < F && Preloaded(text, live, i) && r == START - (i + 1) && r <= a < START && a in live
    requires forall a :: 0 <= a < START ==> text[a] == SPACE
    ensures a in Others(text, live, r) || (Key(text, a) == Blank() && Key(text, r) == Blank())
  {
    if Key(text, a) == Key(text, r) {
      ReplacedIsBlank(text, live, i, a);
    }
  }

  lemma PreloadStep(d: Dict, i: nat)
    requires DictOk(d) && i < F && Preloaded(d.text, Live(d.forest), i)
    requires forall a :: 0 <= a < START ==> d.text[a] == SPACE
    ensures Usable(d.forest)
    ensures var d2 := d.Insert(START - (i + 1));
      d2.text == d.text && DictOk(d2) && Preloaded(d.text, Live(d2.forest), i + 1)
  {
    var r := START - (i + 1);
    assert r !in Live(d.forest);
    InsertExactly(d.text, d.forest, r, d.best.pos);
    PreloadInsert(d.text, Live(d.forest), i);
  }

  /** The dictionary after InsertNode(r - 1), .., InsertNode(r - i). */
  ghost function Preload(x: seq<byte>, i: nat): (d: Dict)
    requires i <= F
    ensures d.text == InitText(x) && DictOk(d) && Preloaded(d.text, Live(d.forest), i) && Usable(d.forest)
  {
    if i == 0 then
      var d := Dict(InitText(x), seq(256, _ => Leaf), Match(0, 0));
      EmptyForest(d.text, d.forest);
      d
    else
      var d := Preload(x, i - 1);
      PreloadStep(d, i - 1);
      UsableWhenConsistent(d.Insert(START - i).text, d.Insert(START - i).forest);
      d.Insert(START - i)
  }

  lemma EmptyForest(text: Text, f: Forest)
    requires f == seq(256, _ => Leaf)
    ensures Consistent(text, f) && Live(f) == {} && Usable(f)
  {
    forall c | 0 <= c < 256 ensures TreeOk(text, c, f[c]) {
    }
    UsableWhenConsistent(text, f);
  }

  /** The state before the first token. */
  ghost function Start(x: seq<byte>): State
    requires x != []
  {
    State(x, Preload(x, F).Insert(START), 0, START, Min(F, |x|), Min(F, |x|))
  }

  lemma InitContent(x: seq<byte>)
    ensures Content(x, InitText(x), START + Min(F, |x|))
  {
  }

  lemma StartReady(x: seq<byte>, d: Dict, n: nat)
    requires d.text == InitText(x) && DictOk(d) && Preloaded(d.text, Live(d.forest), F) && Usable(d.forest)
    requires n == Min(F, |x|)
    ensures d in Ready(x, START + n, START)
  {
    InitContent(x);
    PreloadedWindow(d.text, Live(d.forest));
    assert LowAt(START) == START - F;
  }

  /** A state put together from the dictionary of the preload. */
  lemma StartFrom(x: seq<byte>, d: Dict, n: nat, st: State)
    requires x != [] && n == Min(F, |x|) && d in Ready(x, START + n, START) && Usable(d.forest)
    requires st == State(x, d.Insert(START), 0, START, n, n)
    ensures Good(st) && st.Here() == START
  {
    Assemble(st, d, x, START + n, START);
  }

  lemma {:induction false} StartGood(x: seq<byte>)
    requires x != []
    ensures Good(Start(x)) && Start(x).Here() == START
  {
    StartReady(x, Preload(x, F), Min(F, |x|));
    StartFrom(x, Preload(x, F), Min(F, |x|), Start(x));
  }

  lemma PreloadedWindow(text: Text, live: set<nat>)
    requires Preloaded(text, live, F)
    ensures Window(text, live, START - F, START)
  {
    forall p | p in live ensures p < N && Source(START, p) == p {
    }
    forall a | START - F <= a < START ensures PreCovered(text, live, START, a) {
      if a in live {
        assert Source(START, a) == a && Cell(a) == a;
      } else {
        assert START - F in live && Key(text, START - F) == Key(text, Cell(a));
      }
    }
  }

  // ----- tokens

  /** The unit of code sent in a state. */
  function TokenOf(st: State): Token
    requires st.r < N
  {
    var m := Min(st.dict.best.len, st.len);
    if m <= THRESHOLD then Literal(st.dict.text[st.r]) else Pair(st.dict.best.pos, m)
  }

  /** While text is left, some of it is buffered. */
  lemma TextLeft(st: Running)
    ensures st.len > 0 <==> st.Here() < st.End()
  {
  }

  /** n turns of the sliding loops. */
  ghost function Steps(st: Running, n: nat): (st2: Running)
    requires st.Here() + n <= st.End()
    ensures st2.Here() == st.Here() + n && st2.x == st.x
    decreases n
  {
    if n == 0 then st
    else
      TextLeft(st);
      Steps(Step(st), n - 1)
  }

  /** a lies before r, and the n bytes from a and from r are the same. */
  ghost predicate Prefix(x: seq<byte>, a: int, r: int, n: nat) {
    0 <= a < r && r + n <= START + |x| && forall j :: 0 <= j < n ==> Echo(x, a, r, j)
  }

  /** Lost, read off the input: the first bytes are spaces, as many as make position a blank. */
  predicate Forgotten(x: seq<byte>, r: int, a: int) {
    a < START && START - F < LowAt(r) && a + F <= START + |x| && forall j :: 0 <= j < a + F - START ==> x[j] == SPACE
  }

  /** No position of the window would have given a longer match than t. */
  ghost predicate LongestAt(x: seq<byte>, r: int, t: Token) {
    forall a, n: nat :: LowAt(r) <= a < r && !Forgotten(x, r, a) && n <= F && Prefix(x, a, r, n) ==>
      n <= if t.Literal? then THRESHOLD else t.len
  }

  /** The common prefix of two window positions is at least what the text says. */
  lemma {:induction false} PrefixCommon(x: seq<byte>, text: Text, w: int, a: int, r: int, n: nat, i: nat)
    requires Content(x, text, w) && Prefix(x, a, r, n) && w - N <= a && r + n <= w && i <= n <= F
    ensures Common(text, Cell(a), Cell(r), i) >= n
    decreases n - i
  {
    if i < n {
      KeyReads(x, text, w, a, i);
      KeyReads(x, text, w, r, i);
      assert Echo(x, a, r, i);
      PrefixCommon(x, text, w, a, r, n, i + 1);
    } else {
      CommonRange(text, Cell(a), Cell(r), i);
    }
  }

  /** Whatever stale bytes lie behind the text, a match, cut to len, agrees with the text. */
  lemma MatchSound(x: seq<byte>, text: Text, w: int, pos: nat, r: int, m: nat)
    requires Content(x, text, w) && pos < N && START <= r && r + m <= w && m <= F
    requires r - START <= Source(r, pos) && w <= r + F
    requires m <= Common(text, pos, Cell(r), 0)
    ensures SoundAt(x, r, Pair(pos, m))
  {
    var a := Source(r, pos);
    CommonRange(text, pos, Cell(r), 0);
    forall j | 0 <= j < m ensures Echo(x, a, r, j) {
      assert Agree(text, pos, Cell(r), j);
      KeyReads(x, text, w, a, j);
      KeyReads(x, text, w, r, j);
    }
  }

  lemma TokenSound(st: Running)
    requires st.len > 0
    ensures WellFormed(TokenOf(st)) && 1 <= Covers(TokenOf(st)) <= st.len
    ensures SoundAt(st.x, st.Here(), TokenOf(st))
  {
    var r, text, best := st.Here(), st.dict.text, st.dict.best;
    var m := Min(best.len, st.len);
    if m <= THRESHOLD {
      KeyReads(st.x, text, st.Written(), r, 0);
    } else {
      MatchSound(st.x, text, st.Written(), best.pos, r, m);
    }
  }

  lemma LostForgotten(st: Running, a: int)
    requires st.len > 0 && st.Low() <= a < st.Here()
    requires Lost(st.dict.text, st.Low(), a)
    ensures Forgotten(st.x, st.Here(), a)
  {
    forall j | 0 <= j < a + F - START ensures a + F - START <= |st.x| && st.x[j] == SPACE {
      KeyReads(st.x, st.dict.text, st.Written(), a, START + j - a);
      assert At(st.x, START + j) == SPACE;
    }
  }

  /** The token sent is the longest match, cut to the text that is left. */
  lemma TokenLongest(st: Running)
    requires st.len > 0
    ensures LongestAt(st.x, st.Here(), TokenOf(st))
  {
    var r, text, best := st.Here(), st.dict.text, st.dict.best;
    forall a, n: nat | LowAt(r) <= a < r && !Forgotten(st.x, r, a) && n <= F && Prefix(st.x, a, r, n)
      ensures n <= Min(best.len, st.len)
    {
      if Lost(text, st.Low(), a) {
        LostForgotten(st, a);
      }
      PrefixCommon(st.x, text, st.Written(), a, r, n, 0);
    }
  }

  /** All tokens from a state on: the outer loop of Encode. */
  ghost function TokensFrom(st: Running): (ts: seq<Token>)
    decreases st.End() - st.Here()
  {
    if st.len == 0 then []
    else
      TokenSound(st);
      [TokenOf(st)] + TokensFrom(Steps(st, Covers(TokenOf(st))))
  }

  /** Each token is the longest match at its place. */
  ghost predicate Greedy(x: seq<byte>, r: int, ts: seq<Token>)
    decreases |ts|
  {
    ts == [] || (LongestAt(x, r, ts[0]) && Greedy(x, r + Covers(ts[0]), ts[1..]))
  }

  /** The first token of a state, and the state after it. */
  lemma {:induction false} TokensUnfold(st: Running) returns (t: Token, st2: Running)
    requires st.len > 0
    ensures t == TokenOf(st) && WellFormed(t) && 1 <= Covers(t) <= st.len
    ensures st2.Here() == st.Here() + Covers(t) && st2.x == st.x && st.Here() + Covers(t) <= st.End()
    ensures st2 == Steps(st, Covers(t)) && TokensFrom(st) == [t] + TokensFrom(st2)
  {
    TokenSound(st);
    t := TokenOf(st);
    st2 := Steps(st, Covers(t));
  }

  lemma SoundCons(x: seq<byte>, r: int, t: Token, r2: int, ts: seq<Token>)
    requires START <= r && WellFormed(t) && SoundAt(x, r, t)
    requires r2 == r + Covers(t) && AllWellFormed(ts) && Sound(x, r2, ts)
    ensures Sound(x, r, [t] + ts) && AllWellFormed([t] + ts)
  {
    assert ([t] + ts)[1..] == ts;
  }

  /** The tokens spell out the rest of the text. */
  lemma {:induction false} TokensSound(st: Running)
    ensures Sound(st.x, st.Here(), TokensFrom(st)) && AllWellFormed(TokensFrom(st))
    decreases st.End() - st.Here()
  {
    TextLeft(st);
    if st.len > 0 {
      TokenSound(st);
      var t, st2 := TokensUnfold(st);
      TokensSound(st2);
      SoundCons(st.x, st.Here(), t, st2.Here(), TokensFrom(st2));
    }
  }

  lemma GreedyCons(x: seq<byte>, r: int, t: Token, r2: int, ts: seq<Token>)
    requires LongestAt(x, r, t) && r2 == r + Covers(t) && Greedy(x, r2, ts)
    ensures Greedy(x, r, [t] + ts)
  {
    assert ([t] + ts)[1..] == ts;
  }

  /** Each of them is the longest match at its place. */
  lemma {:induction false} TokensGreedy(st: Running)
    ensures Greedy(st.x, st.Here(), TokensFrom(st))
    decreases st.End() - st.Here()
  {
    if st.len > 0 {
      TokenLongest(st);
      var t, st2 := TokensUnfold(st);
      TokensGreedy(st2);
      GreedyCons(st.x, st.Here(), t, st2.Here(), TokensFrom(st2));
    }
  }

  /** Sound tokens cover the text exactly. */
  lemma {:induction false} SoundCovers(x: seq<byte>, r: int, ts: seq<Token>)
    requires r >= START && Sound(x, r, ts)
    ensures CoversAll(ts) == START + |x| - r
    decreases |ts|
  {
    if ts != [] {
      SoundCovers(x, r + Covers(ts[0]), ts[1..]);
    }
  }

  /** The tokens of a whole input. */
  ghost function EncodedTokens(x: seq<byte>): (ts: seq<Token>)
    ensures AllWellFormed(ts)
  {
    if x == [] then []
    else
      StartGood(x);
      TokensSound(Start(x));
      TokensFrom(Start(x))
  }

  /** What Encode puts out. */
  ghost function Encoded(x: seq<byte>): seq<byte> {
    Pack(EncodedTokens(x))
  }
}
