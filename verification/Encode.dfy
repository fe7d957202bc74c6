/** The method Encode, over arrays and a SearchTree.Dictionary. */
module Encoding {
  import opened Config
  import opened Trees
  import opened LinkArrays
  import opened Matching
  import opened SearchTree
  import opened DictionaryModel
  import opened Tokens
  import opened History
  import opened SlidingWindow
  import opened EncoderModel
  import opened BitOperators

  /** The object d holds the value v; its match length may have been cut since. */
  ghost predicate Holds(d: Dictionary, v: Dict)
    reads d, d.textBuf, d.lson, d.rson, d.dad
  {
    d.Valid() && d.textBuf[..] == v.text && d.forest == v.forest && d.matchPosition == v.best.pos
  }

  /** InsertNode on an object that holds v. */
  method Insert(d: Dictionary, r: nat, ghost v: Dict)
    requires Holds(d, v) && r < N && !In(v.forest, r)
    modifies d, d.lson, d.rson, d.dad
    ensures Usable(v.forest) && Holds(d, v.Insert(r)) && d.matchLength == v.Insert(r).best.len
  {
    d.InsertNode(r);
  }

  /** The input is not one of the arrays of d. */
  ghost predicate Apart(d: Dictionary, a: array<byte>) {
    a != d.textBuf && a as object != d.lson && a as object != d.rson && a as object != d.dad
  }

  /** Spaces, then the first F bytes of the input. */
  method Fill(d: Dictionary, ucInput: array<byte>, inLen: nat) returns (len: nat)
    requires d.Valid() && d.textBuf[..] == seq(N + F - 1, _ => 0)
    requires inLen <= ucInput.Length && Apart(d, ucInput)
    modifies d.textBuf
    ensures d.Valid() && len == Min(F, inLen) && d.textBuf[..] == InitText(ucInput[..inLen])
  {
    ghost var x := ucInput[..inLen];
    var r: nat := N - F;
    for i := 0 to r
      invariant forall j :: 0 <= j < d.textBuf.Length ==> d.textBuf[j] == if j < i then SPACE else 0
    {
      d.textBuf[i] := SPACE;
    }
    len := 0;
    while len < F && len < inLen
      invariant len <= F && len <= inLen
      invariant forall j :: 0 <= j < d.textBuf.Length ==>
        d.textBuf[j] == if j < r then SPACE else if j < r + len then x[j - r] else 0
    {
      d.textBuf[r + len] := ucInput[len];
      len := len + 1;
    }
  }

  /** InsertNode(r) can run on a, and leaves b. */
  ghost predicate InsertOk(a: Dict, r: nat, b: Dict) {
    r < N && Usable(a.forest) && !In(a.forest, r) && b == a.Insert(r)
  }

  /** The dictionaries during the preload, the last one with the text itself inserted. */
  lemma PreloadTrace(x: seq<byte>) returns (ds: seq<Dict>)
    requires x != []
    ensures |ds| == F + 2 && ds[0] == Dict(InitText(x), seq(256, _ => Leaf), Match(0, 0))
    ensures forall i :: 0 <= i <= F ==> InsertOk(ds[i], if i < F then START - (i + 1) else START, ds[i + 1])
    ensures ds[F + 1] == Start(x).dict
  {
    var pre, last := seq(F + 1, i requires 0 <= i <= F => Preload(x, i)), Start(x).dict;
    ds := pre + [last];
    assert ds[0] == pre[0] == Preload(x, 0);
    forall i | 0 <= i <= F ensures InsertOk(ds[i], if i < F then START - (i + 1) else START, ds[i + 1]) {
      PreloadInsertOk(x, i);
    }
  }

  lemma PreloadInsertOk(x: seq<byte>, i: nat)
    requires i <= F && x != []
    ensures var r := if i < F then START - (i + 1) else START;
      InsertOk(Preload(x, i), r, if i < F then Preload(x, i + 1) else Start(x).dict)
  {
    var v := Preload(x, i);
    LiveIn(v.text, v.forest, if i < F then START - (i + 1) else START);
  }

  /** The runs of spaces before the text are inserted, then the text itself. */
  method Prime(d: Dictionary, ghost ds: seq<Dict>)
    requires |ds| == F + 2 && Holds(d, ds[0])
    requires forall i :: 0 <= i <= F ==> InsertOk(ds[i], if i < F then START - (i + 1) else START, ds[i + 1])
    modifies d, d.lson, d.rson, d.dad
    ensures Holds(d, ds[F + 1]) && d.matchLength == ds[F + 1].best.len
  {
    var r: nat := N - F;
    for i := 1 to F + 1
      invariant Holds(d, ds[i - 1])
    {
      assert InsertOk(ds[i - 1], START - i, ds[i]);
      Insert(d, r - i, ds[i - 1]);
    }
    assert InsertOk(ds[F], START, ds[F + 1]);
    Insert(d, r, ds[F]);
  }

  lemma FreeCell(text: Text, live: set<nat>, here: int)
    requires Window(text, live, LowAt(here), here)
    ensures Cell(here) !in live
  {
    NextIsFree(live, LowAt(here), here);
  }

  /** The cell of the next position is free. */
  lemma FreeSlot(d: Dict, x: seq<byte>, w: int, here: int)
    requires d in Ready(x, w, here)
    ensures !In(d.forest, Cell(here))
  {
    FreeCell(d.text, Live(d.forest), here);
    LiveIn(d.text, d.forest, Cell(here));
  }

  /** The cell that a step inserts is free. */
  lemma StepFree(st: Running)
    requires st.len > 0
    ensures Usable(Slid(st).forest) && !In(Slid(st).forest, Cell(st.Here() + 1))
  {
    SlidGood(st);
    FreeSlot(Slid(st), st.x, if st.ulPos < |st.x| then st.Written() + 1 else st.Written(), st.Here() + 1);
  }

  /** What is left of v when its oldest string goes, c takes the cell, and r comes in. */
  ghost function Exchanged(v: Dict, s: nat, c: byte, r: nat): iset<Dict> {
    iset w: Dict | s < N && InsertOk(v.Delete(s).Write(s, c), r, w)
  }

  /** What is left of v when its oldest string goes, and r comes in while there is text left. */
  ghost function Drained(v: Dict, s: nat, r: nat, len: nat): iset<Dict> {
    iset w: Dict | s < N && if len > 0 then InsertOk(v.Delete(s), r, w) else w == v.Delete(s)
  }

  /** One turn of a sliding loop can run in state a, and leaves state b. */
  ghost predicate TurnOk(a: State, b: State) {
    && a.s < N && a.len > 0 && b.x == a.x && b.s == Cell(a.s + 1) && b.r == Cell(a.r + 1)
    && if a.ulPos < |a.x| then
         b.len == a.len && b.ulPos == a.ulPos + 1 && b.dict in Exchanged(a.dict, a.s, a.x[a.ulPos], b.r)
       else
         b.len == a.len - 1 && b.ulPos == a.ulPos && b.dict in Drained(a.dict, a.s, b.r, b.len)
  }

  lemma TurnedOk(st: State)
    requires Counters(st) && st.len > 0
    requires Usable(Slid(st).forest) && !In(Slid(st).forest, Cell(st.Here() + 1))
    ensures TurnOk(st, Turned(st))
  {
    CellNext(st.r, st.Here());
  }

  lemma StepTurnOk(st: Running)
    requires st.len > 0
    ensures TurnOk(st, Step(st))
  {
    StepFree(st);
    TurnedOk(st);
  }

  /** tr leads from a to b in n turns. */
  ghost predicate Leads(tr: seq<State>, a: State, b: State, n: nat) {
    |tr| == n + 1 && tr[0] == a && tr[n] == b && forall i :: 0 <= i < n ==> TurnOk(tr[i], tr[i + 1])
  }

  lemma LeadsCons(a: State, tr: seq<State>, b: State, c: State, n: nat)
    requires TurnOk(a, b) && Leads(tr, b, c, n)
    ensures Leads([a] + tr, a, c, n + 1)
  {
    var tr2 := [a] + tr;
    forall i | 0 <= i < n + 1 ensures TurnOk(tr2[i], tr2[i + 1]) {
      if i > 0 {
        assert TurnOk(tr[i - 1], tr[i - 1 + 1]);
      }
    }
  }

  /** The states during n turns. */
  lemma {:induction false} StepsTrace(st: Running, n: nat) returns (tr: seq<State>)
    requires st.Here() + n <= st.End()
    ensures Leads(tr, st, Steps(st, n), n)
    decreases n
  {
    tr := [st];
    if n > 0 {
      TextLeft(st);
      StepTurnOk(st);
      var rest := StepsTrace(Step(st), n - 1);
      LeadsCons(st, rest, Step(st), Steps(st, n), n - 1);
      tr := [st] + rest;
    }
  }

  /** The locals and the object are in state st. */
  ghost predicate InState(d: Dictionary, s: nat, r: nat, len: nat, ulPos: nat, st: State)
    reads d, d.textBuf, d.lson, d.rson, d.dad
  {
    Holds(d, st.dict) && s == st.s && r == st.r && len == st.len && ulPos == st.ulPos
  }

  /** The string at s goes. */
  method Remove(d: Dictionary, s: nat, ghost v: Dict)
    requires Holds(d, v) && s < N
    modifies d, d.lson, d.rson, d.dad
    ensures Holds(d, v.Delete(s))
  {
    d.DeleteNode(s);
  }

  /** The cell s takes the next byte, with a copy behind the ring. */
  method Store(d: Dictionary, s: nat, c: byte, ghost v: Dict)
    requires Holds(d, v) && s < N
    modifies d.textBuf
    ensures Holds(d, v.Write(s, c))
  {
    d.textBuf[s] := c;
    if s < F - 1 {
      d.textBuf[s + N] := c;
    }
  }

  /** One cell on around the ring. */
  method Advance(s: nat) returns (s2: nat)
    ensures s2 == Cell(s + 1) < N
  {
    s2 := Wrap(s + 1);
  }

  /** The oldest string goes, its cell takes the next byte, and the string at r, one on, comes in. */
  method Exchange(d: Dictionary, s: nat, r: nat, c: byte, ghost v: Dict, ghost w: Dict)
    requires Holds(d, v) && s < N && w in Exchanged(v, s, c, r)
    modifies d, d.textBuf, d.lson, d.rson, d.dad
    ensures Holds(d, w) && d.matchLength == w.best.len
  {
    Remove(d, s, v);
    Store(d, s, c, v.Delete(s));
    Insert(d, r, v.Delete(s).Write(s, c));
  }

  /** A reading turn from a to b, with the cells and the byte it uses. */
  ghost predicate Reads(a: State, b: State, s: nat, c: byte) {
    && s == a.s < N && b.s == Cell(s + 1) && b.r == Cell(a.r + 1) && b.len == a.len && b.ulPos == a.ulPos + 1
    && b.dict in Exchanged(a.dict, s, c, Cell(a.r + 1))
  }

  lemma ReadOk(a: State, b: State)
    requires TurnOk(a, b) && a.ulPos < |a.x|
    ensures Reads(a, b, a.s, a.x[a.ulPos])
  {
  }

  /** s and r move on, and the object goes from v to w. */
  method ReadNext(d: Dictionary, s: nat, r: nat, c: byte, ghost v: Dict, ghost w: Dict) returns (s2: nat, r2: nat)
    requires Holds(d, v) && s < N && w in Exchanged(v, s, c, Cell(r + 1))
    modifies d, d.textBuf, d.lson, d.rson, d.dad
    ensures Holds(d, w) && s2 == Cell(s + 1) && r2 == Cell(r + 1) && d.matchLength == w.best.len
  {
    s2 := Advance(s);
    r2 := Advance(r);
    Exchange(d, s, r2, c, v, w);
  }

  /** What a reading turn needs and does, by the locals. */
  lemma ReadFacts(s: nat, r: nat, c: byte, a: State, b: State)
    requires r == a.r && Reads(a, b, s, c)
    ensures s < N && b.dict in Exchanged(a.dict, s, c, Cell(r + 1))
    ensures b.s == Cell(s + 1) && b.r == Cell(r + 1) && b.len == a.len && b.ulPos == a.ulPos + 1
  {
  }

  /** A turn of the reading loop. */
  method ReadTurn(d: Dictionary, s: nat, r: nat, len: nat, ulPos: nat, c: byte, ghost a: State, ghost b: State)
    returns (s2: nat, r2: nat)
    requires Holds(d, a.dict) && r == a.r && len == a.len && ulPos == a.ulPos && Reads(a, b, s, c)
    modifies d, d.textBuf, d.lson, d.rson, d.dad
    ensures Holds(d, b.dict) && s2 == b.s && r2 == b.r && len == b.len && ulPos + 1 == b.ulPos
    ensures d.matchLength == b.dict.best.len
  {
    ReadFacts(s, r, c, a, b);
    s2, r2 := ReadNext(d, s, r, c, a.dict, b.dict);
  }

  /** The oldest string goes, and the string at r comes in while there is text left. */
  method Drain(d: Dictionary, s: nat, r: nat, len: nat, ghost v: Dict, ghost w: Dict)
    requires Holds(d, v) && s < N && w in Drained(v, s, r, len)
    modifies d, d.lson, d.rson, d.dad
    ensures Holds(d, w) && (len > 0 ==> d.matchLength == w.best.len)
  {
    Remove(d, s, v);
    if len > 0 {
      Insert(d, r, v.Delete(s));
    }
  }

  /** A draining turn from a to b, with the cell that it frees. */
  ghost predicate Drains(a: State, b: State, s: nat) {
    && s == a.s < N && a.len > 0 && b.s == Cell(s + 1) && b.r == Cell(a.r + 1)
    && b.len == a.len - 1 && b.ulPos == a.ulPos
    && b.dict in Drained(a.dict, s, Cell(a.r + 1), a.len - 1)
  }

  lemma DrainOk(a: State, b: State)
    requires TurnOk(a, b) && a.ulPos >= |a.x|
    ensures Drains(a, b, a.s)
  {
  }

  /** s and r move on, len counts down, and the object goes from v to w. */
  method DrainNext(d: Dictionary, s: nat, r: nat, len: nat, ghost v: Dict, ghost w: Dict)
    returns (s2: nat, r2: nat, len2: nat)
    requires Holds(d, v) && s < N && len > 0 && w in Drained(v, s, Cell(r + 1), len - 1)
    modifies d, d.lson, d.rson, d.dad
    ensures Holds(d, w) && s2 == Cell(s + 1) && r2 == Cell(r + 1) && len2 == len - 1
    ensures len2 > 0 ==> d.matchLength == w.best.len
  {
    s2 := Advance(s);
    r2 := Advance(r);
    len2 := len - 1;
    Drain(d, s, r2, len2, v, w);
  }

  /** What a draining turn needs and does, by the locals. */
  lemma DrainFacts(s: nat, r: nat, len: nat, a: State, b: State)
    requires r == a.r && len == a.len && Drains(a, b, s)
    ensures s < N && len > 0 && b.dict in Drained(a.dict, s, Cell(r + 1), len - 1)
    ensures b.s == Cell(s + 1) && b.r == Cell(r + 1) && b.len == len - 1 && b.ulPos == a.ulPos
  {
  }

  /** A turn of the draining loop. */
  method DrainTurn(d: Dictionary, s: nat, r: nat, len: nat, ulPos: nat, ghost a: State, ghost b: State)
    returns (s2: nat, r2: nat, len2: nat)
    requires Holds(d, a.dict) && r == a.r && len == a.len && ulPos == a.ulPos && Drains(a, b, s)
    modifies d, d.lson, d.rson, d.dad
    ensures Holds(d, b.dict) && s2 == b.s && r2 == b.r && len2 == b.len && ulPos == b.ulPos
    ensures len2 > 0 ==> d.matchLength == b.dict.best.len
  {
    DrainFacts(s, r, len, a, b);
    s2, r2, len2 := DrainNext(d, s, r, len, a.dict, b.dict);
  }

  /** The loop that reads new bytes, as long as there are any. */
  method ReadLoop(d: Dictionary, ucInput: array<byte>, inLen: nat, s0: nat, r0: nat, len: nat, ulPos0: nat,
                  n: nat, ghost tr: seq<State>)
    returns (s: nat, r: nat, ulPos: nat, i: nat)
    requires inLen <= ucInput.Length && Apart(d, ucInput) && |tr| > n && Leads(tr, tr[0], tr[n], n)
    requires tr[0].x == ucInput[..inLen] && InState(d, s0, r0, len, ulPos0, tr[0]) && ulPos0 <= inLen
    modifies d, d.textBuf, d.lson, d.rson, d.dad
    ensures i <= n && (i < n ==> ulPos == |tr[i].x|)
    ensures InState(d, s, r, len, ulPos, tr[i]) && (i > 0 && len > 0 ==> d.matchLength == tr[i].dict.best.len)
  {
    s, r, ulPos, i := s0, r0, ulPos0, 0;
    while i < n && ulPos < inLen
      invariant i <= n && ulPos <= inLen && tr[i].x == ucInput[..inLen]
      invariant InState(d, s, r, len, ulPos, tr[i]) && (i > 0 && len > 0 ==> d.matchLength == tr[i].dict.best.len)
      decreases n - i
    {
      assert TurnOk(tr[i], tr[i + 1]);
      ReadOk(tr[i], tr[i + 1]);
      var c := ucInput[ulPos];
      s, r := ReadTurn(d, s, r, len, ulPos, c, tr[i], tr[i + 1]);
      ulPos := ulPos + 1;
      i := i + 1;
    }
  }

  /** The loop in which the window runs empty. */
  method DrainLoop(d: Dictionary, s0: nat, r0: nat, len0: nat, ulPos: nat, i0: nat, n: nat, ghost tr: seq<State>)
    returns (s: nat, r: nat, len: nat)
    requires |tr| > n && Leads(tr, tr[0], tr[n], n) && i0 <= n && (i0 < n ==> ulPos == |tr[i0].x|)
    requires InState(d, s0, r0, len0, ulPos, tr[i0]) && (i0 > 0 && len0 > 0 ==> d.matchLength == tr[i0].dict.best.len)
    modifies d, d.lson, d.rson, d.dad
    ensures InState(d, s, r, len, ulPos, tr[n]) && (n > 0 && len > 0 ==> d.matchLength == tr[n].dict.best.len)
  {
    s, r, len := s0, r0, len0;
    var i := i0;
    while i < n
      invariant i <= n && (i < n ==> ulPos == |tr[i].x|)
      invariant InState(d, s, r, len, ulPos, tr[i]) && (i > 0 && len > 0 ==> d.matchLength == tr[i].dict.best.len)
      decreases n - i
    {
      assert TurnOk(tr[i], tr[i + 1]);
      DrainOk(tr[i], tr[i + 1]);
      s, r, len := DrainTurn(d, s, r, len, ulPos, tr[i], tr[i + 1]);
      i := i + 1;
    }
  }

  /** The two sliding loops after a token that covers n bytes. tr holds the states on the way. */
  method Slide(d: Dictionary, ucInput: array<byte>, inLen: nat, s0: nat, r0: nat, len0: nat, ulPos0: nat,
               n: nat, ghost tr: seq<State>)
    returns (s: nat, r: nat, len: nat, ulPos: nat)
    requires inLen <= ucInput.Length && Apart(d, ucInput)
    requires n > 0 && |tr| > n && Leads(tr, tr[0], tr[n], n)
    requires tr[0].x == ucInput[..inLen] && InState(d, s0, r0, len0, ulPos0, tr[0]) && ulPos0 <= inLen
    modifies d, d.textBuf, d.lson, d.rson, d.dad
    ensures InState(d, s, r, len, ulPos, tr[n]) && (len > 0 ==> d.matchLength == tr[n].dict.best.len)
  {
    var i;
    s, r, ulPos, i := ReadLoop(d, ucInput, inLen, s0, r0, len0, ulPos0, n, tr);
    s, r, len := DrainLoop(d, s, r, len0, ulPos, i, n, tr);
  }

  // ----- the code buffer

  /** codeBuf holds the unfinished group g in its first ptr bytes; mask marks the next flag. */
  ghost predicate Buffered(codeBuf: array<byte>, ptr: nat, mask: nat, g: seq<Token>)
    reads codeBuf
  {
    && codeBuf.Length == 17 && |g| < 8 && AllWellFormed(g)
    && ptr == 1 + |Body(g)| <= 17 && codeBuf[..ptr] == Group(g) && mask == Pow2(|g|)
  }

  /** The group with one more byte: its flag is set in the first byte. */
  lemma LiteralGroup(g: seq<Token>, c: byte, mask: nat)
    requires |g| < 8 && AllWellFormed(g) && mask == Pow2(|g|)
    ensures AllWellFormed(g + [Literal(c)]) && |Body(g + [Literal(c)])| == |Body(g)| + 1 <= 16 && Flags(g) + mask < 256
    ensures Group(g + [Literal(c)]) == [Flags(g) + mask] + Body(g) + [c]
  {
    RoomForUnit(g, Literal(c));
  }

  /** The group with one more pair: the flag stays clear. */
  lemma PairGroup(g: seq<Token>, t: Token)
    requires |g| < 8 && AllWellFormed(g) && WellFormed(t) && t.Pair?
    ensures AllWellFormed(g + [t]) && |Body(g + [t])| == |Body(g)| + 2 <= 16
    ensures Group(g + [t]) == Group(g) + TokenBytes(t)
  {
    RoomForUnit(g, t);
    assert Flags(g + [t]) == Flags(g);
    Assoc([Flags(g) as byte], Body(g), TokenBytes(t));
  }

  /** code_buf[0] with the flag of the next unit. */
  method FlagSet(v: byte, mask: nat, ghost g: seq<Token>) returns (w: byte)
    requires |g| < 8 && v == Flags(g) && mask == Pow2(|g|) && Flags(g) + mask < 256
    ensures w == Flags(g) + mask
  {
    w := SetFlag(v, |g|, mask);
  }

  /** The first byte of code_buf is set, and a byte is put behind the others. */
  method PutByte(codeBuf: array<byte>, ptr0: nat, first: byte, c: byte) returns (ptr: nat)
    requires 1 <= ptr0 < codeBuf.Length
    modifies codeBuf
    ensures ptr == ptr0 + 1 && codeBuf[..ptr] == [first] + old(codeBuf[1..ptr0]) + [c]
  {
    codeBuf[0] := first;
    codeBuf[ptr0] := c;
    ptr := ptr0 + 1;
  }

  /** An unencoded byte: its flag is set. */
  method PutLiteral(codeBuf: array<byte>, ptr0: nat, mask: nat, c: byte, ghost g: seq<Token>) returns (ptr: nat)
    requires Buffered(codeBuf, ptr0, mask, g)
    modifies codeBuf
    ensures AllWellFormed(g + [Literal(c)]) && ptr == 1 + |Body(g + [Literal(c)])| <= 17
    ensures codeBuf[..ptr] == Group(g + [Literal(c)])
  {
    LiteralGroup(g, c, mask);
    assert codeBuf[..ptr0] == [Flags(g) as byte] + Body(g);
    assert codeBuf[0] == codeBuf[..ptr0][0] && codeBuf[1..ptr0] == codeBuf[..ptr0][1..];
    var first := FlagSet(codeBuf[0], mask, g);
    ptr := PutByte(codeBuf, ptr0, first, c);
  }

  /** A position and length pair: its flag stays clear. */
  method PutPair(codeBuf: array<byte>, ptr0: nat, ghost mask: nat, pos: nat, len: nat, ghost g: seq<Token>)
    returns (ptr: nat)
    requires Buffered(codeBuf, ptr0, mask, g) && WellFormed(Pair(pos, len))
    modifies codeBuf
    ensures AllWellFormed(g + [Pair(pos, len)]) && ptr == 1 + |Body(g + [Pair(pos, len)])| <= 17
    ensures codeBuf[..ptr] == Group(g + [Pair(pos, len)])
  {
    PairGroup(g, Pair(pos, len));
    ghost var before := codeBuf[..ptr0];
    codeBuf[ptr0] := pos % 256;
    ptr := ptr0 + 1;
    codeBuf[ptr] := PairByte(pos, len - (THRESHOLD + 1));
    ptr := ptr + 1;
    assert codeBuf[..ptr] == before + TokenBytes(Pair(pos, len));
  }

  /** One unit goes into the code buffer, after the clamp of the match length to the text that is left. */
  method PutUnit(d: Dictionary, r: nat, len: nat, codeBuf: array<byte>, ptr0: nat, mask0: nat,
                 ghost st: State, ghost g: seq<Token>)
    returns (ptr: nat, mask: nat)
    requires Holds(d, st.dict) && d.matchLength == st.dict.best.len && r == st.r < N && len == st.len > 0
    requires WellFormed(TokenOf(st)) && Buffered(codeBuf, ptr0, mask0, g) && Apart(d, codeBuf)
    modifies d`matchLength, codeBuf
    ensures Holds(d, st.dict) && d.matchLength == Covers(TokenOf(st))
    ensures codeBuf.Length == 17 && AllWellFormed(g + [TokenOf(st)])
    ensures ptr == 1 + |Body(g + [TokenOf(st)])| <= 17 && codeBuf[..ptr] == Group(g + [TokenOf(st)])
    ensures mask == if |g| == 7 then 0 else Pow2(|g| + 1)
  {
    RoomForUnit(g, TokenOf(st));
    if d.matchLength > len {
      d.matchLength := len;
    }
    if d.matchLength <= THRESHOLD {
      d.matchLength := 1;
      ptr := PutLiteral(codeBuf, ptr0, mask0, d.textBuf[r], g);
    } else {
      ptr := PutPair(codeBuf, ptr0, mask0, d.matchPosition, d.matchLength, g);
    }
    mask := mask0 * 2 % 256;
  }

  /** The code buffer goes to the output. */
  method Flush(codeBuf: array<byte>, ptr: nat, ucOutput: array<byte>, n: nat) returns (enIdx: nat)
    requires ptr <= codeBuf.Length && n + ptr <= ucOutput.Length && codeBuf != ucOutput
    modifies ucOutput
    ensures enIdx == n + ptr && ucOutput[..enIdx] == old(ucOutput[..n]) + codeBuf[..ptr]
    ensures forall j :: enIdx <= j < ucOutput.Length ==> ucOutput[j] == old(ucOutput[j])
  {
    enIdx := n;
    for i := 0 to ptr
      invariant enIdx == n + i && ucOutput[..enIdx] == old(ucOutput[..n]) + codeBuf[..i]
      invariant forall j :: n + ptr <= j < ucOutput.Length ==> ucOutput[j] == old(ucOutput[j])
    {
      ucOutput[enIdx] := codeBuf[i];
      enIdx := enIdx + 1;
    }
  }

  // ----- the outer loop

  /** One round of the outer loop sends t in state a and leaves state b. */
  ghost predicate RoundOk(a: State, t: Token, b: State) {
    && a.len > 0 && a.r < N && t == TokenOf(a) && WellFormed(t) && Covers(t) > 0
    && a.ulPos <= |a.x| && b.x == a.x
    && exists tr :: Leads(tr, a, b, Covers(t))
  }

  /** sts are the states before and after the rounds that send ts. */
  ghost predicate RoundsOk(sts: seq<State>, ts: seq<Token>) {
    && |sts| == |ts| + 1 && sts[|ts|].len == 0
    && forall k :: 0 <= k < |ts| ==> RoundOk(sts[k], ts[k], sts[k + 1])
  }

  lemma RoundsCons(a: State, t: Token, sts: seq<State>, ts: seq<Token>)
    requires RoundsOk(sts, ts) && RoundOk(a, t, sts[0])
    ensures RoundsOk([a] + sts, [t] + ts)
  {
    var sts2, ts2 := [a] + sts, [t] + ts;
    forall k | 0 <= k < |ts2| ensures RoundOk(sts2[k], ts2[k], sts2[k + 1]) {
      if k > 0 {
        assert RoundOk(sts[k - 1], ts[k - 1], sts[k - 1 + 1]);
      }
    }
  }

  lemma FirstRound(st: Running) returns (t: Token, st2: Running)
    requires st.len > 0
    ensures RoundOk(st, t, st2) && st2.Here() > st.Here() && TokensFrom(st) == [t] + TokensFrom(st2) && st2.x == st.x
  {
    t, st2 := TokensUnfold(st);
    var tr := StepsTrace(st, Covers(t));
  }

  /** The states of all rounds. */
  lemma {:induction false} Rounds(st: Running) returns (sts: seq<State>)
    ensures RoundsOk(sts, TokensFrom(st)) && sts[0] == st
    decreases st.End() - st.Here()
  {
    TextLeft(st);
    if st.len == 0 {
      sts := [st];
    } else {
      var t, st2 := FirstRound(st);
      var rest := Rounds(st2);
      sts := [st] + rest;
      RoundsCons(st, t, rest, TokensFrom(st2));
    }
  }

  /** The whole groups done are in the output, the unfinished group g in the code buffer. */
  ghost predicate Sent(codeBuf: array<byte>, ptr: nat, mask: nat, ucOutput: array<byte>, n: nat,
                       done: seq<Token>, g: seq<Token>)
    reads codeBuf, ucOutput
  {
    && |done| % 8 == 0 && AllWellFormed(done) && n <= ucOutput.Length && ucOutput[..n] == Pack(done)
    && Buffered(codeBuf, ptr, mask, g)
  }

  /** A whole group goes to the output, and the code buffer starts anew. */
  method FlushWhole(codeBuf: array<byte>, ptr0: nat, ucOutput: array<byte>, n: nat,
                    ghost done: seq<Token>, ghost g: seq<Token>)
    returns (ptr: nat, mask: nat, enIdx: nat)
    requires |done| % 8 == 0 && AllWellFormed(done) && AllWellFormed(g) && |g| == 8 && AllWellFormed(done + g)
    requires n <= ucOutput.Length && ucOutput[..n] == Pack(done) && |Pack(done + g)| <= ucOutput.Length
    requires codeBuf.Length == 17 && ptr0 <= 17 && codeBuf[..ptr0] == Group(g) && codeBuf != ucOutput
    modifies codeBuf, ucOutput
    ensures Sent(codeBuf, ptr, mask, ucOutput, enIdx, done + g, []) && n <= enIdx
    ensures forall j :: enIdx <= j < ucOutput.Length ==> ucOutput[j] == old(ucOutput[j])
  {
    PackAppend(done, g);
    enIdx := Flush(codeBuf, ptr0, ucOutput, n);
    codeBuf[0] := 0;
    ptr, mask := 1, 1;
    assert codeBuf[..1] == Group([]);
  }

  /** What is left in the code buffer goes to the output. */
  method Finish(codeBuf: array<byte>, ptr: nat, ghost mask: nat, ucOutput: array<byte>, n: nat,
                ghost done: seq<Token>, ghost g: seq<Token>)
    returns (enIdx: nat)
    requires Sent(codeBuf, ptr, mask, ucOutput, n, done, g) && codeBuf != ucOutput
    requires AllWellFormed(done + g) && |Pack(done + g)| <= ucOutput.Length
    modifies ucOutput
    ensures enIdx <= ucOutput.Length && ucOutput[..enIdx] == Pack(done + g) && n <= enIdx
    ensures forall j :: enIdx <= j < ucOutput.Length ==> ucOutput[j] == old(ucOutput[j])
  {
    PackAppend(done, g);
    BodyBound(g);
    enIdx := n;
    if ptr > 1 {
      enIdx := Flush(codeBuf, ptr, ucOutput, enIdx);
    }
  }

  /** One unit is put into the code buffer; after eight of them the buffer goes out. */
  method SendUnit(d: Dictionary, r: nat, len: nat, codeBuf: array<byte>, ptr0: nat, mask0: nat,
                  ucOutput: array<byte>, n: nat, ghost st: State, ghost done0: seq<Token>, ghost g0: seq<Token>)
    returns (ptr: nat, mask: nat, enIdx: nat, ghost done: seq<Token>, ghost g: seq<Token>)
    requires Holds(d, st.dict) && d.matchLength == st.dict.best.len && r == st.r < N && len == st.len > 0
    requires WellFormed(TokenOf(st)) && Sent(codeBuf, ptr0, mask0, ucOutput, n, done0, g0)
    requires |g0| == 7 ==>
      AllWellFormed(done0 + (g0 + [TokenOf(st)])) && |Pack(done0 + (g0 + [TokenOf(st)]))| <= ucOutput.Length
    requires Apart(d, codeBuf) && Apart(d, ucOutput) && codeBuf != ucOutput
    modifies d`matchLength, codeBuf, ucOutput
    ensures Holds(d, st.dict) && d.matchLength == Covers(TokenOf(st))
    ensures Sent(codeBuf, ptr, mask, ucOutput, enIdx, done, g) && done + g == done0 + g0 + [TokenOf(st)]
    ensures n <= enIdx && forall j :: enIdx <= j < ucOutput.Length ==> ucOutput[j] == old(ucOutput[j])
  {
    enIdx, done, g := n, done0, g0 + [TokenOf(st)];
    ptr, mask := PutUnit(d, r, len, codeBuf, ptr0, mask0, st, g0);
    if mask == 0 {
      ptr, mask, enIdx := FlushWhole(codeBuf, ptr, ucOutput, enIdx, done, g);
      done, g := done + g, [];
    }
  }

  /**
   Compresses the input. The output buffer must hold an eighth more than the input,
   rounded up.
   */
  method Encode(ucInput: array<byte>, inLen: nat, ucOutput: array<byte>) returns (enIdx: nat)
    requires inLen <= ucInput.Length && ucInput != ucOutput
    requires |Encoded(ucInput[..inLen])| <= ucOutput.Length
    modifies ucOutput
    ensures enIdx <= ucOutput.Length && ucOutput[..enIdx] == Encoded(ucInput[..inLen])
    ensures forall j :: enIdx <= j < ucOutput.Length ==> ucOutput[j] == old(ucOutput[j])
  {
    var d, len := Prepare(ucInput, inLen);
    if len == 0 {
      EncodedEmpty(ucInput[..inLen]);
      return 0;
    }
    enIdx := EncodeText(d, ucInput, inLen, len, ucOutput);
  }

  /** New empty trees, and a buffer with the spaces and the first bytes. */
  method Prepare(ucInput: array<byte>, inLen: nat) returns (d: Dictionary, len: nat)
    requires inLen <= ucInput.Length
    ensures fresh(d) && fresh(d.textBuf) && fresh(d.lson) && fresh(d.rson) && fresh(d.dad)
    ensures d.Valid() && d.textBuf[..] == InitText(ucInput[..inLen]) && d.forest == seq(256, _ => Leaf)
    ensures d.matchPosition == 0 && len == Min(F, inLen)
  {
    d := new Dictionary();
    d.InitTree();
    len := Fill(d, ucInput, inLen);
  }

  /** The rest of Encode, when there is some input. */
  method EncodeText(d: Dictionary, ucInput: array<byte>, inLen: nat, len: nat, ucOutput: array<byte>)
    returns (enIdx: nat)
    requires 0 < inLen <= ucInput.Length && len == Min(F, inLen)
    requires Apart(d, ucInput) && Apart(d, ucOutput) && ucInput != ucOutput
    requires d.Valid() && d.textBuf[..] == InitText(ucInput[..inLen]) && d.forest == seq(256, _ => Leaf)
    requires d.matchPosition == 0 && |Encoded(ucInput[..inLen])| <= ucOutput.Length
    modifies d, d.textBuf, d.lson, d.rson, d.dad, ucOutput
    ensures enIdx <= ucOutput.Length && ucOutput[..enIdx] == Encoded(ucInput[..inLen])
    ensures forall j :: enIdx <= j < ucOutput.Length ==> ucOutput[j] == old(ucOutput[j])
  {
    ghost var ds, sts := Plan(ucInput[..inLen]);
    Prime(d, ds);
    enIdx := EncodeRounds(d, ucInput, inLen, len, ucOutput, sts, EncodedTokens(ucInput[..inLen]));
  }

  lemma EncodedEmpty(x: seq<byte>)
    requires x == []
    ensures Encoded(x) == []
  {
  }

  /** The dictionaries of the preload and the states of all rounds. */
  lemma Plan(x: seq<byte>) returns (ds: seq<Dict>, sts: seq<State>)
    requires x != []
    ensures |ds| == F + 2 && ds[0] == Dict(InitText(x), seq(256, _ => Leaf), Match(0, 0))
    ensures forall i :: 0 <= i <= F ==> InsertOk(ds[i], if i < F then START - (i + 1) else START, ds[i + 1])
    ensures RoundsOk(sts, EncodedTokens(x)) && sts[0].dict == ds[F + 1] && sts[0].x == x
    ensures sts[0].s == 0 && sts[0].r == START && sts[0].len == sts[0].ulPos == Min(F, |x|)
  {
    ds := PreloadTrace(x);
    StartGood(x);
    sts := Rounds(Start(x));
  }

  /** The sliding loops of the round that sends t in state a and leaves state b. */
  method SlideRound(d: Dictionary, ucInput: array<byte>, inLen: nat, s0: nat, r0: nat, len0: nat, ulPos0: nat,
                    ghost a: State, ghost t: Token, ghost b: State)
    returns (s: nat, r: nat, len: nat, ulPos: nat)
    requires inLen <= ucInput.Length && Apart(d, ucInput) && RoundOk(a, t, b) && a.x == ucInput[..inLen]
    requires InState(d, s0, r0, len0, ulPos0, a) && d.matchLength == Covers(t)
    modifies d, d.textBuf, d.lson, d.rson, d.dad
    ensures InState(d, s, r, len, ulPos, b) && (len > 0 ==> d.matchLength == b.dict.best.len)
  {
    var lastMatchLength := d.matchLength;
    ghost var tr :| Leads(tr, a, b, Covers(t));
    s, r, len, ulPos := Slide(d, ucInput, inLen, s0, r0, len0, ulPos0, lastMatchLength, tr);
  }

  /** One round of the outer loop: a unit is sent, and the window slides over what it covers. */
  method OneRound(d: Dictionary, ucInput: array<byte>, inLen: nat, s0: nat, r0: nat, len0: nat, ulPos0: nat,
                  codeBuf: array<byte>, ptr0: nat, mask0: nat, ucOutput: array<byte>, n: nat,
                  ghost a: State, ghost t: Token, ghost b: State, ghost done0: seq<Token>, ghost g0: seq<Token>)
    returns (s: nat, r: nat, len: nat, ulPos: nat, ptr: nat, mask: nat, enIdx: nat,
             ghost done: seq<Token>, ghost g: seq<Token>)
    requires inLen <= ucInput.Length && Apart(d, ucInput) && RoundOk(a, t, b) && a.x == ucInput[..inLen]
    requires InState(d, s0, r0, len0, ulPos0, a) && d.matchLength == a.dict.best.len
    requires Sent(codeBuf, ptr0, mask0, ucOutput, n, done0, g0)
    requires |g0| == 7 ==> AllWellFormed(done0 + (g0 + [t])) && |Pack(done0 + (g0 + [t]))| <= ucOutput.Length
    requires Apart(d, codeBuf) && Apart(d, ucOutput) && codeBuf != ucOutput && codeBuf != ucInput && ucInput != ucOutput
    modifies d, d.textBuf, d.lson, d.rson, d.dad, codeBuf, ucOutput
    ensures InState(d, s, r, len, ulPos, b) && (len > 0 ==> d.matchLength == b.dict.best.len)
    ensures Sent(codeBuf, ptr, mask, ucOutput, enIdx, done, g) && done + g == done0 + g0 + [t]
    ensures n <= enIdx && forall j :: enIdx <= j < ucOutput.Length ==> ucOutput[j] == old(ucOutput[j])
  {
    ptr, mask, enIdx, done, g := SendUnit(d, r0, len0, codeBuf, ptr0, mask0, ucOutput, n, a, done0, g0);
    s, r, len, ulPos := SlideRound(d, ucInput, inLen, s0, r0, len0, ulPos0, a, t, b);
  }

  /** Round k, while there is text left. */
  lemma RoundAt(sts: seq<State>, ts: seq<Token>, k: nat) returns (a: State, t: Token, b: State)
    requires RoundsOk(sts, ts) && k < |sts| && sts[k].len > 0
    ensures k < |ts| && a == sts[k] && t == ts[k] && b == sts[k + 1] && RoundOk(a, t, b)
  {
    a, t, b := sts[k], ts[k], sts[k + 1];
  }

  lemma AllSent(sts: seq<State>, ts: seq<Token>, k: nat)
    requires RoundsOk(sts, ts) && k < |sts| && sts[k].len == 0
    ensures ts[..k] == ts
  {
    assert k < |ts| ==> RoundOk(sts[k], ts[k], sts[k + 1]);
  }

  /** The outer loop. The source tests at the end of a round; the first test would succeed. */
  method AllRounds(d: Dictionary, ucInput: array<byte>, inLen: nat, len0: nat, codeBuf: array<byte>,
                   ucOutput: array<byte>, ghost sts: seq<State>, ghost ts: seq<Token>)
    returns (codeBufPtr: nat, mask: nat, enIdx: nat, ghost done: seq<Token>, ghost g: seq<Token>)
    requires inLen <= ucInput.Length && Apart(d, ucInput) && Apart(d, ucOutput) && Apart(d, codeBuf)
    requires ucInput != ucOutput && codeBuf != ucInput && codeBuf != ucOutput
    requires RoundsOk(sts, ts) && sts[0].x == ucInput[..inLen]
    requires InState(d, 0, N - F, len0, len0, sts[0]) && (len0 > 0 ==> d.matchLength == sts[0].dict.best.len)
    requires AllWellFormed(ts) && |Pack(ts)| <= ucOutput.Length
    requires Sent(codeBuf, 1, 1, ucOutput, 0, [], [])
    modifies d, d.textBuf, d.lson, d.rson, d.dad, codeBuf, ucOutput
    ensures done + g == ts && Sent(codeBuf, codeBufPtr, mask, ucOutput, enIdx, done, g)
    ensures forall j :: enIdx <= j < ucOutput.Length ==> ucOutput[j] == old(ucOutput[j])
  {
    codeBufPtr, mask, enIdx, done, g := 1, 1, 0, [], [];
    var s: nat, r: nat, len: nat, ulPos: nat := 0, N - F, len0, len0;
    ghost var k: nat := 0;
    while len > 0
      invariant k <= |ts| && InState(d, s, r, len, ulPos, sts[k]) && sts[k].x == ucInput[..inLen]
      invariant len > 0 ==> d.matchLength == sts[k].dict.best.len
      invariant done + g == ts[..k] && Sent(codeBuf, codeBufPtr, mask, ucOutput, enIdx, done, g)
      invariant forall j :: enIdx <= j < ucOutput.Length ==> ucOutput[j] == old(ucOutput[j])
      decreases |ts| - k
    {
      ghost var a, t, b := RoundAt(sts, ts, k);
      RoomFor(ts, k, done, g);
      s, r, len, ulPos, codeBufPtr, mask, enIdx, done, g :=
        OneRound(d, ucInput, inLen, s, r, len, ulPos, codeBuf, codeBufPtr, mask, ucOutput, enIdx, a, t, b, done, g);
      k := k + 1;
    }
    AllSent(sts, ts, k);
  }

  /** The code buffer, the outer loop, and what is left at the end. */
  method EncodeRounds(d: Dictionary, ucInput: array<byte>, inLen: nat, len0: nat, ucOutput: array<byte>,
                      ghost sts: seq<State>, ghost ts: seq<Token>)
    returns (enIdx: nat)
    requires inLen <= ucInput.Length && Apart(d, ucInput) && Apart(d, ucOutput) && ucInput != ucOutput
    requires RoundsOk(sts, ts) && sts[0].x == ucInput[..inLen]
    requires InState(d, 0, N - F, len0, len0, sts[0]) && d.matchLength == sts[0].dict.best.len
    requires AllWellFormed(ts) && |Pack(ts)| <= ucOutput.Length
    modifies d, d.textBuf, d.lson, d.rson, d.dad, ucOutput
    ensures enIdx <= ucOutput.Length && ucOutput[..enIdx] == Pack(ts)
    ensures forall j :: enIdx <= j < ucOutput.Length ==> ucOutput[j] == old(ucOutput[j])
  {
    var codeBuf := new byte[17];
    codeBuf[0] := 0;
    assert codeBuf[..1] == Group([]);
    var codeBufPtr, mask;
    ghost var done, g;
    codeBufPtr, mask, enIdx, done, g := AllRounds(d, ucInput, inLen, len0, codeBuf, ucOutput, sts, ts);
    enIdx := Finish(codeBuf, codeBufPtr, mask, ucOutput, enIdx, done, g);
  }

  lemma PackFront(ts: seq<Token>, a: seq<Token>, b: seq<Token>)
    requires AllWellFormed(a) && AllWellFormed(b) && ts == a + b && |a| % 8 == 0
    ensures |Pack(a)| <= |Pack(ts)|
  {
    PackAppend(a, b);
  }

  lemma Grown(ts: seq<Token>, k: nat, done: seq<Token>, g: seq<Token>, whole: seq<Token>)
    requires k < |ts| && done + g == ts[..k] && whole == done + (g + [ts[k]])
    ensures whole == ts[..k + 1] == done + g + [ts[k]] && ts == whole + ts[k + 1..]
  {
  }

  /** With the eighth unit a group is whole, and there is room for it in the output. */
  lemma RoomFor(ts: seq<Token>, k: nat, done: seq<Token>, g: seq<Token>)
    requires AllWellFormed(ts) && k < |ts| && done + g == ts[..k] && |done| % 8 == 0
    ensures |g| == 7 ==> AllWellFormed(done + (g + [ts[k]])) && |Pack(done + (g + [ts[k]]))| <= |Pack(ts)|
    ensures done + g + [ts[k]] == ts[..k + 1]
  {
    var whole := done + (g + [ts[k]]);
    Grown(ts, k, done, g, whole);
    if |g| == 7 {
      assert |whole| == |done| + 8;
      PackFront(ts, whole, ts[k + 1..]);
    }
  }
}
