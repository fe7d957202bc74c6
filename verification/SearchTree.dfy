/** The dictionary of the encoder: struct lzss_buffer and the globals that go with it. */
module SearchTree {
  import opened Config
  import opened Trees
  import opened LinkArrays
  import opened Matching

  /** The right link before element i of a chain that starts at a root cell leads to it, or to nothing at the end. */
  ghost predicate LinkAt(rson: seq<nat>, start: nat, sp: seq<nat>, i: nat) {
    |rson| == N + 257 && i <= |sp| ==>
      var p := if i == 0 then start else sp[i - 1];
      p < N + 257 && rson[p] == (if i < |sp| then sp[i] else NIL) && (i < |sp| ==> sp[i] < N)
  }

  ghost predicate Chained(rson: seq<nat>, start: nat, sp: seq<nat>) {
    forall i: nat :: LinkAt(rson, start, sp, i)
  }

  lemma SpineLinks(k: Links, start: nat, t: Tree, r: nat)
    requires Shaped(k) && N < start < N + 257 && r < N && r !in Nodes(t) && Linked(k, k.rson[start], start, t)
    ensures Below(Spine(t)) && Chained(k.rson[r := NIL], start, Spine(t))
  {
    var sp := Spine(t);
    SpineLinked(k, k.rson[start], start, t);
    SpineInNodes(t);
    forall i | 0 <= i < |sp| ensures sp[i] < N {
      assert SpineStep(k, sp, i);
    }
    var rson := k.rson[r := NIL];
    forall i: nat ensures LinkAt(rson, start, sp, i) {
      if 0 < i <= |sp| {
        assert SpineStep(k, sp, i - 1) && sp[i - 1] in sp;
      }
    }
  }

  class Dictionary {
    const textBuf: array<byte>
    const lson: array<nat>
    const rson: array<nat>
    const dad: array<nat>
    var matchPosition: nat
    var matchLength: nat
    ghost var forest: Forest   // the trees that the three link arrays hold

    ghost predicate Allocated()
    {
      && textBuf.Length == N + F - 1
      && lson.Length == N + 1 && rson.Length == N + 257 && dad.Length == N + 1
      && lson != rson && lson != dad && rson != dad
      && textBuf as object != lson && textBuf as object != rson && textBuf as object != dad
    }

    ghost function Arrays(): (k: Links)
      reads lson, rson, dad
    {
      Links(lson[..], rson[..], dad[..])
    }

    ghost predicate Valid()
      reads this, lson, rson, dad
    {
      Allocated() && forest in Held(Arrays())
    }

    constructor ()
      ensures Allocated() && fresh(textBuf) && fresh(lson) && fresh(rson) && fresh(dad)
      ensures textBuf[..] == seq(N + F - 1, _ => 0)
      ensures matchPosition == 0 && matchLength == 0
    {
      textBuf := new byte[N + F - 1](_ => 0);
      lson := new nat[N + 1](_ => 0);
      rson := new nat[N + 257](_ => 0);
      dad := new nat[N + 1](_ => 0);
      matchPosition, matchLength := 0, 0;
    }

    method InitTree()
      requires Allocated()
      modifies `forest, rson, dad
      ensures Valid() && forest == seq(256, _ => Leaf)
    {
      for i := N + 1 to N + 257
        invariant forall j :: N + 1 <= j < i ==> rson[j] == NIL
      {
        rson[i] := NIL;
      }
      for i := 0 to N
        invariant forall j :: N + 1 <= j < N + 257 ==> rson[j] == NIL
        invariant forall j :: 0 <= j < i ==> dad[j] == NIL
      {
        dad[i] := NIL;
      }
      forest := seq(256, _ => Leaf);
    }

    /** The loop of DeleteNode down the right links, from the left child of p. */
    method Rightmost(p: nat, ghost s: Tree) returns (q: nat)
      requires Allocated() && p < N && s.Node? && lson[p] < N && rson[lson[p]] != NIL
      requires Shaped(Arrays()) && Linked(Arrays(), lson[p], p, s)
      ensures q == Last(s) && q < N
    {
      ghost var k, sp := Arrays(), Spine(s);
      SpineLinked(k, k.lson[p], p, s);
      LastOnSpine(s);
      q := lson[p];
      assert SpineStep(k, sp, 0) && SpineStep(k, sp, 1);
      q := rson[q];
      ghost var i: nat := 1;
      while rson[q] != NIL
        invariant i < |sp| && q == sp[i] < N
        decreases |sp| - i
      {
        assert SpineStep(k, sp, i) && SpineStep(k, sp, i + 1);
        q := rson[q];
        i := i + 1;
      }
      assert SpineStep(k, sp, i) && SpineStep(k, sp, i + 1);
    }

    /** The left child of q takes its place, and q gets the left child of p. */
    method PullUp(p: nat, q: nat)
      requires Allocated() && p < N && q < N && dad[q] < N && lson[q] <= N && lson[p] <= N
      modifies lson, rson, dad
      ensures Arrays() == Pull(old(Arrays()), p, q)
    {
      rson[dad[q]] := lson[q];
      dad[lson[q]] := dad[q];
      lson[q] := lson[p];
      dad[lson[p]] := q;
    }

    /** q gets the right child of p. */
    method AdoptRight(p: nat, q: nat)
      requires Allocated() && p < N && q < N && rson[p] <= N
      modifies rson, dad
      ensures Arrays() == Adopt(old(Arrays()), p, q)
    {
      rson[q] := rson[p];
      dad[rson[p]] := q;
    }

    /**
     The two-child case of DeleteNode: the rightmost node q below the left child of p
     takes over both children of p.
     */
    method LiftPredecessor(p: nat, ghost s: Tree) returns (q: nat)
      requires Allocated() && p < N && s.Node? && Well(s) && dad[p] !in Nodes(s)
      requires Hangs(Arrays(), p, dad[p]) && Linked(Arrays(), p, dad[p], s)
      requires lson[p] != NIL && rson[p] != NIL
      modifies lson, rson, dad
      ensures s.left.Node? && q == Last(s.left) && q < N && old(rson[p]) < N && old(lson[p]) < N
      ensures q != old(lson[p]) ==> old(Arrays()).dad[q] < N && old(Arrays()).dad[q] != p && old(Arrays()).lson[q] <= N
      ensures Arrays() == Lifted(old(Arrays()), p, q)
    {
      ghost var k := Arrays();
      RootOf(k, k.lson[p], p, s.left);
      RootOf(k, k.rson[k.lson[p]], k.lson[p], s.left.right);
      LastOfLeft(k, p, Last(s.left), dad[p], s);
      q := lson[p];
      if rson[q] != NIL {
        q := Rightmost(p, s.left);
        PullUp(p, q);
      }
      AdoptRight(p, q);
    }

    /** The last lines of DeleteNode: q takes the place of p. */
    method HangUp(p: nat, q: nat)
      requires Allocated() && p < N && q <= N && Hangs(Arrays(), p, dad[p])
      modifies lson, rson, dad
      ensures Arrays() == Hang(old(Arrays()), p, q)
    {
      dad[q] := dad[p];
      if rson[dad[p]] == p {
        rson[dad[p]] := q;
      } else {
        lson[dad[p]] := q;
      }
      dad[p] := NIL;
    }

    method DeleteNode(p: nat)
      requires Valid() && p < N
      modifies `forest, lson, rson, dad
      ensures Valid() && forest == RemoveAll(old(forest), p)
    {
      if dad[p] == NIL {
        NotInTree(p);
        return;
      }
      assert In(forest, p);
      ghost var c: nat :| c < |forest| && p in Nodes(forest[c]);
      Unlink(p, c);
      forest := RemoveAll(forest, p);
    }

    /** DeleteNode for a node of tree c. */
    method Unlink(p: nat, ghost c: nat)
      requires Valid() && p < N && c < 256 && p in Nodes(forest[c])
      modifies lson, rson, dad
      ensures ForestLinked(Arrays(), RemoveAll(forest, p))
    {
      ghost var k := Arrays();
      AtNode(k, forest, c, p);
      var q: nat;
      if rson[p] == NIL {
        q := lson[p];
        DeleteShallow(k, forest, c, p, q);
      } else if lson[p] == NIL {
        q := rson[p];
        DeleteShallow(k, forest, c, p, q);
      } else {
        q := LiftPredecessor(p, Sub(forest[c], p));
        DeleteDeep(k, forest, c, p, q);
      }
      HangUp(p, q);
    }

    /** The inner loop of InsertNode: how many bytes at p agree with those at r. */
    method Compare(p: nat, r: nat) returns (i: nat, cmp: nat)
      requires Allocated() && p < N && r < N
      ensures i == Common(textBuf[..], p, r, 1)
    {
      i, cmp := 1, 0;
      while i < F
        invariant 1 <= i <= F && Common(textBuf[..], p, r, 1) == Common(textBuf[..], p, r, i)
      {
        cmp := (textBuf[r + i] as int - textBuf[p + i] as int) % 0x1_0000;  // an unsigned short
        if cmp != 0 {
          break;
        }
        i := i + 1;
      }
    }

    /** The strings at p, node i of the chain, and at r are compared; a longer match is kept. */
    method Visit(p: nat, r: nat, ghost sp: seq<nat>, ghost i: nat) returns (cmp: nat, full: bool)
      requires Allocated() && r < N && Below(sp) && i < |sp| && p == sp[i] && matchLength < F
      modifies `matchPosition, `matchLength
      ensures Scan(textBuf[..], sp[i..], r, Match(old(matchPosition), old(matchLength)))
           == Scan(textBuf[..], sp[i + 1..], r, Match(matchPosition, matchLength))
      ensures full <==> matchLength >= F
      ensures full ==> matchPosition == p
      ensures full ==>
        Scan(textBuf[..], sp[i..], r, Match(old(matchPosition), old(matchLength))) == Match(p, matchLength)
    {
      var j;
      j, cmp := Compare(p, r);
      ghost var best := Match(matchPosition, matchLength);
      ScanNext(textBuf[..], sp, i, r, best, if j > matchLength then Match(p, j) else best);
      full := false;
      if j > matchLength {
        matchPosition, matchLength := p, j;
        full := matchLength >= F;
      }
    }

    /**
     The loop of InsertNode down a chain of right links: it ends at a full match, or at the
     end p of the chain, where a right child can be attached.
     */
    method WalkDown(r: nat, ghost sp: seq<nat>) returns (p: nat, full: bool)
      requires Allocated() && r < N && Below(sp)
      requires Chained(rson[..], ROOTS + textBuf[r], sp)
      modifies `matchPosition, `matchLength
      ensures var m := Scan(textBuf[..], sp, r, Match(old(matchPosition), 0));
        && matchPosition == m.pos && matchLength == m.len && (full <==> m.len >= F)
        && (full ==> p == m.pos && p in sp)
      ensures !full ==> p == (if sp == [] then ROOTS + textBuf[r] else sp[|sp| - 1]) && p < N + 257 && rson[p] == NIL
    {
      ghost var text, start, links := textBuf[..], ROOTS + textBuf[r], rson[..];
      ghost var goal := Scan(text, sp, r, Match(matchPosition, 0));
      var cmp: nat := 1;
      p := N + 1 + textBuf[r];
      matchLength := 0;
      ghost var i: nat := 0;
      assert sp[0..] == sp;
      while true
        invariant i <= |sp| && p == (if i == 0 then start else sp[i - 1])
        invariant matchLength < F && Scan(text, sp[i..], r, Match(matchPosition, matchLength)) == goal
        decreases |sp| - i
      {
        assert LinkAt(links, start, sp, i);
        if cmp >= 0 {  // always: cmp is unsigned
          if rson[p] != NIL {
            p := rson[p];
          } else {
            return p, false;
          }
        } else {
          assert false;  // the left descent of the source is never taken
        }
        cmp, full := Visit(p, r, sp, i);
        i := i + 1;
        if full {
          return p, true;
        }
      }
    }

    /** The walk of InsertNode down tree t. The links are only read; those of r have been cleared before. */
    method Walk(r: nat, ghost k: Links, ghost t: Tree) returns (p: nat, full: bool)
      requires Allocated() && r < N && Shaped(k) && r !in Nodes(t)
      requires Linked(k, k.rson[ROOTS + textBuf[r]], ROOTS + textBuf[r], t)
      requires Arrays() == k.(lson := k.lson[r := NIL], rson := k.rson[r := NIL])
      modifies `matchPosition, `matchLength
      ensures Below(Spine(t))
      ensures var m := Scan(textBuf[..], Spine(t), r, Match(old(matchPosition), 0));
        && matchPosition == m.pos && matchLength == m.len && (full <==> m.len >= F)
        && (full ==> p == m.pos && p in Spine(t))
        && (!full ==> p == if t.Leaf? then ROOTS + textBuf[r] else Last(t))
      ensures !full ==> p < N + 257 && rson[p] == NIL
    {
      SpineLinks(k, ROOTS + textBuf[r], t, r);
      p, full := WalkDown(r, Spine(t));
      if t.Node? {
        LastOnSpine(t);
      }
    }

    /** r gets the dad and the children of the older node p. */
    method CopyLinks(p: nat, r: nat, ghost k: Links)
      requires Allocated() && Shaped(k) && p < N && r < N && p != r && k.lson[p] <= N && k.rson[p] <= N
      requires k.lson[p] != p && k.rson[p] != p
      requires Arrays() == k.(lson := k.lson[r := NIL], rson := k.rson[r := NIL])
      modifies lson, rson, dad
      ensures Arrays() == k.(lson := k.lson[r := k.lson[p]], rson := k.rson[r := k.rson[p]],
                             dad := k.dad[r := k.dad[p]][k.lson[p] := r][k.rson[p] := r])
    {
      dad[r] := dad[p];
      lson[r] := lson[p];
      rson[r] := rson[p];
      dad[lson[p]] := r;
      dad[rson[p]] := r;
    }

    /** The last lines of InsertNode: r takes the place of p. */
    method TakePlace(p: nat, r: nat, ghost k: Links)
      requires Allocated() && Shaped(k) && p < N && r < N && p != r && k.lson[p] <= N && k.rson[p] <= N
      requires Hangs(k, p, k.dad[p]) && k.dad[p] != r && k.lson[p] != p && k.rson[p] != p
      requires Arrays() == k.(lson := k.lson[r := NIL], rson := k.rson[r := NIL])
      modifies lson, rson, dad
      ensures Arrays() == TakeOver(k, p, r)
    {
      CopyLinks(p, r, k);
      if rson[dad[p]] == p {
        rson[dad[p]] := r;
      } else {
        lson[dad[p]] := r;
      }
      dad[p] := NIL;
    }

    method InsertNode(r: nat)
      requires Valid() && r < N && !In(forest, r)
      modifies `forest, `matchPosition, `matchLength, lson, rson, dad
      ensures Valid() && Usable(old(forest))
      ensures var m := Lookup(textBuf[..], old(forest), r, old(matchPosition));
        && matchPosition == m.pos && matchLength == m.len
        && forest == Inserted(textBuf[..], old(forest), r, m)
    {
      UsableForest();
      ghost var text, k, c := textBuf[..], Arrays(), textBuf[r];
      ghost var m := Lookup(text, forest, r, matchPosition);
      rson[r] := NIL;
      lson[r] := NIL;
      var p, full := Walk(r, k, forest[c]);
      if !full {
        AttachForest(k, forest, c, p, r);
        rson[p] := r;
        dad[r] := p;
        assert Arrays() == Attach(k, p, r);
        forest := Inserted(text, forest, r, m);
        return;
      }
      SpineInNodes(forest[c]);
      TakeOverForest(k, forest, c, p, r);
      assert k.dad[p] != r by { DadNot(k, forest, c, p, r); }
      TakePlace(p, r, k);
      forest := Inserted(text, forest, r, m);
    }

    lemma UsableForest()
      requires Valid()
      ensures Usable(forest)
    {
      forall c | 0 <= c < 256 ensures Below(Spine(forest[c])) {
        var k := Arrays();
        SpineInNodes(forest[c]);
        NodesBelow(k, k.rson[ROOTS + c], ROOTS + c, forest[c]);
        forall i | 0 <= i < |Spine(forest[c])| ensures Spine(forest[c])[i] < N {
          assert Spine(forest[c])[i] in Nodes(forest[c]);
        }
      }
    }

    lemma NotInTree(p: nat)
      requires Valid() && p < N && dad[p] == NIL
      ensures !In(forest, p) && RemoveAll(forest, p) == forest
    {
      if In(forest, p) {
        var c: nat :| c < |forest| && p in Nodes(forest[c]);
        AtNode(Arrays(), forest, c, p);
        assert false;
      }
      assert forall c :: 0 <= c < 256 ==> p !in Nodes(forest[c]);
    }
  }
}
