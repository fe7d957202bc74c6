/**
 The dictionary on values: exactly which positions InsertNode and DeleteNode leave in the
 trees, and what InsertNode reports.
 */
module DictionaryModel {
  import opened Config
  import opened Trees
  import opened LinkArrays
  import opened Matching

  /** The contents of a SearchTree.Dictionary. */
  datatype Dict = Dict(text: Text, forest: Forest, best: Match) {
    function Insert(r: nat): Dict
      requires Usable(forest) && r < N
    {
      var m := Lookup(text, forest, r, best.pos);
      Dict(text, Inserted(text, forest, r, m), m)
    }

    function Delete(p: nat): Dict {
      Dict(text, RemoveAll(forest, p), best)
    }

    /** A new byte in cell s, and in the mirror of s behind the ring. */
    function Write(s: nat, c: byte): Dict
      requires s < N
    {
      Dict(if s < F - 1 then text[s := c][s + N := c] else text[s := c], forest, best)
    }
  }

  ghost function Live(f: Forest): set<nat> {
    set p: nat | p < N && In(f, p)
  }

  /** Every tree is a chain of ring positions that start with the byte of the tree. */
  ghost predicate TreeOk(text: Text, c: nat, t: Tree) {
    Well(t) && Chain(t) && forall p :: p in Nodes(t) ==> p < N && text[p] == c
  }

  ghost predicate Consistent(text: Text, f: Forest) {
    |f| == 256 && forall c :: 0 <= c < 256 ==> TreeOk(text, c, f[c])
  }

  /** No two live positions have the same F bytes. */
  ghost predicate Distinct(text: Text, live: set<nat>) {
    forall p, q :: p in live && q in live && p < N && q < N && p != q ==> Key(text, p) != Key(text, q)
  }

  /** m is the longest match of r among the live positions. */
  ghost predicate Best(text: Text, live: set<nat>, r: nat, m: Match)
    requires r < N
  {
    && m.len <= F
    && (forall p :: p in live && p < N ==> Common(text, p, r, 0) <= m.len)
    && (m.len > 0 ==> m.pos in live && m.pos < N && Common(text, m.pos, r, 0) == m.len)
  }

  ghost function Others(text: Text, live: set<nat>, r: nat): set<nat>
    requires r < N
  {
    set p | p in live && p < N && Key(text, p) != Key(text, r)
  }

  /** Two keys are the same exactly when their common prefix is full. */
  lemma KeysAgree(text: Text, p: nat, r: nat)
    requires p < N && r < N
    ensures Common(text, p, r, 0) == F <==> Key(text, p) == Key(text, r)
  {
    CommonRange(text, p, r, 0);
    if Common(text, p, r, 0) == F {
      forall j | 0 <= j < F ensures Key(text, p)[j] == Key(text, r)[j] {
        assert Agree(text, p, r, j);
      }
    } else {
      var j := Common(text, p, r, 0);
      assert Key(text, p)[j] != Key(text, r)[j];
    }
  }

  lemma UsableWhenConsistent(text: Text, f: Forest)
    requires Consistent(text, f)
    ensures Usable(f)
  {
    forall c | 0 <= c < 256 ensures Below(Spine(f[c])) {
      assert TreeOk(text, c, f[c]);
      ChainSpine(f[c]);
      forall i | 0 <= i < |Spine(f[c])| ensures Spine(f[c])[i] < N {
        assert Spine(f[c])[i] in Nodes(f[c]);
      }
    }
  }

  /** A live position is in the tree of its byte. */
  lemma LiveIn(text: Text, f: Forest, p: nat)
    requires Consistent(text, f)
    ensures p in Live(f) <==> p < N && p in Nodes(f[text[p]])
    ensures In(f, p) <==> p in Live(f)
  {
    if In(f, p) {
      var c :| 0 <= c < |f| && p in Nodes(f[c]);
      assert TreeOk(text, c, f[c]);
    }
  }

  /** The walk of InsertNode reports the longest match over all live positions. */
  lemma LookupBest(text: Text, f: Forest, r: nat, oldPos: nat)
    requires Consistent(text, f) && r < N
    ensures Usable(f) && Best(text, Live(f), r, Lookup(text, f, r, oldPos))
  {
    UsableWhenConsistent(text, f);
    var c: nat := text[r];
    var sp, m := Spine(f[c]), Lookup(text, f, r, oldPos);
    assert TreeOk(text, c, f[c]);
    ChainSpine(f[c]);
    ScanLongest(text, sp, r, Match(oldPos, 0));
    forall p | p in Live(f) ensures Common(text, p, r, 0) <= m.len {
      LiveIn(text, f, p);
      if text[p] == c {
        var i :| 0 <= i < |sp| && sp[i] == p;
        CommonFromStart(text, p, r);
      } else {
        assert !Agree(text, p, r, 0);
      }
    }
    if m.len > 0 {
      LiveIn(text, f, m.pos);
      CommonFromStart(text, m.pos, r);
    }
  }

  /** The tree that InsertNode changes. */
  lemma InsertTree(text: Text, f: Forest, r: nat, m: Match)
    requires Consistent(text, f) && r < N && r !in Live(f) && m.len <= F
    requires m.len >= F ==> m.pos in Live(f) && m.pos < N && text[m.pos] == text[r]
    ensures Usable(f)
    ensures Consistent(text, Inserted(text, f, r, m))
    ensures Live(Inserted(text, f, r, m)) == Live(f) - (if m.len >= F then {m.pos} else {}) + {r}
  {
    UsableWhenConsistent(text, f);
    var c: nat, g := text[r], Inserted(text, f, r, m);
    LiveIn(text, f, r);
    LiveIn(text, f, m.pos);
    assert TreeOk(text, c, f[c]);
    if m.len >= F {
      var _, _ := ReplaceExactly(f[c], m.pos, r);
      ChainReplace(f[c], m.pos, r);
    } else {
      AppendExactly(f[c], r);
      ChainAppend(f[c], r);
    }
    assert TreeOk(text, c, g[c]);
    forall d | 0 <= d < 256 && d != c ensures TreeOk(text, d, g[d]) {
      assert TreeOk(text, d, f[d]);
    }
    forall p: nat | p < N
      ensures p in Live(g) <==> p in Live(f) - (if m.len >= F then {m.pos} else {}) + {r}
    {
      LiveIn(text, f, p);
      LiveIn(text, g, p);
    }
  }

  /**
   After InsertNode(r) the trees hold r and every earlier position with a different key;
   at most one position, an equal one, has gone.
   */
  lemma InsertExactly(text: Text, f: Forest, r: nat, oldPos: nat)
    requires Consistent(text, f) && Distinct(text, Live(f)) && r < N && r !in Live(f)
    ensures Usable(f)
    ensures var m := Lookup(text, f, r, oldPos);
      var g := Inserted(text, f, r, m);
      && Best(text, Live(f), r, m)
      && Consistent(text, g) && Distinct(text, Live(g))
      && Live(g) == Others(text, Live(f), r) + {r}
  {
    LookupBest(text, f, r, oldPos);
    var m := Lookup(text, f, r, oldPos);
    if m.len > 0 {
      KeysAgree(text, m.pos, r);
      if m.len == F {
        assert Key(text, m.pos)[0] == Key(text, r)[0];
      }
    }
    InsertTree(text, f, r, m);
    forall p | p in Live(f)
      ensures (m.len >= F && p == m.pos) <==> Key(text, p) == Key(text, r)
    {
      KeysAgree(text, p, r);
      CommonRange(text, p, r, 0);
    }
    assert Live(Inserted(text, f, r, m)) == Others(text, Live(f), r) + {r};
  }

  /** Position k of a tree in order has the longest common prefix with r, and none before it has one as long. */
  ghost predicate FirstLongest(text: Text, order: seq<nat>, r: nat, k: nat)
    requires r < N && Below(order) && k < |order|
  {
    && (forall i :: 0 <= i < k ==> Common(text, order[i], r, 0) < Common(text, order[k], r, 0))
    && (forall i :: 0 <= i < |order| ==> Common(text, order[i], r, 0) <= Common(text, order[k], r, 0))
  }

  /**
   InsertNode(r), by the tree of r's byte in order: the first longest match is reported, and r
   takes the place of a position with the same key, or comes last; all other trees stay.
   With an empty tree the length is 0 and the position stays as it was.
   */
  lemma InsertInOrder(text: Text, f: Forest, r: nat, oldPos: nat) returns (order: seq<nat>, k: nat)
    requires Consistent(text, f) && r < N && r !in Live(f)
    ensures Usable(f) && order == InOrder(f[text[r]]) && Below(order)
    ensures var m, g := Lookup(text, f, r, oldPos), Inserted(text, f, r, Lookup(text, f, r, oldPos));
      && (forall c :: 0 <= c < 256 && c != text[r] ==> g[c] == f[c])
      && if order == [] then m == Match(oldPos, 0) && InOrder(g[text[r]]) == [r]
         else
           && k < |order| && FirstLongest(text, order, r, k) && m == Match(order[k], Common(text, order[k], r, 0))
           && InOrder(g[text[r]]) == if Key(text, order[k]) == Key(text, r) then order[k := r] else order + [r]
  {
    UsableWhenConsistent(text, f);
    var c: nat := text[r];
    var t := f[c];
    assert TreeOk(text, c, t);
    ChainSpine(t);
    LiveIn(text, f, r);
    order, k := InOrder(t), 0;
    if order == [] {
      AppendExactly(t, r);
    } else {
      k := FirstFound(text, order, r, oldPos);
      KeysAgree(text, order[k], r);
      InsertedOrder(t, order, k, r);
      CommonRange(text, order[k], r, 0);
    }
  }

  lemma FirstFound(text: Text, order: seq<nat>, r: nat, oldPos: nat) returns (k: nat)
    requires order != [] && r < N && Below(order) && forall i :: 0 <= i < |order| ==> text[order[i]] == text[r]
    ensures k < |order| && FirstLongest(text, order, r, k)
    ensures Scan(text, order, r, Match(oldPos, 0)) == Match(order[k], Common(text, order[k], r, 0))
  {
    forall i | 0 <= i < |order| ensures Common(text, order[i], r, 0) == Common(text, order[i], r, 1) >= 1 {
      CommonFromStart(text, order[i], r);
    }
    ScanLongest(text, order, r, Match(oldPos, 0));
    k := ScanFirst(text, order, r, Match(oldPos, 0));
  }

  lemma InsertedOrder(t: Tree, order: seq<nat>, k: nat, r: nat)
    requires Well(t) && order == InOrder(t) && k < |order| && r !in Nodes(t) && order[k] in Nodes(t)
    ensures InOrder(Replace(t, order[k], r)) == order[k := r] && InOrder(Append(t, r)) == order + [r]
  {
    AppendExactly(t, r);
    var before, after := ReplaceExactly(t, order[k], r);
    OrderOnce(t);
    assert order[|before|] == order[k];
  }

  /** No position occurs twice in order. */
  lemma {:induction false} OrderOnce(t: Tree)
    requires Well(t)
    ensures forall i :: 0 <= i < |InOrder(t)| ==> InOrder(t)[i] in Nodes(t)
    ensures forall i, j :: 0 <= i < j < |InOrder(t)| ==> InOrder(t)[i] != InOrder(t)[j]
  {
    if t.Node? {
      OrderOnce(t.left);
      OrderOnce(t.right);
    }
  }

  /** DeleteNode(p) takes out p and nothing else. */
  lemma DeleteExactly(text: Text, f: Forest, p: nat)
    requires Consistent(text, f)
    ensures Consistent(text, RemoveAll(f, p))
    ensures Live(RemoveAll(f, p)) == Live(f) - {p}
  {
    var g := RemoveAll(f, p);
    forall c | 0 <= c < 256 ensures TreeOk(text, c, g[c]) && Nodes(g[c]) == Nodes(f[c]) - {p} {
      assert TreeOk(text, c, f[c]);
      if p in Nodes(f[c]) {
        var _, _ := RemoveExactly(f[c], p);
        ChainRemove(f[c], p);
      }
    }
    forall q: nat | q < N ensures q in Live(g) <==> q in Live(f) - {p} {
      LiveIn(text, f, q);
      LiveIn(text, g, q);
    }
  }

  /** Changing bytes that are not the first of a live position keeps the trees consistent. */
  lemma WriteConsistent(text: Text, text2: Text, f: Forest)
    requires Consistent(text, f)
    requires forall p :: p in Live(f) ==> text2[p] == text[p]
    ensures Consistent(text2, f)
  {
    forall c | 0 <= c < 256 ensures TreeOk(text2, c, f[c]) {
      assert TreeOk(text, c, f[c]);
      forall p | p in Nodes(f[c]) ensures text2[p] == c {
        assert In(f, p);
      }
    }
  }
}
