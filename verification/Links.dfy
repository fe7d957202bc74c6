/**
 How the arrays lson, rson and dad hold 256 trees, and why relinking a few
 cells of them changes one tree and no other.
 */
module LinkArrays {
  import opened Config
  import opened Trees

  /** The contents of the three arrays. rson also holds the roots, behind the nodes. */
  datatype Links = Links(lson: seq<nat>, rson: seq<nat>, dad: seq<nat>)

  type Forest = seq<Tree>

  predicate Shaped(k: Links) {
    |k.lson| == N + 1 && |k.rson| == N + 257 && |k.dad| == N + 1
  }

  /** root is the root of t, t hangs below parent, and child and dad links are mutually inverse in t. */
  predicate Linked(k: Links, root: nat, parent: nat, t: Tree)
    requires Shaped(k)
    decreases t
  {
    match t
    case Leaf => root == NIL
    case Node(l, p, r) =>
      root == p && p < N && k.dad[p] == parent && Linked(k, k.lson[p], p, l) && Linked(k, k.rson[p], p, r)
  }

  ghost predicate In(f: Forest, p: nat) {
    exists c :: 0 <= c < |f| && p in Nodes(f[c])
  }

  /** The arrays hold the 256 trees of f; a position outside all trees is marked unused. */
  ghost predicate ForestLinked(k: Links, f: Forest) {
    && Shaped(k) && |f| == 256
    && (forall c :: 0 <= c < 256 ==> Well(f[c]) && Linked(k, k.rson[ROOTS + c], ROOTS + c, f[c]))
    && (forall c, d :: 0 <= c < d < 256 ==> Nodes(f[c]) !! Nodes(f[d]))
    && (forall p: nat :: p < N && k.dad[p] != NIL ==> In(f, p))
  }

  /** The forests that the arrays hold: at most one. */
  ghost function Held(k: Links): iset<Forest> {
    iset f: Forest | ForestLinked(k, f)
  }

  function RemoveAll(f: Forest, p: nat): (g: Forest)
    ensures |g| == |f|
  {
    seq(|f|, c requires 0 <= c < |f| => Remove(f[c], p))
  }

  /** The cells of u are the same in both. */
  predicate SameAt(k: Links, k2: Links, u: nat)
    requires Shaped(k) && Shaped(k2)
  {
    u < N ==> k.lson[u] == k2.lson[u] && k.rson[u] == k2.rson[u] && k.dad[u] == k2.dad[u]
  }

  /** A tree stays linked, below a new parent, when only the dad of its root changes. */
  lemma {:induction false} LinkedMove(k: Links, k2: Links, root: nat, parent: nat, parent2: nat, t: Tree)
    requires Shaped(k) && Shaped(k2) && Linked(k, root, parent, t) && Well(t)
    requires forall u :: u in Nodes(t) && u != root ==> SameAt(k, k2, u)
    requires t.Node? ==> k2.lson[root] == k.lson[root] && k2.rson[root] == k.rson[root] && k2.dad[root] == parent2
    ensures Linked(k2, root, parent2, t)
    decreases t
  {
    if t.Node? {
      RootOf(k, k.lson[root], root, t.left);
      RootOf(k, k.rson[root], root, t.right);
      assert t.left.Node? ==> k.lson[root] in Nodes(t) && SameAt(k, k2, k.lson[root]);
      assert t.right.Node? ==> k.rson[root] in Nodes(t) && SameAt(k, k2, k.rson[root]);
      LinkedMove(k, k2, k.lson[root], root, root, t.left);
      LinkedMove(k, k2, k.rson[root], root, root, t.right);
    }
  }

  lemma LinkedSame(k: Links, k2: Links, root: nat, parent: nat, t: Tree)
    requires Shaped(k) && Shaped(k2) && Linked(k, root, parent, t) && Well(t)
    requires forall u :: u in Nodes(t) ==> SameAt(k, k2, u)
    ensures Linked(k2, root, parent, t)
  {
    RootOf(k, root, parent, t);
    LinkedMove(k, k2, root, parent, parent, t);
  }

  lemma RootOf(k: Links, root: nat, parent: nat, t: Tree)
    requires Shaped(k) && Linked(k, root, parent, t)
    ensures t.Node? ==> root < N && root in Nodes(t) && k.dad[root] == parent && root == t.pos
    ensures root == NIL <==> t.Leaf?
  {
  }

  /** Every node but the root has its dad in the tree, and is a child of its dad. */
  lemma {:induction false} DadOf(k: Links, root: nat, parent: nat, t: Tree, p: nat)
    requires Shaped(k) && Linked(k, root, parent, t) && Well(t) && p in Nodes(t)
    ensures p < N && (p == root ==> k.dad[p] == parent)
    ensures p != root ==> k.dad[p] in Nodes(t) && k.dad[p] < N
    ensures p != root ==> k.lson[k.dad[p]] == p || k.rson[k.dad[p]] == p
    ensures k.lson[p] != NIL ==> k.lson[p] in Nodes(t) && k.lson[p] < N && k.dad[k.lson[p]] == p
    ensures k.rson[p] != NIL ==> k.rson[p] in Nodes(t) && k.rson[p] < N && k.dad[k.rson[p]] == p
    decreases t
  {
    RootOf(k, k.lson[root], root, t.left);
    RootOf(k, k.rson[root], root, t.right);
    if p in Nodes(t.left) {
      DadOf(k, k.lson[root], root, t.left, p);
    } else if p in Nodes(t.right) {
      DadOf(k, k.rson[root], root, t.right, p);
    }
  }

  /** The subtree at p is linked below the dad of p, which lies outside that subtree. */
  lemma {:induction false} SubLinked(k: Links, root: nat, parent: nat, t: Tree, p: nat)
    requires Shaped(k) && Linked(k, root, parent, t) && Well(t) && p in Nodes(t) && parent !in Nodes(t)
    ensures p < N && Linked(k, p, k.dad[p], Sub(t, p)) && Well(Sub(t, p))
    ensures k.dad[p] !in Nodes(Sub(t, p))
    decreases t
  {
    if t.pos != p {
      RootOf(k, k.lson[root], root, t.left);
      RootOf(k, k.rson[root], root, t.right);
      if p in Nodes(t.left) {
        SubLinked(k, k.lson[root], root, t.left, p);
      } else {
        SubLinked(k, k.rson[root], root, t.right, p);
      }
    }
  }

  /** The child link of d that led to p leads to q instead; nothing else of d changes. */
  predicate Redirected(k: Links, k2: Links, d: nat, p: nat, q: nat)
    requires Shaped(k) && Shaped(k2)
  {
    d < N + 257 && d != NIL &&
    if k.rson[d] == p then k2.rson[d] == q && (d < N ==> k2.lson[d] == k.lson[d] && k2.dad[d] == k.dad[d])
    else d < N && k2.lson[d] == q && k2.rson[d] == k.rson[d] && k2.dad[d] == k.dad[d]
  }

  /** Exchanging the subtree at p for new_ inside one tree. */
  lemma {:induction false} GraftTree(k: Links, k2: Links, root: nat, parent: nat, t: Tree, p: nat, q: nat, new_: Tree)
    requires Shaped(k) && Shaped(k2) && Linked(k, root, parent, t) && Well(t) && p in Nodes(t)
    requires p < N && parent !in Nodes(t)
    requires Linked(k2, q, k.dad[p], new_)
    requires forall u :: u in Nodes(t) && u !in Nodes(Sub(t, p)) && u != k.dad[p] ==> SameAt(k, k2, u)
    requires Redirected(k, k2, k.dad[p], p, q)
    ensures Linked(k2, if root == p then q else root, parent, Put(t, p, new_))
    decreases t
  {
    if t.pos == p {
    } else {
      var l, r := k.lson[root], k.rson[root];
      RootOf(k, l, root, t.left);
      RootOf(k, r, root, t.right);
      if p in Nodes(t.left) {
        PutAbsent(t.right, p, new_);
        DadOf(k, l, root, t.left, p);
        LinkedSame(k, k2, r, root, t.right);
        GraftTree(k, k2, l, root, t.left, p, q, new_);
      } else {
        PutAbsent(t.left, p, new_);
        DadOf(k, r, root, t.right, p);
        LinkedSame(k, k2, l, root, t.left);
        GraftTree(k, k2, r, root, t.right, p, q, new_);
      }
    }
  }

  /**
   k2 comes from k by exchanging the subtree at p for new_, with root q, inside tree c:
   only cells of the two trees and the link that led to p differ.
   */
  ghost predicate Grafted(k: Links, k2: Links, f: Forest, c: nat, p: nat, q: nat, new_: Tree)
    requires ForestLinked(k, f) && c < 256 && p in Nodes(f[c]) && p < N
  {
    var s := Sub(f[c], p);
    && Shaped(k2) && Linked(k2, q, k.dad[p], new_) && Well(new_)
    && (forall u :: u in Nodes(new_) ==> u in Nodes(s) || !In(f, u))
    && (forall u: nat :: u < N && u !in Nodes(s) && u !in Nodes(new_) && u != k.dad[p] ==> SameAt(k, k2, u))
    && Redirected(k, k2, k.dad[p], p, q)
    && (forall i :: ROOTS <= i < N + 257 && i != k.dad[p] ==> k2.rson[i] == k.rson[i])
    && (forall u: nat :: u < N && k2.dad[u] != NIL ==> u in Nodes(new_) || (k.dad[u] != NIL && u !in Nodes(s)))
  }

  lemma GraftOwn(k: Links, k2: Links, f: Forest, c: nat, p: nat, q: nat, new_: Tree)
    requires ForestLinked(k, f) && c < 256 && p in Nodes(f[c]) && p < N
    requires Grafted(k, k2, f, c, p, q, new_)
    ensures Well(Put(f[c], p, new_)) && Linked(k2, k2.rson[ROOTS + c], ROOTS + c, Put(f[c], p, new_))
    ensures Nodes(Put(f[c], p, new_)) == Nodes(f[c]) - Nodes(Sub(f[c], p)) + Nodes(new_)
    ensures k.dad[p] < N ==> k.dad[p] in Nodes(f[c])
    ensures k.dad[p] >= N ==> k.dad[p] == ROOTS + c
  {
    var root := k.rson[ROOTS + c];
    NodesBelow(k, root, ROOTS + c, f[c]);
    RootOf(k, root, ROOTS + c, f[c]);
    DadOf(k, root, ROOTS + c, f[c], p);
    forall u | u in Nodes(f[c]) && u in Nodes(new_) ensures u in Nodes(Sub(f[c], p)) {
      assert In(f, u);
    }
    PutNodes(f[c], p, new_);
    GraftTree(k, k2, root, ROOTS + c, f[c], p, q, new_);
  }

  lemma GraftOther(k: Links, k2: Links, f: Forest, c: nat, p: nat, q: nat, new_: Tree, e: nat)
    requires ForestLinked(k, f) && c < 256 && p in Nodes(f[c]) && p < N
    requires Grafted(k, k2, f, c, p, q, new_)
    requires k.dad[p] < N ==> k.dad[p] in Nodes(f[c])
    requires k.dad[p] >= N ==> k.dad[p] == ROOTS + c
    requires e < 256 && e != c
    ensures Linked(k2, k2.rson[ROOTS + e], ROOTS + e, f[e])
    ensures Nodes(f[e]) !! Nodes(f[c]) && Nodes(f[e]) !! Nodes(new_)
  {
    assert Nodes(f[e]) !! Nodes(f[c]);
    NodesBelow(k, k.rson[ROOTS + e], ROOTS + e, f[e]);
    forall u | u in Nodes(f[e]) ensures u !in Nodes(new_) && SameAt(k, k2, u) {
      assert In(f, u);
    }
    LinkedSame(k, k2, k.rson[ROOTS + e], ROOTS + e, f[e]);
  }

  /** Every position in use after the exchange is in some tree. */
  lemma GraftUsed(k: Links, k2: Links, f: Forest, c: nat, p: nat, q: nat, new_: Tree, t: Tree, u: nat)
    requires ForestLinked(k, f) && c < 256 && p in Nodes(f[c]) && p < N
    requires Grafted(k, k2, f, c, p, q, new_)
    requires Nodes(t) == Nodes(f[c]) - Nodes(Sub(f[c], p)) + Nodes(new_)
    requires u < N && k2.dad[u] != NIL
    ensures In(f[c := t], u)
  {
    if u in Nodes(new_) {
      InUpdated(f, c, t, c, u);
    } else {
      assert In(f, u);
      var e :| 0 <= e < |f| && u in Nodes(f[e]);
      InUpdated(f, c, t, e, u);
    }
  }

  lemma InUpdated(f: Forest, c: nat, t: Tree, e: nat, u: nat)
    requires c < |f| && e < |f| && u in Nodes(if e == c then t else f[e])
    ensures In(f[c := t], u)
  {
    assert u in Nodes(f[c := t][e]);
  }

  lemma Reassemble(k: Links, k2: Links, f: Forest, c: nat, t: Tree)
    requires ForestLinked(k, f) && Shaped(k2) && c < 256
    requires Well(t) && Linked(k2, k2.rson[ROOTS + c], ROOTS + c, t)
    requires forall e :: 0 <= e < 256 && e != c ==>
      Linked(k2, k2.rson[ROOTS + e], ROOTS + e, f[e]) && Nodes(f[e]) !! Nodes(t)
    requires forall u: nat :: u < N && k2.dad[u] != NIL ==> In(f[c := t], u)
    ensures ForestLinked(k2, f[c := t])
  {
    var g := f[c := t];
    forall d, e | 0 <= d < e < 256 ensures Nodes(g[d]) !! Nodes(g[e]) {
      assert d != c && e != c ==> Nodes(f[d]) !! Nodes(f[e]);
    }
  }

  /** Exchanging a subtree changes one tree of the forest and leaves the others as they are. */
  lemma GraftForest(k: Links, k2: Links, f: Forest, c: nat, p: nat, q: nat, new_: Tree)
    requires ForestLinked(k, f) && c < 256 && p in Nodes(f[c]) && p < N
    requires Grafted(k, k2, f, c, p, q, new_)
    ensures ForestLinked(k2, f[c := Put(f[c], p, new_)])
  {
    var t := Put(f[c], p, new_);
    GraftOwn(k, k2, f, c, p, q, new_);
    forall e | 0 <= e < 256 && e != c
      ensures Linked(k2, k2.rson[ROOTS + e], ROOTS + e, f[e]) && Nodes(f[e]) !! Nodes(t)
    {
      GraftOther(k, k2, f, c, p, q, new_, e);
    }
    forall u: nat | u < N && k2.dad[u] != NIL ensures In(f[c := t], u) {
      GraftUsed(k, k2, f, c, p, q, new_, t, u);
    }
    Reassemble(k, k2, f, c, t);
  }

  lemma {:induction false} NodesBelow(k: Links, root: nat, parent: nat, t: Tree)
    requires Shaped(k) && Linked(k, root, parent, t)
    ensures forall u :: u in Nodes(t) ==> u < N
    decreases t
  {
    if t.Node? {
      NodesBelow(k, k.lson[root], root, t.left);
      NodesBelow(k, k.rson[root], root, t.right);
    }
  }

  /** Removal touches the one tree that holds p. */
  lemma RemoveAllAt(f: Forest, c: nat, p: nat)
    requires |f| == 256 && c < 256 && p in Nodes(f[c])
    requires forall c, d :: 0 <= c < d < 256 ==> Nodes(f[c]) !! Nodes(f[d])
    ensures RemoveAll(f, p) == f[c := Remove(f[c], p)]
  {
    forall e | 0 <= e < 256 && e != c ensures Remove(f[e], p) == f[e] {
      assert Nodes(f[e]) !! Nodes(f[c]);
    }
  }

  // ----- the relinking steps of DeleteNode, as the source writes them

  /** q moves to the place of p, and p is marked unused. */
  function Hang(k: Links, p: nat, q: nat): (k2: Links)
    requires Shaped(k) && p < N && q <= N && k.dad[p] < N + 257
    requires k.rson[k.dad[p]] == p || k.dad[p] < N
    ensures Shaped(k2)
  {
    var d := k.dad[p];
    var k1 := k.(dad := k.dad[q := d]);
    var k2 := if k1.rson[d] == p then k1.(rson := k1.rson[d := q]) else k1.(lson := k1.lson[d := q]);
    k2.(dad := k2.dad[p := NIL])
  }

  /** m takes the place of the right child of e. */
  function Unhooked(k: Links, e: nat, m: nat): (k2: Links)
    requires Shaped(k) && e < N && m <= N
    ensures Shaped(k2)
  {
    k.(rson := k.rson[e := m], dad := k.dad[m := e])
  }

  /** The left child of q takes the place of q, and q gets the left child of p. */
  function Pull(k: Links, p: nat, q: nat): (k2: Links)
    requires Shaped(k) && p < N && q < N && k.dad[q] < N && k.lson[q] <= N && k.lson[p] <= N
    ensures Shaped(k2)
  {
    var k1 := Unhooked(k, k.dad[q], k.lson[q]);
    k1.(lson := k1.lson[q := k1.lson[p]], dad := k1.dad[k1.lson[p] := q])
  }

  /** q gets the right child of p. */
  function Adopt(k: Links, p: nat, q: nat): (k2: Links)
    requires Shaped(k) && p < N && q < N && k.rson[p] <= N
    ensures Shaped(k2)
  {
    k.(rson := k.rson[q := k.rson[p]], dad := k.dad[k.rson[p] := q])
  }

  lemma UnhookedSame(k: Links, e: nat, m: nat, root: nat, parent: nat, t: Tree)
    requires Shaped(k) && Linked(k, root, parent, t) && Well(t) && e < N && m <= N
    requires e !in Nodes(t) && (m != NIL ==> m !in Nodes(t))
    ensures Linked(Unhooked(k, e, m), root, parent, t)
  {
    LinkedSame(k, Unhooked(k, e, m), root, parent, t);
  }

  /** The last node is the right child of the root. */
  lemma DropChild(k: Links, root: nat, parent: nat, t: Tree)
    requires Shaped(k) && Linked(k, root, parent, t) && Well(t) && t.Node? && t.right.Node? && t.right.right.Leaf?
    ensures var q := t.right.pos;
      && q in Nodes(t) && q < N && q != root && k.dad[q] == root && root in Nodes(t) && root < N
      && k.lson[q] <= N && (k.lson[q] != NIL ==> k.lson[q] in Nodes(t)) && k.rson[q] == NIL
      && Linked(Unhooked(k, k.dad[q], k.lson[q]), root, parent, DropLast(t))
  {
    var r := t.right;
    var q := r.pos;
    RootOf(k, k.lson[root], root, t.left);
    RootOf(k, k.rson[root], root, r);
    RootOf(k, k.lson[q], q, r.left);
    RootOf(k, k.rson[q], q, r.right);
    var k1 := Unhooked(k, root, k.lson[q]);
    LinkedSame(k, k1, k.lson[root], root, t.left);
    LinkedMove(k, k1, k.lson[q], q, root, r.left);
  }

  /** A tree loses its last node when that node's left child takes its place. */
  lemma {:induction false} DropLastLinked(k: Links, root: nat, parent: nat, t: Tree)
    requires Shaped(k) && Linked(k, root, parent, t) && Well(t) && t.Node? && t.right.Node?
    ensures var q := Last(t);
      && q in Nodes(t) && q < N && q != root && k.dad[q] in Nodes(t) && k.dad[q] < N && k.dad[q] != q
      && k.lson[q] <= N && (k.lson[q] != NIL ==> k.lson[q] in Nodes(t)) && k.rson[q] == NIL
      && Linked(Unhooked(k, k.dad[q], k.lson[q]), root, parent, DropLast(t))
    decreases t
  {
    var r := t.right;
    RootOf(k, k.lson[root], root, t.left);
    RootOf(k, k.rson[root], root, r);
    if r.right.Leaf? {
      DropChild(k, root, parent, t);
    } else {
      DropLastLinked(k, k.rson[root], root, r);
      DropLastNodes(r);
      UnhookedSame(k, k.dad[Last(r)], k.lson[Last(r)], k.lson[root], root, t.left);
    }
  }

  /** Everything the deletion lemmas need to know about the position p. */
  lemma AtNode(k: Links, f: Forest, c: nat, p: nat)
    requires ForestLinked(k, f) && c < 256 && p in Nodes(f[c])
    ensures p < N && k.dad[p] != NIL && k.dad[p] < N + 257
    ensures k.rson[k.dad[p]] == p || (k.dad[p] < N && k.lson[k.dad[p]] == p)
    ensures var s := Sub(f[c], p);
      && Linked(k, p, k.dad[p], s) && Well(s) && k.dad[p] !in Nodes(s)
      && Linked(k, k.lson[p], p, s.left) && Linked(k, k.rson[p], p, s.right)
      && k.lson[p] <= N && k.rson[p] <= N && (k.dad[p] >= N ==> k.dad[p] == ROOTS + c)
  {
    NodesBelow(k, k.rson[ROOTS + c], ROOTS + c, f[c]);
    RootOf(k, k.rson[ROOTS + c], ROOTS + c, f[c]);
    DadOf(k, k.rson[ROOTS + c], ROOTS + c, f[c], p);
    SubLinked(k, k.rson[ROOTS + c], ROOTS + c, f[c], p);
    var s := Sub(f[c], p);
    RootOf(k, k.lson[p], p, s.left);
    RootOf(k, k.rson[p], p, s.right);
  }

  /** Where p hangs: below a node, or below root cell d. */
  predicate Hangs(k: Links, p: nat, d: nat)
    requires Shaped(k)
  {
    p < N && d < N + 257 && d != NIL && k.dad[p] == d && (k.rson[d] == p || (d < N && k.lson[d] == p))
  }

  /** Only cells of ns change. */
  ghost predicate Within(k: Links, k2: Links, ns: set<nat>)
    requires Shaped(k) && Shaped(k2)
  {
    && (forall u: nat :: u < N && u !in ns ==> SameAt(k, k2, u))
    && (forall i :: ROOTS <= i < N + 257 ==> k2.rson[i] == k.rson[i])
  }

  /** Only cells of ns change, and the link of d that led to p, which now leads to q; p is marked unused. */
  ghost predicate Moved(k: Links, k2: Links, ns: set<nat>, d: nat, p: nat, q: nat)
    requires Shaped(k) && Shaped(k2) && p < N
  {
    && (forall u: nat :: u < N && u !in ns && u != d ==> SameAt(k, k2, u))
    && Redirected(k, k2, d, p, q) && k2.dad[p] == NIL
    && (forall i :: ROOTS <= i < N + 257 && i != d ==> k2.rson[i] == k.rson[i])
  }

  lemma HangMoves(k: Links, p: nat, q: nat, d: nat, ns: set<nat>)
    requires Shaped(k) && Hangs(k, p, d) && q <= N && p in ns && (q != NIL ==> q in ns) && d !in ns
    ensures Moved(k, Hang(k, p, q), ns, d, p, q)
  {
  }

  lemma PullWithin(k: Links, p: nat, q: nat, ns: set<nat>)
    requires Shaped(k) && p < N && q < N && k.dad[q] < N && k.lson[q] <= N && k.lson[p] < N
    requires {q, k.dad[q], k.lson[p]} <= ns && (k.lson[q] != NIL ==> k.lson[q] in ns)
    ensures Within(k, Pull(k, p, q), ns)
  {
  }

  lemma AdoptWithin(k: Links, p: nat, q: nat, ns: set<nat>)
    requires Shaped(k) && p < N && q < N && k.rson[p] < N && {q, k.rson[p]} <= ns
    ensures Within(k, Adopt(k, p, q), ns)
  {
  }

  lemma WithinMoved(k: Links, k1: Links, k2: Links, ns: set<nat>, d: nat, p: nat, q: nat)
    requires Shaped(k) && Shaped(k1) && Shaped(k2) && p < N && d !in ns
    requires Within(k, k1, ns) && Moved(k1, k2, ns, d, p, q)
    ensures Moved(k, k2, ns, d, p, q)
  {
    if d < N {
      assert SameAt(k, k1, d);
    }
    forall u: nat | u < N && u !in ns && u != d ensures SameAt(k, k2, u) {
      assert SameAt(k, k1, u) && SameAt(k1, k2, u);
    }
  }

  /** With one child missing the other one, q, takes the place of p. */
  lemma HungFrame(k: Links, p: nat, q: nat, d: nat, s: Tree)
    requires Shaped(k) && Hangs(k, p, d) && Linked(k, p, d, s) && Well(s) && d !in Nodes(s)
    requires k.rson[p] == NIL || k.lson[p] == NIL
    requires q == if k.rson[p] == NIL then k.lson[p] else k.rson[p]
    ensures q <= N && Linked(Hang(k, p, q), q, d, Splice(s.left, s.right))
    ensures Moved(k, Hang(k, p, q), Nodes(s), d, p, q)
  {
    RootOf(k, k.lson[p], p, s.left);
    RootOf(k, k.rson[p], p, s.right);
    assert q != NIL ==> q in Nodes(s);
    HangMoves(k, p, q, d, Nodes(s));
    LinkedMove(k, Hang(k, p, q), q, p, d, Splice(s.left, s.right));
  }

  lemma DeleteShallow(k: Links, f: Forest, c: nat, p: nat, q: nat)
    requires ForestLinked(k, f) && c < 256 && p in Nodes(f[c]) && p < N
    requires k.rson[p] == NIL || k.lson[p] == NIL
    requires q == if k.rson[p] == NIL then k.lson[p] else k.rson[p]
    ensures q <= N && Hangs(k, p, k.dad[p])
    ensures ForestLinked(Hang(k, p, q), RemoveAll(f, p))
  {
    AtNode(k, f, c, p);
    var s, k2 := Sub(f[c], p), Hang(k, p, q);
    HungFrame(k, p, q, k.dad[p], s);
    SpliceNodes(s.left, s.right);
    forall u: nat | u < N && k2.dad[u] != NIL && u !in Nodes(Splice(s.left, s.right))
      ensures k.dad[u] != NIL && u !in Nodes(s)
    {
      assert u != p;
      assert SameAt(k, k2, u) || u == k.dad[p];
    }
    GraftForest(k, k2, f, c, p, q, Splice(s.left, s.right));
    RemoveAllAt(f, c, p);
  }

  /** The links after the two-child case of DeleteNode, up to the last four lines. */
  function Lifted(k: Links, p: nat, q: nat): (k2: Links)
    requires Shaped(k) && p < N && q < N && k.rson[p] < N && k.lson[p] < N
    requires q != k.lson[p] ==> k.dad[q] < N && k.dad[q] != p && k.lson[q] <= N
    ensures Shaped(k2)
  {
    Adopt(if q == k.lson[p] then k else Pull(k, p, q), p, q)
  }

  /** Facts about the last node q of the left child of p. */
  lemma LastOfLeft(k: Links, p: nat, q: nat, d: nat, s: Tree)
    requires Shaped(k) && Hangs(k, p, d) && Linked(k, p, d, s) && Well(s) && d !in Nodes(s)
    requires k.rson[p] != NIL && k.lson[p] != NIL
    requires s.left.Node? && q == Last(s.left)
    ensures s.right.Node? && k.lson[p] == s.left.pos && k.rson[p] == s.right.pos
    ensures q < N && k.rson[p] < N && k.lson[p] < N && q in Nodes(s.left)
    ensures q == k.lson[p] <==> s.left.right.Leaf?
    ensures q != k.lson[p] ==> k.dad[q] in Nodes(s.left) && k.dad[q] < N && k.dad[q] != q && k.lson[q] <= N
    ensures k.lson[q] != NIL ==> k.lson[q] in Nodes(s.left)
    ensures q != k.lson[p] ==>
      Linked(Unhooked(k, k.dad[q], k.lson[q]), k.lson[p], p, DropLast(s.left))
  {
    var l, r := k.lson[p], k.rson[p];
    RootOf(k, l, p, s.left);
    RootOf(k, r, p, s.right);
    DropLastNodes(s.left);
    DadOf(k, l, p, s.left, q);
    if s.left.right.Node? {
      DropLastLinked(k, l, p, s.left);
    }
  }

  /** The cells that the two-child case changes, in terms of the arrays alone. */
  lemma LiftedMoves(k: Links, p: nat, q: nat, d: nat, ns: set<nat>)
    requires Shaped(k) && Hangs(k, p, d) && d !in ns && q < N && k.rson[p] < N && k.lson[p] < N
    requires {p, q, k.lson[p], k.rson[p]} <= ns && p != q && p != k.lson[p] && p != k.rson[p]
    requires q != k.lson[p] ==> k.dad[q] < N && k.dad[q] != p && k.lson[q] <= N && k.lson[q] != p && k.dad[q] in ns
    requires q != k.lson[p] && k.lson[q] != NIL ==> k.lson[q] in ns
    ensures Hangs(Lifted(k, p, q), p, d) && Moved(k, Hang(Lifted(k, p, q), p, q), ns, d, p, q)
  {
    var k1 := if q == k.lson[p] then k else Pull(k, p, q);
    if q != k.lson[p] {
      PullWithin(k, p, q, ns);
    }
    var k2 := Adopt(k1, p, q);
    AdoptWithin(k1, p, q, ns);
    WithinTwice(k, k1, k2, ns);
    HangsStill(k, k2, p, d, ns);
    HangMoves(k2, p, q, d, ns);
    WithinMoved(k, k2, Hang(k2, p, q), ns, d, p, q);
  }

  lemma WithinTwice(k: Links, k1: Links, k2: Links, ns: set<nat>)
    requires Shaped(k) && Shaped(k1) && Shaped(k2) && Within(k, k1, ns) && Within(k1, k2, ns)
    ensures Within(k, k2, ns)
  {
    forall u: nat | u < N && u !in ns ensures SameAt(k, k2, u) {
      assert SameAt(k, k1, u) && SameAt(k1, k2, u);
    }
  }

  lemma HangsStill(k: Links, k2: Links, p: nat, d: nat, ns: set<nat>)
    requires Shaped(k) && Shaped(k2) && Hangs(k, p, d) && Within(k, k2, ns) && d !in ns && k2.dad[p] == k.dad[p]
    ensures Hangs(k2, p, d)
  {
    if d < N {
      assert SameAt(k, k2, d);
    }
  }

  /** Outside p's subtree only the link that led to p changes, and that now leads to q. */
  lemma LiftedFrame(k: Links, p: nat, q: nat, d: nat, s: Tree)
    requires Shaped(k) && Hangs(k, p, d) && Linked(k, p, d, s) && Well(s) && d !in Nodes(s)
    requires k.rson[p] != NIL && k.lson[p] != NIL
    requires s.left.Node? && q == Last(s.left)
    ensures q < N && k.rson[p] < N && k.lson[p] < N
    ensures q != k.lson[p] ==> k.dad[q] < N && k.dad[q] != p && k.lson[q] <= N
    ensures Hangs(Lifted(k, p, q), p, d) && Moved(k, Hang(Lifted(k, p, q), p, q), Nodes(s), d, p, q)
  {
    LastOfLeft(k, p, q, d, s);
    LiftedMoves(k, p, q, d, Nodes(s));
  }

  /** The two children of p, merged under q, are what Splice says: q is the left child. */
  lemma LiftedNear(k: Links, p: nat, q: nat, d: nat, s: Tree)
    requires Shaped(k) && Hangs(k, p, d) && Linked(k, p, d, s) && Well(s) && d !in Nodes(s)
    requires k.rson[p] != NIL && k.lson[p] != NIL
    requires s.left.Node? && q == Last(s.left) && s.left.right.Leaf?
    requires q < N && k.rson[p] < N && k.lson[p] < N
    requires q != k.lson[p] ==> k.dad[q] < N && k.dad[q] != p && k.lson[q] <= N
    requires Hangs(Lifted(k, p, q), p, d)
    ensures Linked(Hang(Lifted(k, p, q), p, q), q, d, Splice(s.left, s.right))
  {
    LastOfLeft(k, p, q, d, s);
    var k3 := Hang(Lifted(k, p, q), p, q);
    LinkedMove(k, k3, k.rson[p], p, q, s.right);
    LinkedSame(k, k3, k.lson[q], q, s.left.left);
  }

  /** The cells around q when it lies deeper, in terms of the arrays alone: e was its dad, m its left child. */
  lemma LiftedCells(k: Links, p: nat, q: nat, d: nat, l: nat, r: nat, e: nat, m: nat)
    requires Shaped(k) && Hangs(k, p, d) && q < N && l == k.lson[p] < N && r == k.rson[p] < N
    requires e == k.dad[q] < N && m == k.lson[q] <= N
    requires p != q && p != l && p != r && p != e && p != m && q != l && q != r && l != r
    requires e != q && m != q && m != l && m != r
    requires d != q && d != l && d != r && d != e && d != m && d != p && e != r && Hangs(Lifted(k, p, q), p, d)
    ensures var k3 := Hang(Lifted(k, p, q), p, q);
      && k3.lson[q] == l && k3.rson[q] == r && k3.dad[q] == d && k3.dad[l] == q && k3.dad[r] == q
      && k3.lson[r] == k.lson[r] && k3.rson[r] == k.rson[r]
      && k3.lson[l] == k.lson[l] && k3.rson[l] == k.rson[e := m][l]
  {
  }

  lemma LiftedRest(k: Links, p: nat, q: nat, d: nat, l: nat, r: nat, e: nat, m: nat, u: nat)
    requires Shaped(k) && Hangs(k, p, d) && q < N && l == k.lson[p] < N && r == k.rson[p] < N
    requires e == k.dad[q] < N && m == k.lson[q] <= N && q != l && p != e && p != q && p != m && q != m && d != e
    requires Hangs(Lifted(k, p, q), p, d) && u != p && u != q && u != d && u != l && u != r
    ensures SameAt(Unhooked(k, e, m), Hang(Lifted(k, p, q), p, q), u)
  {
  }

  /** Cells that the two-child case leaves as they are, or as they are when q alone has left its subtree. */
  lemma LiftedTree(k: Links, p: nat, q: nat, d: nat, l: nat, r: nat, e: nat, m: nat, root: nat, t: Tree)
    requires Shaped(k) && Hangs(k, p, d) && q < N && l == k.lson[p] < N && r == k.rson[p] < N
    requires e == k.dad[q] < N && m == k.lson[q] <= N && q != l && p != e && p != q && p != m && q != m && d != e
    requires Hangs(Lifted(k, p, q), p, d) && Well(t) && p !in Nodes(t) && q !in Nodes(t) && d !in Nodes(t)
    requires (root == l && r !in Nodes(t)) || (root == r && l !in Nodes(t))
    requires Linked(Unhooked(k, e, m), root, p, t)
    requires var kd, k3 := Unhooked(k, e, m), Hang(Lifted(k, p, q), p, q);
      k3.dad[root] == q && k3.lson[root] == kd.lson[root] && k3.rson[root] == kd.rson[root]
    ensures Linked(Hang(Lifted(k, p, q), p, q), root, q, t)
  {
    var kd, k3 := Unhooked(k, e, m), Hang(Lifted(k, p, q), p, q);
    forall u | u in Nodes(t) && u != root ensures SameAt(kd, k3, u) {
      LiftedRest(k, p, q, d, l, r, e, m, u);
    }
    LinkedMove(kd, k3, root, p, q, t);
  }

  /** The positions around p and q are all different. */
  lemma LiftedApart(k: Links, p: nat, q: nat, d: nat, s: Tree, l: nat, r: nat, e: nat, m: nat)
    requires Shaped(k) && Hangs(k, p, d) && Linked(k, p, d, s) && Well(s) && s.Node? && d !in Nodes(s)
    requires l == k.lson[p] < N && r == k.rson[p] < N && q < N && e == k.dad[q] < N && m == k.lson[q] <= N
    requires s.left.Node? && s.right.Node? && q in Nodes(s.left) && e in Nodes(s.left) && e != q && q != l
    requires m != NIL ==> m in Nodes(s.left) && k.dad[m] == q
    ensures p == s.pos && l in Nodes(s.left) && r in Nodes(s.right)
    ensures p != q && p != l && p != r && p != e && p != m && q != r && l != r && m != q && m != l && m != r
    ensures d != q && d != l && d != r && d != e && d != m && d != p && e != r
  {
    RootOf(k, l, p, s.left);
    RootOf(k, r, p, s.right);
  }

  /** The same when q lies deeper. */
  lemma LiftedFar(k: Links, p: nat, q: nat, d: nat, s: Tree)
    requires Shaped(k) && Hangs(k, p, d) && Linked(k, p, d, s) && Well(s) && d !in Nodes(s)
    requires k.rson[p] != NIL && k.lson[p] != NIL
    requires s.left.Node? && q == Last(s.left) && s.left.right.Node?
    requires q < N && k.rson[p] < N && k.lson[p] < N
    requires q != k.lson[p] ==> k.dad[q] < N && k.dad[q] != p && k.lson[q] <= N
    requires Hangs(Lifted(k, p, q), p, d)
    ensures Linked(Hang(Lifted(k, p, q), p, q), q, d, Splice(s.left, s.right))
  {
    LastOfLeft(k, p, q, d, s);
    var l, r, e, m := k.lson[p], k.rson[p], k.dad[q], k.lson[q];
    DadOf(k, l, p, s.left, q);
    DropLastNodes(s.left);
    LiftedApart(k, p, q, d, s, l, r, e, m);
    LiftedCells(k, p, q, d, l, r, e, m);
    LiftedTree(k, p, q, d, l, r, e, m, l, DropLast(s.left));
    UnhookedSame(k, e, m, r, p, s.right);
    LiftedTree(k, p, q, d, l, r, e, m, r, s.right);
  }

  lemma DeleteDeep(k: Links, f: Forest, c: nat, p: nat, q: nat)
    requires ForestLinked(k, f) && c < 256 && p in Nodes(f[c]) && p < N
    requires k.rson[p] != NIL && k.lson[p] != NIL
    requires Sub(f[c], p).left.Node? && q == Last(Sub(f[c], p).left)
    ensures q < N && k.rson[p] < N && k.lson[p] < N
    ensures q != k.lson[p] ==> k.dad[q] < N && k.dad[q] != p && k.lson[q] <= N
    ensures Hangs(Lifted(k, p, q), p, k.dad[p])
    ensures ForestLinked(Hang(Lifted(k, p, q), p, q), RemoveAll(f, p))
  {
    AtNode(k, f, c, p);
    var s := Sub(f[c], p);
    LiftedFrame(k, p, q, k.dad[p], s);
    if s.left.right.Leaf? {
      LiftedNear(k, p, q, k.dad[p], s);
    } else {
      LiftedFar(k, p, q, k.dad[p], s);
    }
    SpliceNodes(s.left, s.right);
    var k3 := Hang(Lifted(k, p, q), p, q);
    forall u: nat | u < N && k3.dad[u] != NIL && u !in Nodes(Splice(s.left, s.right))
      ensures k.dad[u] != NIL && u !in Nodes(s)
    {
      assert u != p;
      assert SameAt(k, k3, u) || u == k.dad[p];
    }
    GraftForest(k, k3, f, c, p, q, Splice(s.left, s.right));
    RemoveAllAt(f, c, p);
  }

  // ----- the spine in the arrays

  /** Going right from entry i of the spine leads to the next entry, or to NIL at the end. */
  predicate SpineStep(k: Links, sp: seq<nat>, i: nat)
    requires Shaped(k)
  {
    i < |sp| ==> sp[i] < N && k.rson[sp[i]] == if i + 1 < |sp| then sp[i + 1] else NIL
  }

  lemma {:induction false} SpineLinked(k: Links, root: nat, parent: nat, t: Tree)
    requires Shaped(k) && Linked(k, root, parent, t)
    ensures Spine(t) == [] <==> root == NIL
    ensures Spine(t) != [] ==> Spine(t)[0] == root
    ensures forall i: nat :: SpineStep(k, Spine(t), i)
    decreases t
  {
    if t.Node? {
      SpineLinked(k, k.rson[root], root, t.right);
      forall i: nat ensures SpineStep(k, Spine(t), i)
      {
        var sp := Spine(t.right);
        assert Spine(t) == [root] + sp;
        if i > 0 {
          assert SpineStep(k, sp, i - 1);
        }
      }
    }
  }

  lemma {:induction false} LastOnSpine(t: Tree)
    requires t.Node?
    ensures Last(t) == Spine(t)[|Spine(t)| - 1]
  {
    if t.right.Node? {
      LastOnSpine(t.right);
    }
  }

  // ----- the relinking steps of InsertNode

  /** r becomes the right child of e. */
  function Attach(k: Links, e: nat, r: nat): (k2: Links)
    requires Shaped(k) && r < N && e < N + 257
    ensures Shaped(k2)
  {
    k.(lson := k.lson[r := NIL], rson := k.rson[r := NIL][e := r], dad := k.dad[r := e])
  }

  lemma {:induction false} AttachTree(k: Links, e: nat, r: nat, root: nat, parent: nat, t: Tree)
    requires Shaped(k) && Linked(k, root, parent, t) && Well(t) && r < N && r !in Nodes(t)
    requires parent !in Nodes(t) && parent != r && parent < N + 257
    requires e == if t.Leaf? then parent else Last(t)
    ensures e < N + 257 && e != r && (t.Node? ==> e in Nodes(t))
    ensures Linked(Attach(k, e, r), if t.Leaf? then r else root, parent, Append(t, r))
    decreases t
  {
    if t.Node? {
      RootOf(k, k.lson[root], root, t.left);
      RootOf(k, k.rson[root], root, t.right);
      AttachTree(k, e, r, k.rson[root], root, t.right);
      NodesBelow(k, root, parent, t);
      LinkedSame(k, Attach(k, e, r), k.lson[root], root, t.left);
    }
  }

  lemma AttachSame(k: Links, e: nat, r: nat, u: nat)
    requires Shaped(k) && r < N && e < N + 257 && u != r && u != e
    ensures SameAt(k, Attach(k, e, r), u)
  {
  }

  lemma AttachOther(k: Links, f: Forest, c: nat, e: nat, r: nat, d: nat)
    requires ForestLinked(k, f) && c < 256 && r < N && !In(f, r)
    requires e < N ==> e in Nodes(f[c])
    requires e >= N ==> e == ROOTS + c
    requires d < 256 && d != c
    ensures Linked(Attach(k, e, r), Attach(k, e, r).rson[ROOTS + d], ROOTS + d, f[d])
    ensures Nodes(f[d]) !! Nodes(f[c]) + {r}
  {
    assert Nodes(f[d]) !! Nodes(f[c]) && r !in Nodes(f[d]);
    NodesBelow(k, k.rson[ROOTS + d], ROOTS + d, f[d]);
    forall u | u in Nodes(f[d]) ensures SameAt(k, Attach(k, e, r), u) {
      AttachSame(k, e, r, u);
    }
    LinkedSame(k, Attach(k, e, r), k.rson[ROOTS + d], ROOTS + d, f[d]);
  }

  lemma AttachForest(k: Links, f: Forest, c: nat, e: nat, r: nat)
    requires ForestLinked(k, f) && c < 256 && r < N && !In(f, r)
    requires e == if f[c].Leaf? then ROOTS + c else Last(f[c])
    ensures e < N + 257 && ForestLinked(Attach(k, e, r), f[c := Append(f[c], r)])
  {
    assert r !in Nodes(f[c]);
    var root := k.rson[ROOTS + c];
    RootOf(k, root, ROOTS + c, f[c]);
    NodesBelow(k, root, ROOTS + c, f[c]);
    AttachTree(k, e, r, root, ROOTS + c, f[c]);
    AppendExactly(f[c], r);
    var k2 := Attach(k, e, r);
    var t := Append(f[c], r);
    forall d | 0 <= d < 256 && d != c
      ensures Linked(k2, k2.rson[ROOTS + d], ROOTS + d, f[d]) && Nodes(f[d]) !! Nodes(t)
    {
      AttachOther(k, f, c, e, r, d);
    }
    forall u: nat | u < N && k2.dad[u] != NIL ensures In(f[c := t], u) {
      AttachUsed(k, f, c, e, r, t, u);
    }
    Reassemble(k, k2, f, c, t);
  }

  lemma AttachUsed(k: Links, f: Forest, c: nat, e: nat, r: nat, t: Tree, u: nat)
    requires ForestLinked(k, f) && c < 256 && r < N && e < N + 257
    requires Nodes(t) == Nodes(f[c]) + {r}
    requires u < N && Attach(k, e, r).dad[u] != NIL
    ensures In(f[c := t], u)
  {
    if u == r {
      InUpdated(f, c, t, c, u);
    } else {
      assert In(f, u);
      var d :| 0 <= d < |f| && u in Nodes(f[d]);
      InUpdated(f, c, t, d, u);
    }
  }

  /** r takes over the links of p. */
  function TakeOver(k: Links, p: nat, r: nat): (k2: Links)
    requires Shaped(k) && p < N && r < N && p != r && k.lson[p] <= N && k.rson[p] <= N
    requires k.dad[p] < N + 257 && (k.rson[k.dad[p]] == p || k.dad[p] < N)
    ensures Shaped(k2)
  {
    var d := k.dad[p];
    var k1 := k.(lson := k.lson[r := k.lson[p]], rson := k.rson[r := k.rson[p]],
                 dad := k.dad[r := d][k.lson[p] := r][k.rson[p] := r]);
    var k2 := if k1.rson[d] == p then k1.(rson := k1.rson[d := r]) else k1.(lson := k1.lson[d := r]);
    k2.(dad := k2.dad[p := NIL])
  }

  lemma TakeOverMoves(k: Links, p: nat, r: nat, d: nat, ns: set<nat>)
    requires Shaped(k) && Hangs(k, p, d) && d !in ns && {p, r} <= ns && p != r && r < N
    requires k.lson[p] <= N && k.rson[p] <= N
    requires (k.lson[p] != NIL ==> k.lson[p] in ns) && (k.rson[p] != NIL ==> k.rson[p] in ns)
    ensures Moved(k, TakeOver(k, p, r), ns, d, p, r)
  {
  }

  lemma TakeOverFrame(k: Links, p: nat, r: nat, d: nat, s: Tree)
    requires Shaped(k) && Hangs(k, p, d) && Linked(k, p, d, s) && Well(s) && d !in Nodes(s)
    requires r < N && r !in Nodes(s) && r != d
    ensures p != r && k.lson[p] <= N && k.rson[p] <= N
    ensures Moved(k, TakeOver(k, p, r), Nodes(s) + {r}, d, p, r)
  {
    RootOf(k, k.lson[p], p, s.left);
    RootOf(k, k.rson[p], p, s.right);
    TakeOverMoves(k, p, r, d, Nodes(s) + {r});
  }

  lemma TakeOverLinked(k: Links, p: nat, r: nat, d: nat, s: Tree)
    requires Shaped(k) && Hangs(k, p, d) && Linked(k, p, d, s) && Well(s) && d !in Nodes(s)
    requires r < N && r !in Nodes(s) && r != d
    ensures p != r && k.lson[p] <= N && k.rson[p] <= N
    ensures Linked(TakeOver(k, p, r), r, d, Node(s.left, r, s.right))
  {
    RootOf(k, k.lson[p], p, s.left);
    RootOf(k, k.rson[p], p, s.right);
    var k2 := TakeOver(k, p, r);
    LinkedMove(k, k2, k.lson[p], p, r, s.left);
    LinkedMove(k, k2, k.rson[p], p, r, s.right);
  }

  lemma TakeOverForest(k: Links, f: Forest, c: nat, p: nat, r: nat)
    requires ForestLinked(k, f) && c < 256 && p in Nodes(f[c]) && p < N && r < N && !In(f, r)
    ensures p != r && k.lson[p] <= N && k.rson[p] <= N && k.lson[p] != p && k.rson[p] != p
    ensures Hangs(k, p, k.dad[p])
    ensures ForestLinked(TakeOver(k, p, r), f[c := Replace(f[c], p, r)])
  {
    AtNode(k, f, c, p);
    var s, d := Sub(f[c], p), k.dad[p];
    assert r !in Nodes(f[c]);
    RootOf(k, k.rson[ROOTS + c], ROOTS + c, f[c]);
    DadOf(k, k.rson[ROOTS + c], ROOTS + c, f[c], p);
    RootOf(k, k.lson[p], p, s.left);
    RootOf(k, k.rson[p], p, s.right);
    TakeOverFrame(k, p, r, d, s);
    TakeOverLinked(k, p, r, d, s);
    var k2, new_ := TakeOver(k, p, r), Node(s.left, r, s.right);
    forall u: nat | u < N && k2.dad[u] != NIL && u !in Nodes(new_)
      ensures k.dad[u] != NIL && u !in Nodes(s)
    {
      assert u != p;
      assert SameAt(k, k2, u) || u == d;
    }
    GraftForest(k, k2, f, c, p, r, new_);
  }

  /** A position outside the forest is nobody's dad. */
  lemma DadNot(k: Links, f: Forest, c: nat, p: nat, r: nat)
    requires ForestLinked(k, f) && c < 256 && p in Nodes(f[c]) && p < N && r < N && !In(f, r)
    ensures k.dad[p] != r
  {
    RootOf(k, k.rson[ROOTS + c], ROOTS + c, f[c]);
    DadOf(k, k.rson[ROOTS + c], ROOTS + c, f[c], p);
    assert r !in Nodes(f[c]);
  }
}
