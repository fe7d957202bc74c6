/**
 The search trees as values: what the arrays lson, rson and dad stand for.
 Nothing here assumes a search order, because the encoder keeps none.
 */
module Trees {
  datatype Tree = Leaf | Node(left: Tree, pos: nat, right: Tree)

  function Nodes(t: Tree): set<nat> {
    match t
    case Leaf => {}
    case Node(l, p, r) => Nodes(l) + {p} + Nodes(r)
  }

  /** No position occurs twice. */
  predicate Well(t: Tree) {
    match t
    case Leaf => true
    case Node(l, p, r) =>
      Well(l) && Well(r) && p !in Nodes(l) && p !in Nodes(r) && Nodes(l) !! Nodes(r)
  }

  function InOrder(t: Tree): seq<nat> {
    match t
    case Leaf => []
    case Node(l, p, r) => InOrder(l) + [p] + InOrder(r)
  }

  /** The positions met by going right from the root. */
  function Spine(t: Tree): seq<nat> {
    match t
    case Leaf => []
    case Node(_, p, r) => [p] + Spine(r)
  }

  /** No node has a left child, so the spine is the whole tree. */
  predicate Chain(t: Tree) {
    match t
    case Leaf => true
    case Node(l, _, r) => l.Leaf? && Chain(r)
  }

  /** The subtree rooted at p. */
  function Sub(t: Tree, p: nat): (s: Tree)
    requires p in Nodes(t)
    ensures s.Node? && s.pos == p && Nodes(s) <= Nodes(t)
  {
    if t.pos == p then t else if p in Nodes(t.left) then Sub(t.left, p) else Sub(t.right, p)
  }

  /** t with the subtree rooted at p replaced. */
  function Put(t: Tree, p: nat, new_: Tree): Tree {
    match t
    case Leaf => Leaf
    case Node(l, q, r) => if q == p then new_ else Node(Put(l, p, new_), q, Put(r, p, new_))
  }

  /** The last position in order, and the tree without it. */
  function Last(t: Tree): nat
    requires t.Node?
  {
    if t.right.Leaf? then t.pos else Last(t.right)
  }

  function DropLast(t: Tree): Tree
    requires t.Node?
  {
    if t.right.Leaf? then t.left else Node(t.left, t.pos, DropLast(t.right))
  }

  /** One tree out of the two children of a deleted node. */
  function Splice(l: Tree, r: Tree): Tree {
    if r.Leaf? then l
    else if l.Leaf? then r
    else Node(DropLast(l), Last(l), r)
  }

  function Remove(t: Tree, p: nat): Tree {
    if p in Nodes(t) then Put(t, p, Splice(Sub(t, p).left, Sub(t, p).right)) else t
  }

  /** q takes over the place of p. */
  function Replace(t: Tree, p: nat, q: nat): Tree {
    if p in Nodes(t) then Put(t, p, Node(Sub(t, p).left, q, Sub(t, p).right)) else t
  }

  /** q becomes the right child of the last node of the spine. */
  function Append(t: Tree, q: nat): Tree {
    match t
    case Leaf => Node(Leaf, q, Leaf)
    case Node(l, p, r) => Node(l, p, Append(r, q))
  }

  lemma {:induction false} PutAbsent(t: Tree, p: nat, new_: Tree)
    requires p !in Nodes(t)
    ensures Put(t, p, new_) == t
  {
    if t.Node? {
      PutAbsent(t.left, p, new_);
      PutAbsent(t.right, p, new_);
    }
  }

  lemma {:induction false} SubWell(t: Tree, p: nat)
    requires Well(t) && p in Nodes(t)
    ensures Well(Sub(t, p))
  {
    if t.pos != p {
      SubWell(if p in Nodes(t.left) then t.left else t.right, p);
    }
  }

  lemma {:induction false} PutSet(t: Tree, p: nat, new_: Tree)
    requires Well(t) && p in Nodes(t)
    ensures Nodes(Put(t, p, new_)) == Nodes(t) - Nodes(Sub(t, p)) + Nodes(new_)
    ensures Nodes(Sub(t, p)) <= Nodes(t)
  {
    if t.pos == p {
    } else if p in Nodes(t.left) {
      PutAbsent(t.right, p, new_);
      PutSet(t.left, p, new_);
    } else {
      PutAbsent(t.left, p, new_);
      PutSet(t.right, p, new_);
    }
  }

  lemma {:induction false} PutNodes(t: Tree, p: nat, new_: Tree)
    requires Well(t) && p in Nodes(t)
    ensures Nodes(Put(t, p, new_)) == Nodes(t) - Nodes(Sub(t, p)) + Nodes(new_)
    ensures Well(new_) && Nodes(new_) !! Nodes(t) - Nodes(Sub(t, p)) ==> Well(Put(t, p, new_))
  {
    PutSet(t, p, new_);
    if t.pos == p {
    } else if p in Nodes(t.left) {
      PutAbsent(t.right, p, new_);
      PutSet(t.left, p, new_);
      PutNodes(t.left, p, new_);
    } else {
      PutAbsent(t.left, p, new_);
      PutSet(t.right, p, new_);
      PutNodes(t.right, p, new_);
    }
  }

  lemma GlueRight(b: seq<nat>, s: seq<nat>, a: seq<nat>, m: nat, r: seq<nat>)
    ensures (b + s + a) + [m] + r == b + s + (a + [m] + r)
  {
  }

  lemma GlueLeft(l: seq<nat>, m: nat, b: seq<nat>, s: seq<nat>, a: seq<nat>)
    ensures l + [m] + (b + s + a) == (l + [m] + b) + s + a
  {
  }

  lemma GlueMiddle(b: seq<nat>, l: seq<nat>, m: seq<nat>, r: seq<nat>, a: seq<nat>)
    ensures b + (l + m + r) + a == (b + l) + m + (r + a)
    ensures b + (l + r) + a == (b + l) + (r + a)
  {
  }

  /** Put changes one stretch of the in-order sequence and nothing around it. */
  lemma {:induction false} PutInOrder(t: Tree, p: nat, new_: Tree) returns (before: seq<nat>, after: seq<nat>)
    requires Well(t) && p in Nodes(t)
    ensures InOrder(t) == before + InOrder(Sub(t, p)) + after
    ensures InOrder(Put(t, p, new_)) == before + InOrder(new_) + after
  {
    if t.pos == p {
      before, after := [], [];
    } else if p in Nodes(t.left) {
      PutAbsent(t.right, p, new_);
      before, after := PutInOrder(t.left, p, new_);
      GlueRight(before, InOrder(Sub(t, p)), after, t.pos, InOrder(t.right));
      GlueRight(before, InOrder(new_), after, t.pos, InOrder(t.right));
      after := after + [t.pos] + InOrder(t.right);
    } else {
      PutAbsent(t.left, p, new_);
      before, after := PutInOrder(t.right, p, new_);
      GlueLeft(InOrder(t.left), t.pos, before, InOrder(Sub(t, p)), after);
      GlueLeft(InOrder(t.left), t.pos, before, InOrder(new_), after);
      before := InOrder(t.left) + [t.pos] + before;
    }
  }

  lemma {:induction false} DropLastNodes(t: Tree)
    requires t.Node? && Well(t)
    ensures Last(t) in Nodes(t) && Nodes(DropLast(t)) == Nodes(t) - {Last(t)}
    ensures Well(DropLast(t))
    ensures InOrder(t) == InOrder(DropLast(t)) + [Last(t)]
  {
    if t.right.Node? {
      DropLastNodes(t.right);
    }
  }

  lemma SpliceNodes(l: Tree, r: Tree)
    requires Well(l) && Well(r) && Nodes(l) !! Nodes(r)
    ensures Nodes(Splice(l, r)) == Nodes(l) + Nodes(r) && Well(Splice(l, r))
    ensures InOrder(Splice(l, r)) == InOrder(l) + InOrder(r)
  {
    if l.Node? {
      DropLastNodes(l);
    }
  }

  /** Removing p removes exactly p: the set of nodes, and the in-order sequence of all others. */
  lemma RemoveExactly(t: Tree, p: nat) returns (before: seq<nat>, after: seq<nat>)
    requires Well(t) && p in Nodes(t)
    ensures Well(Remove(t, p)) && Nodes(Remove(t, p)) == Nodes(t) - {p}
    ensures InOrder(t) == before + [p] + after
    ensures InOrder(Remove(t, p)) == before + after
  {
    var s := Sub(t, p);
    SubWell(t, p);
    SpliceNodes(s.left, s.right);
    PutNodes(t, p, Splice(s.left, s.right));
    before, after := PutInOrder(t, p, Splice(s.left, s.right));
    GlueMiddle(before, InOrder(s.left), [p], InOrder(s.right), after);
    before, after := before + InOrder(s.left), InOrder(s.right) + after;
  }

  lemma {:induction false} LastInOrder(t: Tree)
    requires t.Node?
    ensures InOrder(t) == InOrder(DropLast(t)) + [Last(t)]
  {
    if t.right.Node? {
      LastInOrder(t.right);
    }
  }

  /**
   What takes the place of a removed node: its only child if it has at most one; otherwise the
   last node in order of its left child, with its right child, and with what is left of the
   left child on the left.
   */
  lemma RemovedPlace(t: Tree, p: nat) returns (heir: Tree)
    requires p in Nodes(t)
    ensures Remove(t, p) == Put(t, p, heir)
    ensures var (l, r) := (Sub(t, p).left, Sub(t, p).right);
      if r.Leaf? then heir == l
      else if l.Leaf? then heir == r
      else
        && heir.Node? && heir.right == r && InOrder(l) == InOrder(heir.left) + [heir.pos]
        && (l.right.Leaf? ==> heir.left == l.left)
        && (l.right.Node? ==> heir.left.Node? && heir.left.pos == l.pos && heir.left.left == l.left)
  {
    var s := Sub(t, p);
    heir := Splice(s.left, s.right);
    if s.left.Node? {
      LastInOrder(s.left);
    }
  }

  /** Replacing p by a fresh q changes one entry of the in-order sequence. */
  lemma ReplaceExactly(t: Tree, p: nat, q: nat) returns (before: seq<nat>, after: seq<nat>)
    requires Well(t) && p in Nodes(t) && q !in Nodes(t)
    ensures Well(Replace(t, p, q)) && Nodes(Replace(t, p, q)) == Nodes(t) - {p} + {q}
    ensures InOrder(t) == before + [p] + after
    ensures InOrder(Replace(t, p, q)) == before + [q] + after
  {
    var s := Sub(t, p);
    SubWell(t, p);
    var new_ := Node(s.left, q, s.right);
    PutNodes(t, p, new_);
    before, after := PutInOrder(t, p, new_);
    GlueMiddle(before, InOrder(s.left), [p], InOrder(s.right), after);
    GlueMiddle(before, InOrder(s.left), [q], InOrder(s.right), after);
    before, after := before + InOrder(s.left), InOrder(s.right) + after;
  }

  lemma {:induction false} AppendExactly(t: Tree, q: nat)
    requires Well(t) && q !in Nodes(t)
    ensures Well(Append(t, q)) && Nodes(Append(t, q)) == Nodes(t) + {q}
    ensures InOrder(Append(t, q)) == InOrder(t) + [q]
    ensures Spine(Append(t, q)) == Spine(t) + [q]
  {
    if t.Node? {
      AppendExactly(t.right, q);
    }
  }

  // ----- chains

  lemma {:induction false} ChainSpine(t: Tree)
    requires Chain(t)
    ensures InOrder(t) == Spine(t)
    ensures forall p :: p in Nodes(t) <==> p in Spine(t)
  {
    if t.Node? {
      ChainSpine(t.right);
    }
  }

  lemma {:induction false} ChainAppend(t: Tree, q: nat)
    requires Chain(t)
    ensures Chain(Append(t, q))
  {
    if t.Node? {
      ChainAppend(t.right, q);
    }
  }

  lemma {:induction false} ChainRemove(t: Tree, p: nat)
    requires Chain(t)
    ensures Chain(Remove(t, p))
  {
    if p in Nodes(t) {
      if t.pos == p {
        assert Remove(t, p) == t.right;
      } else {
        ChainRemove(t.right, p);
        assert Nodes(t.left) == {};
        assert Sub(t, p) == Sub(t.right, p);
        PutAbsent(t.left, p, Splice(Sub(t, p).left, Sub(t, p).right));
        assert Remove(t, p) == Node(Leaf, t.pos, Remove(t.right, p));
      }
    }
  }

  lemma {:induction false} ChainReplace(t: Tree, p: nat, q: nat)
    requires Chain(t)
    ensures Chain(Replace(t, p, q))
  {
    if p in Nodes(t) {
      if t.pos == p {
        assert Replace(t, p, q) == Node(Leaf, q, t.right);
      } else {
        ChainReplace(t.right, p, q);
        assert Nodes(t.left) == {};
        assert Sub(t, p) == Sub(t.right, p);
        PutAbsent(t.left, p, Node(Sub(t, p).left, q, Sub(t, p).right));
        assert Replace(t, p, q) == Node(Leaf, t.pos, Replace(t.right, p, q));
      }
    }
  }

  lemma {:induction false} SpineInNodes(t: Tree)
    ensures forall p :: p in Spine(t) ==> p in Nodes(t)
  {
    if t.Node? {
      SpineInNodes(t.right);
    }
  }
}
