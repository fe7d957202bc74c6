/** The search for the longest match, as functions of the buffer and the trees. */
module Matching {
  import opened Config
  import opened Trees
  import opened LinkArrays

  datatype Match = Match(pos: nat, len: nat)

  type Text = t: seq<byte> | |t| == N + F - 1 witness seq(N + F - 1, _ => 0)

  /** The F bytes read linearly from cell p on: what the source compares. */
  function Key(text: Text, p: nat): (key: seq<byte>)
    requires p < N
    ensures |key| == F
  {
    text[p..p + F]
  }

  /** The keys of p and r have the same byte at index i. */
  predicate Agree(text: Text, p: nat, r: nat, i: nat)
    requires p < N && r < N && i < F
  {
    text[r + i] == text[p + i]
  }

  /** The first i, from the given one on, where the keys of p and r differ; F when they do not. */
  function Common(text: Text, p: nat, r: nat, i: nat): (j: nat)
    requires p < N && r < N && i <= F
    decreases F - i
  {
    if i == F || !Agree(text, p, r, i) then i else Common(text, p, r, i + 1)
  }

  predicate Below(s: seq<nat>) { forall i :: 0 <= i < |s| ==> s[i] < N }

  /** The walk along a spine: a strictly longer match replaces the best one, a full one ends the walk. */
  function Scan(text: Text, spine: seq<nat>, r: nat, best: Match): Match
    requires Below(spine) && r < N
  {
    if spine == [] || best.len >= F then best
    else
      var i := Common(text, spine[0], r, 1);
      Scan(text, spine[1..], r, if i > best.len then Match(spine[0], i) else best)
  }

  /** One step of the walk. */
  lemma ScanNext(text: Text, spine: seq<nat>, i: nat, r: nat, best: Match, next: Match)
    requires Below(spine) && r < N && i < |spine| && best.len < F
    requires var j := Common(text, spine[i], r, 1); next == if j > best.len then Match(spine[i], j) else best
    ensures Scan(text, spine[i..], r, best) == Scan(text, spine[i + 1..], r, next)
    ensures next.len >= F ==> Scan(text, spine[i..], r, best) == next
  {
    assert spine[i..][1..] == spine[i + 1..];
  }

  predicate Usable(f: Forest) {
    |f| == 256 && forall c :: 0 <= c < 256 ==> Below(Spine(f[c]))
  }

  /** match_position and match_length after InsertNode(r). */
  function Lookup(text: Text, f: Forest, r: nat, oldPos: nat): Match
    requires Usable(f) && r < N
  {
    Scan(text, Spine(f[text[r]]), r, Match(oldPos, 0))
  }

  /** The trees after InsertNode(r). */
  function Inserted(text: Text, f: Forest, r: nat, m: Match): (g: Forest)
    requires Usable(f) && r < N
    ensures |g| == 256
  {
    var c := text[r];
    f[c := if m.len >= F then Replace(f[c], m.pos, r) else Append(f[c], r)]
  }

  lemma {:induction false} CommonRange(text: Text, p: nat, r: nat, i: nat)
    requires p < N && r < N && i <= F
    ensures i <= Common(text, p, r, i) <= F
    ensures forall j :: i <= j < Common(text, p, r, i) ==> Agree(text, p, r, j)
    ensures Common(text, p, r, i) < F ==> !Agree(text, p, r, Common(text, p, r, i))
    decreases F - i
  {
    if i < F && Agree(text, p, r, i) {
      CommonRange(text, p, r, i + 1);
    }
  }

  /** With equal first bytes, starting at 1 and starting at 0 is the same. */
  lemma CommonFromStart(text: Text, p: nat, r: nat)
    requires p < N && r < N && text[p] == text[r]
    ensures Common(text, p, r, 0) == Common(text, p, r, 1) >= 1
  {
    CommonRange(text, p, r, 1);
  }

  /** The outcome of a walk is the longest common prefix on the spine, at its first place. */
  lemma {:induction false} ScanLongest(text: Text, spine: seq<nat>, r: nat, best: Match)
    requires Below(spine) && r < N && best.len <= F
    ensures var m := Scan(text, spine, r, best);
      && best.len <= m.len <= F
      && (forall i :: 0 <= i < |spine| ==> Common(text, spine[i], r, 1) <= m.len)
      && (m.len > best.len ==> m.pos in spine && Common(text, m.pos, r, 1) == m.len)
      && (m.len == best.len ==> m == best)
  {
    if spine != [] && best.len < F {
      var i := Common(text, spine[0], r, 1);
      CommonRange(text, spine[0], r, 1);
      var next := if i > best.len then Match(spine[0], i) else best;
      ScanLongest(text, spine[1..], r, next);
    } else {
      forall i | 0 <= i < |spine| ensures Common(text, spine[i], r, 1) <= F {
        CommonRange(text, spine[i], r, 1);
      }
    }
  }

  /** A match that is reported for the first time is the first of its length on the spine. */
  lemma {:induction false} ScanFirst(text: Text, spine: seq<nat>, r: nat, best: Match) returns (k: nat)
    requires Below(spine) && r < N && Scan(text, spine, r, best).len > best.len
    ensures var m := Scan(text, spine, r, best);
      && k < |spine| && m == Match(spine[k], Common(text, spine[k], r, 1))
      && forall i :: 0 <= i < k ==> Common(text, spine[i], r, 1) < m.len
  {
    var i := Common(text, spine[0], r, 1);
    var next := if i > best.len then Match(spine[0], i) else best;
    if Scan(text, spine[1..], r, next).len > next.len {
      k := ScanFirst(text, spine[1..], r, next);
      k := k + 1;
    } else {
      ScanKeeps(text, spine[1..], r, next);
      k := 0;
    }
  }

  lemma {:induction false} ScanKeeps(text: Text, spine: seq<nat>, r: nat, best: Match)
    requires Below(spine) && r < N
    ensures Scan(text, spine, r, best).len >= best.len
    ensures Scan(text, spine, r, best).len == best.len ==> Scan(text, spine, r, best) == best
  {
    if spine != [] && best.len < F {
      var i := Common(text, spine[0], r, 1);
      ScanKeeps(text, spine[1..], r, if i > best.len then Match(spine[0], i) else best);
    }
  }
}
