/** Pieces of byte sequences. */
module Slices {
  import opened Config

  /** Two adjoining pieces of the data. */
  lemma Pieces(data: seq<byte>, at: nat, a: seq<byte>, b: seq<byte>)
    requires at + |a| + |b| <= |data| && data[at..at + |a| + |b|] == a + b
    ensures data[at..at + |a|] == a && data[at + |a|..at + |a| + |b|] == b
  {
    forall i | 0 <= i < |a| ensures data[at + i] == a[i] {
      assert data[at..at + |a| + |b|][i] == (a + b)[i];
    }
    forall i | 0 <= i < |b| ensures data[at + |a| + i] == b[i] {
      assert data[at..at + |a| + |b|][|a| + i] == (a + b)[|a| + i];
    }
  }
}
