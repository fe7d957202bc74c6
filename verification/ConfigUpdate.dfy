/** The method updateConfigIntoFlash, on top of Decode. */
module ConfigUpdate {
  import opened Config
  import opened ConfigRecords
  import opened Matching
  import opened Tokens
  import opened History
  import opened Decoding

  /** The code behind a record's header as a buffer of its own; the source passes a pointer to it. */
  method CodeAt(d: seq<byte>, from: nat, n: nat) returns (code: array<byte>)
    requires from + n <= |d|
    ensures fresh(code) && code.Length == n && code[..] == d[from..from + n]
  {
    code := new byte[n];
    for i := 0 to n
      invariant forall j :: 0 <= j < i ==> code[j] == d[from + j]
    {
      code[i] := d[from + i];
    }
  }

  /** The code is expanded into a new buffer of compLen * compRate bytes. */
  method Expand(code: array<byte>, rate: nat, mem: Memory) returns (expFile: array<byte>)
    requires Fits(code[..], rate)
    ensures expFile[..] == Block(code[..], rate, mem)
  {
    expFile := new byte[code.Length * rate](i requires 0 <= i => mem.heap(i));
    ghost var before := expFile[..];
    assert code[..code.Length] == code[..];
    var expandLen := Decode(code, code.Length, expFile, mem.ring);
    BlockIs(code[..], rate, mem, before, expFile[..], expandLen);
  }

  lemma BlockIs(code: seq<byte>, rate: nat, mem: Memory, before: seq<byte>, after: seq<byte>, n: nat)
    requires Fits(code, rate) && |before| == |after| == |code| * rate && n == CoversAll(Parse(code, [])) <= |after|
    requires forall i :: 0 <= i < |before| ==> before[i] == mem.heap(i)
    requires after[..n] == Decoded(code, mem.ring) && after[n..] == before[n..]
    ensures after == Block(code, rate, mem)
  {
    DecodedLength(code, mem.ring);
    HeapKept(before, after, n, mem.heap);
    FilledIs(after[..n], |after|, mem.heap, after);
  }

  lemma HeapKept(before: seq<byte>, after: seq<byte>, n: nat, heap: nat -> byte)
    requires n <= |before| == |after| && after[n..] == before[n..]
    requires forall i :: 0 <= i < |before| ==> before[i] == heap(i)
    ensures forall i :: n <= i < |after| ==> after[i] == heap(i)
  {
    forall i | n <= i < |after| ensures after[i] == heap(i) {
      assert after[n..][i - n] == before[n..][i - n];
    }
  }

  /** The three tests for a section: the mode, or -1. */
  method TestSection(l: Layout, tag: seq<byte>, s: Section) returns (force: int)
    ensures force == -1 || IsMode(l, tag, s, force)
    ensures force == -1 <==> !Matches(l, tag, s)
  {
    force := -1;
    if tag == l.updateTag(s) {
      force := 1;
    } else if tag == l.forceTag(s) {
      force := 2;
    } else if tag == l.upgradeTag(s) {
      force := 0;
    }
  }

  /** The nine tests, section by section: the first section one of whose tags matches, and the first of its modes. */
  method FindTag(l: Layout, tag: seq<byte>) returns (force: int, section: Section)
    ensures force == -1 || (IsSection(l, tag, section) && IsMode(l, tag, section, force))
    ensures force == -1 ==>
      !Matches(l, tag, CurrentSetting) && !Matches(l, tag, DefaultSetting) && !Matches(l, tag, HwSetting)
  {
    section := CurrentSetting;
    force := TestSection(l, tag, section);
    if force >= 0 {
      return;
    }
    section := DefaultSetting;
    force := TestSection(l, tag, section);
    if force >= 0 {
      return;
    }
    section := HwSetting;
    force := TestSection(l, tag, section);
  }

  /** The conditions on section and mode leave no choice. */
  lemma TagUnique(l: Layout, tag: seq<byte>, s: Section, force: int)
    requires IsSection(l, tag, s) && IsMode(l, tag, s, force)
    ensures TagOf(l, tag) == Tagged(s, force)
  {
    var t := TagOf(l, tag);
    assert t.Tagged? && IsSection(l, tag, t.section) && IsMode(l, tag, t.section, t.force);
  }

  /** The tests on an expanded block. */
  method Judge(l: Layout, block: seq<byte>, bytes: seq<byte>) returns (look: Look)
    requires l.Valid() && !Judged(l, block, bytes).Broken?
    ensures look == Judged(l, block, bytes)
  {
    var header := block[..l.paramHeaderSize];
    var ver := l.version(header);
    var force, section := FindTag(l, block[..l.tagLen]);
    if force < 0 {
      return Foreign;
    }
    TagUnique(l, block[..l.tagLen], section, force);
    if !l.checksumOk(block[l.paramHeaderSize..l.paramHeaderSize + l.dataLen(header)]) {
      return Corrupt;
    }
    look := Fine(Update(section, bytes, force, ver));
  }

  /** The buffer with the block of a record, and the offset behind the record. */
  method BlockAt(l: Layout, d: seq<byte>, at: nat, mem: Memory) returns (block: seq<byte>, next: nat)
    requires l.Valid() && Whole(l, d, at)
    ensures next == NextAt(l, d, at)
    ensures block == Block(d[at + l.compHeaderSize..next], l.compRate(d[at..at + l.compHeaderSize]), mem)
  {
    var head := d[at..at + l.compHeaderSize];
    var compLen, compRate := l.compLen(head), l.compRate(head);
    var code := CodeAt(d, at + l.compHeaderSize, compLen);
    var expFile := Expand(code, compRate, mem);
    block, next := expFile[..], at + (compLen + l.compHeaderSize);
  }

  /** One record: it is expanded and judged. */
  method HandleRecord(l: Layout, d: seq<byte>, at: nat, mem: Memory) returns (look: Look)
    requires l.Valid() && !LookAt(l, d, at, mem).Broken?
    ensures look == LookAt(l, d, at, mem)
  {
    var block, next := BlockAt(l, d, at, mem);
    look := Judge(l, block, d[at..next]);
  }

  // ----- the records that a walk meets

  /** A record of the walk: its offset, the updates made before it, and what is found there. */
  datatype Step = Step(at: nat, done: seq<Update>, look: Look)

  /** The walk goes from one record to the next. */
  ghost predicate Goes(a: Step, b: Step, stop: int) {
    && a.look.Fine? && 0 < |a.look.u.bytes| && b.at == a.at + |a.look.u.bytes| < stop
    && b.done == a.done + [a.look.u]
  }

  /** The walk ends at a record. */
  ghost predicate Ends(z: Step, stop: int, goal: Outcome) {
    if z.look.Fine? then
      var next := z.at + |z.look.u.bytes|;
      next >= stop && goal == Outcome(next, Passed, z.done + [z.look.u])
    else goal == Outcome(z.at, if z.look.Corrupt? then Failed else Passed, z.done) && !z.look.Broken?
  }

  /** The records of a walk that passes or fails. */
  ghost predicate Steps(tr: seq<Step>, stop: int, goal: Outcome) {
    tr != [] && (forall k :: 0 <= k < |tr| - 1 ==> Goes(tr[k], tr[k + 1], stop)) && Ends(tr[|tr| - 1], stop, goal)
  }

  lemma StepsCons(a: Step, tr: seq<Step>, stop: int, goal: Outcome)
    requires Steps(tr, stop, goal) && Goes(a, tr[0], stop)
    ensures Steps([a] + tr, stop, goal)
  {
    var tr2 := [a] + tr;
    forall k | 0 <= k < |tr2| - 1 ensures Goes(tr2[k], tr2[k + 1], stop) {
      if k > 0 {
        assert Goes(tr[k - 1], tr[k - 1 + 1], stop);
      }
    }
  }

  lemma {:induction false} StepsOf(look: nat -> Look, end: nat, at: nat, stop: int, done: seq<Update>)
    returns (tr: seq<Step>)
    requires Bounded(look, end)
    requires var o := Run(look, end, at, stop, done); o.status.Passed? || o.status.Failed?
    ensures Steps(tr, stop, Run(look, end, at, stop, done)) && tr[0].at == at && tr[0].done == done
    ensures forall k :: 0 <= k < |tr| ==> tr[k].look == look(tr[k].at)
    decreases end - at
  {
    var a := Step(at, done, look(at));
    tr := [a];
    if a.look.Fine? && at + |a.look.u.bytes| < stop {
      var rest := StepsOf(look, end, at + |a.look.u.bytes|, stop, done + [a.look.u]);
      StepsCons(a, rest, stop, Run(look, end, at, stop, done));
      tr := [a] + rest;
    }
  }

  /** Step k is what the data hold at its offset. */
  ghost predicate SeenAt(l: Layout, d: seq<byte>, mem: nat -> Memory, tr: seq<Step>, k: nat)
    requires l.Valid()
  {
    k < |tr| ==> LookAt(l, d, tr[k].at, mem(tr[k].at)) == tr[k].look
  }

  ghost predicate Seen(l: Layout, d: seq<byte>, mem: nat -> Memory, tr: seq<Step>)
    requires l.Valid()
  {
    forall k: nat :: SeenAt(l, d, mem, tr, k)
  }

  lemma WalkSteps(l: Layout, d: seq<byte>, at: nat, stop: int, mem: nat -> Memory) returns (tr: seq<Step>)
    requires l.Valid()
    requires Walk(l, d, at, stop, mem).status.Passed? || Walk(l, d, at, stop, mem).status.Failed?
    ensures Steps(tr, stop, Walk(l, d, at, stop, mem)) && tr[0].at == at && tr[0].done == []
    ensures Seen(l, d, mem, tr)
  {
    tr := StepsOf(LookIn(l, d, mem), |d|, at, stop, []);
    forall k: nat ensures SeenAt(l, d, mem, tr, k) {
      if k < |tr| {
        LookInAt(l, d, tr[k].at, mem);
      }
    }
  }

  // ----- the loop

  /** Step k of a walk. */
  method HandleStep(l: Layout, d: seq<byte>, mem: nat -> Memory, at: nat, ghost tr: seq<Step>, ghost k: nat)
    returns (look: Look)
    requires l.Valid() && Seen(l, d, mem, tr) && k < |tr| && at == tr[k].at && !tr[k].look.Broken?
    ensures look == tr[k].look
  {
    assert SeenAt(l, d, mem, tr, k);
    look := HandleRecord(l, d, at, mem(at));
  }

  /** The loop, step by step. */
  method AllSteps(l: Layout, d: seq<byte>, base: nat, total: nat, mem: nat -> Memory,
                  ghost tr: seq<Step>, ghost goal: Outcome)
    returns (complen: nat, types: set<Section>, status: bool, updates: seq<Update>)
    requires l.Valid() && Seen(l, d, mem, tr) && Steps(tr, base + total, goal)
    requires tr[0].at == base && tr[0].done == []
    ensures goal == Outcome(base + complen, if status then Passed else Failed, updates) && types == SectionsOf(updates)
  {
    complen, types, status, updates := 0, {}, true, [];
    ghost var k := 0;
    while true
      invariant k < |tr| && base + complen == tr[k].at && updates == tr[k].done && types == SectionsOf(updates)
      decreases |tr| - k
    {
      assert if k < |tr| - 1 then Goes(tr[k], tr[k + 1], base + total) else Ends(tr[k], base + total, goal);
      var look := HandleStep(l, d, mem, base + complen, tr, k);
      if !look.Fine? {
        status := look.Foreign?;
        return;
      }
      SectionsSnoc(updates, look.u);
      updates := updates + [look.u];
      types := types + {look.u.section};
      complen := complen + |look.u.bytes|;
      if complen >= total {
        status := true;
        return;
      }
      k := k + 1;
    }
  }

  /**
   Records are expanded, judged and handed to the flash one after the other until total
   bytes are done. The walk starts at an offset of d. The source runs on for data that make
   it Stuck or Overrun.
   */
  method UpdateConfigIntoFlash(l: Layout, d: seq<byte>, base: nat, total: nat, mem: nat -> Memory)
    returns (complen: nat, types: set<Section>, status: bool, updates: seq<Update>)
    requires l.Valid()
    requires Walk(l, d, base, base + total, mem).status.Passed? || Walk(l, d, base, base + total, mem).status.Failed?
    ensures types == SectionsOf(updates)
    ensures Outcome(base + complen, if status then Passed else Failed, updates) == Walk(l, d, base, base + total, mem)
  {
    ghost var tr := WalkSteps(l, d, base, base + total, mem);
    complen, types, status, updates := AllSteps(l, d, base, total, mem, tr, Walk(l, d, base, base + total, mem));
  }
}

/** Records made by Encode. */
module ConfigTheorems {
  import opened Config
  import opened ConfigRecords
  import opened ConfigUpdate
  import opened EncoderModel
  import opened Matching
  import Theorems
  import History
  import Tokens

  /** The record holds the code of a block with a tag and a right checksum, and its rate is at least 9. */
  ghost predicate EncodedRecord(l: Layout, r: Record)
    requires l.Valid()
  {
    && |r.head| == l.compHeaderSize && l.compLen(r.head) == |r.code| && l.compRate(r.head) >= 9
    && r.code == Encoded(r.plain) && LookOf(l, r).Fine?
  }

  /** Whatever the decoder's buffer held, such a record expands to its block, in the room that it has. */
  lemma EncodedWellFormed(l: Layout, r: Record)
    requires l.Valid() && EncodedRecord(l, r)
    ensures WellFormed(l, r)
  {
    Theorems.RateSuffices(l.compRate(r.head));
    forall junk: Text ensures History.Decoded(r.code, junk) == r.plain {
      Theorems.RoundTrip(r.plain, junk);
    }
  }

  ghost predicate AllEncoded(l: Layout, rs: seq<Record>)
    requires l.Valid()
  {
    rs == [] || (EncodedRecord(l, rs[0]) && AllEncoded(l, rs[1..]))
  }

  lemma {:induction false} EncodedFine(l: Layout, rs: seq<Record>)
    requires l.Valid() && AllEncoded(l, rs)
    ensures AllFine(l, rs)
    decreases |rs|
  {
    if rs != [] {
      EncodedWellFormed(l, rs[0]);
      EncodedFine(l, rs[1..]);
    }
  }

  /** The updates are those of the records, one for one. */
  lemma {:induction false} UpdatesAre(l: Layout, rs: seq<Record>)
    requires l.Valid() && AllFine(l, rs)
    ensures |UpdatesOf(l, rs)| == |rs|
    ensures forall i :: 0 <= i < |rs| ==> LookOf(l, rs[i]) == Fine(UpdatesOf(l, rs)[i])
    ensures forall i :: 0 <= i < |rs| ==> UpdatesOf(l, rs)[i].bytes == rs[i].Bytes()
    decreases |rs|
  {
    if rs != [] {
      UpdatesAre(l, rs[1..]);
    }
  }

  lemma RecordsStored(l: Layout, data: seq<byte>, mem: nat -> Memory, rs: seq<Record>)
    requires l.Valid() && rs != [] && data == Concat(rs) && AllFine(l, rs)
    ensures Walk(l, data, 0, |data|, mem) == Outcome(|data|, Passed, UpdatesOf(l, rs))
  {
    assert data[0..|data|] == data;
    ConcatLaid(data, rs, 0, |data|);
    WalkAll(l, data, rs, 0, |data|, mem);
  }

  lemma EncodedStored(l: Layout, data: seq<byte>, mem: nat -> Memory, rs: seq<Record>) returns (us: seq<Update>)
    requires l.Valid() && rs != [] && data == Concat(rs) && AllEncoded(l, rs)
    ensures AllFine(l, rs) && us == UpdatesOf(l, rs)
    ensures Walk(l, data, 0, 0 + |data|, mem) == Outcome(|data|, Passed, us)
  {
    EncodedFine(l, rs);
    RecordsStored(l, data, mem, rs);
    us := UpdatesOf(l, rs);
  }

  /** Data that the walk consumes go into the flash completely. */
  method StoreAll(l: Layout, data: seq<byte>, mem: nat -> Memory, ghost us: seq<Update>)
    returns (complen: nat, types: set<Section>, status: bool, updates: seq<Update>)
    requires l.Valid() && Walk(l, data, 0, 0 + |data|, mem) == Outcome(|data|, Passed, us)
    ensures complen == |data| && status && types == SectionsOf(updates) && updates == us
  {
    complen, types, status, updates := UpdateConfigIntoFlash(l, data, 0, |data|, mem);
  }

  /**
   Settings made of such records go into the flash completely: everything is consumed, and
   there is one update per record, in order, with the record's own bytes.
   */
  method StoreSettings(l: Layout, data: seq<byte>, mem: nat -> Memory, ghost rs: seq<Record>)
    returns (complen: nat, types: set<Section>, status: bool, updates: seq<Update>)
    requires l.Valid() && rs != [] && data == Concat(rs) && AllEncoded(l, rs)
    ensures complen == |data| && status && types == SectionsOf(updates)
    ensures AllFine(l, rs) && updates == UpdatesOf(l, rs)
  {
    ghost var us := EncodedStored(l, data, mem, rs);
    complen, types, status, updates := StoreAll(l, data, mem, us);
  }
}
