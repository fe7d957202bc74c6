/**
 What the walk over settings means, in terms of the data, the layout and the decoder alone:
 when a record is stored, as what, and when it is turned down.
 */
module RecordMeaning {
  import opened Config
  import opened ConfigRecords
  import opened Tokens
  import opened History

  /** The header at an offset and the code that it announces lie in the data; the text of the code fits its buffer. */
  predicate FullRecord(l: Layout, d: seq<byte>, at: nat) {
    && at + l.compHeaderSize <= |d|
    && var head := d[at..at + l.compHeaderSize];
       var from, end := at + l.compHeaderSize, at + l.compHeaderSize + l.compLen(head);
       end <= |d| && CoversAll(Parse(d[from..end], [])) <= l.compLen(head) * l.compRate(head)
  }

  function RecordEnd(l: Layout, d: seq<byte>, at: nat): (end: nat)
    requires FullRecord(l, d, at)
    ensures at + l.compHeaderSize <= end <= |d|
  {
    at + l.compHeaderSize + l.compLen(d[at..at + l.compHeaderSize])
  }

  /** The text of the code, and what the buffer held behind it. */
  function BlockOf(l: Layout, d: seq<byte>, at: nat, mem: Memory): seq<byte>
    requires FullRecord(l, d, at)
  {
    var head := d[at..at + l.compHeaderSize];
    var text := Decoded(d[at + l.compHeaderSize..RecordEnd(l, d, at)], mem.ring);
    seq(l.compLen(head) * l.compRate(head), i requires 0 <= i => if i < |text| then text[i] else mem.heap(i))
  }

  lemma FullIsWhole(l: Layout, d: seq<byte>, at: nat)
    ensures FullRecord(l, d, at) <==> Whole(l, d, at)
    ensures FullRecord(l, d, at) ==> RecordEnd(l, d, at) == NextAt(l, d, at)
  {
  }

  lemma BlockOfIs(l: Layout, d: seq<byte>, at: nat, mem: Memory)
    requires FullRecord(l, d, at)
    ensures Whole(l, d, at)
    ensures BlockOf(l, d, at, mem) ==
      Block(d[at + l.compHeaderSize..NextAt(l, d, at)], l.compRate(d[at..at + l.compHeaderSize]), mem)
  {
    FullIsWhole(l, d, at);
    var head, code := d[at..at + l.compHeaderSize], d[at + l.compHeaderSize..NextAt(l, d, at)];
    DecodedLength(code, mem.ring);
    FilledIs(Decoded(code, mem.ring), |code| * l.compRate(head), mem.heap, BlockOf(l, d, at, mem));
  }

  /** The block has one of the nine tags. */
  predicate HasTag(l: Layout, block: seq<byte>)
    requires l.tagLen <= |block|
  {
    var tag := block[..l.tagLen];
    || tag == l.updateTag(CurrentSetting) || tag == l.forceTag(CurrentSetting) || tag == l.upgradeTag(CurrentSetting)
    || tag == l.updateTag(DefaultSetting) || tag == l.forceTag(DefaultSetting) || tag == l.upgradeTag(DefaultSetting)
    || tag == l.updateTag(HwSetting) || tag == l.forceTag(HwSetting) || tag == l.upgradeTag(HwSetting)
  }

  /** The update says what the block says: the section and the mode of its tag, and the version in its header. */
  predicate Says(l: Layout, block: seq<byte>, u: Update)
    requires l.tagLen <= l.paramHeaderSize <= |block|
  {
    && u.ver == l.version(block[..l.paramHeaderSize])
    && var tag := block[..l.tagLen];
       || (u.force == 1 && tag == l.updateTag(u.section))
       || (u.force == 2 && tag == l.forceTag(u.section) && tag != l.updateTag(u.section))
       || (u.force == 0 && tag == l.upgradeTag(u.section) && tag != l.updateTag(u.section)
           && tag != l.forceTag(u.section))
  }

  /** An earlier section does not have the tag. */
  predicate FirstSection(l: Layout, block: seq<byte>, s: Section)
    requires l.tagLen <= |block|
  {
    var tag := block[..l.tagLen];
    && (s != CurrentSetting ==>
          tag !in {l.updateTag(CurrentSetting), l.forceTag(CurrentSetting), l.upgradeTag(CurrentSetting)})
    && (s == HwSetting ==>
          tag !in {l.updateTag(DefaultSetting), l.forceTag(DefaultSetting), l.upgradeTag(DefaultSetting)})
  }

  /** The payload that the header of the block announces lies inside the block. */
  predicate HasPayload(l: Layout, block: seq<byte>)
    requires l.paramHeaderSize <= |block|
  {
    l.paramHeaderSize + l.dataLen(block[..l.paramHeaderSize]) <= |block|
  }

  function Payload(l: Layout, block: seq<byte>): seq<byte>
    requires l.paramHeaderSize <= |block| && HasPayload(l, block)
  {
    block[l.paramHeaderSize..l.paramHeaderSize + l.dataLen(block[..l.paramHeaderSize])]
  }

  /** What is found at an offset, case by case. */
  ghost predicate Means(l: Layout, d: seq<byte>, at: nat, mem: Memory, look: Look)
    requires l.Valid()
  {
    if !FullRecord(l, d, at) then look.Broken?
    else
      var block := BlockOf(l, d, at, mem);
      if |block| < l.paramHeaderSize then look.Broken?
      else if !HasTag(l, block) then look.Foreign?
      else if !HasPayload(l, block) then look.Broken?
      else if !l.checksumOk(Payload(l, block)) then look.Corrupt?
      else
        && look.Fine? && look.u.bytes == d[at..RecordEnd(l, d, at)]
        && Says(l, block, look.u) && FirstSection(l, block, look.u.section)
  }

  lemma JudgedMeans(l: Layout, block: seq<byte>, bytes: seq<byte>)
    requires l.Valid()
    ensures var look := Judged(l, block, bytes);
      if |block| < l.paramHeaderSize then look.Broken?
      else if !HasTag(l, block) then look.Foreign?
      else if !HasPayload(l, block) then look.Broken?
      else if !l.checksumOk(Payload(l, block)) then look.Corrupt?
      else look.Fine? && look.u.bytes == bytes && Says(l, block, look.u) && FirstSection(l, block, look.u.section)
  {
  }

  lemma LookAtIs(l: Layout, d: seq<byte>, at: nat, mem: Memory)
    requires l.Valid() && FullRecord(l, d, at)
    ensures LookAt(l, d, at, mem) == Judged(l, BlockOf(l, d, at, mem), d[at..RecordEnd(l, d, at)])
  {
    FullIsWhole(l, d, at);
    BlockOfIs(l, d, at, mem);
    var head, next := d[at..at + l.compHeaderSize], NextAt(l, d, at);
    LookWhole(l, d, at, next, head, d[at + l.compHeaderSize..next], mem);
  }

  /**
   For any data and any offset: a record is fine if and only if it and its payload are whole,
   it has one of the nine tags, and the checksum of its payload is right. It is corrupt if
   and only if all that holds but the checksum.
   */
  lemma LookMeans(l: Layout, d: seq<byte>, at: nat, mem: Memory)
    requires l.Valid()
    ensures Means(l, d, at, mem, LookAt(l, d, at, mem))
  {
    FullIsWhole(l, d, at);
    if FullRecord(l, d, at) {
      LookAtIs(l, d, at, mem);
      JudgedMeans(l, BlockOf(l, d, at, mem), d[at..RecordEnd(l, d, at)]);
    }
  }

  // ----- the updates of a walk

  /** How many bytes updates take. */
  function Length(us: seq<Update>): nat {
    if us == [] then 0 else |us[0].bytes| + Length(us[1..])
  }

  lemma {:induction false} MetAt(look: nat -> Look, us: seq<Update>, at: nat, end: nat, i: nat)
    requires Met(look, us, at, end) && i < |us|
    ensures look(at + Length(us[..i])) == Fine(us[i])
    decreases i
  {
    if i > 0 {
      MetAt(look, us[1..], at + |us[0].bytes|, end, i - 1);
      assert us[..i][1..] == us[1..][..i - 1];
    } else {
      assert us[..0] == [];
    }
  }

  /**
   The update is that of the whole record at p. Its block has the tag of the section and of
   the mode, the checksum of its payload is right, and the bytes are those of the record.
   */
  predicate Stored(l: Layout, d: seq<byte>, p: nat, mem: Memory, u: Update)
    requires l.Valid()
  {
    && FullRecord(l, d, p) && u.bytes == d[p..RecordEnd(l, d, p)]
    && var block := BlockOf(l, d, p, mem);
       && l.paramHeaderSize <= |block| && Says(l, block, u) && FirstSection(l, block, u.section)
       && HasPayload(l, block) && l.checksumOk(Payload(l, block))
  }

  lemma FineStored(l: Layout, d: seq<byte>, p: nat, mem: Memory, u: Update)
    requires l.Valid() && LookAt(l, d, p, mem) == Fine(u)
    ensures Stored(l, d, p, mem, u)
  {
    LookMeans(l, d, p, mem);
  }

  /** For any data: update i of a walk is that of a record that lies where the records before it end. */
  lemma EveryUpdate(l: Layout, d: seq<byte>, at: nat, stop: int, mem: nat -> Memory, i: nat)
    requires l.Valid() && i < |Walk(l, d, at, stop, mem).updates|
    ensures var us := Walk(l, d, at, stop, mem).updates;
      var p := at + Length(us[..i]);
      Stored(l, d, p, mem(p), us[i])
  {
    var us, end := RunShape(LookIn(l, d, mem), |d|, at, stop, []);
    assert [] + us == us;
    MetAt(LookIn(l, d, mem), us, at, end, i);
    var p := at + Length(us[..i]);
    LookInAt(l, d, p, mem);
    FineStored(l, d, p, mem(p), us[i]);
  }

  /** A record whose checksum is wrong ends the walk at once with status 0 and without an update. */
  lemma WrongChecksum(l: Layout, d: seq<byte>, at: nat, stop: int, mem: nat -> Memory)
    requires l.Valid() && FullRecord(l, d, at)
    requires var block := BlockOf(l, d, at, mem(at));
      && l.paramHeaderSize <= |block| && HasTag(l, block) && HasPayload(l, block)
      && !l.checksumOk(Payload(l, block))
    ensures Walk(l, d, at, stop, mem) == Outcome(at, Failed, [])
  {
    LookMeans(l, d, at, mem(at));
    LookInAt(l, d, at, mem);
  }
}
