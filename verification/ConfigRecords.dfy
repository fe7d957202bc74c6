/**
 updateConfigIntoFlash on values: a walk over records, each a small header and the
 compressed form of a settings block. The structs of the two headers and CHECKSUM_OK are
 declared in apmib.h, which is not part of this model; a Layout stands for them.
 */
module ConfigRecords {
  import opened Config
  import opened Matching
  import opened Slices
  import opened Tokens
  import opened History

  datatype Section = CurrentSetting | DefaultSetting | HwSetting

  /** Header sizes and fields, the three tags of each section, and the checksum test. */
  datatype Layout = Layout(
    compHeaderSize: nat, compLen: seq<byte> -> nat, compRate: seq<byte> -> nat,
    paramHeaderSize: nat, tagLen: nat, dataLen: seq<byte> -> nat, version: seq<byte> -> int,
    updateTag: Section -> seq<byte>, forceTag: Section -> seq<byte>, upgradeTag: Section -> seq<byte>,
    checksumOk: seq<byte> -> bool)
  {
    predicate Valid() {
      compHeaderSize > 0 && tagLen <= paramHeaderSize
    }
  }

  /** One call of apmib_updateFlash. */
  datatype Update = Update(section: Section, bytes: seq<byte>, force: int, ver: int)

  // ----- tags

  predicate Matches(l: Layout, tag: seq<byte>, s: Section) {
    tag == l.updateTag(s) || tag == l.forceTag(s) || tag == l.upgradeTag(s)
  }

  /** Update 1, force 2, upgrade 0; the first of these tags that matches. */
  predicate IsMode(l: Layout, tag: seq<byte>, s: Section, force: int) {
    || (force == 1 && tag == l.updateTag(s))
    || (force == 2 && tag == l.forceTag(s) && tag != l.updateTag(s))
    || (force == 0 && tag == l.upgradeTag(s) && tag != l.updateTag(s) && tag != l.forceTag(s))
  }

  /** The first section in order that has the tag. */
  predicate IsSection(l: Layout, tag: seq<byte>, s: Section) {
    && Matches(l, tag, s)
    && (s != CurrentSetting ==> !Matches(l, tag, CurrentSetting))
    && (s == HwSetting ==> !Matches(l, tag, DefaultSetting))
  }

  datatype Tagged = Tagged(section: Section, force: int) | Untagged

  /** What a tag says. */
  function TagOf(l: Layout, tag: seq<byte>): (t: Tagged)
    ensures t.Tagged? ==> IsSection(l, tag, t.section) && IsMode(l, tag, t.section, t.force)
    ensures t.Untagged? <==>
      !Matches(l, tag, CurrentSetting) && !Matches(l, tag, DefaultSetting) && !Matches(l, tag, HwSetting)
  {
    if Matches(l, tag, CurrentSetting) then Tagged(CurrentSetting, ModeOf(l, tag, CurrentSetting))
    else if Matches(l, tag, DefaultSetting) then Tagged(DefaultSetting, ModeOf(l, tag, DefaultSetting))
    else if Matches(l, tag, HwSetting) then Tagged(HwSetting, ModeOf(l, tag, HwSetting))
    else Untagged
  }

  function ModeOf(l: Layout, tag: seq<byte>, s: Section): (force: int)
    requires Matches(l, tag, s)
    ensures IsMode(l, tag, s, force)
  {
    if tag == l.updateTag(s) then 1 else if tag == l.forceTag(s) then 2 else 0
  }

  // ----- one record

  /** What is found at an offset. */
  datatype Look =
    | Fine(u: Update)  // an update is due
    | Corrupt          // the checksum of the block is wrong
    | Foreign          // the block has none of the nine tags
    | Broken           // the source reads or writes outside of its buffers

  /** What follows from the buffer with the block of a record; bytes are those of the record itself. */
  function Judged(l: Layout, block: seq<byte>, bytes: seq<byte>): Look
    requires l.Valid()
  {
    if |block| < l.paramHeaderSize then Broken
    else
      var header := block[..l.paramHeaderSize];
      var t, end := TagOf(l, block[..l.tagLen]), l.paramHeaderSize + l.dataLen(header);
      if t.Untagged? then Foreign
      else if end > |block| then Broken
      else if !l.checksumOk(block[l.paramHeaderSize..end]) then Corrupt
      else Fine(Update(t.section, bytes, t.force, l.version(header)))
  }

  /** The code expands into its buffer. */
  predicate Fits(code: seq<byte>, rate: nat) {
    CoversAll(Parse(code, [])) <= |code| * rate
  }

  /** What fresh memory holds, before it is written: the ring of the decoder, and the buffer for a block. */
  datatype Memory = Memory(ring: Text, heap: nat -> byte)

  /** The buffer for a block after the expansion; behind what Decode writes it is as before. */
  function Block(code: seq<byte>, rate: nat, mem: Memory): (block: seq<byte>)
    requires Fits(code, rate)
    ensures |block| == |code| * rate && Decoded(code, mem.ring) <= block
  {
    DecodedLength(code, mem.ring);
    Filled(Decoded(code, mem.ring), |code| * rate, mem.heap)
  }

  /** A buffer of so many bytes that starts with a text. */
  function Filled(text: seq<byte>, size: nat, heap: nat -> byte): (buffer: seq<byte>)
    requires |text| <= size
    ensures |buffer| == size && text <= buffer
    ensures forall i :: |text| <= i < size ==> buffer[i] == heap(i)
  {
    text + seq(size - |text|, i requires 0 <= i => heap(|text| + i))
  }

  lemma FilledIs(text: seq<byte>, size: nat, heap: nat -> byte, buffer: seq<byte>)
    requires |text| <= |buffer| == size && buffer[..|text|] == text
    requires forall i :: |text| <= i < size ==> buffer[i] == heap(i)
    ensures buffer == Filled(text, size, heap)
  {
  }

  lemma DecodedLength(code: seq<byte>, ring: Text)
    ensures |Decoded(code, ring)| == CoversAll(Parse(code, []))
  {
    ApplyLength(Cleared(ring), Parse(code, []));
  }

  /** The header at an offset, the code that it announces, and the room for its expansion. */
  predicate Whole(l: Layout, d: seq<byte>, at: nat) {
    && at + l.compHeaderSize <= |d|
    && var head := d[at..at + l.compHeaderSize];
       at + l.compHeaderSize + l.compLen(head) <= |d|
       && Fits(d[at + l.compHeaderSize..at + l.compHeaderSize + l.compLen(head)], l.compRate(head))
  }

  /** The offset behind a whole record. */
  function NextAt(l: Layout, d: seq<byte>, at: nat): (next: nat)
    requires Whole(l, d, at)
    ensures at + l.compHeaderSize <= next <= |d|
  {
    at + l.compHeaderSize + l.compLen(d[at..at + l.compHeaderSize])
  }

  /** The record at an offset; mem is what fresh memory holds. */
  function LookAt(l: Layout, d: seq<byte>, at: nat, mem: Memory): (look: Look)
    requires l.Valid()
    ensures look.Fine? ==> Whole(l, d, at) && NextAt(l, d, at) == at + |look.u.bytes|
    ensures look.Fine? ==> 0 < |look.u.bytes| <= |d| - at && look.u.bytes == d[at..at + |look.u.bytes|]
  {
    if !Whole(l, d, at) then Broken
    else
      var next := NextAt(l, d, at);
      Judged(l, Block(d[at + l.compHeaderSize..next], l.compRate(d[at..at + l.compHeaderSize]), mem), d[at..next])
  }

  // ----- the walk

  datatype Status =
    | Passed
    | Failed   // status 0: a wrong checksum
    | Stuck    // a block without a tag, and bytes left: the source does not move on
    | Overrun

  /** Where the walk ends and how, and the updates it has made. */
  datatype Outcome = Outcome(next: nat, status: Status, updates: seq<Update>)

  /** How the walk ends at a record that is not fine. */
  function StatusOf(look: Look, more: bool): Status
    requires !look.Fine?
  {
    match look
    case Broken => Overrun
    case Corrupt => Failed
    case Foreign => if more then Stuck else Passed
  }

  /** What is looked at ends at end, and no record is empty. */
  ghost predicate Bounded(look: nat -> Look, end: nat) {
    forall at: nat :: look(at).Fine? ==> 0 < |look(at).u.bytes| <= end - at
  }

  /**
   The walk from offset at on, for any way of looking at a record, when done has been done;
   it is over when a record ends at stop or behind it.
   */
  ghost function Run(look: nat -> Look, end: nat, at: nat, stop: int, done: seq<Update>): Outcome
    requires Bounded(look, end)
    decreases end - at
  {
    match look(at)
    case Fine(u) =>
      var next := at + |u.bytes|;
      if next < stop then Run(look, end, next, stop, done + [u]) else Outcome(next, Passed, done + [u])
    case bad => Outcome(at, StatusOf(bad, at < stop), done)
  }

  /** Looking at the records of some data. */
  ghost function LookIn(l: Layout, d: seq<byte>, mem: nat -> Memory): (look: nat -> Look)
    requires l.Valid()
    ensures Bounded(look, |d|)
  {
    var look := (at: nat) => LookAt(l, d, at, mem(at));
    assert forall at: nat :: look(at) == LookAt(l, d, at, mem(at));
    look
  }

  /** The walk over the data from at on. */
  ghost function Walk(l: Layout, d: seq<byte>, at: nat, stop: int, mem: nat -> Memory): Outcome
    requires l.Valid()
  {
    Run(LookIn(l, d, mem), |d|, at, stop, [])
  }

  /** The sections that a sequence of updates touches. */
  function SectionsOf(us: seq<Update>): set<Section> {
    set i | 0 <= i < |us| :: us[i].section
  }

  lemma SectionsSnoc(us: seq<Update>, u: Update)
    ensures SectionsOf(us + [u]) == SectionsOf(us) + {u.section}
  {
    var all := us + [u];
    forall s | s in SectionsOf(all) ensures s in SectionsOf(us) + {u.section} {
      var i :| 0 <= i < |all| && s == all[i].section;
      assert i < |us| ==> all[i] == us[i];
    }
    forall s | s in SectionsOf(us) + {u.section} ensures s in SectionsOf(all) {
      if s in SectionsOf(us) {
        var i :| 0 <= i < |us| && s == us[i].section;
        assert all[i] == us[i];
      } else {
        assert all[|us|] == u;
      }
    }
  }

  /** From at up to end the walk meets fine records with these updates. */
  ghost predicate Met(look: nat -> Look, us: seq<Update>, at: nat, end: nat) {
    if us == [] then at == end
    else look(at) == Fine(us[0]) && Met(look, us[1..], at + |us[0].bytes|, end)
  }

  lemma MetCons(look: nat -> Look, u: Update, us: seq<Update>, at: nat, next: nat, end: nat)
    requires look(at) == Fine(u) && next == at + |u.bytes| && Met(look, us, next, end)
    ensures Met(look, [u] + us, at, end)
  {
    assert ([u] + us)[1..] == us;
  }

  lemma {:induction false} MetEnd(look: nat -> Look, us: seq<Update>, at: nat, end: nat)
    requires Met(look, us, at, end)
    ensures at <= end
    decreases |us|
  {
    if us != [] {
      MetEnd(look, us[1..], at + |us[0].bytes|, end);
    }
  }

  /** Fine records with more to come behind them are handled one by one. */
  lemma {:induction false} RunPrefix(look: nat -> Look, all: nat, us: seq<Update>, at: nat, end: nat, stop: int,
                                     done: seq<Update>)
    requires Bounded(look, all) && Met(look, us, at, end) && end < stop
    ensures Run(look, all, at, stop, done) == Run(look, all, end, stop, done + us)
    decreases |us|
  {
    if us == [] {
      assert done + us == done;
    } else {
      var u, tail, next := us[0], us[1..], at + |us[0].bytes|;
      MetEnd(look, tail, next, end);
      RunPrefix(look, all, tail, next, end, stop, done + [u]);
      assert done + [u] + tail == done + us;
    }
  }

  /** Fine records up to a boundary at stop are all handled. */
  lemma {:induction false} RunAll(look: nat -> Look, all: nat, us: seq<Update>, at: nat, stop: nat, done: seq<Update>)
    requires Bounded(look, all) && Met(look, us, at, stop) && us != []
    ensures Run(look, all, at, stop, done) == Outcome(stop, Passed, done + us)
    decreases |us|
  {
    var u, tail, next := us[0], us[1..], at + |us[0].bytes|;
    assert done + [u] + tail == done + us;
    if tail != [] {
      MetEnd(look, tail[1..], next + |tail[0].bytes|, stop);
      assert look(next).Fine?;
      RunAll(look, all, tail, next, stop, done + [u]);
    }
  }

  /** A walk that has made these updates ends at end: at stop or behind it, or at what is not fine. */
  ghost predicate EndsAt(look: nat -> Look, us: seq<Update>, end: nat, stop: int, status: Status) {
    if us != [] && end >= stop then status.Passed? else !look(end).Fine? && status == StatusOf(look(end), end < stop)
  }

  /** Every walk meets fine records for some way, and then ends. */
  lemma {:induction false} RunShape(look: nat -> Look, all: nat, at: nat, stop: int, done: seq<Update>)
    returns (us: seq<Update>, end: nat)
    requires Bounded(look, all)
    ensures Met(look, us, at, end)
    ensures var o := Run(look, all, at, stop, done);
      o.next == end && o.updates == done + us && EndsAt(look, us, end, stop, o.status)
    decreases all - at
  {
    us, end := [], at;
    if look(at).Fine? {
      var u, next := look(at).u, at + |look(at).u.bytes|;
      var more := [];
      end := next;
      if next < stop {
        more, end := RunShape(look, all, next, stop, done + [u]);
      }
      us := [u] + more;
      MetCons(look, u, more, at, next, end);
      assert done + [u] + more == done + us;
    }
  }

  /** The records that have been met lie one behind the other in the data, each of them fine. */
  ghost predicate Intact(l: Layout, d: seq<byte>, mem: nat -> Memory, us: seq<Update>, at: nat, end: nat)
    requires l.Valid()
  {
    if us == [] then at == end
    else LookAt(l, d, at, mem(at)) == Fine(us[0]) && Intact(l, d, mem, us[1..], at + |us[0].bytes|, end)
  }

  lemma LookInAt(l: Layout, d: seq<byte>, at: nat, mem: nat -> Memory)
    requires l.Valid()
    ensures LookIn(l, d, mem)(at) == LookAt(l, d, at, mem(at))
  {
  }

  /** One record more. */
  lemma IntactCons(l: Layout, d: seq<byte>, mem: nat -> Memory, look: nat -> Look, us: seq<Update>, at: nat, end: nat)
    requires l.Valid() && us != [] && look(at) == LookAt(l, d, at, mem(at))
    requires Met(look, us[1..], at + |us[0].bytes|, end) <==> Intact(l, d, mem, us[1..], at + |us[0].bytes|, end)
    ensures Met(look, us, at, end) <==> Intact(l, d, mem, us, at, end)
  {
  }

  lemma {:induction false} MetIntact(l: Layout, d: seq<byte>, mem: nat -> Memory, us: seq<Update>, at: nat, end: nat)
    requires l.Valid()
    ensures Met(LookIn(l, d, mem), us, at, end) <==> Intact(l, d, mem, us, at, end)
    decreases |us|
  {
    if us != [] {
      MetIntact(l, d, mem, us[1..], at + |us[0].bytes|, end);
      LookInAt(l, d, at, mem);
      IntactCons(l, d, mem, LookIn(l, d, mem), us, at, end);
    }
  }

  /**
   For any data: the updates are exactly those of the fine records that lie one behind the
   other from at on. The walk ends behind one that comes to stop, or at what is not fine.
   */
  lemma OnlyIntact(l: Layout, d: seq<byte>, at: nat, stop: int, mem: nat -> Memory)
    returns (us: seq<Update>, end: nat)
    requires l.Valid()
    ensures Intact(l, d, mem, us, at, end)
    ensures var o := Walk(l, d, at, stop, mem);
      && o.next == end && o.updates == us
      && if us != [] && end >= stop then o.status.Passed?
         else match LookAt(l, d, end, mem(end))
           case Fine(_) => false
           case Corrupt => o.status.Failed?
           case Foreign => if end < stop then o.status.Stuck? else o.status.Passed?
           case Broken => o.status.Overrun?
  {
    us, end := RunShape(LookIn(l, d, mem), |d|, at, stop, []);
    MetIntact(l, d, mem, us, at, end);
    assert [] + us == us;
  }

  /** Fine records lead from at to a block without a tag, and bytes are left. */
  ghost predicate Halts(l: Layout, d: seq<byte>, mem: nat -> Memory, us: seq<Update>, at: nat, end: nat, stop: int)
    requires l.Valid()
  {
    Intact(l, d, mem, us, at, end) && end < stop && LookAt(l, d, end, mem(end)).Foreign?
  }

  lemma HaltsStuck(l: Layout, d: seq<byte>, mem: nat -> Memory, us: seq<Update>, at: nat, end: nat, stop: int)
    requires l.Valid() && Halts(l, d, mem, us, at, end, stop)
    ensures Walk(l, d, at, stop, mem).status.Stuck?
  {
    MetIntact(l, d, mem, us, at, end);
    RunPrefix(LookIn(l, d, mem), |d|, us, at, end, stop, []);
  }

  lemma StuckHalts(l: Layout, d: seq<byte>, at: nat, stop: int, mem: nat -> Memory)
    returns (us: seq<Update>, end: nat)
    requires l.Valid() && Walk(l, d, at, stop, mem).status.Stuck?
    ensures Halts(l, d, mem, us, at, end, stop)
  {
    us, end := OnlyIntact(l, d, at, stop, mem);
  }

  /** The source goes on for ever exactly when the walk comes to a block without a tag, and bytes are left. */
  lemma StuckExactly(l: Layout, d: seq<byte>, at: nat, stop: int, mem: nat -> Memory)
    requires l.Valid()
    ensures Walk(l, d, at, stop, mem).status.Stuck? <==> exists us, end :: Halts(l, d, mem, us, at, end, stop)
  {
    if Walk(l, d, at, stop, mem).status.Stuck? {
      var us, end := StuckHalts(l, d, at, stop, mem);
    } else if us, end :| Halts(l, d, mem, us, at, end, stop) {
      HaltsStuck(l, d, mem, us, at, end, stop);
    }
  }

  // ----- data put together from records

  /** A record: the header of the compressed data, the code, and the block that is compressed. */
  datatype Record = Record(head: seq<byte>, code: seq<byte>, plain: seq<byte>) {
    function Bytes(): seq<byte> {
      head + code
    }
  }

  /** The header tells the length of the code; the code expands to the block in the room that the rate gives it. */
  ghost predicate WellFormed(l: Layout, r: Record) {
    && |r.head| == l.compHeaderSize && l.compLen(r.head) == |r.code| && Fits(r.code, l.compRate(r.head))
    && forall junk: Text :: Decoded(r.code, junk) == r.plain
  }

  /** What the walk makes of a record, wherever it lies. */
  function LookOf(l: Layout, r: Record): (look: Look)
    requires l.Valid()
    ensures look.Fine? ==> look.u.bytes == r.Bytes()
  {
    Judged(l, r.plain, r.Bytes())
  }

  /** What lies behind a block that is long enough for its headers does not matter. */
  lemma JudgedLonger(l: Layout, plain: seq<byte>, block: seq<byte>, bytes: seq<byte>)
    requires l.Valid() && plain <= block && !Judged(l, plain, bytes).Broken?
    ensures Judged(l, block, bytes) == Judged(l, plain, bytes)
  {
    var end := l.paramHeaderSize + l.dataLen(plain[..l.paramHeaderSize]);
    assert block[..l.paramHeaderSize] == plain[..l.paramHeaderSize] && block[..l.tagLen] == plain[..l.tagLen];
    if end <= |plain| {
      assert block[l.paramHeaderSize..end] == plain[l.paramHeaderSize..end];
    }
  }

  lemma RecordWhole(l: Layout, d: seq<byte>, at: nat, r: Record)
    requires l.Valid() && WellFormed(l, r)
    requires at + |r.Bytes()| <= |d| && d[at..at + |r.Bytes()|] == r.Bytes()
    ensures Whole(l, d, at) && NextAt(l, d, at) == at + |r.Bytes()|
    ensures d[at..at + l.compHeaderSize] == r.head && d[at + l.compHeaderSize..NextAt(l, d, at)] == r.code
  {
    Pieces(d, at, r.head, r.code);
  }

  lemma LookWhole(l: Layout, d: seq<byte>, at: nat, next: nat, head: seq<byte>, code: seq<byte>, mem: Memory)
    requires l.Valid() && Whole(l, d, at) && next == NextAt(l, d, at)
    requires head == d[at..at + l.compHeaderSize] && code == d[at + l.compHeaderSize..next]
    ensures Fits(code, l.compRate(head))
    ensures LookAt(l, d, at, mem) == Judged(l, Block(code, l.compRate(head), mem), d[at..next])
  {
  }

  lemma RecordSeen(l: Layout, d: seq<byte>, at: nat, r: Record, mem: Memory)
    requires l.Valid() && WellFormed(l, r)
    requires at + |r.Bytes()| <= |d| && d[at..at + |r.Bytes()|] == r.Bytes() && !LookOf(l, r).Broken?
    ensures Whole(l, d, at) && NextAt(l, d, at) == at + |r.Bytes()| && LookAt(l, d, at, mem) == LookOf(l, r)
  {
    RecordWhole(l, d, at, r);
    LookWhole(l, d, at, at + |r.Bytes()|, r.head, r.code, mem);
    var block := Block(r.code, l.compRate(r.head), mem);
    JudgedLonger(l, r.plain, block, r.Bytes());
  }

  function Concat(rs: seq<Record>): seq<byte> {
    if rs == [] then [] else rs[0].Bytes() + Concat(rs[1..])
  }

  /** The records lie in the data one behind the other, from at up to end. */
  ghost predicate Laid(d: seq<byte>, rs: seq<Record>, at: nat, end: nat) {
    if rs == [] then at == end
    else
      var next := at + |rs[0].Bytes()|;
      next <= |d| && d[at..next] == rs[0].Bytes() && Laid(d, rs[1..], next, end)
  }

  lemma {:induction false} ConcatLaid(d: seq<byte>, rs: seq<Record>, at: nat, end: nat)
    requires end == at + |Concat(rs)| <= |d| && d[at..end] == Concat(rs)
    ensures Laid(d, rs, at, end)
    decreases |rs|
  {
    if rs != [] {
      var r, tail := rs[0].Bytes(), Concat(rs[1..]);
      assert |Concat(rs)| == |r| + |tail|;
      Pieces(d, at, r, tail);
      ConcatLaid(d, rs[1..], at + |r|, end);
    }
  }

  ghost predicate AllFine(l: Layout, rs: seq<Record>)
    requires l.Valid()
  {
    rs == [] || (WellFormed(l, rs[0]) && LookOf(l, rs[0]).Fine? && AllFine(l, rs[1..]))
  }

  /** The updates due for records that are all fine, in order. */
  ghost function UpdatesOf(l: Layout, rs: seq<Record>): seq<Update>
    requires l.Valid() && AllFine(l, rs)
  {
    if rs == [] then [] else [LookOf(l, rs[0]).u] + UpdatesOf(l, rs[1..])
  }

  lemma RecordMet(l: Layout, d: seq<byte>, r: Record, at: nat, next: nat, mem: nat -> Memory)
    requires l.Valid() && WellFormed(l, r) && next == at + |r.Bytes()| <= |d| && d[at..next] == r.Bytes()
    requires !LookOf(l, r).Broken?
    ensures LookIn(l, d, mem)(at) == LookOf(l, r)
  {
    RecordSeen(l, d, at, r, mem(at));
  }

  /** Records that lie in the data are met by the walk, each where it lies. */
  lemma {:induction false} RecordsMet(l: Layout, d: seq<byte>, rs: seq<Record>, at: nat, end: nat, mem: nat -> Memory)
    requires l.Valid() && AllFine(l, rs) && Laid(d, rs, at, end)
    ensures Met(LookIn(l, d, mem), UpdatesOf(l, rs), at, end)
    decreases |rs|
  {
    if rs != [] {
      var next := at + |rs[0].Bytes()|;
      RecordMet(l, d, rs[0], at, next, mem);
      RecordsMet(l, d, rs[1..], next, end, mem);
      MetCons(LookIn(l, d, mem), LookOf(l, rs[0]).u, UpdatesOf(l, rs[1..]), at, next, end);
    }
  }

  /**
   Fine records up to a boundary at stop: one update each, in order, and nothing else; the
   walk passes and ends at stop.
   */
  lemma WalkAll(l: Layout, d: seq<byte>, rs: seq<Record>, at: nat, stop: nat, mem: nat -> Memory)
    requires l.Valid() && AllFine(l, rs) && rs != [] && Laid(d, rs, at, stop)
    ensures Walk(l, d, at, stop, mem) == Outcome(stop, Passed, UpdatesOf(l, rs))
  {
    RecordsMet(l, d, rs, at, stop, mem);
    RunAll(LookIn(l, d, mem), |d|, UpdatesOf(l, rs), at, stop, []);
    assert [] + UpdatesOf(l, rs) == UpdatesOf(l, rs);
  }

  /** What comes behind fine records and is not fine ends the walk; only the updates before it are made. */
  lemma WalkStops(l: Layout, d: seq<byte>, rs: seq<Record>, at: nat, end: nat, stop: int, mem: nat -> Memory)
    requires l.Valid() && AllFine(l, rs) && Laid(d, rs, at, end) && end < stop
    requires !LookAt(l, d, end, mem(end)).Fine?
    ensures Walk(l, d, at, stop, mem)
         == Outcome(end, StatusOf(LookAt(l, d, end, mem(end)), true), UpdatesOf(l, rs))
  {
    RecordsMet(l, d, rs, at, end, mem);
    RunPrefix(LookIn(l, d, mem), |d|, UpdatesOf(l, rs), at, end, stop, []);
    assert [] + UpdatesOf(l, rs) == UpdatesOf(l, rs);
  }
}
