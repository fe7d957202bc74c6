/** doFirmwareUpgrade: the walk over the images and settings records of an upload. */
module ImageWalk {
  import opened Config
  import opened CStrings
  import opened Firmware
  import opened ConfigRecords

  const SIZE_LIMIT: int := 0x400000

  /** sizeof(IMG_HEADER_T), its fields, the remaining signatures, CHECKSUM_OK, and the outside world. */
  datatype Platform = Platform(
    headerSize: nat, lenOf: seq<byte> -> int, burnAddr: seq<byte> -> int,
    webSignature: seq<byte>, compSignature: Section -> seq<byte>, checksumOk: seq<byte> -> bool,
    layout: Layout,
    mem: nat -> Memory,           // what fresh memory holds, for the record at an offset
    written: (nat, nat) -> int)   // how many bytes the write for the item at an offset completes, of so many;
                                  // negative for an error

  datatype Kind = Linux | Web | Root | Settings | Unknown

  datatype Device = FlashDevice | FlashDevice1

  /** What has been done for the item at an offset of the upload. */
  datatype Action = Write(at: nat, device: Device, addr: int, bytes: seq<byte>) | Configured(at: nat, u: Update)

  datatype Ending = Done | InvalidFormat | InvalidConfig | TooLong | BadChecksum | WriteFailed
    | OutOfBounds   // the source reads or writes outside of its buffers
    | NegativeSize  // it hands a negative size to CHECKSUM_OK or to write
    | Endless       // it comes to the same offset for ever

  /** The upgrade comes to an end, and what it does until then is part of the model. */
  predicate Returns(o: Ending) {
    !o.OutOfBounds? && !o.NegativeSize? && !o.Endless?
  }

  predicate Valid(p: Platform) {
    p.headerSize >= 4 && p.layout.Valid()
  }

  predicate HasSettings(p: Platform, d: seq<byte>, at: nat) {
    || OccursAt(d, p.compSignature(HwSetting), at)
    || OccursAt(d, p.compSignature(DefaultSetting), at)
    || OccursAt(d, p.compSignature(CurrentSetting), at)
  }

  function ImageKind(p: Platform, sig: seq<byte>): Kind {
    if sig == Ascii("cs6c") || sig == Ascii("cr6c") then Linux
    else if sig == p.webSignature then Web
    else if sig == Ascii("r6cr") then Root
    else Unknown
  }

  /** The signatures, in the order in which they are tried. */
  function KindOf(p: Platform, d: seq<byte>, at: nat): Kind
    requires at + 4 <= |d|
  {
    var kind := ImageKind(p, d[at..at + 4]);
    if kind.Unknown? && HasSettings(p, d, at) then Settings else kind
  }

  function Header(p: Platform, d: seq<byte>, at: nat): seq<byte>
    requires at + p.headerSize <= |d|
  {
    d[at..at + p.headerSize]
  }

  /** How many bytes the checksum takes in; the sum of firmware may take in one more than the image has. */
  function SumLength(kind: Kind, len: nat): nat {
    if kind.Linux? || kind.Root? then Even(len) else len
  }

  /** All that is read of the image at an offset is in the upload. */
  predicate Inside(p: Platform, d: seq<byte>, at: nat, kind: Kind, len: int) {
    0 <= len && at + p.headerSize + SumLength(kind, len) <= |d|
  }

  predicate ChecksumPasses(p: Platform, kind: Kind, summed: seq<byte>) {
    if kind.Linux? || kind.Root? then SumOk(summed) else p.checksumOk(summed)
  }

  /** Root images go without their header to the start of the second partition, others with it to their address. */
  function WriteOf(p: Platform, at: nat, kind: Kind, head: seq<byte>, body: seq<byte>): Action {
    if kind.Root? then Write(at, FlashDevice1, 0, body) else Write(at, FlashDevice, p.burnAddr(head), head + body)
  }

  /** The same for what lies at an offset, up to end. */
  function Burnt(p: Platform, d: seq<byte>, at: nat, kind: Kind, end: nat): (w: Action)
    requires at + p.headerSize <= |d| && at <= end <= |d| && (kind.Root? ==> at + p.headerSize <= end)
    ensures w.Write? && w.at == at
  {
    if kind.Root? then Write(at, FlashDevice1, 0, d[at + p.headerSize..end])
    else Write(at, FlashDevice, p.burnAddr(Header(p, d, at)), d[at..end])
  }

  /** One turn of the walk: it stops, perhaps after a last action, or does one thing and goes on. */
  datatype Turn = Stop(o: Ending, last: seq<Action>) | Go(a: Action, next: nat)

  /** What a write leaves that completes numWrite of its bytes, if it was to leave anything. */
  function Left(w: Action, numWrite: int): seq<Action>
    requires w.Write? && numWrite <= |w.bytes|
  {
    if w.bytes == [] then [] else [w.(bytes := w.bytes[..Max(0, numWrite)])]
  }

  /** The write of an image that ends at next: whole, or only its front. */
  function Written(p: Platform, w: Action, next: nat): (t: Turn)
    requires w.Write? && w.at <= next
    ensures t.Go? ==> w.at < t.next
  {
    var n := |w.bytes|;
    var numWrite := p.written(w.at, n);
    if numWrite < n then Stop(WriteFailed, Left(w, numWrite))
    else if next == w.at then Stop(Endless, [])
    else Go(w, next)
  }

  /**
   An image that announces a negative length. The sum over a firmware image takes in no byte
   then, and passes; header and length together say how much of the header is written, and
   how far the walk goes on.
   */
  function NegativeTurn(p: Platform, d: seq<byte>, at: nat, kind: Kind, len: int): (t: Turn)
    requires at + p.headerSize < |d| && len < 0
    ensures t.Go? ==> at < t.next
  {
    var n := p.headerSize + len;
    if !kind.Linux? || n < 0 then Stop(NegativeSize, [])
    else Written(p, Burnt(p, d, at, kind, at + n), at + n)
  }

  /** The image at an offset. */
  function ImageTurn(p: Platform, d: seq<byte>, at: nat, kind: Kind): (t: Turn)
    requires Valid(p) && at + p.headerSize < |d|
    ensures t.Go? ==> at < t.next
  {
    var head, body := Header(p, d, at), at + p.headerSize;
    var len := p.lenOf(head);
    if len > SIZE_LIMIT then Stop(TooLong, [])
    else if len < 0 then NegativeTurn(p, d, at, kind, len)
    else if !Inside(p, d, at, kind, len) then Stop(OutOfBounds, [])
    else if !ChecksumPasses(p, kind, d[body..body + SumLength(kind, len)]) then Stop(BadChecksum, [])
    else Written(p, WriteOf(p, at, kind, head, d[body..body + len]), body + len)
  }

  /** The settings record at an offset. */
  function SettingsTurn(p: Platform, d: seq<byte>, at: nat): (t: Turn)
    requires Valid(p)
    ensures t.Go? ==> at < t.next
  {
    match LookAt(p.layout, d, at, p.mem(at))
    case Broken => Stop(OutOfBounds, [])
    case Fine(u) => Go(Configured(at, u), at + |u.bytes|)
    case _ => Stop(InvalidConfig, [])
  }

  /** The turn at an offset; valid tells whether a signature has been recognised before. */
  function TurnAt(p: Platform, d: seq<byte>, at: nat, valid: bool): (t: Turn)
    requires Valid(p)
    ensures t.Go? ==> at < t.next && at < |d|
  {
    if at + p.headerSize >= |d| then Stop(Done, [])
    else match KindOf(p, d, at)
      case Unknown => Stop(if valid then Done else InvalidFormat, [])
      case Settings => SettingsTurn(p, d, at)
      case kind => ImageTurn(p, d, at, kind)
  }

  // ----- the walk, for any way of making turns

  ghost predicate Advancing(turn: (nat, bool) -> Turn, end: nat) {
    forall at: nat, valid: bool :: turn(at, valid).Go? ==> at < turn(at, valid).next && at < end
  }

  /** The walk from offset at on, when done has been done. */
  ghost function RunTurns(turn: (nat, bool) -> Turn, end: nat, at: nat, valid: bool, done: seq<Action>)
    : (Ending, seq<Action>)
    requires Advancing(turn, end)
    decreases end - at
  {
    match turn(at, valid)
    case Stop(o, last) => (o, done + last)
    case Go(a, next) => RunTurns(turn, end, next, true, done + [a])
  }

  /** From at up to end the walk goes on, with these actions. */
  ghost predicate MetTurns(turn: (nat, bool) -> Turn, acts: seq<Action>, at: nat, valid: bool, end: nat) {
    if acts == [] then at == end
    else
      var t := turn(at, valid);
      t.Go? && t.a == acts[0] && MetTurns(turn, acts[1..], t.next, true, end)
  }

  lemma MetTurnsCons(turn: (nat, bool) -> Turn, a: Action, more: seq<Action>, acts: seq<Action>, at: nat, valid: bool,
                     next: nat, end: nat)
    requires turn(at, valid) == Go(a, next) && MetTurns(turn, more, next, true, end) && acts == [a] + more
    ensures MetTurns(turn, acts, at, valid, end)
  {
    assert acts[1..] == more;
  }

  lemma {:induction false} RunTurnsPrefix(turn: (nat, bool) -> Turn, all: nat, acts: seq<Action>, at: nat, valid: bool,
                                          end: nat, done: seq<Action>)
    requires Advancing(turn, all) && MetTurns(turn, acts, at, valid, end)
    ensures RunTurns(turn, all, at, valid, done) == RunTurns(turn, all, end, valid || acts != [], done + acts)
    decreases |acts|
  {
    if acts == [] {
      assert done + acts == done;
    } else {
      RunTurnsPrefix(turn, all, acts[1..], turn(at, valid).next, true, end, done + [acts[0]]);
      assert done + [acts[0]] + acts[1..] == done + acts;
    }
  }

  /** Every walk goes on for some actions, and then stops. */
  lemma {:induction false} RunTurnsShape(turn: (nat, bool) -> Turn, all: nat, at: nat, valid: bool)
    returns (acts: seq<Action>, end: nat)
    requires Advancing(turn, all)
    ensures MetTurns(turn, acts, at, valid, end) && turn(end, valid || acts != []).Stop?
    decreases all - at
  {
    acts, end := [], at;
    var t := turn(at, valid);
    if t.Go? {
      var more;
      more, end := RunTurnsShape(turn, all, t.next, true);
      acts := [t.a] + more;
      MetTurnsCons(turn, t.a, more, acts, at, valid, t.next, end);
    }
  }

  /** The turns for an upload. */
  ghost function Turns(p: Platform, d: seq<byte>): (turn: (nat, bool) -> Turn)
    requires Valid(p)
    ensures Advancing(turn, |d|)
  {
    var turn := (at: nat, valid: bool) => TurnAt(p, d, at, valid);
    assert forall at: nat, valid: bool :: turn(at, valid) == TurnAt(p, d, at, valid);
    turn
  }

  lemma TurnsAt(p: Platform, d: seq<byte>, at: nat, valid: bool)
    requires Valid(p)
    ensures Turns(p, d)(at, valid) == TurnAt(p, d, at, valid)
  {
  }

  /** The whole upgrade. */
  ghost function Upgrade(p: Platform, d: seq<byte>): (Ending, seq<Action>)
    requires Valid(p)
  {
    var head := FindHeadOffset(d);
    if head < 0 then (InvalidFormat, []) else RunTurns(Turns(p, d), |d|, head, false, [])
  }
}
