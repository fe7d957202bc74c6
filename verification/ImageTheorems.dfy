/** What the upgrade does: for every upload, and for uploads put together from images and settings records. */
module ImageTheorems {
  import opened Config
  import opened CStrings
  import opened Firmware
  import opened ConfigRecords
  import opened ImageWalk
  import opened Slices

  // ----- safety, for every upload

  predicate IsImage(kind: Kind) {
    kind.Linux? || kind.Web? || kind.Root?
  }

  /** The image at an offset has passed the test of its length, and the source stays inside of the upload. */
  predicate Measured(p: Platform, d: seq<byte>, at: nat)
    requires Valid(p) && at + p.headerSize < |d|
  {
    var len := p.lenOf(Header(p, d, at));
    IsImage(KindOf(p, d, at)) && len <= SIZE_LIMIT && Inside(p, d, at, KindOf(p, d, at), len)
  }

  predicate Sound(p: Platform, d: seq<byte>, at: nat)
    requires Valid(p) && at + p.headerSize < |d| && Measured(p, d, at)
  {
    var kind, body := KindOf(p, d, at), at + p.headerSize;
    ChecksumPasses(p, kind, d[body..body + SumLength(kind, p.lenOf(Header(p, d, at)))])
  }

  /** The write of the whole image at an offset, to its place. */
  function WholeWrite(p: Platform, d: seq<byte>, at: nat): (w: Action)
    requires Valid(p) && at + p.headerSize < |d| && Measured(p, d, at)
    ensures w.Write? && w.at == at
  {
    var body := at + p.headerSize;
    WriteOf(p, at, KindOf(p, d, at), Header(p, d, at), d[body..body + p.lenOf(Header(p, d, at))])
  }

  /** The action is the complete write of an image that has passed its checks, or the update of an intact record. */
  predicate Verified(p: Platform, d: seq<byte>, a: Action)
    requires Valid(p)
  {
    a.at + p.headerSize < |d| &&
    if a.Configured? then
      KindOf(p, d, a.at).Settings? && LookAt(p.layout, d, a.at, p.mem(a.at)) == Fine(a.u)
    else
      && Measured(p, d, a.at) && Sound(p, d, a.at) && a == WholeWrite(p, d, a.at)
      && p.written(a.at, |a.bytes|) >= |a.bytes|
  }

  /** A Linux image whose announced length is negative, but takes away less than the header. */
  predicate Shortened(p: Platform, d: seq<byte>, at: nat)
    requires Valid(p)
  {
    && at + p.headerSize < |d| && KindOf(p, d, at).Linux?
    && p.lenOf(Header(p, d, at)) < 0 < p.headerSize + p.lenOf(Header(p, d, at))
  }

  /** What the source writes then: the front of the header, as if it were an image. */
  function ShortWrite(p: Platform, d: seq<byte>, at: nat): (w: Action)
    requires Valid(p) && Shortened(p, d, at)
    ensures w.Write? && w.at == at
  {
    Write(at, FlashDevice, p.burnAddr(Header(p, d, at)), d[at..at + p.headerSize + p.lenOf(Header(p, d, at))])
  }

  /** The action is the complete write of the front of such a header. */
  predicate Fragment(p: Platform, d: seq<byte>, a: Action)
    requires Valid(p)
  {
    a.Write? && Shortened(p, d, a.at) && a == ShortWrite(p, d, a.at) && p.written(a.at, |a.bytes|) >= |a.bytes|
  }

  /** Where the item of an action ends. */
  function EndOf(p: Platform, d: seq<byte>, a: Action): nat
    requires Valid(p) && (Verified(p, d, a) || Fragment(p, d, a))
  {
    if a.Configured? then a.at + |a.u.bytes| else a.at + p.headerSize + p.lenOf(Header(p, d, a.at))
  }

  /** The items of the actions lie one behind the other, from at up to end. */
  ghost predicate Adjoining(p: Platform, d: seq<byte>, actions: seq<Action>, at: nat, end: nat)
    requires Valid(p)
    decreases |actions|
  {
    if actions == [] then at == end
    else
      && actions[0].at == at && (Verified(p, d, actions[0]) || Fragment(p, d, actions[0]))
      && EndOf(p, d, actions[0]) > at
      && Adjoining(p, d, actions[1..], EndOf(p, d, actions[0]), end)
  }

  /** A write for an offset that falls short, and what it leaves. */
  predicate FallsShort(p: Platform, w: Action, last: seq<Action>)
    requires w.Write?
  {
    var n := |w.bytes|;
    p.written(w.at, n) < n && last == Left(w, p.written(w.at, n))
  }

  /** Why the walk stops at an offset, and what it does there last. */
  predicate Reason(p: Platform, d: seq<byte>, at: nat, valid: bool, o: Ending, last: seq<Action>)
    requires Valid(p)
  {
    if at + p.headerSize >= |d| then o.Done? && last == []
    else
      var kind, len := KindOf(p, d, at), p.lenOf(Header(p, d, at));
      match o
      case Done => kind.Unknown? && valid && last == []
      case InvalidFormat => kind.Unknown? && !valid && last == []
      case InvalidConfig =>
        var look := LookAt(p.layout, d, at, p.mem(at));
        kind.Settings? && (look.Corrupt? || look.Foreign?) && last == []
      case TooLong => IsImage(kind) && len > SIZE_LIMIT && last == []
      case BadChecksum => Measured(p, d, at) && !Sound(p, d, at) && last == []
      case WriteFailed =>
        || (Measured(p, d, at) && Sound(p, d, at) && FallsShort(p, WholeWrite(p, d, at), last))
        || (Shortened(p, d, at) && FallsShort(p, ShortWrite(p, d, at), last))
        || (kind.Linux? && p.headerSize + len == 0 && p.written(at, 0) < 0 && last == [])
      case OutOfBounds =>
        && last == []
        && (|| (IsImage(kind) && 0 <= len <= SIZE_LIMIT && !Inside(p, d, at, kind, len))
            || (kind.Settings? && LookAt(p.layout, d, at, p.mem(at)).Broken?))
      case NegativeSize => IsImage(kind) && len < 0 && (kind.Linux? ==> p.headerSize + len < 0) && last == []
      case Endless => kind.Linux? && p.headerSize + len == 0 && p.written(at, 0) >= 0 && last == []
  }

  /** The turn at an image does what the tests of the image say. */
  lemma ImageTurns(p: Platform, d: seq<byte>, at: nat)
    requires Valid(p) && at + p.headerSize < |d| && IsImage(KindOf(p, d, at))
    requires p.lenOf(Header(p, d, at)) >= 0
    ensures var t, len := ImageTurn(p, d, at, KindOf(p, d, at)), p.lenOf(Header(p, d, at));
      if len > SIZE_LIMIT then t == Stop(TooLong, [])
      else if !Measured(p, d, at) then t == Stop(OutOfBounds, [])
      else if !Sound(p, d, at) then t == Stop(BadChecksum, [])
      else t == Written(p, WholeWrite(p, d, at), at + p.headerSize + len)
  {
  }

  /** The turn at an image with a negative length. */
  lemma NegativeTurns(p: Platform, d: seq<byte>, at: nat)
    requires Valid(p) && at + p.headerSize < |d| && IsImage(KindOf(p, d, at))
    requires p.lenOf(Header(p, d, at)) < 0
    ensures var t, kind, len := ImageTurn(p, d, at, KindOf(p, d, at)), KindOf(p, d, at), p.lenOf(Header(p, d, at));
      if Shortened(p, d, at) then t == Written(p, ShortWrite(p, d, at), at + p.headerSize + len)
      else if kind.Linux? && p.headerSize + len == 0 then
        t == Stop(if p.written(at, 0) < 0 then WriteFailed else Endless, [])
      else t == Stop(NegativeSize, [])
  {
    if KindOf(p, d, at).Linux? && p.headerSize + p.lenOf(Header(p, d, at)) == 0 {
      assert d[at..at] == [];
    }
  }

  lemma StopReason(p: Platform, d: seq<byte>, at: nat, valid: bool, t: Turn)
    requires Valid(p) && t == TurnAt(p, d, at, valid) && t.Stop?
    ensures Reason(p, d, at, valid, t.o, t.last)
  {
    if at + p.headerSize < |d| && IsImage(KindOf(p, d, at)) {
      if p.lenOf(Header(p, d, at)) >= 0 {
        ImageTurns(p, d, at);
      } else {
        NegativeTurns(p, d, at);
      }
    }
  }

  lemma GoVerified(p: Platform, d: seq<byte>, at: nat, valid: bool, t: Turn)
    requires Valid(p) && t == TurnAt(p, d, at, valid) && t.Go?
    ensures t.a.at == at && (Verified(p, d, t.a) || Fragment(p, d, t.a)) && EndOf(p, d, t.a) == t.next > at
  {
    if IsImage(KindOf(p, d, at)) {
      if p.lenOf(Header(p, d, at)) >= 0 {
        ImageTurns(p, d, at);
      } else {
        NegativeTurns(p, d, at);
      }
    }
  }

  lemma {:induction false} MetAdjoins(p: Platform, d: seq<byte>, acts: seq<Action>, at: nat, valid: bool, end: nat)
    requires Valid(p) && MetTurns(Turns(p, d), acts, at, valid, end)
    ensures Adjoining(p, d, acts, at, end)
    decreases |acts|
  {
    if acts != [] {
      TurnsAt(p, d, at, valid);
      GoVerified(p, d, at, valid, TurnAt(p, d, at, valid));
      MetAdjoins(p, d, acts[1..], TurnAt(p, d, at, valid).next, true, end);
    }
  }

  /** Every walk is made of turns that go on and one that stops. */
  lemma WalkShape(p: Platform, d: seq<byte>, head: nat) returns (acts: seq<Action>, end: nat, t: Turn)
    requires Valid(p)
    ensures MetTurns(Turns(p, d), acts, head, false, end) && t == TurnAt(p, d, end, acts != []) && t.Stop?
    ensures RunTurns(Turns(p, d), |d|, head, false, []) == (t.o, acts + t.last)
  {
    acts, end := RunTurnsShape(Turns(p, d), |d|, head, false);
    RunTurnsPrefix(Turns(p, d), |d|, acts, head, false, end, []);
    assert [] + acts == acts;
    TurnsAt(p, d, end, acts != []);
    t := TurnAt(p, d, end, acts != []);
  }

  /**
   For every upload: what is done are complete writes of whole images with the right length
   and checksum, to their places, updates of intact records, and writes of the front of a
   Linux header that announces a negative length; their items adjoin. The walk stops behind
   them for exactly the reason that it gives, and only when a write fails something more is
   done, which is the front of what was to be written.
   */
  lemma OnlyVerified(p: Platform, d: seq<byte>, head: nat) returns (acts: seq<Action>, end: nat, last: seq<Action>)
    requires Valid(p)
    ensures Adjoining(p, d, acts, head, end)
    ensures var (o, all) := RunTurns(Turns(p, d), |d|, head, false, []);
      all == acts + last && Reason(p, d, end, acts != [], o, last)
  {
    var t;
    acts, end, t := WalkShape(p, d, head);
    MetAdjoins(p, d, acts, head, false, end);
    StopReason(p, d, end, acts != [], t);
    last := t.last;
  }

  // ----- when all that is done is verified

  /** The walk comes to an offset. */
  ghost predicate Meets(p: Platform, d: seq<byte>, head: nat, at: nat)
    requires Valid(p)
  {
    exists acts :: MetTurns(Turns(p, d), acts, head, false, at)
  }

  /** The action is verified, or leaves the front of a whole image that has passed its checks. */
  predicate Backed(p: Platform, d: seq<byte>, a: Action)
    requires Valid(p)
  {
    || Verified(p, d, a)
    || (&& a.Write? && a.at + p.headerSize < |d| && Measured(p, d, a.at) && Sound(p, d, a.at)
        && a.bytes <= WholeWrite(p, d, a.at).bytes && a == WholeWrite(p, d, a.at).(bytes := a.bytes))
  }

  lemma {:induction false} MetSnoc(turn: (nat, bool) -> Turn, acts: seq<Action>, a: Action, at: nat, valid: bool,
                                   mid: nat, end: nat)
    requires MetTurns(turn, acts, at, valid, mid) && turn(mid, valid || acts != []) == Go(a, end)
    ensures MetTurns(turn, acts + [a], at, valid, end)
    decreases |acts|
  {
    if acts == [] {
      assert acts + [a] == [a];
    } else {
      MetSnoc(turn, acts[1..], a, turn(at, valid).next, true, mid, end);
      MetTurnsCons(turn, acts[0], acts[1..] + [a], acts + [a], at, valid, turn(at, valid).next, end);
    }
  }

  /** What a turn at a place that is not shortened does is backed. */
  lemma TurnBacked(p: Platform, d: seq<byte>, at: nat, valid: bool, t: Turn)
    requires Valid(p) && t == TurnAt(p, d, at, valid) && !Shortened(p, d, at)
    ensures t.Go? ==> Backed(p, d, t.a)
    ensures t.Stop? ==> forall a <- t.last :: Backed(p, d, a)
  {
    if t.Go? {
      GoVerified(p, d, at, valid, t);
    } else {
      StopReason(p, d, at, valid, t);
    }
  }

  /** What a turn at a shortened header does is not backed, and it does something. */
  lemma TurnUnbacked(p: Platform, d: seq<byte>, at: nat, valid: bool, t: Turn)
    requires Valid(p) && t == TurnAt(p, d, at, valid) && Shortened(p, d, at)
    ensures if t.Go? then !Backed(p, d, t.a) else t.last != [] && !Backed(p, d, t.last[0])
  {
    NegativeTurns(p, d, at);
  }

  /** No header that the walk meets is shortened. */
  ghost predicate NoneShortened(p: Platform, d: seq<byte>, head: nat)
    requires Valid(p)
  {
    forall at: nat :: Meets(p, d, head, at) ==> !Shortened(p, d, at)
  }

  /** From a place that the walk meets on, everything is backed if no header that it meets is shortened. */
  lemma {:induction false} AllBacked(p: Platform, d: seq<byte>, head: nat, pre: seq<Action>, acts: seq<Action>,
                                     at: nat, end: nat)
    requires Valid(p) && MetTurns(Turns(p, d), pre, head, false, at)
    requires MetTurns(Turns(p, d), acts, at, pre != [], end)
    requires NoneShortened(p, d, head)
    ensures forall a <- acts :: Backed(p, d, a)
    ensures Meets(p, d, head, end)
    decreases |acts|
  {
    if acts != [] {
      var t := TurnAt(p, d, at, pre != []);
      TurnsAt(p, d, at, pre != []);
      assert Meets(p, d, head, at);
      TurnBacked(p, d, at, pre != [], t);
      MetSnoc(Turns(p, d), pre, t.a, head, false, at, t.next);
      AllBacked(p, d, head, pre + [t.a], acts[1..], t.next, end);
    }
  }

  /** What has been done stays done. */
  lemma {:induction false} RunTurnsKeeps(turn: (nat, bool) -> Turn, all: nat, at: nat, valid: bool, done: seq<Action>)
    requires Advancing(turn, all)
    ensures done <= RunTurns(turn, all, at, valid, done).1
    decreases all - at
  {
    var t := turn(at, valid);
    if t.Go? {
      RunTurnsKeeps(turn, all, t.next, true, done + [t.a]);
    }
  }

  /** When the walk meets a shortened header, something is done that is not backed. */
  lemma ShortenedUnbacked(p: Platform, d: seq<byte>, head: nat, at: nat)
    requires Valid(p) && Meets(p, d, head, at) && Shortened(p, d, at)
    ensures exists a <- RunTurns(Turns(p, d), |d|, head, false, []).1 :: !Backed(p, d, a)
  {
    var acts :| MetTurns(Turns(p, d), acts, head, false, at);
    RunTurnsPrefix(Turns(p, d), |d|, acts, head, false, at, []);
    var t := TurnAt(p, d, at, acts != []);
    TurnsAt(p, d, at, acts != []);
    TurnUnbacked(p, d, at, acts != [], t);
    var all := RunTurns(Turns(p, d), |d|, head, false, []).1;
    if t.Go? {
      RunTurnsKeeps(Turns(p, d), |d|, t.next, true, [] + acts + [t.a]);
      assert all[|acts|] == t.a;
    } else {
      assert all[|acts|] == t.last[0];
    }
  }

  /** When it meets none, everything is backed. */
  lemma NoneUnbacked(p: Platform, d: seq<byte>, head: nat)
    requires Valid(p) && NoneShortened(p, d, head)
    ensures forall a <- RunTurns(Turns(p, d), |d|, head, false, []).1 :: Backed(p, d, a)
  {
    var acts, end, t := WalkShape(p, d, head);
    AllBacked(p, d, head, [], acts, head, end);
    LastBacked(p, d, head, end, acts != [], t);
  }

  lemma LastBacked(p: Platform, d: seq<byte>, head: nat, end: nat, valid: bool, t: Turn)
    requires Valid(p) && NoneShortened(p, d, head) && Meets(p, d, head, end) && t == TurnAt(p, d, end, valid) && t.Stop?
    ensures forall a <- t.last :: Backed(p, d, a)
  {
    TurnBacked(p, d, end, valid, t);
  }

  /**
   Exactly when no Linux image that the walk meets announces a negative length that leaves
   some of its header, every action of an upload is backed.
   */
  lemma VerifiedExactly(p: Platform, d: seq<byte>, head: nat)
    requires Valid(p)
    ensures (forall a <- RunTurns(Turns(p, d), |d|, head, false, []).1 :: Backed(p, d, a)) <==>
      NoneShortened(p, d, head)
  {
    if NoneShortened(p, d, head) {
      NoneUnbacked(p, d, head);
    } else {
      var at: nat :| Meets(p, d, head, at) && Shortened(p, d, at);
      ShortenedUnbacked(p, d, head, at);
    }
  }

  // ----- uploads put together from items

  /** An image of a kind, or a settings record that makes an update. */
  datatype Item = Image(kind: Kind, head: seq<byte>, body: seq<byte>) | Setting(r: Record, u: Update) {
    function Bytes(): seq<byte> {
      if Image? then head + body else r.Bytes()
    }
  }

  function Joined(items: seq<Item>): seq<byte> {
    if items == [] then [] else items[0].Bytes() + Joined(items[1..])
  }

  /** The image announces its length, and its checksum is right; the sum may take in one byte of what follows. */
  predicate GoodImage(p: Platform, kind: Kind, head: seq<byte>, body: seq<byte>, rest: seq<byte>)
    requires Valid(p)
  {
    && |head| == p.headerSize && kind == ImageKind(p, head[..4]) && IsImage(kind)
    && p.lenOf(head) == |body| <= SIZE_LIMIT && |body| + |rest| > 0 && SumLength(kind, |body|) <= |body| + |rest|
    && ChecksumPasses(p, kind, (body + rest)[..SumLength(kind, |body|)])
  }

  /** The record is seen as one and holds the code of an intact block. */
  ghost predicate GoodSetting(p: Platform, r: Record, u: Update, rest: seq<byte>)
    requires Valid(p)
  {
    && WellFormed(p.layout, r) && LookOf(p.layout, r) == Fine(u)
    && |r.Bytes()| + |rest| > p.headerSize && KindOf(p, r.Bytes() + rest, 0).Settings?
  }

  ghost predicate Good(p: Platform, it: Item, rest: seq<byte>)
    requires Valid(p)
  {
    if it.Image? then GoodImage(p, it.kind, it.head, it.body, rest) else GoodSetting(p, it.r, it.u, rest)
  }

  ghost predicate AllGood(p: Platform, items: seq<Item>, tail: seq<byte>)
    requires Valid(p)
  {
    items == [] || (Good(p, items[0], Joined(items[1..]) + tail) && AllGood(p, items[1..], tail))
  }

  ghost predicate WritesWork(p: Platform) {
    forall at: nat, n: nat :: p.written(at, n) >= n
  }

  /** What is to be done for an item: root images without, others with their header; a record is stored as it is. */
  function ActionOf(p: Platform, it: Item, at: nat): Action {
    if it.Setting? then Configured(at, it.u) else WriteOf(p, at, it.kind, it.head, it.body)
  }

  /** One action per item, in order. */
  function ActionsOf(p: Platform, items: seq<Item>, at: nat): seq<Action> {
    if items == [] then []
    else [ActionOf(p, items[0], at)] + ActionsOf(p, items[1..], at + |items[0].Bytes()|)
  }

  // ----- one item in an upload

  /** The first bytes of what lies at an offset. */
  lemma Front(d: seq<byte>, at: nat, a: seq<byte>, b: seq<byte>)
    requires at <= |d| && d[at..] == a + b
    ensures at + |a| <= |d| && d[at..at + |a|] == a && d[at + |a|..] == b
  {
    Pieces(d, at, a, b);
  }

  lemma ImageSeen(p: Platform, d: seq<byte>, at: nat, head: seq<byte>, rest: seq<byte>)
    requires Valid(p) && |head| == p.headerSize && rest != [] && !ImageKind(p, head[..4]).Unknown?
    requires at <= |d| && d[at..] == head + rest
    ensures at + p.headerSize < |d| && Header(p, d, at) == head && d[at + p.headerSize..] == rest
    ensures KindOf(p, d, at) == ImageKind(p, head[..4]) && !KindOf(p, d, at).Settings?
    ensures forall valid :: TurnAt(p, d, at, valid) == ImageTurn(p, d, at, KindOf(p, d, at))
  {
    Front(d, at, head, rest);
    assert d[at..at + 4] == d[at..at + |head|][..4];
  }

  lemma FrontOf(d: seq<byte>, at: nat, s: seq<byte>, n: nat)
    requires at <= |d| && d[at..] == s && n <= |s|
    ensures at + n <= |d| && d[at..at + n] == s[..n]
  {
  }

  /** An image whose sum is over the first n bytes behind its header. */
  lemma SummedTurn(p: Platform, d: seq<byte>, at: nat, kind: Kind, head: seq<byte>, rest: seq<byte>, len: nat, n: nat)
    requires Valid(p) && at + p.headerSize < |d| && Header(p, d, at) == head && d[at + p.headerSize..] == rest
    requires p.lenOf(head) == len <= SIZE_LIMIT && n == SumLength(kind, len) <= |rest|
    ensures ImageTurn(p, d, at, kind) ==
      if ChecksumPasses(p, kind, rest[..n]) then
        Written(p, WriteOf(p, at, kind, head, rest[..len]), at + p.headerSize + len)
      else Stop(BadChecksum, [])
  {
    FrontOf(d, at + p.headerSize, rest, n);
    FrontOf(d, at + p.headerSize, rest, len);
  }

  lemma WholeTurn(p: Platform, w: Action, next: nat)
    requires WritesWork(p) && w.Write? && w.at < next
    ensures Written(p, w, next) == Go(w, next)
  {
    assert p.written(w.at, |w.bytes|) >= |w.bytes|;
  }

  lemma GoodBodyTurn(p: Platform, d: seq<byte>, at: nat, kind: Kind, head: seq<byte>, body: seq<byte>, rest: seq<byte>)
    requires Valid(p) && GoodImage(p, kind, head, body, rest) && WritesWork(p)
    requires at + p.headerSize < |d| && Header(p, d, at) == head && d[at + p.headerSize..] == body + rest
    ensures ImageTurn(p, d, at, kind) == Go(WriteOf(p, at, kind, head, body), at + p.headerSize + |body|)
  {
    SummedTurn(p, d, at, kind, head, body + rest, |body|, SumLength(kind, |body|));
    assert (body + rest)[..|body|] == body;
    WholeTurn(p, WriteOf(p, at, kind, head, body), at + p.headerSize + |body|);
  }

  lemma GoodHeadTurn(p: Platform, d: seq<byte>, at: nat, kind: Kind, head: seq<byte>, body: seq<byte>, rest: seq<byte>,
                     valid: bool)
    requires Valid(p) && GoodImage(p, kind, head, body, rest) && WritesWork(p)
    requires at <= |d| && d[at..] == head + (body + rest)
    ensures TurnAt(p, d, at, valid) == Go(WriteOf(p, at, kind, head, body), at + |head| + |body|)
  {
    ImageSeen(p, d, at, head, body + rest);
    GoodBodyTurn(p, d, at, kind, head, body, rest);
  }

  lemma GoodImageTurn(p: Platform, d: seq<byte>, at: nat, it: Item, rest: seq<byte>, valid: bool)
    requires Valid(p) && it.Image? && Good(p, it, rest) && WritesWork(p)
    requires at <= |d| && d[at..] == it.Bytes() + rest
    ensures TurnAt(p, d, at, valid) == Go(ActionOf(p, it, at), at + |it.Bytes()|)
  {
    assert it.Bytes() + rest == it.head + (it.body + rest);
    GoodHeadTurn(p, d, at, it.kind, it.head, it.body, rest, valid);
  }

  lemma KindShift(p: Platform, d: seq<byte>, at: nat)
    requires at + 4 <= |d|
    ensures KindOf(p, d, at) == KindOf(p, d[at..], 0)
  {
    assert d[at..at + 4] == d[at..][..4];
    OccursShift(d, p.compSignature(HwSetting), at);
    OccursShift(d, p.compSignature(DefaultSetting), at);
    OccursShift(d, p.compSignature(CurrentSetting), at);
  }

  lemma OccursShift(d: seq<byte>, n: seq<byte>, at: nat)
    requires at <= |d|
    ensures OccursAt(d, n, at) <==> OccursAt(d[at..], n, 0)
  {
    if at + |n| <= |d| {
      assert d[at..at + |n|] == d[at..][..|n|];
    }
  }

  /** A record in the upload makes the turn that it makes anywhere. */
  lemma RecordTurn(p: Platform, d: seq<byte>, at: nat, r: Record, rest: seq<byte>)
    requires Valid(p) && WellFormed(p.layout, r) && !LookOf(p.layout, r).Broken?
    requires at <= |d| && d[at..] == r.Bytes() + rest
    ensures LookAt(p.layout, d, at, p.mem(at)) == LookOf(p.layout, r)
  {
    Front(d, at, r.Bytes(), rest);
    RecordSeen(p.layout, d, at, r, p.mem(at));
  }

  lemma SettingSeen(p: Platform, d: seq<byte>, at: nat, s: seq<byte>, valid: bool)
    requires Valid(p) && at <= |d| && d[at..] == s && |s| > p.headerSize && KindOf(p, s, 0).Settings?
    ensures TurnAt(p, d, at, valid) == SettingsTurn(p, d, at)
  {
    KindShift(p, d, at);
  }

  lemma GoodSettingTurn(p: Platform, d: seq<byte>, at: nat, it: Item, rest: seq<byte>, valid: bool)
    requires Valid(p) && it.Setting? && Good(p, it, rest)
    requires at <= |d| && d[at..] == it.Bytes() + rest
    ensures TurnAt(p, d, at, valid) == Go(ActionOf(p, it, at), at + |it.Bytes()|)
  {
    SettingSeen(p, d, at, it.Bytes() + rest, valid);
    RecordTurn(p, d, at, it.r, rest);
  }

  lemma GoodItemTurn(p: Platform, d: seq<byte>, at: nat, it: Item, rest: seq<byte>, valid: bool)
    requires Valid(p) && Good(p, it, rest) && WritesWork(p)
    requires at <= |d| && d[at..] == it.Bytes() + rest
    ensures TurnAt(p, d, at, valid) == Go(ActionOf(p, it, at), at + |it.Bytes()|)
  {
    if it.Image? {
      GoodImageTurn(p, d, at, it, rest, valid);
    } else {
      GoodSettingTurn(p, d, at, it, rest, valid);
    }
  }

  lemma GoodTurn(p: Platform, d: seq<byte>, at: nat, it: Item, rest: seq<byte>, valid: bool, next: nat)
    requires Valid(p) && Good(p, it, rest) && WritesWork(p)
    requires at <= |d| && d[at..] == it.Bytes() + rest && next == at + |it.Bytes()|
    ensures Turns(p, d)(at, valid) == Go(ActionOf(p, it, at), next)
  {
    TurnsAt(p, d, at, valid);
    GoodItemTurn(p, d, at, it, rest, valid);
  }

  // ----- all items

  lemma JoinedCons(items: seq<Item>, tail: seq<byte>, rest: seq<byte>)
    requires items != [] && rest == Joined(items[1..]) + tail
    ensures Joined(items) + tail == items[0].Bytes() + rest
    ensures |Joined(items)| == |items[0].Bytes()| + |Joined(items[1..])|
  {
    Glued(items[0].Bytes(), Joined(items[1..]), tail);
  }

  lemma Glued(a: seq<byte>, b: seq<byte>, c: seq<byte>)
    ensures a + b + c == a + (b + c)
  {
  }

  /** A good item lies at an offset of the upload. */
  ghost predicate Here(p: Platform, d: seq<byte>, at: nat, it: Item, rest: seq<byte>)
    requires Valid(p)
  {
    Good(p, it, rest) && at <= |d| && d[at..] == it.Bytes() + rest
  }

  ghost predicate Somewhere(p: Platform, d: seq<byte>, at: nat, it: Item)
    requires Valid(p)
  {
    exists rest :: Here(p, d, at, it, rest)
  }

  /** Where good items lie in an upload. */
  ghost function GoodSpots(p: Platform, d: seq<byte>): (nat, Item) -> bool
    requires Valid(p)
  {
    (at: nat, it: Item) => Somewhere(p, d, at, it)
  }

  lemma HereGood(p: Platform, d: seq<byte>, at: nat, it: Item, rest: seq<byte>)
    requires Valid(p) && Here(p, d, at, it, rest)
    ensures GoodSpots(p, d)(at, it)
  {
  }

  /** The turns are right for the items of some spots. */
  ghost predicate Handles(p: Platform, good: (nat, Item) -> bool, turn: (nat, bool) -> Turn) {
    forall at: nat, it: Item, valid: bool :: good(at, it) ==>
      turn(at, valid) == Go(ActionOf(p, it, at), at + |it.Bytes()|)
  }

  lemma SpotTurn(p: Platform, d: seq<byte>, at: nat, it: Item, valid: bool)
    requires Valid(p) && WritesWork(p) && GoodSpots(p, d)(at, it)
    ensures Turns(p, d)(at, valid) == Go(ActionOf(p, it, at), at + |it.Bytes()|)
  {
    assert Somewhere(p, d, at, it);
    var rest :| Here(p, d, at, it, rest);
    GoodTurn(p, d, at, it, rest, valid, at + |it.Bytes()|);
  }

  lemma TurnsHandle(p: Platform, d: seq<byte>)
    requires Valid(p) && WritesWork(p)
    ensures Handles(p, GoodSpots(p, d), Turns(p, d))
  {
    forall at: nat, it: Item, valid: bool | GoodSpots(p, d)(at, it)
      ensures Turns(p, d)(at, valid) == Go(ActionOf(p, it, at), at + |it.Bytes()|)
    {
      SpotTurn(p, d, at, it, valid);
    }
  }

  /** Items of these spots lie one behind the other, from at up to end. */
  ghost predicate AllHere(good: (nat, Item) -> bool, items: seq<Item>, at: nat, end: nat) {
    if items == [] then at == end
    else good(at, items[0]) && AllHere(good, items[1..], at + |items[0].Bytes()|, end)
  }

  lemma FirstHere(p: Platform, d: seq<byte>, items: seq<Item>, tail: seq<byte>, rest: seq<byte>, at: nat, next: nat)
    requires Valid(p) && AllGood(p, items, tail) && items != []
    requires at <= |d| && d[at..] == Joined(items) + tail && next == at + |items[0].Bytes()|
    requires rest == Joined(items[1..]) + tail
    ensures Here(p, d, at, items[0], rest) && next <= |d| && d[next..] == rest && AllGood(p, items[1..], tail)
    ensures |Joined(items)| == |items[0].Bytes()| + |Joined(items[1..])|
  {
    JoinedCons(items, tail, rest);
    Front(d, at, items[0].Bytes(), rest);
  }

  lemma AllHereCons(good: (nat, Item) -> bool, items: seq<Item>, at: nat, next: nat, end: nat)
    requires items != [] && good(at, items[0]) && next == at + |items[0].Bytes()|
    requires AllHere(good, items[1..], next, end)
    ensures AllHere(good, items, at, end)
  {
  }

  lemma {:induction false} ItemsHere(p: Platform, d: seq<byte>, items: seq<Item>, tail: seq<byte>, text: seq<byte>,
                                     at: nat, end: nat)
    requires Valid(p) && AllGood(p, items, tail)
    requires text == Joined(items) + tail && at <= |d| && d[at..] == text && end == at + |Joined(items)|
    ensures AllHere(GoodSpots(p, d), items, at, end) && end <= |d| && d[end..] == tail
    decreases |items|
  {
    if items == [] {
      assert text == tail;
    } else {
      var rest, next := Joined(items[1..]) + tail, at + |items[0].Bytes()|;
      FirstHere(p, d, items, tail, rest, at, next);
      HereGood(p, d, at, items[0], rest);
      ItemsHere(p, d, items[1..], tail, rest, next, end);
      AllHereCons(GoodSpots(p, d), items, at, next, end);
    }
  }

  /** A walk that handles good items meets them one by one. */
  lemma {:induction false} ItemsMet(p: Platform, good: (nat, Item) -> bool, turn: (nat, bool) -> Turn,
                                    items: seq<Item>, at: nat, valid: bool, end: nat)
    requires Handles(p, good, turn) && AllHere(good, items, at, end)
    ensures MetTurns(turn, ActionsOf(p, items, at), at, valid, end)
    decreases |items|
  {
    if items != [] {
      var next := at + |items[0].Bytes()|;
      var a, more := ActionOf(p, items[0], at), ActionsOf(p, items[1..], next);
      assert turn(at, valid) == Go(a, next);
      ItemsMet(p, good, turn, items[1..], next, true, end);
      MetTurnsCons(turn, a, more, ActionsOf(p, items, at), at, valid, next, end);
    }
  }

  /** On a framed file the upgrade handles the good items, then goes on with the tail. */
  lemma WalkFramed(p: Platform, items: seq<Item>, tail: seq<byte>) returns (d: seq<byte>, end: nat)
    requires Valid(p) && AllGood(p, items, tail) && WritesWork(p)
    ensures d == Framed(Joined(items) + tail) && end <= |d| && d[end..] == tail
    ensures Upgrade(p, d) == RunTurns(Turns(p, d), |d|, end, items != [], ActionsOf(p, items, 17))
  {
    d, end := Framed(Joined(items) + tail), 17 + |Joined(items)|;
    FramedOffset(Joined(items) + tail);
    TurnsHandle(p, d);
    ItemsHere(p, d, items, tail, Joined(items) + tail, 17, end);
    ItemsMet(p, GoodSpots(p, d), Turns(p, d), items, 17, false, end);
    RunTurnsPrefix(Turns(p, d), |d|, ActionsOf(p, items, 17), 17, false, end, []);
    assert [] + ActionsOf(p, items, 17) == ActionsOf(p, items, 17);
  }

  /** What comes behind the good items stops the walk: nothing more is done, but for a last action. */
  lemma WalkStopsBehind(p: Platform, items: seq<Item>, d: seq<byte>, end: nat, tail: seq<byte>,
                        o: Ending, last: seq<Action>)
    requires Valid(p) && AllGood(p, items, tail)
    requires Upgrade(p, d) == RunTurns(Turns(p, d), |d|, end, items != [], ActionsOf(p, items, 17))
    requires TurnAt(p, d, end, items != []) == Stop(o, last)
    ensures Upgrade(p, d) == (o, ActionsOf(p, items, 17) + last)
  {
    TurnsAt(p, d, end, items != []);
  }

  /** A framed file of good items is installed completely, each item at its place and in order. */
  lemma AllInstalled(p: Platform, items: seq<Item>)
    requires Valid(p) && AllGood(p, items, []) && WritesWork(p)
    ensures Upgrade(p, Framed(Joined(items))) == (Done, ActionsOf(p, items, 17))
  {
    TailIgnored(p, items, []);
    assert Joined(items) + [] == Joined(items);
  }

  /** What is too short for an image, or has no known signature behind good items, is ignored. */
  lemma TailIgnored(p: Platform, items: seq<Item>, tail: seq<byte>)
    requires Valid(p) && AllGood(p, items, tail) && WritesWork(p)
    requires |tail| <= p.headerSize || (items != [] && KindOf(p, tail, 0).Unknown?)
    ensures Upgrade(p, Framed(Joined(items) + tail)) == (Done, ActionsOf(p, items, 17))
  {
    var d, end := WalkFramed(p, items, tail);
    if |tail| > p.headerSize {
      KindShift(p, d, end);
    }
    WalkStopsBehind(p, items, d, end, tail, Done, []);
    assert ActionsOf(p, items, 17) + [] == ActionsOf(p, items, 17);
  }

  lemma ShortenedTurn(p: Platform, d: seq<byte>, at: nat, head: seq<byte>, rest: seq<byte>, len: int, valid: bool)
    requires Valid(p) && |head| == p.headerSize && rest != [] && ImageKind(p, head[..4]).Linux? && WritesWork(p)
    requires at <= |d| && d[at..] == head + rest && len == p.lenOf(head) < 0 < p.headerSize + len
    ensures Shortened(p, d, at) && d[at + p.headerSize + len..] == head[p.headerSize + len..] + rest
    ensures var w := Write(at, FlashDevice, p.burnAddr(head), head[..p.headerSize + len]);
      TurnAt(p, d, at, valid) == Go(w, at + p.headerSize + len) && !Backed(p, d, w)
  {
    ImageSeen(p, d, at, head, rest);
    NegativeTurns(p, d, at);
    Front(d, at, head, rest);
    assert d[at..at + p.headerSize + len] == d[at..at + |head|][..p.headerSize + len];
    WholeTurn(p, ShortWrite(p, d, at), at + p.headerSize + len);
  }

  /**
   The front of the header is written to the address that it names, without any check, and
   at next follows the rest of the header.
   */
  ghost predicate FrontWritten(p: Platform, d: seq<byte>, head: seq<byte>, rest: seq<byte>, len: int, s: (Action, nat))
    requires Valid(p) && |head| == p.headerSize && 0 <= p.headerSize + len <= |head|
  {
    && s.0.Write? && s.0.device == FlashDevice && s.0.addr == p.burnAddr(head) && !Backed(p, d, s.0)
    && s.0.bytes == head[..p.headerSize + len]
    && s.1 <= |d| && d[s.1..] == head[p.headerSize + len..] + rest
  }

  ghost function FrontWrites(p: Platform, d: seq<byte>, head: seq<byte>, rest: seq<byte>, len: int): iset<(Action, nat)>
    requires Valid(p) && |head| == p.headerSize && 0 <= p.headerSize + len <= |head|
  {
    iset s: (Action, nat) | FrontWritten(p, d, head, rest, len, s)
  }

  lemma NegativeAt(p: Platform, d: seq<byte>, at: nat, head: seq<byte>, rest: seq<byte>, len: int, valid: bool)
    returns (w: Action, next: nat)
    requires Valid(p) && |head| == p.headerSize && rest != [] && ImageKind(p, head[..4]).Linux? && WritesWork(p)
    requires at <= |d| && d[at..] == head + rest && len == p.lenOf(head) < 0 < p.headerSize + len
    ensures (w, next) in FrontWrites(p, d, head, rest, len) && TurnAt(p, d, at, valid) == Go(w, next)
  {
    w, next := Write(at, FlashDevice, p.burnAddr(head), head[..p.headerSize + len]), at + p.headerSize + len;
    ShortenedTurn(p, d, at, head, rest, len, valid);
  }

  /**
   A Linux header that announces a negative length is no end of the walk: its front is
   written to the address that it names, without any check, and the walk goes on with the
   rest of the header, as after an image.
   */
  lemma NegativeLength(p: Platform, items: seq<Item>, head: seq<byte>, rest: seq<byte>, len: int)
    returns (d: seq<byte>, w: Action, next: nat)
    requires Valid(p) && AllGood(p, items, head + rest) && WritesWork(p)
    requires |head| == p.headerSize && rest != [] && ImageKind(p, head[..4]).Linux?
    requires len == p.lenOf(head) < 0 < p.headerSize + len
    ensures d == Framed(Joined(items) + (head + rest)) && (w, next) in FrontWrites(p, d, head, rest, len)
    ensures Upgrade(p, d) == RunTurns(Turns(p, d), |d|, next, true, ActionsOf(p, items, 17) + [w])
  {
    var end;
    d, end := WalkFramed(p, items, head + rest);
    w, next := NegativeAt(p, d, end, head, rest, len, items != []);
    RunOn(p, d, end, items != [], ActionsOf(p, items, 17), w, next);
  }

  /** A turn that goes on. */
  lemma RunOn(p: Platform, d: seq<byte>, at: nat, valid: bool, done: seq<Action>, a: Action, next: nat)
    requires Valid(p) && TurnAt(p, d, at, valid) == Go(a, next)
    ensures RunTurns(Turns(p, d), |d|, at, valid, done) == RunTurns(Turns(p, d), |d|, next, true, done + [a])
  {
    TurnsAt(p, d, at, valid);
  }

  /** With length -1 and no more behind the header than it is long, the upgrade ends in success after that. */
  lemma MinusOne(p: Platform, items: seq<Item>, head: seq<byte>, rest: seq<byte>) returns (w: Action)
    requires Valid(p) && AllGood(p, items, head + rest) && WritesWork(p)
    requires |head| == p.headerSize && ImageKind(p, head[..4]).Linux? && p.lenOf(head) == -1
    requires 0 < |rest| < p.headerSize
    ensures var d := Framed(Joined(items) + (head + rest));
      Upgrade(p, d) == (Done, ActionsOf(p, items, 17) + [w]) && !Backed(p, d, w)
    ensures w.Write? && w.addr == p.burnAddr(head) && w.bytes == head[..p.headerSize - 1]
  {
    var d, next;
    d, w, next := NegativeLength(p, items, head, rest, -1);
    assert |d[next..]| == 1 + |rest|;
    TurnsAt(p, d, next, true);
    var acts := ActionsOf(p, items, 17) + [w];
    assert acts + [] == acts;
  }

  /** An image whose header announces too much stops the walk unwritten, whatever follows its header. */
  lemma LongImageStops(p: Platform, items: seq<Item>, head: seq<byte>, rest: seq<byte>)
    requires Valid(p) && AllGood(p, items, head + rest) && WritesWork(p)
    requires |head| == p.headerSize && rest != [] && IsImage(ImageKind(p, head[..4])) && p.lenOf(head) > SIZE_LIMIT
    ensures Upgrade(p, Framed(Joined(items) + (head + rest))) == (TooLong, ActionsOf(p, items, 17))
  {
    var d, end := WalkFramed(p, items, head + rest);
    ImageSeen(p, d, end, head, rest);
    WalkStopsBehind(p, items, d, end, head + rest, TooLong, []);
    assert ActionsOf(p, items, 17) + [] == ActionsOf(p, items, 17);
  }

  /** So does an image with a wrong checksum: what has been done is for the good items before it. */
  lemma BadImageStops(p: Platform, items: seq<Item>, head: seq<byte>, rest: seq<byte>, kind: Kind, len: nat)
    requires Valid(p) && AllGood(p, items, head + rest) && WritesWork(p)
    requires |head| == p.headerSize && rest != [] && kind == ImageKind(p, head[..4]) && IsImage(kind)
    requires len == p.lenOf(head) <= SIZE_LIMIT && SumLength(kind, len) <= |rest|
    requires !ChecksumPasses(p, kind, rest[..SumLength(kind, len)])
    ensures Upgrade(p, Framed(Joined(items) + (head + rest))) == (BadChecksum, ActionsOf(p, items, 17))
  {
    var d, end := WalkFramed(p, items, head + rest);
    ImageSeen(p, d, end, head, rest);
    SummedTurn(p, d, end, kind, head, rest, len, SumLength(kind, len));
    WalkStopsBehind(p, items, d, end, head + rest, BadChecksum, []);
    assert ActionsOf(p, items, 17) + [] == ActionsOf(p, items, 17);
  }

  lemma BadSettingTurn(p: Platform, d: seq<byte>, at: nat, r: Record, rest: seq<byte>, valid: bool)
    requires Valid(p) && WellFormed(p.layout, r) && (LookOf(p.layout, r).Corrupt? || LookOf(p.layout, r).Foreign?)
    requires |r.Bytes()| + |rest| > p.headerSize && KindOf(p, r.Bytes() + rest, 0).Settings?
    requires at <= |d| && d[at..] == r.Bytes() + rest
    ensures TurnAt(p, d, at, valid) == Stop(InvalidConfig, [])
  {
    SettingSeen(p, d, at, r.Bytes() + rest, valid);
    RecordTurn(p, d, at, r, rest);
  }

  /** And so does a settings record with a wrong checksum or without a known tag. */
  lemma BadSettingStops(p: Platform, items: seq<Item>, r: Record, rest: seq<byte>, tail: seq<byte>)
    requires Valid(p) && tail == r.Bytes() + rest && AllGood(p, items, tail) && WritesWork(p)
    requires WellFormed(p.layout, r) && (LookOf(p.layout, r).Corrupt? || LookOf(p.layout, r).Foreign?)
    requires |tail| > p.headerSize && KindOf(p, tail, 0).Settings?
    ensures Upgrade(p, Framed(Joined(items) + tail)) == (InvalidConfig, ActionsOf(p, items, 17))
  {
    var d, end := WalkFramed(p, items, tail);
    BadSettingTurn(p, d, end, r, rest, items != []);
    WalkStopsBehind(p, items, d, end, tail, InvalidConfig, []);
    assert ActionsOf(p, items, 17) + [] == ActionsOf(p, items, 17);
  }
}

/** Uploads with settings that Encode has compressed. */
module InstallTheorems {
  import opened Config
  import opened Firmware
  import opened ConfigRecords
  import opened ConfigTheorems
  import opened ImageWalk
  import opened ImageTheorems
  import opened Matching
  import History

  /** A good image, or an encoded settings record that is seen as one. */
  ghost predicate Shipped(p: Platform, it: Item, rest: seq<byte>)
    requires Valid(p)
  {
    if it.Image? then GoodImage(p, it.kind, it.head, it.body, rest)
    else
      && EncodedRecord(p.layout, it.r) && LookOf(p.layout, it.r) == Fine(it.u)
      && |it.r.Bytes()| + |rest| > p.headerSize && KindOf(p, it.r.Bytes() + rest, 0).Settings?
  }

  ghost predicate AllShipped(p: Platform, items: seq<Item>)
    requires Valid(p)
  {
    items == [] || (Shipped(p, items[0], Joined(items[1..])) && AllShipped(p, items[1..]))
  }

  lemma {:induction false} ShippedGood(p: Platform, items: seq<Item>)
    requires Valid(p) && AllShipped(p, items)
    ensures AllGood(p, items, [])
    decreases |items|
  {
    if items != [] {
      assert Joined(items[1..]) + [] == Joined(items[1..]);
      if items[0].Setting? {
        EncodedWellFormed(p.layout, items[0].r);
      }
      ShippedGood(p, items[1..]);
    }
  }

  /** What an update leaves in flash expands to a block, whatever the decoder's buffer held. */
  ghost predicate Restores(l: Layout, u: Update, plain: seq<byte>) {
    |u.bytes| >= l.compHeaderSize && forall junk: Text :: History.Decoded(u.bytes[l.compHeaderSize..], junk) == plain
  }

  /** The action is that of the item; the update of a record restores its block. */
  ghost predicate Installed(p: Platform, it: Item, a: Action)
    requires Valid(p)
  {
    && a == ActionOf(p, it, a.at)
    && (it.Setting? ==> Restores(p.layout, a.u, it.r.plain))
  }

  lemma OneInstalled(p: Platform, it: Item, at: nat, rest: seq<byte>)
    requires Valid(p) && Good(p, it, rest)
    ensures Installed(p, it, ActionOf(p, it, at))
  {
    if it.Setting? {
      assert it.r.Bytes()[p.layout.compHeaderSize..] == it.r.code;
    }
  }

  /** One action for each item, in order. */
  ghost predicate AllInPlace(p: Platform, items: seq<Item>, actions: seq<Action>)
    requires Valid(p)
  {
    if items == [] then actions == []
    else actions != [] && Installed(p, items[0], actions[0]) && AllInPlace(p, items[1..], actions[1..])
  }

  lemma InPlaceCons(p: Platform, items: seq<Item>, a: Action, more: seq<Action>, actions: seq<Action>)
    requires Valid(p) && items != [] && Installed(p, items[0], a) && AllInPlace(p, items[1..], more)
    requires actions == [a] + more
    ensures AllInPlace(p, items, actions)
  {
    assert actions[1..] == more;
  }

  lemma FirstInstalled(p: Platform, items: seq<Item>, at: nat, tail: seq<byte>)
    requires Valid(p) && AllGood(p, items, tail) && items != []
    ensures Installed(p, items[0], ActionOf(p, items[0], at)) && AllGood(p, items[1..], tail)
  {
    OneInstalled(p, items[0], at, Joined(items[1..]) + tail);
  }

  lemma {:induction false} GoodInPlace(p: Platform, items: seq<Item>, at: nat, tail: seq<byte>, actions: seq<Action>)
    requires Valid(p) && AllGood(p, items, tail) && actions == ActionsOf(p, items, at)
    ensures AllInPlace(p, items, actions)
    decreases |items|
  {
    if items != [] {
      var a, next := ActionOf(p, items[0], at), at + |items[0].Bytes()|;
      var more := ActionsOf(p, items[1..], next);
      FirstInstalled(p, items, at, tail);
      GoodInPlace(p, items[1..], next, tail, more);
      InPlaceCons(p, items, a, more, actions);
    }
  }

  /**
   A framed file of images and of settings compressed by Encode is installed completely: one
   action per item, in order, the images whole and at their places, the settings as records
   that expand to what was compressed.
   */
  lemma UpgradeInstalls(p: Platform, items: seq<Item>) returns (actions: seq<Action>)
    requires Valid(p) && AllShipped(p, items) && WritesWork(p)
    ensures Upgrade(p, Framed(Joined(items))) == (Done, actions)
    ensures actions == ActionsOf(p, items, 17) && AllInPlace(p, items, actions)
  {
    ShippedGood(p, items);
    AllInstalled(p, items);
    actions := ActionsOf(p, items, 17);
    GoodInPlace(p, items, 17, [], actions);
  }
}
