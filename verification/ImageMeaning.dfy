/**
 What the upgrade does, in terms of the upload alone: which bytes go to which address of which
 device, for which signatures, and after which tests.
 */
module ImageMeaning {
  import opened Config
  import opened CStrings
  import opened Firmware
  import opened ConfigRecords
  import opened ImageWalk
  import opened ImageTheorems
  import opened RecordMeaning

  // ----- signatures

  /** "cs6c" or "cr6c" */
  predicate LinuxSignature(s: seq<byte>) {
    s == [0x63, 0x73, 0x36, 0x63] || s == [0x63, 0x72, 0x36, 0x63]
  }

  /** "r6cr" */
  predicate RootSignature(s: seq<byte>) {
    s == [0x72, 0x36, 0x63, 0x72]
  }

  lemma SignatureBytes()
    ensures Ascii("cs6c") == [0x63, 0x73, 0x36, 0x63] && Ascii("cr6c") == [0x63, 0x72, 0x36, 0x63]
    ensures Ascii("r6cr") == [0x72, 0x36, 0x63, 0x72]
  {
  }

  predicate SettingsSignature(p: Platform, s: seq<byte>) {
    p.compSignature(HwSetting) <= s || p.compSignature(DefaultSetting) <= s || p.compSignature(CurrentSetting) <= s
  }

  /** The signatures are tried in the order Linux, web, root, settings. */
  lemma KindMeans(p: Platform, d: seq<byte>, at: nat)
    requires at + 4 <= |d|
    ensures var sig, kind := d[at..at + 4], KindOf(p, d, at);
      if LinuxSignature(sig) then kind.Linux?
      else if sig == p.webSignature then kind.Web?
      else if RootSignature(sig) then kind.Root?
      else if SettingsSignature(p, d[at..]) then kind.Settings?
      else kind.Unknown?
  {
    SignatureBytes();
    PrefixOccurs(d, p.compSignature(HwSetting), at);
    PrefixOccurs(d, p.compSignature(DefaultSetting), at);
    PrefixOccurs(d, p.compSignature(CurrentSetting), at);
  }

  lemma PrefixOccurs(d: seq<byte>, n: seq<byte>, at: nat)
    requires at <= |d|
    ensures OccursAt(d, n, at) <==> n <= d[at..]
  {
    if at + |n| <= |d| {
      assert d[at..at + |n|] == d[at..][..|n|];
    }
  }

  // ----- writes

  /**
   The write of the image at an offset that announces len bytes: a root image goes without
   its header to the start of the second device, others go with it to their own address of
   the first.
   */
  predicate Placed(p: Platform, d: seq<byte>, at: nat, len: int, w: Action)
    requires p.headerSize >= 4 && at + p.headerSize <= |d|
  {
    var body := at + p.headerSize;
    var sig, head := d[at..at + 4], d[at..body];
    && body + len <= |d|
    && if LinuxSignature(sig) || sig == p.webSignature then
         at <= body + len && w == Write(at, FlashDevice, p.burnAddr(head), d[at..body + len])
       else
         RootSignature(sig) && 0 <= len && w == Write(at, FlashDevice1, 0, d[body..body + len])
  }

  /** The image has passed its tests: the 16-bit words of firmware sum up to 0, CHECKSUM_OK holds of web pages. */
  predicate Tested(p: Platform, d: seq<byte>, at: nat, len: int)
    requires p.headerSize >= 4 && at + p.headerSize <= |d|
  {
    TestedAs(p, !LinuxSignature(d[at..at + 4]) && d[at..at + 4] == p.webSignature, d, at + p.headerSize, len)
  }

  predicate TestedAs(p: Platform, web: bool, d: seq<byte>, body: nat, len: int)
  {
    && 0 <= len <= 0x400000 && body + len <= |d|
    && if web then p.checksumOk(d[body..body + len])
       else body + len + len % 2 <= |d| && Words(d[body..body + len + len % 2], (len + len % 2) / 2) % 0x1_0000 == 0
  }

  /** The action is the write of a tested image, or of the front of a Linux header; or the update of a record. */
  ghost predicate Meant(p: Platform, d: seq<byte>, a: Action)
    requires Valid(p)
  {
    && a.at + p.headerSize < |d|
    && match a
       case Write(at, _, _, bytes) =>
         var len := p.lenOf(d[at..at + p.headerSize]);
         && Placed(p, d, at, len, a) && p.written(at, |bytes|) >= |bytes|
         && (Tested(p, d, at, len) || (LinuxSignature(d[at..at + 4]) && len < 0))
       case Configured(at, u) => SettingsSignature(p, d[at..]) && Stored(p.layout, d, at, p.mem(at), u)
  }

  /** Where the item of an action ends. */
  function ItemEnd(p: Platform, d: seq<byte>, a: Action): int
    requires a.at + p.headerSize < |d|
  {
    if a.Configured? then a.at + |a.u.bytes| else a.at + p.headerSize + p.lenOf(d[a.at..a.at + p.headerSize])
  }

  lemma WholePlaced(p: Platform, d: seq<byte>, at: nat)
    requires Valid(p) && at + p.headerSize < |d| && Measured(p, d, at)
    ensures Placed(p, d, at, p.lenOf(d[at..at + p.headerSize]), WholeWrite(p, d, at))
  {
    KindMeans(p, d, at);
    var body, len := at + p.headerSize, p.lenOf(Header(p, d, at));
    Adjacent(d, at, body, body + len);
  }

  lemma Adjacent(d: seq<byte>, i: nat, j: nat, k: nat)
    requires i <= j <= k <= |d|
    ensures d[i..j] + d[j..k] == d[i..k]
  {
  }

  lemma FirmwareSum(d: seq<byte>, body: nat, len: nat)
    requires body + len + len % 2 <= |d|
    ensures SumOk(d[body..body + Even(len)])
       <==> Words(d[body..body + len + len % 2], (len + len % 2) / 2) % 0x1_0000 == 0
  {
    SumOfWords(d[body..body + len + len % 2], (len + len % 2) / 2);
  }

  lemma PassesTested(p: Platform, kind: Kind, d: seq<byte>, body: nat, len: int)
    requires IsImage(kind) && 0 <= len <= SIZE_LIMIT && body + SumLength(kind, len) <= |d|
    ensures ChecksumPasses(p, kind, d[body..body + SumLength(kind, len)]) <==> TestedAs(p, kind.Web?, d, body, len)
  {
    if !kind.Web? {
      FirmwareSum(d, body, len);
    }
  }

  lemma SoundTested(p: Platform, d: seq<byte>, at: nat)
    requires Valid(p) && at + p.headerSize < |d| && Measured(p, d, at)
    ensures Sound(p, d, at) <==> Tested(p, d, at, p.lenOf(d[at..at + p.headerSize]))
  {
    KindMeans(p, d, at);
    PassesTested(p, KindOf(p, d, at), d, at + p.headerSize, p.lenOf(Header(p, d, at)));
  }

  lemma WholeMeant(p: Platform, d: seq<byte>, a: Action)
    requires Valid(p) && Verified(p, d, a) && a.Write?
    ensures Meant(p, d, a)
  {
    TestedPlaced(p, d, a.at, WholeWrite(p, d, a.at));
    WriteMeant(p, d, a, p.lenOf(d[a.at..a.at + p.headerSize]));
  }

  lemma TestedPlaced(p: Platform, d: seq<byte>, at: nat, w: Action)
    requires Valid(p) && at + p.headerSize < |d| && Measured(p, d, at) && Sound(p, d, at) && w == WholeWrite(p, d, at)
    ensures var len := p.lenOf(d[at..at + p.headerSize]); Placed(p, d, at, len, w) && Tested(p, d, at, len)
  {
    WholePlaced(p, d, at);
    SoundTested(p, d, at);
  }

  lemma WriteMeant(p: Platform, d: seq<byte>, a: Action, len: int)
    requires Valid(p) && a.Write? && a.at + p.headerSize < |d| && len == p.lenOf(d[a.at..a.at + p.headerSize])
    requires Placed(p, d, a.at, len, a) && p.written(a.at, |a.bytes|) >= |a.bytes| && Tested(p, d, a.at, len)
    ensures Meant(p, d, a)
  {
  }

  lemma UpdateMeant(p: Platform, d: seq<byte>, a: Action)
    requires Valid(p) && Verified(p, d, a) && a.Configured?
    ensures Meant(p, d, a)
  {
    KindMeans(p, d, a.at);
    FineStored(p.layout, d, a.at, p.mem(a.at), a.u);
  }

  lemma FragmentMeant(p: Platform, d: seq<byte>, a: Action)
    requires Valid(p) && Fragment(p, d, a)
    ensures Meant(p, d, a)
  {
    KindMeans(p, d, a.at);
  }

  lemma VerifiedMeant(p: Platform, d: seq<byte>, a: Action)
    requires Valid(p) && (Verified(p, d, a) || Fragment(p, d, a))
    ensures Meant(p, d, a) && ItemEnd(p, d, a) == EndOf(p, d, a)
  {
    if a.Configured? {
      UpdateMeant(p, d, a);
    } else if Verified(p, d, a) {
      WholeMeant(p, d, a);
    } else {
      FragmentMeant(p, d, a);
    }
  }

  /** The actions are meant, and their items lie one behind the other, from at up to end. */
  ghost predicate AllMeant(p: Platform, d: seq<byte>, acts: seq<Action>, at: nat, end: nat)
    requires Valid(p)
    decreases |acts|
  {
    if acts == [] then at == end
    else
      && acts[0].at == at && Meant(p, d, acts[0]) && at < ItemEnd(p, d, acts[0])
      && AllMeant(p, d, acts[1..], ItemEnd(p, d, acts[0]), end)
  }

  lemma {:induction false} AdjoiningMeant(p: Platform, d: seq<byte>, acts: seq<Action>, at: nat, end: nat)
    requires Valid(p) && Adjoining(p, d, acts, at, end)
    ensures AllMeant(p, d, acts, at, end)
    decreases |acts|
  {
    if acts != [] {
      VerifiedMeant(p, d, acts[0]);
      AdjoiningMeant(p, d, acts[1..], EndOf(p, d, acts[0]), end);
    }
  }

  /** a is what the write w for an offset has completed of its bytes. */
  predicate FrontOf(p: Platform, at: nat, w: Action, a: Action) {
    && w.Write? && a.Write? && a.bytes < w.bytes && a == w.(bytes := a.bytes)
    && |a.bytes| == Max(0, p.written(at, |w.bytes|))
  }

  /** What is left of the write of the image at an offset that fell short. */
  ghost predicate LeftOver(p: Platform, d: seq<byte>, at: nat, a: Action)
    requires p.headerSize >= 4 && at + p.headerSize <= |d|
  {
    var len := p.lenOf(d[at..at + p.headerSize]);
    && a.Write? && (Tested(p, d, at, len) || (LinuxSignature(d[at..at + 4]) && len < 0))
    && (exists w :: Placed(p, d, at, len, w) && FrontOf(p, at, w, a))
  }

  lemma ShortMeant(p: Platform, d: seq<byte>, at: nat, w: Action, last: seq<Action>)
    requires Valid(p) && at + p.headerSize < |d|
    requires var len := p.lenOf(d[at..at + p.headerSize]);
      && Placed(p, d, at, len, w) && (Tested(p, d, at, len) || (LinuxSignature(d[at..at + 4]) && len < 0))
    requires w.Write? && w.at == at && FallsShort(p, w, last)
    ensures |last| <= 1 && (last != [] ==> LeftOver(p, d, at, last[0]))
  {
    if last != [] {
      assert FrontOf(p, at, w, last[0]);
    }
  }

  lemma LastMeant(p: Platform, d: seq<byte>, end: nat, valid: bool, o: Ending, last: seq<Action>)
    requires Valid(p) && Reason(p, d, end, valid, o, last)
    ensures |last| <= 1
    ensures last != [] ==> o.WriteFailed? && end + p.headerSize < |d| && LeftOver(p, d, end, last[0])
  {
    if o.WriteFailed? && end + p.headerSize < |d| {
      KindMeans(p, d, end);
      if Measured(p, d, end) {
        WholePlaced(p, d, end);
        SoundTested(p, d, end);
        ShortMeant(p, d, end, WholeWrite(p, d, end), last);
      } else if Shortened(p, d, end) {
        ShortMeant(p, d, end, ShortWrite(p, d, end), last);
      }
    }
  }

  /** Why the walk ends at an offset; valid tells whether there was an item before. */
  ghost predicate Ended(p: Platform, d: seq<byte>, at: nat, valid: bool, o: Ending)
    requires Valid(p)
  {
    if at + p.headerSize >= |d| then o.Done?
    else
      var sig, len := d[at..at + 4], p.lenOf(d[at..at + p.headerSize]);
      if LinuxSignature(sig) || sig == p.webSignature || RootSignature(sig) then
        if len > 0x400000 then o.TooLong?
        else if len >= 0 then
          if o.OutOfBounds? then |d| < at + p.headerSize + len + len % 2
          else if Tested(p, d, at, len) then o.WriteFailed? else o.BadChecksum?
        else if LinuxSignature(sig) && p.headerSize + len > 0 then o.WriteFailed?
        else if LinuxSignature(sig) && p.headerSize + len == 0 then o.WriteFailed? || o.Endless?
        else o.NegativeSize?
      else if SettingsSignature(p, d[at..]) then
        exists look :: Means(p.layout, d, at, p.mem(at), look) &&
          if look.Broken? then o.OutOfBounds? else (look.Corrupt? || look.Foreign?) && o.InvalidConfig?
      else if valid then o.Done? else o.InvalidFormat?
  }

  lemma ReasonEnds(p: Platform, d: seq<byte>, at: nat, valid: bool, o: Ending, last: seq<Action>)
    requires Valid(p) && Reason(p, d, at, valid, o, last)
    ensures Ended(p, d, at, valid, o)
  {
    if at + p.headerSize < |d| {
      KindMeans(p, d, at);
      var kind := KindOf(p, d, at);
      if kind.Settings? {
        LookMeans(p.layout, d, at, p.mem(at));
      } else if IsImage(kind) && Measured(p, d, at) {
        SoundTested(p, d, at);
      }
    }
  }

  /**
   For every upload: all actions but perhaps the last are meant, their items adjoin, and the
   walk ends behind them for the reason given; only a failed write is followed by what it left
   of an image that has passed its tests. Without an offset to start from nothing is done.
   */
  lemma EveryAction(p: Platform, d: seq<byte>) returns (acts: seq<Action>, end: nat, last: seq<Action>)
    requires Valid(p)
    ensures var (head, (o, all)) := (FindHeadOffset(d), Upgrade(p, d));
      if head == -1 then o.InvalidFormat? && all == []
      else
        && AllMeant(p, d, acts, head, end) && all == acts + last && |last| <= 1 && Ended(p, d, end, acts != [], o)
        && (last != [] ==> o.WriteFailed? && end + p.headerSize < |d| && LeftOver(p, d, end, last[0]))
  {
    var head := FindHeadOffset(d);
    acts, end, last := [], 0, [];
    if head >= 0 {
      acts, end, last := OnlyVerified(p, d, head);
      AdjoiningMeant(p, d, acts, head, end);
      LastMeant(p, d, end, acts != [], Upgrade(p, d).0, last);
      ReasonEnds(p, d, end, acts != [], Upgrade(p, d).0, last);
    }
  }

  // ----- framed files

  /** An image whose header announces its length, and that passes the test that its signature asks for. */
  predicate RightImage(p: Platform, head: seq<byte>, body: seq<byte>, rest: seq<byte>)
    requires Valid(p)
  {
    && |head| == p.headerSize && p.lenOf(head) == |body| <= 0x400000 && body + rest != []
    && if !LinuxSignature(head[..4]) && head[..4] == p.webSignature then p.checksumOk(body)
       else
         && (LinuxSignature(head[..4]) || RootSignature(head[..4])) && |body| + |body| % 2 <= |body + rest|
         && Words((body + rest)[..|body| + |body| % 2], (|body| + |body| % 2) / 2) % 0x1_0000 == 0
  }

  /** A root image goes to the start of the second device, others go to their own address of the first. */
  predicate Landed(p: Platform, head: seq<byte>, body: seq<byte>, at: nat, a: Action)
    requires |head| >= 4
  {
    if LinuxSignature(head[..4]) || head[..4] == p.webSignature then
      a == Write(at, FlashDevice, p.burnAddr(head), head + body)
    else RootSignature(head[..4]) && a == Write(at, FlashDevice1, 0, body)
  }

  lemma RightIsGood(p: Platform, head: seq<byte>, body: seq<byte>, rest: seq<byte>)
    requires Valid(p)
    ensures RightImage(p, head, body, rest) <==>
      |head| == p.headerSize && GoodImage(p, ImageKind(p, head[..4]), head, body, rest)
  {
    SignatureBytes();
    if |head| == p.headerSize && |body| + |body| % 2 <= |body + rest| {
      SumOfWords((body + rest)[..|body| + |body| % 2], (|body| + |body| % 2) / 2);
    }
    assert (body + rest)[..|body|] == body;
  }

  lemma GoodLanded(p: Platform, it: Item, rest: seq<byte>, at: nat)
    requires Valid(p) && Good(p, it, rest) && it.Image?
    ensures |it.head| >= 4 && RightImage(p, it.head, it.body, rest)
    ensures Landed(p, it.head, it.body, at, ActionOf(p, it, at))
  {
    SignatureBytes();
    RightIsGood(p, it.head, it.body, rest);
  }

  /** Images only. */
  function Images(images: seq<(seq<byte>, seq<byte>)>): seq<byte> {
    if images == [] then [] else images[0].0 + images[0].1 + Images(images[1..])
  }

  ghost predicate AllRight(p: Platform, images: seq<(seq<byte>, seq<byte>)>)
    requires Valid(p)
  {
    images == [] || (RightImage(p, images[0].0, images[0].1, Images(images[1..])) && AllRight(p, images[1..]))
  }

  /** One write for each image, in order, to its place. */
  ghost predicate AllLanded(p: Platform, images: seq<(seq<byte>, seq<byte>)>, at: nat, acts: seq<Action>) {
    if images == [] then acts == []
    else
      var (head, body) := images[0];
      && |head| >= 4 && acts != [] && Landed(p, head, body, at, acts[0])
      && AllLanded(p, images[1..], at + |head| + |body|, acts[1..])
  }

  function ItemsOf(p: Platform, images: seq<(seq<byte>, seq<byte>)>): seq<Item>
    requires forall i :: 0 <= i < |images| ==> |images[i].0| >= 4
  {
    if images == [] then []
    else [Image(ImageKind(p, images[0].0[..4]), images[0].0, images[0].1)] + ItemsOf(p, images[1..])
  }

  lemma {:induction false} RightHeads(p: Platform, images: seq<(seq<byte>, seq<byte>)>)
    requires Valid(p) && AllRight(p, images)
    ensures forall i :: 0 <= i < |images| ==> |images[i].0| >= 4
    decreases |images|
  {
    if images != [] {
      RightHeads(p, images[1..]);
      forall i | 0 <= i < |images| ensures |images[i].0| >= 4 {
        assert i > 0 ==> images[i] == images[1..][i - 1];
      }
    }
  }

  lemma {:induction false} RightItems(p: Platform, images: seq<(seq<byte>, seq<byte>)>)
    requires Valid(p) && AllRight(p, images) && forall i :: 0 <= i < |images| ==> |images[i].0| >= 4
    ensures AllGood(p, ItemsOf(p, images), []) && Joined(ItemsOf(p, images)) == Images(images)
    decreases |images|
  {
    if images != [] {
      var rest := ItemsOf(p, images[1..]);
      RightItems(p, images[1..]);
      RightIsGood(p, images[0].0, images[0].1, Images(images[1..]));
      assert ItemsOf(p, images)[1..] == rest && Joined(rest) + [] == Joined(rest);
    }
  }

  lemma LandedCons(p: Platform, images: seq<(seq<byte>, seq<byte>)>, at: nat, next: nat, a: Action, more: seq<Action>,
                   acts: seq<Action>)
    requires images != [] && |images[0].0| >= 4 && Landed(p, images[0].0, images[0].1, at, a)
    requires next == at + |images[0].0| + |images[0].1| && AllLanded(p, images[1..], next, more) && acts == [a] + more
    ensures AllLanded(p, images, at, acts)
  {
    assert acts[1..] == more;
  }

  lemma FirstLanded(p: Platform, images: seq<(seq<byte>, seq<byte>)>, at: nat, it: Item)
    requires Valid(p) && images != [] && RightImage(p, images[0].0, images[0].1, Images(images[1..]))
    requires it == Image(ImageKind(p, images[0].0[..4]), images[0].0, images[0].1)
    ensures Landed(p, images[0].0, images[0].1, at, ActionOf(p, it, at))
  {
    RightIsGood(p, images[0].0, images[0].1, Images(images[1..]));
    GoodLanded(p, it, Images(images[1..]), at);
  }

  lemma {:induction false} ItemsLanded(p: Platform, images: seq<(seq<byte>, seq<byte>)>, at: nat)
    requires Valid(p) && AllRight(p, images) && forall i :: 0 <= i < |images| ==> |images[i].0| >= 4
    ensures AllLanded(p, images, at, ActionsOf(p, ItemsOf(p, images), at))
    decreases |images|
  {
    if images != [] {
      var items, next := ItemsOf(p, images), at + |images[0].0| + |images[0].1|;
      assert items[1..] == ItemsOf(p, images[1..]);
      FirstLanded(p, images, at, items[0]);
      ItemsLanded(p, images[1..], next);
      LandedCons(p, images, at, next, ActionOf(p, items[0], at), ActionsOf(p, items[1..], next),
        ActionsOf(p, items, at));
    }
  }

  /** A framed file of right images is installed: one write for each, in order, and nothing else. */
  lemma ImagesLand(p: Platform, images: seq<(seq<byte>, seq<byte>)>) returns (acts: seq<Action>)
    requires Valid(p) && AllRight(p, images) && WritesWork(p)
    ensures Upgrade(p, Framed(Images(images))) == (Done, acts) && AllLanded(p, images, 17, acts)
  {
    RightHeads(p, images);
    RightItems(p, images);
    ItemsLanded(p, images, 17);
    AllInstalled(p, ItemsOf(p, images));
    acts := ActionsOf(p, ItemsOf(p, images), 17);
  }

  lemma OneLanded(p: Platform, head: seq<byte>, body: seq<byte>, acts: seq<Action>)
    requires |head| >= 4 && AllLanded(p, [(head, body)], 17, acts)
    ensures |acts| == 1 && Landed(p, head, body, 17, acts[0])
  {
    assert [(head, body)][1..] == [];
  }

  lemma OneRight(p: Platform, head: seq<byte>, body: seq<byte>)
    requires Valid(p) && RightImage(p, head, body, [])
    ensures AllRight(p, [(head, body)]) && Images([(head, body)]) == head + body
  {
    assert [(head, body)][1..] == [];
  }

  /** A framed root image alone. */
  lemma RootLands(p: Platform, head: seq<byte>, body: seq<byte>)
    requires Valid(p) && WritesWork(p) && RightImage(p, head, body, [])
    requires head[..4] == [0x72, 0x36, 0x63, 0x72] && p.webSignature != head[..4]
    ensures Upgrade(p, Framed(head + body)) == (Done, [Write(17, FlashDevice1, 0, body)])
  {
    OneRight(p, head, body);
    var acts := ImagesLand(p, [(head, body)]);
    OneLanded(p, head, body, acts);
    RootLanded(p, head, body, 17, acts[0]);
    assert acts == [acts[0]];
  }

  lemma RootLanded(p: Platform, head: seq<byte>, body: seq<byte>, at: nat, a: Action)
    requires |head| >= 4 && Landed(p, head, body, at, a)
    requires head[..4] == [0x72, 0x36, 0x63, 0x72] && p.webSignature != head[..4]
    ensures a == Write(at, FlashDevice1, 0, body)
  {
    assert head[..4][0] == 0x72;
  }
}
