/** The commands of requests: start_with, handle_cmd and parser_cmd. */
module Commands {
  import opened Config
  import opened CStrings
  import opened Parser

  datatype Operation =
    | Search | RepeaterGet | WifiSearch | RepeaterConfig | EnRepeater | WanPppoe | WanIp | WanDhcp | Wifi
    | Reboot | Reset | WanMac | CheckUpdate | UpdateFirmware

  function Keyword(op: Operation): seq<byte> {
    Prefix(op) + Suffix(op)
  }

  function Prefix(op: Operation): (p: seq<byte>)
    ensures |p| == 11
  {
    if op.RepeaterGet? || op.CheckUpdate? then Ascii("get_router_") else Ascii("set_router_")
  }

  function Suffix(op: Operation): seq<byte> {
    match op
    case Search => Ascii("search")
    case RepeaterGet | RepeaterConfig => Ascii("repeater")
    case WifiSearch => Ascii("wifiSearch")
    case EnRepeater => Ascii("enrepeater")
    case WanPppoe => Ascii("wanPPPOE")
    case WanIp => Ascii("wanIP")
    case WanDhcp => Ascii("wanDHCP")
    case Wifi => Ascii("wifi")
    case Reboot => Ascii("reboot")
    case Reset => Ascii("reset")
    case WanMac => Ascii("wanMAC")
    case CheckUpdate | UpdateFirmware => Ascii("update")
  }

  function Upper(c: byte): byte {
    if 97 <= c <= 122 then c - 32 else c
  }

  /** The text starts with the other one, upper and lower case being the same. */
  predicate StartsWith(s1: seq<byte>, s2: seq<byte>) {
    |s2| <= |s1| && forall i :: 0 <= i < |s2| ==> Upper(s1[i]) == Upper(s2[i])
  }

  predicate Names(cmd: seq<byte>, op: Operation) {
    StartsWith(cmd, Keyword(op))
  }

  /** Letters are the same in upper and lower case, and nothing else is. */
  lemma StartsMeans(s1: seq<byte>, s2: seq<byte>)
    ensures StartsWith(s1, s2) <==>
      |s2| <= |s1| && forall i :: 0 <= i < |s2| ==>
        s1[i] == s2[i] || (65 <= s1[i] <= 90 && s2[i] == s1[i] + 32) || (97 <= s1[i] <= 122 && s2[i] == s1[i] - 32)
  {
  }

  // ----- at most two keywords fit a command

  /** Characters 0, 11, 12, 13 and 14 tell the keywords apart, but for set_router_wifi and its extension. */
  function Marks(op: Operation): seq<byte> {
    match op
    case Search => Ascii("SSEAR")
    case RepeaterGet => Ascii("GREPE")
    case WifiSearch => Ascii("SWIFI")
    case RepeaterConfig => Ascii("SREPE")
    case EnRepeater => Ascii("SENRE")
    case WanPppoe => Ascii("SWANP")
    case WanIp => Ascii("SWANI")
    case WanDhcp => Ascii("SWAND")
    case Wifi => Ascii("SWIFI")
    case Reboot => Ascii("SREBO")
    case Reset => Ascii("SRESE")
    case WanMac => Ascii("SWANM")
    case CheckUpdate => Ascii("GUPDA")
    case UpdateFirmware => Ascii("SUPDA")
  }

  ghost predicate SuffixMarked(op: Operation) {
    |Suffix(op)| >= 4 &&
    var s := Suffix(op); [Upper(s[0]), Upper(s[1]), Upper(s[2]), Upper(s[3])] == Marks(op)[1..]
  }

  lemma WanMarks()
    ensures SuffixMarked(WanPppoe) && SuffixMarked(WanIp) && SuffixMarked(WanDhcp) && SuffixMarked(WanMac)
  {
  }

  lemma WifiMarks()
    ensures SuffixMarked(WifiSearch) && SuffixMarked(Wifi) && SuffixMarked(Search)
  {
  }

  lemma RepeaterMarks()
    ensures SuffixMarked(RepeaterGet) && SuffixMarked(RepeaterConfig) && SuffixMarked(EnRepeater)
  {
  }

  lemma SystemMarks()
    ensures SuffixMarked(Reboot) && SuffixMarked(Reset) && SuffixMarked(CheckUpdate) && SuffixMarked(UpdateFirmware)
  {
  }

  lemma SuffixMarks(op: Operation)
    ensures SuffixMarked(op)
  {
    WanMarks();
    WifiMarks();
    RepeaterMarks();
    SystemMarks();
  }

  lemma PrefixMark(op: Operation)
    ensures Upper(Prefix(op)[0]) == Marks(op)[0]
  {
    match op
    case Search =>
    case RepeaterGet =>
    case WifiSearch =>
    case RepeaterConfig =>
    case EnRepeater =>
    case WanPppoe =>
    case WanIp =>
    case WanDhcp =>
    case Wifi =>
    case Reboot =>
    case Reset =>
    case WanMac =>
    case CheckUpdate =>
    case UpdateFirmware =>
  }

  lemma KeywordMarks(op: Operation)
    ensures |Keyword(op)| >= 15
    ensures var k := Keyword(op);
      [Upper(k[0]), Upper(k[11]), Upper(k[12]), Upper(k[13]), Upper(k[14])] == Marks(op)
  {
    PrefixMark(op);
    SuffixMarks(op);
    var k, s := Keyword(op), Suffix(op);
    assert k[0] == Prefix(op)[0] && k[11] == s[0] && k[12] == s[1] && k[13] == s[2] && k[14] == s[3];
    var marks := [Upper(k[0]), Upper(k[11]), Upper(k[12]), Upper(k[13]), Upper(k[14])];
    assert marks[0] == Marks(op)[0] && marks[1..] == Marks(op)[1..];
  }

  /** Two keywords that fit one command have the same marks. */
  lemma SameMarks(cmd: seq<byte>, a: Operation, b: Operation)
    requires Names(cmd, a) && Names(cmd, b)
    ensures Marks(a) == Marks(b)
  {
    KeywordMarks(a);
    KeywordMarks(b);
    var k, l := Keyword(a), Keyword(b);
    assert Upper(cmd[0]) == Upper(k[0]) == Upper(l[0]) && Upper(cmd[11]) == Upper(k[11]) == Upper(l[11]);
    assert Upper(cmd[12]) == Upper(k[12]) == Upper(l[12]) && Upper(cmd[13]) == Upper(k[13]) == Upper(l[13]);
    assert Upper(cmd[14]) == Upper(k[14]) == Upper(l[14]);
  }

  lemma MarksDiffer(a: Operation, b: Operation)
    requires Marks(a) == Marks(b) && a != b
    ensures (a == Wifi && b == WifiSearch) || (a == WifiSearch && b == Wifi)
  {
    var m, n := Marks(a), Marks(b);
    assert m[0] == n[0] && m[1] == n[1] && m[2] == n[2] && m[3] == n[3] && m[4] == n[4];
  }

  method StartWith(s1: seq<byte>, s2: seq<byte>) returns (r: int)
    ensures r == (if StartsWith(s1, s2) then 1 else 0)
  {
    var i := 0;
    while i < |s1| && i < |s2|
      invariant i <= |s1| && i <= |s2|
      invariant forall k :: 0 <= k < i ==> Upper(s1[k]) == Upper(s2[k])
    {
      if Upper(s1[i]) != Upper(s2[i]) {
        return 0;
      }
      i := i + 1;
    }
    r := if i < |s2| then 0 else 1;
  }

  /** No other keyword that fits is longer, and no other one of the same length fits. */
  ghost predicate Longest(cmd: seq<byte>, op: Operation) {
    && Names(cmd, op)
    && forall other :: Names(cmd, other) && other != op ==> |Keyword(other)| < |Keyword(op)|
  }

  /** The tests in their order find the longest keyword: the only one that has to come before another does. */
  lemma FoundLongest(cmd: seq<byte>, op: Operation)
    requires Names(cmd, op) && (op == Wifi ==> !Names(cmd, WifiSearch))
    ensures Longest(cmd, op)
  {
    forall other | Names(cmd, other) && other != op ensures |Keyword(other)| < |Keyword(op)| {
      SameMarks(cmd, other, op);
      MarksDiffer(other, op);
    }
  }

  // ----- commands

  datatype Device = Box | Phone

  /** The members of the structs that are filled from the data. */
  datatype Slot =
    | Id | IdData | RepeaterName | RepeaterChannel | RepeaterKey | RepeaterKeyType | PppoeName | PppoeKey
    | Ip | Mask | Getway | Dns | WifiType1 | WifiType2 | WifiName | WifiKeyType | WifiKey | Mac

  /** What a command asks of the router: the operation, the members filled from the data, the data. */
  datatype Call = Call(op: Operation, filled: seq<(Slot, seq<byte>)>, data: seq<byte>)

  /** The members that an operation takes from the data, in order. */
  function Slots(op: Operation, device: Device): seq<Slot> {
    match op
    case Search => [Id, IdData]
    case RepeaterConfig => [RepeaterName, RepeaterChannel, RepeaterKey, RepeaterKeyType]
    case WanPppoe => [PppoeName, PppoeKey] + WifiSlots(device)
    case WanIp => [Ip, Mask, Getway, Dns] + WifiSlots(device)
    case WanDhcp => WifiSlots(device)
    case Wifi => WifiSlots(Phone)
    case WanMac => [Mac]
    case _ => []
  }

  /** A phone also sends the settings of the wireless net. */
  function WifiSlots(device: Device): seq<Slot> {
    if device.Phone? then [WifiType1, WifiType2, WifiName, WifiKeyType, WifiKey] else []
  }

  /** The fields go to the members in order, as far as there are any. */
  function Assigned(slots: seq<Slot>, fields: seq<seq<byte>>): seq<(Slot, seq<byte>)> {
    seq(Min(|slots|, |fields|), i requires 0 <= i < Min(|slots|, |fields|) => (slots[i], fields[i]))
  }

  /** What the data mean for an operation: fields between colons, the last one a word, one for each member. */
  function Meaning(op: Operation, device: Device, data: seq<byte>): Call {
    Call(op, Assigned(Slots(op, device), Fields(data, |Slots(op, device)|)), data)
  }

  /** The flag router_init after the command. */
  function InitAfter(op: Operation, routerInit: int): int {
    if op.Search? || op.RepeaterGet? || op.WifiSearch? then 0
    else if op.CheckUpdate? || op.UpdateFirmware? then routerInit
    else 1
  }

  method Test(cmd: seq<byte>, op: Operation) returns (yes: bool)
    ensures yes == Names(cmd, op)
  {
    var r := StartWith(cmd, Keyword(op));
    yes := r != 0;
  }

  /** The first tests of handle_cmd. */
  method FindEarly(cmd: seq<byte>) returns (found: Option<Operation>)
    ensures found.Some? ==> Names(cmd, found.value) && found.value != Wifi
    ensures found.None? ==>
      && !Names(cmd, Search) && !Names(cmd, RepeaterGet) && !Names(cmd, WifiSearch) && !Names(cmd, RepeaterConfig)
      && !Names(cmd, EnRepeater) && !Names(cmd, WanPppoe) && !Names(cmd, WanIp)
  {
    var yes := Test(cmd, Search);
    if yes {
      return Some(Search);
    }
    yes := Test(cmd, RepeaterGet);
    if yes {
      return Some(RepeaterGet);
    }
    yes := Test(cmd, WifiSearch);
    if yes {
      return Some(WifiSearch);
    }
    yes := Test(cmd, RepeaterConfig);
    if yes {
      return Some(RepeaterConfig);
    }
    yes := Test(cmd, EnRepeater);
    if yes {
      return Some(EnRepeater);
    }
    yes := Test(cmd, WanPppoe);
    if yes {
      return Some(WanPppoe);
    }
    yes := Test(cmd, WanIp);
    if yes {
      return Some(WanIp);
    }
    found := None;
  }

  /** Its remaining tests. */
  method FindLate(cmd: seq<byte>) returns (found: Option<Operation>)
    ensures found.Some? ==> Names(cmd, found.value)
    ensures found.None? ==>
      && !Names(cmd, WanDhcp) && !Names(cmd, Wifi) && !Names(cmd, Reboot) && !Names(cmd, Reset)
      && !Names(cmd, WanMac) && !Names(cmd, CheckUpdate) && !Names(cmd, UpdateFirmware)
  {
    var yes := Test(cmd, WanDhcp);
    if yes {
      return Some(WanDhcp);
    }
    yes := Test(cmd, Wifi);
    if yes {
      return Some(Wifi);
    }
    yes := Test(cmd, Reboot);
    if yes {
      return Some(Reboot);
    }
    yes := Test(cmd, Reset);
    if yes {
      return Some(Reset);
    }
    yes := Test(cmd, WanMac);
    if yes {
      return Some(WanMac);
    }
    yes := Test(cmd, CheckUpdate);
    if yes {
      return Some(CheckUpdate);
    }
    yes := Test(cmd, UpdateFirmware);
    if yes {
      return Some(UpdateFirmware);
    }
    found := None;
  }

  /** The tests, one after the other, find the longest keyword that fits, if one does. */
  method FindOperation(cmd: seq<byte>) returns (found: Option<Operation>)
    ensures found.None? <==> forall op :: !Names(cmd, op)
    ensures found.Some? ==> Longest(cmd, found.value)
  {
    found := FindEarly(cmd);
    if found.None? {
      found := FindLate(cmd);
    }
    if found.Some? {
      FoundLongest(cmd, found.value);
    }
  }

  /** What the router makes of a call: the result, and the text that it leaves. */
  type Router = Call -> (int, seq<byte>)

  /** What comes of a command: -1 and an old text if no keyword fits. */
  function Effect(router: Router, found: Option<Operation>, device: Device, data: seq<byte>, leftover: seq<byte>)
    : (int, seq<byte>)
  {
    if found.None? then (-1, leftover)
    else router(Meaning(found.value, device, data))
  }

  // The formats of the scans.

  lemma ShortFormats()
    ensures Format(1) == [Word] && Format(2) == [UpToColon, Skip, Word]
    ensures Format(3) == [UpToColon, Skip, UpToColon, Skip, Word]
    ensures Format(4) == [UpToColon, Skip, UpToColon, Skip, UpToColon, Skip, Word]
  {
  }

  lemma WifiFormat()
    ensures Format(5) == [UpToColon, Skip, UpToColon, Skip, UpToColon, Skip, UpToColon, Skip, Word]
  {
    ShortFormats();
  }

  lemma PppoeFormat()
    ensures Format(7) == [UpToColon, Skip, UpToColon, Skip, UpToColon, Skip, UpToColon, Skip, UpToColon, Skip,
                          UpToColon, Skip, Word]
  {
    WifiFormat();
    assert Format(6) == [UpToColon, Skip] + Format(5);
  }

  lemma IpFormat()
    ensures Format(9) == [UpToColon, Skip, UpToColon, Skip, UpToColon, Skip, UpToColon, Skip, UpToColon, Skip,
                          UpToColon, Skip, UpToColon, Skip, UpToColon, Skip, Word]
  {
    PppoeFormat();
    assert Format(8) == [UpToColon, Skip] + Format(7);
  }

  /** A scan of the data into n members. */
  method ScanInto(data: seq<byte>, format: seq<Conversion>, slots: seq<Slot>, ghost n: nat)
    returns (filled: seq<(Slot, seq<byte>)>)
    requires format == Format(n)
    ensures filled == Assigned(slots, Fields(data, n))
  {
    ScanFields(data, n);
    var fields := Sscanf(data, format);
    filled := Assigned(slots, fields);
  }

  lemma PppoeSlots()
    ensures Slots(WanPppoe, Phone) == [PppoeName, PppoeKey, WifiType1, WifiType2, WifiName, WifiKeyType, WifiKey]
  {
  }

  lemma RadioSlots(device: Device)
    ensures Slots(Wifi, device) == [WifiType1, WifiType2, WifiName, WifiKeyType, WifiKey]
    ensures Slots(WanDhcp, Phone) == [WifiType1, WifiType2, WifiName, WifiKeyType, WifiKey]
  {
  }

  lemma BoxSlots()
    ensures Slots(WanPppoe, Box) == [PppoeName, PppoeKey] && Slots(WanIp, Box) == [Ip, Mask, Getway, Dns]
  {
  }

  lemma IpSlots()
    ensures Slots(WanIp, Phone) == [Ip, Mask, Getway, Dns, WifiType1, WifiType2, WifiName, WifiKeyType, WifiKey]
  {
  }

  method ScanPppoe(device: Device, data: seq<byte>) returns (filled: seq<(Slot, seq<byte>)>)
    ensures filled == Assigned(Slots(WanPppoe, device), Fields(data, if device == Box then 2 else 7))
  {
    if device == Box {
      ShortFormats();
      filled := ScanInto(data, [UpToColon, Skip, Word], [PppoeName, PppoeKey], 2);
    } else {
      PppoeFormat();
      PppoeSlots();
      filled := ScanInto(data, [UpToColon, Skip, UpToColon, Skip, UpToColon, Skip, UpToColon, Skip, UpToColon, Skip,
                                UpToColon, Skip, Word],
                         [PppoeName, PppoeKey, WifiType1, WifiType2, WifiName, WifiKeyType, WifiKey], 7);
    }
  }

  method ScanIp(device: Device, data: seq<byte>) returns (filled: seq<(Slot, seq<byte>)>)
    ensures filled == Assigned(Slots(WanIp, device), Fields(data, if device == Box then 4 else 9))
  {
    if device == Box {
      ShortFormats();
      filled := ScanInto(data, [UpToColon, Skip, UpToColon, Skip, UpToColon, Skip, Word], [Ip, Mask, Getway, Dns], 4);
    } else {
      IpFormat();
      IpSlots();
      filled := ScanInto(data, [UpToColon, Skip, UpToColon, Skip, UpToColon, Skip, UpToColon, Skip, UpToColon, Skip,
                                UpToColon, Skip, UpToColon, Skip, UpToColon, Skip, Word],
                         [Ip, Mask, Getway, Dns, WifiType1, WifiType2, WifiName, WifiKeyType, WifiKey], 9);
    }
  }

  method ScanWifi(data: seq<byte>) returns (filled: seq<(Slot, seq<byte>)>)
    ensures filled == Assigned(WifiSlots(Phone), Fields(data, 5))
  {
    WifiFormat();
    filled := ScanInto(data, [UpToColon, Skip, UpToColon, Skip, UpToColon, Skip, UpToColon, Skip, Word],
                       [WifiType1, WifiType2, WifiName, WifiKeyType, WifiKey], 5);
  }

  method ScanDhcp(device: Device, data: seq<byte>) returns (filled: seq<(Slot, seq<byte>)>)
    ensures filled == Assigned(WifiSlots(device), Fields(data, |WifiSlots(device)|))
  {
    filled := [];
    if device == Phone {
      filled := ScanWifi(data);
    }
  }

  lemma WanSlots(device: Device)
    ensures |Slots(WanPppoe, device)| == if device == Box then 2 else 7
    ensures |Slots(WanIp, device)| == if device == Box then 4 else 9
    ensures Slots(WanDhcp, device) == WifiSlots(device)
  {
  }

  /** The scans of set_router_wanPPPOE, set_router_wanIP and set_router_wanDHCP, which depend on the device. */
  method ScanWan(op: Operation, device: Device, data: seq<byte>) returns (filled: seq<(Slot, seq<byte>)>)
    requires op.WanPppoe? || op.WanIp? || op.WanDhcp?
    ensures filled == Meaning(op, device, data).filled
  {
    WanSlots(device);
    if op.WanPppoe? {
      filled := ScanPppoe(device, data);
    } else if op.WanIp? {
      filled := ScanIp(device, data);
    } else {
      filled := ScanDhcp(device, data);
    }
  }

  /** The scan of an operation. */
  method ScanFor(op: Operation, device: Device, data: seq<byte>) returns (filled: seq<(Slot, seq<byte>)>)
    ensures filled == Meaning(op, device, data).filled
  {
    ShortFormats();
    match op {
      case Search =>
        filled := ScanInto(data, [UpToColon, Skip, Word], [Id, IdData], 2);
      case RepeaterConfig =>
        filled := ScanInto(data, [UpToColon, Skip, UpToColon, Skip, UpToColon, Skip, Word],
                           [RepeaterName, RepeaterChannel, RepeaterKey, RepeaterKeyType], 4);
      case WanPppoe =>
        filled := ScanWan(WanPppoe, device, data);
      case WanIp =>
        filled := ScanWan(WanIp, device, data);
      case WanDhcp =>
        filled := ScanWan(WanDhcp, device, data);
      case Wifi =>
        filled := ScanWifi(data);
      case WanMac =>
        filled := ScanInto(data, [Word], [Mac], 1);
      case _ =>
        filled := [];
    }
  }

  /** The branch of an operation: router_init, the scan of the data, and the call. */
  method CarryOut(op: Operation, data: seq<byte>, device: Device, routerInit: int)
    returns (init: int, call: Call)
    ensures call == Meaning(op, device, data) && init == InitAfter(op, routerInit)
  {
    match op {
      case Search => init := 0;
      case RepeaterGet => init := 0;
      case WifiSearch => init := 0;
      case RepeaterConfig => init := 1;
      case EnRepeater => init := 1;
      case WanPppoe => init := 1;
      case WanIp => init := 1;
      case WanDhcp => init := 1;
      case Wifi => init := 1;
      case Reboot => init := 1;
      case Reset => init := 1;
      case WanMac => init := 1;
      case CheckUpdate => init := routerInit;
      case UpdateFirmware => init := routerInit;
    }
    var filled := ScanFor(op, device, data);
    call := Call(op, filled, data);
  }

  /** What comes of a command: the longest keyword that fits decides the call and router_init. */
  ghost predicate Handled(cmd: seq<byte>, data: seq<byte>, device: Device, routerInit: int, router: Router,
                          leftover: seq<byte>, found: Option<Operation>, ret: int, text: seq<byte>, init: int) {
    && (found.None? <==> forall op :: !Names(cmd, op))
    && (found.Some? ==> Longest(cmd, found.value))
    && (ret, text) == Effect(router, found, device, data, leftover)
    && init == if found.None? then routerInit else InitAfter(found.value, routerInit)
  }

  method HandleCmd(cmd: seq<byte>, data: seq<byte>, device: Device, routerInit: int, router: Router,
                   leftover: seq<byte>)
    returns (ret: int, text: seq<byte>, init: int, found: Option<Operation>)
    ensures Handled(cmd, data, device, routerInit, router, leftover, found, ret, text, init)
  {
    found := FindOperation(cmd);
    ret, text, init := -1, leftover, routerInit;
    if found.Some? {
      var call;
      init, call := CarryOut(found.value, data, device, routerInit);
      var result := router(call);
      ret, text := result.0, result.1;
    }
  }

  // ----- requests

  /** From cell at on a buffer holds a text. */
  ghost predicate Holds(cells: seq<byte>, at: nat, text: seq<byte>) {
    at < |cells| && 0 in cells[at..] && Text(cells[at..]) == text
  }

  /** The first token of the text is cut off by a NUL over its semicolon: it starts at ptr, the rest at save. */
  ghost predicate CutOff(cells: seq<byte>, cut: seq<byte>, ptr: nat, save: nat)
    requires 0 in cells
  {
    && Strtok(Text(cells)).Some? && |cut| == |cells|
    && Holds(cut, ptr, Strtok(Text(cells)).value.0) && Holds(cut, save, Strtok(Text(cells)).value.1)
    && forall i :: 0 <= i < |cut| && cut[i] != cells[i] ==> cut[i] == 0 && cells[i] == SEMICOLON
  }

  lemma HoldsText(cells: seq<byte>, at: nat, text: seq<byte>)
    requires at + |text| < |cells| && cells[at + |text|] == 0
    requires forall i :: 0 <= i < |text| ==> cells[at + i] == text[i] && text[i] != 0
    ensures Holds(cells, at, text)
  {
    TextIs(cells[at..], text);
  }

  /** strtok_r on a buffer. */
  method StrtokR(buf: array<byte>) returns (found: bool, ptr: nat, save: nat)
    requires 0 in buf[..]
    modifies buf
    ensures found == Strtok(Text(old(buf[..]))).Some?
    ensures if found then CutOff(old(buf[..]), buf[..], ptr, save) else buf[..] == old(buf[..])
  {
    ghost var cells := buf[..];
    var text := Text(buf[..]);
    ptr := Leading(text, 0);
    var end := Find(text, SEMICOLON, ptr);
    found, save := ptr < |text|, end;
    if found && end < |text| {
      buf[end] := 0;
      save := end + 1;
    }
    if found {
      assert buf[..] == if end < |text| then cells[end := 0] else cells;
      CutTexts(cells, buf[..], text, ptr, end, save);
    }
  }

  lemma CutTexts(cells: seq<byte>, cut: seq<byte>, text: seq<byte>, ptr: nat, end: nat, save: nat)
    requires 0 in cells && text == Text(cells) && ptr == Leading(text, 0) < |text|
    requires end == Find(text, SEMICOLON, ptr) && save == if end < |text| then end + 1 else end
    requires cut == if end < |text| then cells[end := 0] else cells
    ensures CutOff(cells, cut, ptr, save)
  {
    CutFront(cells, text);
    TokenAt(text, ptr, end, save);
    CutPieces(cells, cut, text, ptr, end, save);
  }

  lemma TokenAt(text: seq<byte>, ptr: nat, end: nat, save: nat)
    requires ptr == Leading(text, 0) < |text|
    requires end == Find(text, SEMICOLON, ptr) && save == if end < |text| then end + 1 else end
    ensures end <= |text| && (end < |text| ==> text[end] == SEMICOLON)
    ensures save <= |text| && Strtok(text) == Some((text[ptr..end], text[save..]))
  {
    assert text[|text|..] == [];
  }

  lemma CutPieces(cells: seq<byte>, cut: seq<byte>, text: seq<byte>, ptr: nat, end: nat, save: nat)
    requires |text| < |cells| && cells[|text|] == 0 && forall i :: 0 <= i < |text| ==> cells[i] == text[i] != 0
    requires ptr <= end <= |text| && save == if end < |text| then end + 1 else end
    requires cut == if end < |text| then cells[end := 0] else cells
    requires end < |text| ==> text[end] == SEMICOLON
    ensures Holds(cut, ptr, text[ptr..end]) && Holds(cut, save, text[save..])
    ensures forall i :: 0 <= i < |cut| && cut[i] != cells[i] ==> cut[i] == 0 && cells[i] == SEMICOLON
  {
    CutCells(cells, cut, text, end);
    HoldsText(cut, ptr, text[ptr..end]);
    HoldsText(cut, save, text[save..]);
  }

  lemma CutCells(cells: seq<byte>, cut: seq<byte>, text: seq<byte>, end: nat)
    requires |text| < |cells| && cells[|text|] == 0 && forall i :: 0 <= i < |text| ==> cells[i] == text[i] != 0
    requires end <= |text| && cut == if end < |text| then cells[end := 0] else cells
    ensures |cut| == |cells| && cut[end] == 0 && cut[|text|] == 0
    ensures forall i :: 0 <= i < |text| && i != end ==> cut[i] == text[i] != 0
    ensures forall i :: 0 <= i < |cut| && i != end ==> cut[i] == cells[i]
  {
  }

  lemma CutFront(cells: seq<byte>, text: seq<byte>)
    requires 0 in cells && text == Text(cells)
    ensures |text| < |cells| && cells[|text|] == 0
    ensures forall i :: 0 <= i < |text| ==> cells[i] == text[i] != 0
  {
    forall i | 0 <= i < |text| ensures cells[i] == text[i] != 0 {
      ReadFront(cells, i);
    }
  }

  /** What the fields of the struct hold where sscanf assigns fewer than three. */
  datatype Stale = Stale(version: seq<byte>, command: seq<byte>, text: seq<byte>)

  function VersionOf(fields: seq<seq<byte>>, stale: Stale): seq<byte> {
    if |fields| > 0 then fields[0] else stale.version
  }

  function CommandOf(fields: seq<seq<byte>>, stale: Stale): seq<byte> {
    if |fields| > 2 then fields[2] else stale.command
  }

  /** The response fits into its buffer, and no NUL cuts it short. */
  ghost predicate Fits(router: Router, device: Device, token: seq<byte>, rest: seq<byte>, stale: Stale, room: int) {
    0 !in stale.version && 0 !in stale.command &&
    forall found :: var text := Effect(router, found, device, rest, stale.text).1;
      && 0 !in text
      && |Response(VersionOf(Fields(token, 3), stale), CommandOf(Fields(token, 3), stale), text)| < room
  }

  /** What parser_cmd is to do for a request in a buffer, and the answer to it. */
  ghost predicate Answered(request: seq<byte>, device: Device, routerInit: int, router: Router, stale: Stale,
                           found: Option<Operation>, ret: int, init: int, answer: seq<byte>)
    requires Strtok(request).Some?
  {
    var (token, rest) := Strtok(request).value;
    var version, cmd := VersionOf(Fields(token, 3), stale), CommandOf(Fields(token, 3), stale);
    var text := Effect(router, found, device, rest, stale.text).1;
    && Handled(cmd, rest, device, routerInit, router, stale.text, found, ret, text, init)
    && answer == Response(version, cmd, text)
  }

  /** A request is taken apart in place, carried out, and answered. */
  method ParserCmd(buf: array<byte>, device: Device, routerInit: int, router: Router, stale: Stale,
                   context: array<byte>)
    returns (ret: int, init: int, ghost found: Option<Operation>)
    requires 0 in buf[..] && buf != context && Strtok(Text(buf[..])).Some?
    requires var (token, rest) := Strtok(Text(buf[..])).value; Fits(router, device, token, rest, stale, context.Length)
    modifies buf, context
    ensures 0 in context[..]
    ensures Answered(old(Text(buf[..])), device, routerInit, router, stale, found, ret, init, Text(context[..]))
  {
    var ok, ptr, save := StrtokR(buf);
    var token, rest := Text(buf[..][ptr..]), Text(buf[..][save..]);
    ShortFormats();
    ScanFields(token, 3);
    var fields := Sscanf(token, [UpToColon, Skip, UpToColon, Skip, Word]);
    var version, cmd := VersionOf(fields, stale), CommandOf(fields, stale);
    var text, op;
    ret, text, init, op := HandleCmd(cmd, rest, device, routerInit, router, stale.text);
    found := op;
    ResponseText(router, device, token, rest, stale, op, context.Length, Response(version, cmd, text));
    PrintText(context, Response(version, cmd, text));
  }

  lemma ResponseText(router: Router, device: Device, token: seq<byte>, rest: seq<byte>, stale: Stale,
                     found: Option<Operation>, room: int, response: seq<byte>)
    requires 0 !in token && Fits(router, device, token, rest, stale, room)
    requires response == Response(VersionOf(Fields(token, 3), stale), CommandOf(Fields(token, 3), stale),
                                  Effect(router, found, device, rest, stale.text).1)
    ensures 0 !in response && |response| < room
  {
    FieldsInside(token, 3, 0);
    NoNul(VersionOf(Fields(token, 3), stale), CommandOf(Fields(token, 3), stale),
          Effect(router, found, device, rest, stale.text).1);
  }

  /** sprintf of a text. */
  method PrintText(context: array<byte>, text: seq<byte>)
    requires 0 !in text && |text| < context.Length
    modifies context
    ensures 0 in context[..] && Text(context[..]) == text
  {
    StrcpyAt(context, 0, text);
    assert forall i :: 0 <= i < |text| ==> context[0 + i] == text[i] && text[i] in text;
    TextIs(context[..], text);
  }

  lemma NoNul(version: seq<byte>, cmd: seq<byte>, text: seq<byte>)
    requires 0 !in version && 0 !in cmd && 0 !in text
    ensures 0 !in Response(version, cmd, text)
  {
    assert 0 !in Ascii(":response:");
  }
}
