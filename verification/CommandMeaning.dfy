/**
 What each command asks of the router: for every request with this keyword, which members of
 which structs get which fields, and what router_init becomes.
 */
module CommandMeaning {
  import opened Config
  import opened CStrings
  import opened Parser
  import opened Commands

  /** Whatever the router does and whatever text was left, handle_cmd makes this call and leaves this router_init. */
  ghost predicate Calls(cmd: seq<byte>, data: seq<byte>, device: Device, routerInit: int, call: Call, init: int) {
    forall router: Router, leftover: seq<byte>, found: Option<Operation>, ret: int, text: seq<byte>, after: int ::
      Handled(cmd, data, device, routerInit, router, leftover, found, ret, text, after) ==>
        (ret, text) == router(call) && after == init
  }

  lemma NetKeywords()
    ensures Keyword(WanPppoe) == Ascii("set_router_wanPPPOE") && Keyword(WanIp) == Ascii("set_router_wanIP")
    ensures Keyword(WanDhcp) == Ascii("set_router_wanDHCP") && Keyword(WanMac) == Ascii("set_router_wanMAC")
  {
  }

  lemma RadioKeywords()
    ensures Keyword(Wifi) == Ascii("set_router_wifi") && Keyword(WifiSearch) == Ascii("set_router_wifiSearch")
  {
  }

  lemma RepeaterKeywords()
    ensures Keyword(RepeaterGet) == Ascii("get_router_repeater")
    ensures Keyword(RepeaterConfig) == Ascii("set_router_repeater")
    ensures Keyword(EnRepeater) == Ascii("set_router_enrepeater")
  {
  }

  lemma SystemKeywords()
    ensures Keyword(Search) == Ascii("set_router_search") && Keyword(Reboot) == Ascii("set_router_reboot")
    ensures Keyword(Reset) == Ascii("set_router_reset") && Keyword(CheckUpdate) == Ascii("get_router_update")
    ensures Keyword(UpdateFirmware) == Ascii("set_router_update")
  {
  }

  /** The longest keyword that fits is the one that fits. */
  lemma FoundIs(cmd: seq<byte>, op: Operation, found: Option<Operation>)
    requires Names(cmd, op) && (op == Wifi ==> !Names(cmd, WifiSearch))
    requires (found.None? <==> forall op :: !Names(cmd, op)) && (found.Some? ==> Longest(cmd, found.value))
    ensures found == Some(op)
  {
    FoundLongest(cmd, op);
    assert found.Some?;
    OneLongest(cmd, op, found.value);
  }

  lemma OneLongest(cmd: seq<byte>, a: Operation, b: Operation)
    requires Longest(cmd, a) && Longest(cmd, b)
    ensures a == b
  {
  }

  lemma CallsIs(cmd: seq<byte>, data: seq<byte>, device: Device, routerInit: int, op: Operation)
    requires Names(cmd, op) && (op == Wifi ==> !Names(cmd, WifiSearch))
    ensures Calls(cmd, data, device, routerInit, Meaning(op, device, data), InitAfter(op, routerInit))
  {
    forall router: Router, leftover: seq<byte>, found: Option<Operation>, ret: int, text: seq<byte>, after: int
      | Handled(cmd, data, device, routerInit, router, leftover, found, ret, text, after)
      ensures (ret, text) == router(Meaning(op, device, data)) && after == InitAfter(op, routerInit)
    {
      FoundIs(cmd, op, found);
    }
  }

  /** The members with their fields. */
  function Pairs(slots: seq<Slot>, fields: seq<seq<byte>>): (pairs: seq<(Slot, seq<byte>)>)
    requires |slots| == |fields|
    ensures |pairs| == |slots| && forall i :: 0 <= i < |slots| ==> pairs[i] == (slots[i], fields[i])
  {
    if slots == [] then [] else [(slots[0], fields[0])] + Pairs(slots[1..], fields[1..])
  }

  /** With these fields as data the operation gets the members filled with them, in this order. */
  ghost predicate Fills(cmd: seq<byte>, fields: seq<seq<byte>>, device: Device, routerInit: int, op: Operation,
                        slots: seq<Slot>, init: int)
    requires |slots| == |fields|
  {
    Calls(cmd, Join(fields), device, routerInit, Call(op, Pairs(slots, fields), Join(fields)), init)
  }

  lemma MeaningIs(fields: seq<seq<byte>>, data: seq<byte>, device: Device, op: Operation, slots: seq<Slot>)
    requires |slots| == |fields| && Printable(fields) && Slots(op, device) == slots && data == Join(fields)
    ensures Meaning(op, device, data) == Call(op, Pairs(slots, fields), data)
  {
    PrintedRead(fields, data, |fields|);
    assert Assigned(slots, fields) == Pairs(slots, fields);
  }

  lemma FillsIs(cmd: seq<byte>, fields: seq<seq<byte>>, device: Device, routerInit: int, op: Operation,
                slots: seq<Slot>, init: int)
    requires Names(cmd, op) && (op == Wifi ==> !Names(cmd, WifiSearch))
    requires |slots| == |fields| && Printable(fields) && Slots(op, device) == slots && InitAfter(op, routerInit) == init
    ensures Fills(cmd, fields, device, routerInit, op, slots, init)
  {
    MeaningIs(fields, Join(fields), device, op, slots);
    CallsIs(cmd, Join(fields), device, routerInit, op);
  }

  lemma CallsBare(cmd: seq<byte>, data: seq<byte>, device: Device, routerInit: int, op: Operation, init: int)
    requires Names(cmd, op) && Slots(op, device) == [] && InitAfter(op, routerInit) == init
    ensures Calls(cmd, data, device, routerInit, Call(op, [], data), init)
  {
    assert Meaning(op, device, data) == Call(op, [], data);
    CallsIs(cmd, data, device, routerInit, op);
  }

  // ----- commands with fields

  lemma SearchMeans(cmd: seq<byte>, fields: seq<seq<byte>>, device: Device, routerInit: int)
    requires StartsWith(cmd, Ascii("set_router_search")) && |fields| == 2 && Printable(fields)
    ensures Fills(cmd, fields, device, routerInit, Search, [Id, IdData], 0)
  {
    SystemKeywords();
    FillsIs(cmd, fields, device, routerInit, Search, [Id, IdData], 0);
  }

  lemma RepeaterMeans(cmd: seq<byte>, fields: seq<seq<byte>>, device: Device, routerInit: int)
    requires StartsWith(cmd, Ascii("set_router_repeater")) && |fields| == 4 && Printable(fields)
    ensures Fills(cmd, fields, device, routerInit, RepeaterConfig,
      [RepeaterName, RepeaterChannel, RepeaterKey, RepeaterKeyType], 1)
  {
    RepeaterKeywords();
    FillsIs(cmd, fields, device, routerInit, RepeaterConfig,
      [RepeaterName, RepeaterChannel, RepeaterKey, RepeaterKeyType], 1);
  }

  lemma BoxPppoeMeans(cmd: seq<byte>, fields: seq<seq<byte>>, routerInit: int)
    requires StartsWith(cmd, Ascii("set_router_wanPPPOE")) && |fields| == 2 && Printable(fields)
    ensures Fills(cmd, fields, Box, routerInit, WanPppoe, [PppoeName, PppoeKey], 1)
  {
    NetKeywords();
    BoxSlots();
    FillsIs(cmd, fields, Box, routerInit, WanPppoe, [PppoeName, PppoeKey], 1);
  }

  lemma PhonePppoeMeans(cmd: seq<byte>, fields: seq<seq<byte>>, routerInit: int)
    requires StartsWith(cmd, Ascii("set_router_wanPPPOE")) && |fields| == 7 && Printable(fields)
    ensures Fills(cmd, fields, Phone, routerInit, WanPppoe,
      [PppoeName, PppoeKey, WifiType1, WifiType2, WifiName, WifiKeyType, WifiKey], 1)
  {
    NetKeywords();
    PppoeSlots();
    FillsIs(cmd, fields, Phone, routerInit, WanPppoe,
      [PppoeName, PppoeKey, WifiType1, WifiType2, WifiName, WifiKeyType, WifiKey], 1);
  }

  lemma BoxIpMeans(cmd: seq<byte>, fields: seq<seq<byte>>, routerInit: int)
    requires StartsWith(cmd, Ascii("set_router_wanIP")) && |fields| == 4 && Printable(fields)
    ensures Fills(cmd, fields, Box, routerInit, WanIp, [Ip, Mask, Getway, Dns], 1)
  {
    NetKeywords();
    BoxSlots();
    FillsIs(cmd, fields, Box, routerInit, WanIp, [Ip, Mask, Getway, Dns], 1);
  }

  lemma PhoneIpMeans(cmd: seq<byte>, fields: seq<seq<byte>>, routerInit: int)
    requires StartsWith(cmd, Ascii("set_router_wanIP")) && |fields| == 9 && Printable(fields)
    ensures Fills(cmd, fields, Phone, routerInit, WanIp,
      [Ip, Mask, Getway, Dns, WifiType1, WifiType2, WifiName, WifiKeyType, WifiKey], 1)
  {
    NetKeywords();
    IpSlots();
    FillsIs(cmd, fields, Phone, routerInit, WanIp,
      [Ip, Mask, Getway, Dns, WifiType1, WifiType2, WifiName, WifiKeyType, WifiKey], 1);
  }

  lemma PhoneDhcpMeans(cmd: seq<byte>, fields: seq<seq<byte>>, routerInit: int)
    requires StartsWith(cmd, Ascii("set_router_wanDHCP")) && |fields| == 5 && Printable(fields)
    ensures Fills(cmd, fields, Phone, routerInit, WanDhcp, [WifiType1, WifiType2, WifiName, WifiKeyType, WifiKey], 1)
  {
    NetKeywords();
    RadioSlots(Phone);
    FillsIs(cmd, fields, Phone, routerInit, WanDhcp, [WifiType1, WifiType2, WifiName, WifiKeyType, WifiKey], 1);
  }

  /** The keyword of the wireless search is longer, and goes first. */
  lemma WifiMeans(cmd: seq<byte>, fields: seq<seq<byte>>, device: Device, routerInit: int)
    requires StartsWith(cmd, Ascii("set_router_wifi")) && !StartsWith(cmd, Ascii("set_router_wifiSearch"))
    requires |fields| == 5 && Printable(fields)
    ensures Fills(cmd, fields, device, routerInit, Wifi, [WifiType1, WifiType2, WifiName, WifiKeyType, WifiKey], 1)
  {
    RadioKeywords();
    RadioSlots(device);
    FillsIs(cmd, fields, device, routerInit, Wifi, [WifiType1, WifiType2, WifiName, WifiKeyType, WifiKey], 1);
  }

  lemma MacMeans(cmd: seq<byte>, fields: seq<seq<byte>>, device: Device, routerInit: int)
    requires StartsWith(cmd, Ascii("set_router_wanMAC")) && |fields| == 1 && Printable(fields)
    ensures Fills(cmd, fields, device, routerInit, WanMac, [Mac], 1)
  {
    NetKeywords();
    FillsIs(cmd, fields, device, routerInit, WanMac, [Mac], 1);
  }

  // ----- commands without fields

  lemma BoxDhcpMeans(cmd: seq<byte>, data: seq<byte>, routerInit: int)
    requires StartsWith(cmd, Ascii("set_router_wanDHCP"))
    ensures Calls(cmd, data, Box, routerInit, Call(WanDhcp, [], data), 1)
  {
    NetKeywords();
    CallsBare(cmd, data, Box, routerInit, WanDhcp, 1);
  }

  lemma RepeaterGetMeans(cmd: seq<byte>, data: seq<byte>, device: Device, routerInit: int)
    requires StartsWith(cmd, Ascii("get_router_repeater"))
    ensures Calls(cmd, data, device, routerInit, Call(RepeaterGet, [], data), 0)
  {
    RepeaterKeywords();
    CallsBare(cmd, data, device, routerInit, RepeaterGet, 0);
  }

  lemma WifiSearchMeans(cmd: seq<byte>, data: seq<byte>, device: Device, routerInit: int)
    requires StartsWith(cmd, Ascii("set_router_wifiSearch"))
    ensures Calls(cmd, data, device, routerInit, Call(WifiSearch, [], data), 0)
  {
    RadioKeywords();
    CallsBare(cmd, data, device, routerInit, WifiSearch, 0);
  }

  lemma EnRepeaterMeans(cmd: seq<byte>, data: seq<byte>, device: Device, routerInit: int)
    requires StartsWith(cmd, Ascii("set_router_enrepeater"))
    ensures Calls(cmd, data, device, routerInit, Call(EnRepeater, [], data), 1)
  {
    RepeaterKeywords();
    CallsBare(cmd, data, device, routerInit, EnRepeater, 1);
  }

  lemma RebootMeans(cmd: seq<byte>, data: seq<byte>, device: Device, routerInit: int)
    requires StartsWith(cmd, Ascii("set_router_reboot"))
    ensures Calls(cmd, data, device, routerInit, Call(Reboot, [], data), 1)
  {
    SystemKeywords();
    CallsBare(cmd, data, device, routerInit, Reboot, 1);
  }

  lemma ResetMeans(cmd: seq<byte>, data: seq<byte>, device: Device, routerInit: int)
    requires StartsWith(cmd, Ascii("set_router_reset"))
    ensures Calls(cmd, data, device, routerInit, Call(Reset, [], data), 1)
  {
    SystemKeywords();
    CallsBare(cmd, data, device, routerInit, Reset, 1);
  }

  lemma CheckUpdateMeans(cmd: seq<byte>, data: seq<byte>, device: Device, routerInit: int)
    requires StartsWith(cmd, Ascii("get_router_update"))
    ensures Calls(cmd, data, device, routerInit, Call(CheckUpdate, [], data), routerInit)
  {
    SystemKeywords();
    CallsBare(cmd, data, device, routerInit, CheckUpdate, routerInit);
  }

  lemma UpdateMeans(cmd: seq<byte>, data: seq<byte>, device: Device, routerInit: int)
    requires StartsWith(cmd, Ascii("set_router_update"))
    ensures Calls(cmd, data, device, routerInit, Call(UpdateFirmware, [], data), routerInit)
  {
    SystemKeywords();
    CallsBare(cmd, data, device, routerInit, UpdateFirmware, routerInit);
  }

  // The command starts with one of the fourteen keywords.

  predicate HasNetKeyword(cmd: seq<byte>) {
    || StartsWith(cmd, Ascii("set_router_wanPPPOE")) || StartsWith(cmd, Ascii("set_router_wanIP"))
    || StartsWith(cmd, Ascii("set_router_wanDHCP")) || StartsWith(cmd, Ascii("set_router_wanMAC"))
  }

  predicate HasRadioKeyword(cmd: seq<byte>) {
    || StartsWith(cmd, Ascii("set_router_wifiSearch")) || StartsWith(cmd, Ascii("set_router_wifi"))
    || StartsWith(cmd, Ascii("get_router_repeater")) || StartsWith(cmd, Ascii("set_router_repeater"))
    || StartsWith(cmd, Ascii("set_router_enrepeater"))
  }

  predicate HasSystemKeyword(cmd: seq<byte>) {
    || StartsWith(cmd, Ascii("set_router_search")) || StartsWith(cmd, Ascii("set_router_reboot"))
    || StartsWith(cmd, Ascii("set_router_reset")) || StartsWith(cmd, Ascii("get_router_update"))
    || StartsWith(cmd, Ascii("set_router_update"))
  }

  predicate HasKeyword(cmd: seq<byte>) {
    HasNetKeyword(cmd) || HasRadioKeyword(cmd) || HasSystemKeyword(cmd)
  }

  lemma NamedIs(cmd: seq<byte>, op: Operation)
    requires Names(cmd, op)
    ensures HasKeyword(cmd)
  {
    NetKeywords();
    RadioKeywords();
    RepeaterKeywords();
    SystemKeywords();
  }

  /** Without a keyword the command is turned down: -1, the old text, and router_init as it was. */
  lemma NoneMeans(cmd: seq<byte>, data: seq<byte>, device: Device, routerInit: int, router: Router,
                  leftover: seq<byte>, found: Option<Operation>, ret: int, text: seq<byte>, init: int)
    requires !HasKeyword(cmd)
    requires Handled(cmd, data, device, routerInit, router, leftover, found, ret, text, init)
    ensures ret == -1 && text == leftover && init == routerInit
  {
    if found.Some? {
      NamedIs(cmd, found.value);
    }
  }

  // ----- whole requests

  /** version:verb:command;data */
  predicate IsRequest(version: seq<byte>, verb: seq<byte>, cmd: seq<byte>, data: seq<byte>, request: seq<byte>) {
    && Printable([version, verb, cmd]) && 59 !in version && 59 !in verb && 59 !in cmd
    && request == version + [58] + verb + [58] + cmd + [59] + data
  }

  /** version:response:command;text */
  predicate IsAnswer(version: seq<byte>, cmd: seq<byte>, text: seq<byte>, answer: seq<byte>) {
    answer == version + Ascii(":response:") + cmd + [59] + text
  }

  lemma RequestParts(version: seq<byte>, verb: seq<byte>, cmd: seq<byte>, data: seq<byte>, request: seq<byte>)
    requires IsRequest(version, verb, cmd, data, request)
    ensures Strtok(request).Some? && Strtok(request).value.1 == data
    ensures Fields(Strtok(request).value.0, 3) == [version, verb, cmd]
  {
    var token := Join([version, verb, cmd]);
    JoinThree(version, verb, cmd);
    assert token == version + [58] + verb + [58] + cmd;
    FirstToken(token, data);
    PrintedRead([version, verb, cmd], token, 3);
  }

  /**
   The request version:verb:command;data is answered with version:response:command; and the
   text that comes of the command with these data.
   */
  lemma AnswerMeans(version: seq<byte>, verb: seq<byte>, cmd: seq<byte>, data: seq<byte>, request: seq<byte>,
                    device: Device, routerInit: int, router: Router, stale: Stale,
                    found: Option<Operation>, ret: int, init: int, answer: seq<byte>)
    returns (text: seq<byte>)
    requires IsRequest(version, verb, cmd, data, request) && Strtok(request).Some?
    requires Answered(request, device, routerInit, router, stale, found, ret, init, answer)
    ensures Handled(cmd, data, device, routerInit, router, stale.text, found, ret, text, init)
    ensures IsAnswer(version, cmd, text, answer)
  {
    RequestParts(version, verb, cmd, data, request);
    text := Effect(router, found, device, data, stale.text).1;
  }

  /** Fields that the request does not have stand in the answer as they were before. */
  lemma ShortAnswer(request: seq<byte>, device: Device, routerInit: int, router: Router, stale: Stale,
                    found: Option<Operation>, ret: int, init: int, answer: seq<byte>)
    returns (text: seq<byte>)
    requires Strtok(request).Some?
    requires Answered(request, device, routerInit, router, stale, found, ret, init, answer)
    ensures var fields := Fields(Strtok(request).value.0, 3);
      IsAnswer(if fields == [] then stale.version else fields[0], if |fields| == 3 then fields[2] else stale.command,
        text, answer)
  {
    text := Effect(router, found, device, Strtok(request).value.1, stale.text).1;
  }
}
