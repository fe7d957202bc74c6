/** The method doFirmwareUpgrade, and what is safe about it for every upload. */
module ImageUpgrade {
  import opened Config
  import opened CStrings
  import opened Firmware
  import opened ConfigRecords
  import ConfigUpdate
  import opened ImageWalk

  /** A turn that is not followed further. */
  predicate LeavesModel(t: Turn) {
    t.Stop? && !Returns(t.o)
  }

  // ----- one item

  /** The start address that the flags lead to. */
  method StartAddress(kind: Kind, startAddr: int, startAddrWeb: int, burnAddr: int) returns (addr: int)
    requires startAddr == -1 && startAddrWeb == -1
    ensures addr == if kind.Root? then 0 else burnAddr
  {
    addr := startAddr;
    if kind.Linux? {
      if addr == -1 {
        addr := burnAddr;
      }
    } else if kind.Root? {
      if addr == -1 {
        addr := 0;
      }
    } else {
      if startAddrWeb == -1 {
        addr := burnAddr;
      } else {
        addr := startAddrWeb;
      }
    }
  }

  /** The length and the checksum of an image: why it is not to be written, or Done. */
  method CheckImage(p: Platform, d: seq<byte>, at: nat, kind: Kind, len: int) returns (o: Ending)
    requires Valid(p) && at + p.headerSize < |d|
    requires if len < 0 then kind.Linux? || kind.Root? else len <= SIZE_LIMIT ==> Inside(p, d, at, kind, len)
    ensures o == if len > SIZE_LIMIT then TooLong
                 else if len < 0 then Done
                 else var body := at + p.headerSize;
                   if ChecksumPasses(p, kind, d[body..body + SumLength(kind, len)]) then Done else BadChecksum
  {
    o := Done;
    if len > SIZE_LIMIT {
      return TooLong;
    }
    if kind.Linux? || kind.Root? {
      var ok := FwChecksumOk(d, at + p.headerSize, len);
      if !ok {
        o := BadChecksum;
      }
    } else if !p.checksumOk(d[at + p.headerSize..at + p.headerSize + len]) {
      o := BadChecksum;
    }
  }

  /** The write of an image that has passed its checks. A negative length shortens what is written. */
  method WriteImage(p: Platform, d: seq<byte>, at: nat, kind: Kind, len: int) returns (t: Turn)
    requires if kind.Root? then len >= 0 else p.headerSize + len >= 0
    requires at + p.headerSize <= |d| && at + p.headerSize + len <= |d|
    requires Written(p, Burnt(p, d, at, kind, at + p.headerSize + len), at + p.headerSize + len) != Stop(Endless, [])
    ensures t == Written(p, Burnt(p, d, at, kind, at + p.headerSize + len), at + p.headerSize + len)
  {
    var locWrite: nat, numLeft: nat := 0, len + p.headerSize;
    var device := if kind.Root? then FlashDevice1 else FlashDevice;
    var startAddr := StartAddress(kind, -1, -1, p.burnAddr(d[at..at + p.headerSize]));
    if kind.Root? {
      locWrite := locWrite + p.headerSize;  // the header is left out
      numLeft := numLeft - p.headerSize;
    }
    var w := Write(at, device, startAddr, d[at + locWrite..at + locWrite + numLeft]);
    var numWrite := p.written(at, numLeft);
    if numWrite < numLeft {
      t := Stop(WriteFailed, Left(w, numWrite));
    } else {
      t := Go(w, at + (len + p.headerSize));
    }
  }

  /** Of an image of length 0 or more the header, if it is not left out, and the body are written. */
  lemma BurntWhole(p: Platform, d: seq<byte>, at: nat, kind: Kind, len: nat)
    requires at + p.headerSize + len <= |d|
    ensures var body := at + p.headerSize;
      Burnt(p, d, at, kind, body + len) == WriteOf(p, at, kind, Header(p, d, at), d[body..body + len])
  {
    var body := at + p.headerSize;
    assert d[at..body] + d[body..body + len] == d[at..body + len];
  }

  /** What comes behind the checks of an image. */
  lemma CheckedTurn(p: Platform, d: seq<byte>, at: nat, kind: Kind, len: int)
    requires Valid(p) && at + p.headerSize < |d| && !LeavesModel(ImageTurn(p, d, at, kind))
    requires len == p.lenOf(Header(p, d, at)) <= SIZE_LIMIT
    ensures if len < 0 then kind.Linux? && p.headerSize + len >= 0 else Inside(p, d, at, kind, len)
    ensures var body := at + p.headerSize;
      ImageTurn(p, d, at, kind) ==
        if len < 0 || ChecksumPasses(p, kind, d[body..body + SumLength(kind, len)]) then
          Written(p, Burnt(p, d, at, kind, body + len), body + len)
        else Stop(BadChecksum, [])
  {
    if len >= 0 {
      BurntWhole(p, d, at, kind, len);
    }
  }

  /** An image: the checks, then the write. */
  method HandleImage(p: Platform, d: seq<byte>, at: nat, kind: Kind) returns (t: Turn)
    requires Valid(p) && at + p.headerSize < |d| && !LeavesModel(ImageTurn(p, d, at, kind))
    ensures t == ImageTurn(p, d, at, kind)
  {
    var len := p.lenOf(d[at..at + p.headerSize]);
    if len <= SIZE_LIMIT {
      CheckedTurn(p, d, at, kind, len);
    }
    var o := CheckImage(p, d, at, kind, len);
    if !o.Done? {
      return Stop(o, []);
    }
    t := WriteImage(p, d, at, kind, len);
  }

  /** Called with length 0, the walk over the settings handles one record. */
  lemma OneRecord(l: Layout, d: seq<byte>, at: nat, mem: nat -> Memory)
    requires l.Valid()
    ensures var look := LookAt(l, d, at, mem(at));
      Walk(l, d, at, at, mem) ==
        if look.Fine? then ConfigRecords.Outcome(at + |look.u.bytes|, Passed, [look.u])
        else ConfigRecords.Outcome(at, StatusOf(look, false), [])
  {
    LookInAt(l, d, at, mem);
  }

  /** What such a walk means for the upgrade. */
  lemma OneSettled(p: Platform, d: seq<byte>, at: nat, o: ConfigRecords.Outcome)
    requires Valid(p) && !LeavesModel(SettingsTurn(p, d, at)) && o == Walk(p.layout, d, at, at, p.mem)
    ensures o.status.Passed? || o.status.Failed?
    ensures SettingsTurn(p, d, at) ==
      if o.status.Passed? && o.updates != [] then Go(Configured(at, o.updates[0]), o.next) else Stop(InvalidConfig, [])
  {
    OneRecord(p.layout, d, at, p.mem);
  }

  lemma SomeSection(us: seq<Update>)
    ensures us == [] <==> SectionsOf(us) == {}
  {
    if us != [] {
      assert us[0].section in SectionsOf(us);
    }
  }

  /** A settings record goes to updateConfigIntoFlash. */
  method HandleSettings(p: Platform, d: seq<byte>, at: nat) returns (t: Turn)
    requires Valid(p) && !LeavesModel(SettingsTurn(p, d, at))
    ensures t == SettingsTurn(p, d, at)
  {
    OneSettled(p, d, at, Walk(p.layout, d, at, at, p.mem));
    var cfgLen, types, status, updates := ConfigUpdate.UpdateConfigIntoFlash(p.layout, d, at, 0, p.mem);
    SomeSection(updates);
    if !status || types == {} {
      return Stop(InvalidConfig, []);
    }
    t := Go(Configured(at, updates[0]), at + cfgLen);
  }

  /** The tests for the signatures, in their order. */
  method FindKind(p: Platform, d: seq<byte>, at: nat) returns (kind: Kind)
    requires at + 4 <= |d|
    ensures kind == KindOf(p, d, at)
  {
    var sig := d[at..at + 4];
    if sig == Ascii("cs6c") || sig == Ascii("cr6c") {
      kind := Linux;
    } else if sig == p.webSignature {
      kind := Web;
    } else if sig == Ascii("r6cr") {
      kind := Root;
    } else if HasSettings(p, d, at) {
      kind := Settings;
    } else {
      kind := Unknown;
    }
  }

  /** What follows from the kind of an item. */
  method HandleAt(p: Platform, d: seq<byte>, at: nat, isValidfw: bool) returns (t: Turn)
    requires Valid(p) && at + p.headerSize < |d| && !LeavesModel(TurnAt(p, d, at, isValidfw))
    ensures t == TurnAt(p, d, at, isValidfw)
  {
    var kind := FindKind(p, d, at);
    if kind.Unknown? {
      t := Stop(if isValidfw then Done else InvalidFormat, []);
    } else if kind.Settings? {
      t := HandleSettings(p, d, at);
    } else {
      t := HandleImage(p, d, at, kind);
    }
  }

  // ----- the loop

  /** A turn of the walk: its offset, what was recognised and done before, and what it does. */
  datatype Step = Step(at: nat, valid: bool, done: seq<Action>, turn: Turn)

  ghost predicate Goes(a: Step, b: Step) {
    a.turn.Go? && a.at < b.at == a.turn.next && b.valid && b.done == a.done + [a.turn.a]
  }

  /** The turns of a walk that comes to goal. */
  ghost predicate Steps(tr: seq<Step>, goal: (Ending, seq<Action>)) {
    && tr != [] && (forall k :: 0 <= k < |tr| - 1 ==> Goes(tr[k], tr[k + 1]))
    && var z := tr[|tr| - 1]; z.turn.Stop? && goal == (z.turn.o, z.done + z.turn.last)
  }

  lemma StepsCons(a: Step, tr: seq<Step>, goal: (Ending, seq<Action>))
    requires Steps(tr, goal) && Goes(a, tr[0])
    ensures Steps([a] + tr, goal)
  {
    var tr2 := [a] + tr;
    forall k | 0 <= k < |tr2| - 1 ensures Goes(tr2[k], tr2[k + 1]) {
      if k > 0 {
        assert Goes(tr[k - 1], tr[k - 1 + 1]);
      }
    }
  }

  lemma {:induction false} StepsOf(turn: (nat, bool) -> Turn, all: nat, at: nat, valid: bool, done: seq<Action>)
    returns (tr: seq<Step>)
    requires Advancing(turn, all)
    ensures Steps(tr, RunTurns(turn, all, at, valid, done))
    ensures tr[0].at == at && tr[0].valid == valid && tr[0].done == done
    ensures forall k :: 0 <= k < |tr| ==> tr[k].turn == turn(tr[k].at, tr[k].valid)
    decreases all - at
  {
    var a := Step(at, valid, done, turn(at, valid));
    tr := [a];
    if a.turn.Go? {
      var rest := StepsOf(turn, all, a.turn.next, true, done + [a.turn.a]);
      StepsCons(a, rest, RunTurns(turn, all, at, valid, done));
      tr := [a] + rest;
    }
  }

  /** Step k is the turn at its offset. */
  ghost predicate SeenAt(p: Platform, d: seq<byte>, tr: seq<Step>, k: nat)
    requires Valid(p)
  {
    k < |tr| ==> tr[k].turn == TurnAt(p, d, tr[k].at, tr[k].valid)
  }

  ghost predicate Seen(p: Platform, d: seq<byte>, tr: seq<Step>)
    requires Valid(p)
  {
    forall k: nat :: SeenAt(p, d, tr, k)
  }

  lemma UpgradeSteps(p: Platform, d: seq<byte>, head: nat) returns (tr: seq<Step>)
    requires Valid(p)
    ensures Steps(tr, RunTurns(Turns(p, d), |d|, head, false, []))
    ensures tr[0].at == head && !tr[0].valid && tr[0].done == [] && Seen(p, d, tr)
  {
    tr := StepsOf(Turns(p, d), |d|, head, false, []);
    forall k: nat ensures SeenAt(p, d, tr, k) {
      if k < |tr| {
        TurnsAt(p, d, tr[k].at, tr[k].valid);
      }
    }
  }

  /** Step k of the walk. */
  method HandleStep(p: Platform, d: seq<byte>, at: nat, isValidfw: bool, ghost tr: seq<Step>, ghost k: nat)
    returns (t: Turn)
    requires Valid(p) && Seen(p, d, tr) && k < |tr| && at == tr[k].at && isValidfw == tr[k].valid
    requires at + p.headerSize < |d| && !LeavesModel(tr[k].turn)
    ensures t == tr[k].turn
  {
    assert SeenAt(p, d, tr, k);
    t := HandleAt(p, d, at, isValidfw);
  }

  lemma LastStep(p: Platform, d: seq<byte>, tr: seq<Step>, k: nat)
    requires Valid(p) && Seen(p, d, tr) && k < |tr| && tr[k].at + p.headerSize >= |d|
    ensures tr[k].turn == Stop(Done, [])
  {
    assert SeenAt(p, d, tr, k);
  }

  /** The loop over the items of an upload. */
  method AllTurns(p: Platform, d: seq<byte>, head: nat, ghost tr: seq<Step>, ghost goal: (Ending, seq<Action>))
    returns (o: Ending, actions: seq<Action>)
    requires Valid(p) && Seen(p, d, tr) && Steps(tr, goal) && Returns(goal.0)
    requires tr[0].at == head && !tr[0].valid && tr[0].done == []
    ensures (o, actions) == goal
  {
    var headOffset, isValidfw := head, false;
    o, actions := Done, [];
    ghost var k := 0;
    while headOffset + p.headerSize < |d|
      invariant k < |tr| && headOffset == tr[k].at && isValidfw == tr[k].valid && actions == tr[k].done && o.Done?
      decreases |tr| - k
    {
      assert k < |tr| - 1 ==> Goes(tr[k], tr[k + 1]);
      var t := HandleStep(p, d, headOffset, isValidfw, tr, k);
      if t.Stop? {
        return t.o, actions + t.last;
      }
      actions := actions + [t.a];
      headOffset, isValidfw := t.next, true;
      k := k + 1;
    }
    LastStep(p, d, tr, k);
    assert k < |tr| - 1 ==> Goes(tr[k], tr[k + 1]);
    assert actions + [] == actions;
  }

  /** The upgrade, on an upload with which the source comes to an end that the model follows. */
  method DoFirmwareUpgrade(p: Platform, d: seq<byte>) returns (o: Ending, actions: seq<Action>)
    requires Valid(p) && Returns(Upgrade(p, d).0)
    ensures (o, actions) == Upgrade(p, d)
  {
    var headOffset := FindHeadOffset(d);
    if headOffset == -1 {
      return InvalidFormat, [];
    }
    ghost var tr := UpgradeSteps(p, d, headOffset);
    o, actions := AllTurns(p, d, headOffset, tr, RunTurns(Turns(p, d), |d|, headOffset, false, []));
  }
}
