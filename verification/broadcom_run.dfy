/** The root port, D3hot entry and assignment in sequence on one platform. */
module BroadcomRun {
  import opened Platforms
  import opened Capabilities
  import opened Observation
  import opened Pending
  import opened Masks
  import opened RegisterFields
  import opened RootPort
  import opened Broadcom
  import opened BroadcomD3
  import opened BroadcomAssign

  /** The function's memory is what its own configuration space holds. */
  lemma MemoryElsewhere(before: map<Port, Word>, p: Platform, endpoint: Header, command: Word, pmcsr: Word)
    requires forall offset: nat :: p.Peek(Config(BCM, offset)) == Lookup(before, Config(BCM, offset))
    requires command < 0x1_0000 && HasList(endpoint.words[1])
    requires forall i: nat | i < 16 ::
      WordMatches(WithCommand(endpoint, command), i, Lookup(before, Config(BCM, 4 * i)))
    requires forall i: nat | i < 4 :: Lookup(before, Config(BCM, CAPS[i].offset)) == CAPS[i].raw
    requires Lookup(before, Config(BCM, 0xd4)) == 0x0590_8fa0 && Lookup(before, Config(BCM, 0xd8)) == 0x0019_0000
    requires Lookup(before, PMCSR) == pmcsr
    ensures Memory(p, endpoint, command, pmcsr)
  {
  }

  /** Clear and quiet confirmation of the captured bridge. */
  method GateAndPoll(p: Platform, bridge: Header, caps: seq<Cap>, prior: Express, ghost want: nat)
    returns (clear: RootClear, status: QuietStatus, quiet: Quiet, ghost events: seq<Event>)
    requires p.faithful && CapturedBridge(bridge) && RootMemory(p, bridge, caps, prior, want, 7)
    requires prior.control == 0x0010_0000 || prior.control == 0x0011_0000
    modifies p`log, p`words
    ensures p.log == old(p.log) + events && Writes(events) == [Write(Config(Bdf(0, 28, 1), 4), 3, true)]
    ensures forall port :: port != Config(Bdf(0, 28, 1), 4) ==> p.Peek(port) == old(p.Peek(port))
    ensures p.words == Replay(old(p.words), events) && RootPriorValid(bridge, clear, status, quiet)
    ensures clear == RootClear(RootOk, 1, 7, 3) && quiet == Quiet(2, prior.control / 0x1_0000)
  {
    hide RootMemory, CapturedBridge, RootPortHeader, SampleOk, RootRun, QuietRun, Writes, Replay, RootPriorValid,
      Delays, Answers, PollBroke, Low16, WithLow16, Lookup, Reads, OnlyReads, IsClear;
    ghost var g, first, t;
    ghost var before := p.words;
    BridgeIsRoot(bridge);
    SampleIn(p, bridge, caps, prior, want);
    clear, first, g := ClearRoot(p, bridge, caps, prior, want, true);
    ClearIs(clear, first, g, bridge, caps);
    status, quiet, t := ConfirmRootQuiet(p, bridge, caps, prior, clear, want, true);
    RootStores(clear, first, g, bridge, caps);
    RootFeedsD3(bridge, caps, prior, clear, first, g, quiet, t);
    QuietSample(quiet, t, prior, bridge.bdf);
    TraceAppend(first, t.events);
    events := first + t.events;
    ReplaySole(before, events, Config(Bdf(0, 28, 1), 4), 3, true);
    OthersKept(before, Config(Bdf(0, 28, 1), 4), WithLow16(Lookup(before, Config(Bdf(0, 28, 1), 4)), 3));
  }

  lemma OthersKept(words: map<Port, Word>, port: Port, value: Word)
    ensures forall other :: other != port ==> Lookup(words[port := value], other) == Lookup(words, other)
  {
  }

  /** The root port's two steps, which leave the function's memory alone. */
  method RootStage(p: Platform, bridge: Header, caps: seq<Cap>, prior: Express, ghost want: nat, ghost endpoint: Header)
    returns (clear: RootClear, status: QuietStatus, quiet: Quiet, ghost events: seq<Event>)
    requires p.faithful && CapturedBridge(bridge) && RootMemory(p, bridge, caps, prior, want, 7)
    requires prior.control == 0x0010_0000 || prior.control == 0x0011_0000
    requires Memory(p, endpoint, COMMAND_INITIAL, PMCSR_D0)
    modifies p`log, p`words
    ensures p.log == old(p.log) + events && Writes(events) == [Write(Config(Bdf(0, 28, 1), 4), 3, true)]
    ensures p.words == Replay(old(p.words), events)
    ensures RootPriorValid(bridge, clear, status, quiet) && Memory(p, endpoint, COMMAND_INITIAL, PMCSR_D0)
    ensures clear == RootClear(RootOk, 1, 7, 3) && quiet == Quiet(2, prior.control / 0x1_0000)
  {
    hide RootMemory, CapturedBridge, Writes, Replay, RootPriorValid;
    ghost var before := p.words;
    clear, status, quiet, events := GateAndPoll(p, bridge, caps, prior, want);
    MemoryElsewhere(before, p, endpoint, COMMAND_INITIAL, PMCSR_D0);
  }

  lemma SampleIn(p: Platform, h: Header, caps: seq<Cap>, prior: Express, want: nat)
    requires RootMemory(p, h, caps, prior, want, 7)
    ensures SampleOk(prior)
  {
  }

  lemma ClearIs(out: RootClear, events: seq<Event>, g: RootLog, h: Header, caps: seq<Cap>)
    requires RootRun(out, events, g, h, caps) && out.status == RootOk
    ensures out == RootClear(RootOk, 1, 7, 3)
  {
  }

  /** The whole way on one platform: the root port is gated and quiet, the function goes to D3hot and comes
      back to D0. Four stores, in this order and no other; the function's Command is 0 from the second on. */
  method QuietSleepAssign(p: Platform, endpoint: Header, bridge: Header, caps: seq<Cap>, prior: Express,
                          rootCaps: seq<Cap>, rootPrior: Express, ghost want: nat, contract: nat, policy: Policy,
                          writeCheck: WriteQuery -> int, admissionCheck: AdmissionQuery -> int)
    returns (clear: RootClear, quiet: Quiet, d3: D3, status: AssignStatus, out: Assign, ghost gated: seq<Event>,
             ghost events: seq<Event>)
    requires p.faithful && CapturedEndpoint(endpoint, prior, caps) && Memory(p, endpoint, COMMAND_INITIAL, PMCSR_D0)
    requires CapturedBridge(bridge) && RootMemory(p, bridge, rootCaps, rootPrior, want, 7)
    requires rootPrior.control == 0x0010_0000 || rootPrior.control == 0x0011_0000
    requires BothAgree(contract, policy, writeCheck, admissionCheck)
    modifies p`log, p`words
    ensures clear == RootClear(RootOk, 1, 7, 3) && quiet == Quiet(2, rootPrior.control / 0x1_0000)
    ensures d3 == D3(1, 6, 0, 2, 0x19, 0x4008, 1, 0x400b)
    ensures status == AssignOk && out == Woken().(admitted := 1)
    ensures Memory(p, endpoint, COMMAND_DISABLED, PMCSR_D0)
    ensures p.log == old(p.log) + gated + events && p.words == Replay(old(p.words), gated + events)
    ensures Writes(gated) == [Write(Config(Bdf(0, 28, 1), 4), 3, true)] && Writes(events) == THREE_STORES
    ensures CommandStaysZero(Replay(old(p.words), gated), events)
  {
    hide Memory, RootMemory, CapturedEndpoint, CapturedBridge, RootPriorValid, D3Demands, BothAgree, Replay, Writes,
      CommandStaysZero, HeaderValid, PcieValid;
    var quietStatus, d3Status;
    EndpointExactly(endpoint, prior, caps);
    clear, quietStatus, quiet, gated := RootStage(p, bridge, rootCaps, rootPrior, want, endpoint);
    DemandsExactly(endpoint, bridge, caps, prior, clear, quietStatus, quiet);
    d3Status, d3, status, out, events :=
      SleepThenAssign(p, endpoint, bridge, caps, prior, clear, quietStatus, quiet, contract, policy, writeCheck,
                      admissionCheck);
    ReplayAppend(old(p.words), gated, events);
  }

  // ---------------------------------------------------------------- the recorded board

  const RECORDED_BRIDGE: Header :=
    HeaderRecord(Bdf(0, 28, 1), [0x0f4a_8086, 0x0010_0007, 0x0604_000e, 0x0081_0010, 0, 0, 0x0002_0200, 0x2000_00f0,
                                 0xd070_d070, 0x0001_fff1, 0, 0, 0, 0x40, 0, 0x0010_0205])

  const RECORDED_ENDPOINT: Header :=
    HeaderRecord(Bdf(2, 0, 0), [0x4353_14e4, 0x0010_0006, 0x0280_0001, 0x10, 0xd070_0004, 0, 0, 0, 0, 0, 0, 0x04d8_14e4,
                                0, 0x40, 0, 0x105])

  const BRIDGE_CAPS: seq<Cap> :=
    [Cap(0x40, 0x0142_8010), Cap(0x80, 0x9005), Cap(0x90, 0xa00d), Cap(0xa0, 0xc803_0001)]

  const BRIDGE_PRIOR: Express := Express(ExpressOk, 0x40, 0x8000, 0x0011_0000)

  function BridgeWord(offset: nat): Word {
    if offset < 64 then RECORDED_BRIDGE.words[offset / 4]
    else if offset == 0x40 then 0x0142_8010
    else if offset == 0x44 then 0x8000
    else if offset == 0x48 then 0x0011_0000
    else if offset == 0x80 then 0x9005
    else if offset == 0x90 then 0xa00d
    else if offset == 0xa0 then 0xc803_0001
    else 0
  }

  lemma BridgeListed()
    ensures ArgumentsOk(RECORDED_BRIDGE) && Terminated(Head(RECORDED_BRIDGE), BRIDGE_CAPS)
    ensures ExpressUsable(RECORDED_BRIDGE, BRIDGE_CAPS, 0)
  {
    hide ExpressShape, Terminated, Sole, Free;
    assert Head(RECORDED_BRIDGE) == 0x40;
    RootShape(RECORDED_BRIDGE, BRIDGE_CAPS[0]);
    BridgeEntries(BRIDGE_CAPS);
    FourEntries(BRIDGE_CAPS);
  }

  lemma BridgeEntries(list: seq<Cap>)
    requires list == BRIDGE_CAPS
    ensures |list| == 4
    ensures list[0].offset == 0x40 && Low8(list[0].raw) == 0x10 && Capabilities.Link(list[0].raw) == 0x80
    ensures list[1].offset == 0x80 && Low8(list[1].raw) == 5 && Capabilities.Link(list[1].raw) == 0x90
    ensures list[2].offset == 0x90 && Low8(list[2].raw) == 0xd && Capabilities.Link(list[2].raw) == 0xa0
    ensures list[3].offset == 0xa0 && Low8(list[3].raw) == 1 && Capabilities.Link(list[3].raw) == 0
  {
  }

  lemma FourEntries(list: seq<Cap>)
    requires |list| == 4
    requires list[0].offset == 0x40 && Low8(list[0].raw) == 0x10 && Capabilities.Link(list[0].raw) == 0x80
    requires list[1].offset == 0x80 && Low8(list[1].raw) == 5 && Capabilities.Link(list[1].raw) == 0x90
    requires list[2].offset == 0x90 && Low8(list[2].raw) == 0xd && Capabilities.Link(list[2].raw) == 0xa0
    requires list[3].offset == 0xa0 && Low8(list[3].raw) == 1 && Capabilities.Link(list[3].raw) == 0
    ensures Terminated(0x40, list) && Sole(list, EXPRESS_ID, 0) && Free(list, 0x44) && Free(list, 0x48)
  {
    hide Low8, Capabilities.Link;
    forall i | 0 <= i < 4 ensures LinkedAt(0x40, list, i) { }
  }

  lemma RootShape(h: Header, cap: Cap)
    requires h.words[3] == 0x0081_0010 && cap == Cap(0x40, 0x0142_8010)
    ensures ExpressShape(h, cap)
  {
    assert High16(cap.raw) == 0x142;
  }

  lemma BridgeHolds(p: Platform)
    requires p.faithful
    requires forall offset: nat | offset < 0x100 :: p.Peek(Config(Bdf(0, 28, 1), offset)) == BridgeWord(offset)
    ensures RootMemory(p, RECORDED_BRIDGE, BRIDGE_CAPS, BRIDGE_PRIOR, 0, 7)
  {
    hide BridgeWord, Terminated, Sole, Free, ExpressShape, ArgumentsOk;
    BridgeListed();
    WithOwnCommand(RECORDED_BRIDGE);
    forall i: nat | i < 16 ensures p.Peek(Config(Bdf(0, 28, 1), 4 * i)) == RECORDED_BRIDGE.words[i] { HeaderWord(i); }
    forall i: nat | i < 4 ensures p.Peek(Config(Bdf(0, 28, 1), BRIDGE_CAPS[i].offset)) == BRIDGE_CAPS[i].raw {
      ListWord(i);
    }
    forall i | 0 <= i < 4
      ensures CheckPasses(RECORDED_BRIDGE, i, p.Peek(Config(Bdf(0, 28, 1), CHECKED[i])))
    {
      assert CHECKED[i] == 4 * (CHECKED[i] / 4);
    }
    PayloadWords();
  }

  lemma HeaderWord(i: nat)
    requires i < 16
    ensures BridgeWord(4 * i) == RECORDED_BRIDGE.words[i]
  {
  }

  lemma ListWord(i: nat)
    requires i < 4
    ensures BRIDGE_CAPS[i].offset < 0x100 && BridgeWord(BRIDGE_CAPS[i].offset) == BRIDGE_CAPS[i].raw
  {
  }

  lemma PayloadWords()
    ensures BridgeWord(0x44) == 0x8000 && BridgeWord(0x48) == 0x0011_0000 && SampleOk(BRIDGE_PRIOR)
  {
  }

  lemma RecordedInputs()
    ensures CapturedBridge(RECORDED_BRIDGE) && CapturedHeader(RECORDED_ENDPOINT, 6)
    ensures HasList(RECORDED_ENDPOINT.words[1])
  {
    hide And;
    FieldsAreMasks(RECORDED_BRIDGE.words[1]);
    FieldsAreMasks(RECORDED_ENDPOINT.words[1]);
    TypeByte(RECORDED_BRIDGE.words[3]);
    TypeByte(RECORDED_ENDPOINT.words[3]);
  }

  /** The recorded board as plain memory. The run on it yields what was recorded: Command 7 to 3 on the root
      port, quiet at the second poll with device status 11, Command 6 to 0, device status 19, PMCSR 4008 to
      400b; and then the assignment brings the function back. */
  method RecordedRun(contract: nat, policy: Policy, writeCheck: WriteQuery -> int,
                     admissionCheck: AdmissionQuery -> int)
    returns (clear: RootClear, quiet: Quiet, d3: D3, status: AssignStatus, ghost gated: seq<Event>,
             ghost events: seq<Event>)
    requires BothAgree(contract, policy, writeCheck, admissionCheck)
    ensures clear == RootClear(RootOk, 1, 7, 3) && quiet == Quiet(2, 0x11)
    ensures d3 == D3(1, 6, 0, 2, 0x19, 0x4008, 1, 0x400b) && status == AssignOk
    ensures Writes(gated) == [Write(Config(Bdf(0, 28, 1), 4), 3, true)] && Writes(events) == THREE_STORES
  {
    hide Memory, RootMemory, CapturedBridge, CapturedHeader, CapturedWord, BridgeWord, BothAgree, Writes,
      RECORDED_BRIDGE, RECORDED_ENDPOINT, BRIDGE_CAPS;
    var bridgeWords := map offset: nat | offset < 0x100 :: Config(Bdf(0, 28, 1), offset) := BridgeWord(offset);
    var words := map offset: nat | offset < 0x100 :: Config(BCM, offset) := CapturedWord(RECORDED_ENDPOINT, offset);
    var p := new Platform(true, words + bridgeWords, Gone);
    forall offset: nat | offset < 0x100
      ensures p.Peek(Config(Bdf(0, 28, 1), offset)) == BridgeWord(offset)
      ensures p.Peek(Config(BCM, offset)) == CapturedWord(RECORDED_ENDPOINT, offset)
    {
      assert Config(Bdf(0, 28, 1), offset) in bridgeWords && Config(BCM, offset) in words;
    }
    RecordedInputs();
    HeaderExactly(RECORDED_ENDPOINT, 6);
    CapturedMemory(p, RECORDED_ENDPOINT);
    BridgeHolds(p);
    var prior, out := Express(ExpressOk, 0xd0, 0x0590_8fa0, 0x0019_0000), NO_ASSIGN;
    clear, quiet, d3, status, out, gated, events :=
      QuietSleepAssign(p, RECORDED_ENDPOINT, RECORDED_BRIDGE, CAPS, prior, BRIDGE_CAPS, BRIDGE_PRIOR, 0, contract,
                       policy, writeCheck, admissionCheck);
  }
}
