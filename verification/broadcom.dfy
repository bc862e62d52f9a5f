/** The Broadcom function's way into D3hot and back to D0 (PCI PM 1.2): every configuration write,
    what precedes it, and what the records then promise. */
module Broadcom {
  import opened Platforms
  import opened Capabilities
  import opened Observation
  import opened Pending
  import opened Masks
  import opened RegisterFields
  import opened RootPort

  const BCM: Bdf := Bdf(2, 0, 0)
  const COMMAND: Port := Config(BCM, 4)
  const PMCSR: Port := Config(BCM, 0x44)
  const COMMAND_INITIAL: Word := 6
  const COMMAND_DISABLED: Word := 0
  const PMCSR_D0: Word := 0x4008
  const PMCSR_D3HOT: Word := 0x400b
  const BAR0: Word := 0xd070_0004

  // ---------------------------------------------------------------- validity of the inputs

  predicate HeaderValid(h: Header, command: Word) {
    && h.bdf == BCM && h.words[0] == 0x4353_14e4 && Low16(h.words[1]) == command && h.words[2] == 0x0280_0001
    && h.words[3] / 0x1_0000 % 0x100 == 0 && h.words[4] == BAR0 && h.words[5] == 0
    && h.words[11] == 0x04d8_14e4 && h.words[13] == 0x40
  }

  predicate PcieValid(e: Express) {
    e == Express(ExpressOk, 0xd0, 0x0590_8fa0, 0x0019_0000)
  }

  const CAPS: seq<Cap> :=
    [Cap(0x40, 0xce03_5801), Cap(0x58, 0x0078_4809), Cap(0x48, 0x0080_d005), Cap(0xd0, 0x0001_0010)]

  method CapsValid(caps: seq<Cap>) returns (ok: bool)
    ensures ok <==> caps == CAPS
  {
    if |caps| != 4 { return false; }
    for i := 0 to 4
      invariant caps[..i] == CAPS[..i]
    {
      if caps[i].offset != CAPS[i].offset || caps[i].raw != CAPS[i].raw { return false; }
    }
    return true;
  }

  predicate PmValid(e: Power, pmcsr: Word) {
    e == Power(PowerOk, 0x40, 0xce03, pmcsr)
  }

  predicate RootPriorValid(bridge: Header, clear: RootClear, quietStatus: QuietStatus, quiet: Quiet) {
    && bridge.bdf.fn == 1 && RootPortHeader(bridge) && bridge.words[6] == 0x0002_0200
    && bridge.words[8] == 0xd070_d070 && bridge.words[9] == 0x0001_fff1 && bridge.words[10] == 0
    && bridge.words[11] == 0
    && clear == RootClear(RootOk, 1, 7, 3)
    && quietStatus == QuietOk && 2 <= quiet.polls <= POLL_LIMIT && quiet.deviceStatus / 2 == 8
  }

  /** The endpoint's header under this Command, in the source's masks. */
  ghost predicate CapturedHeader(h: Header, command: Word) {
    && h.bdf == Bdf(2, 0, 0) && h.words[0] == 0x4353_14e4 && And(h.words[1], 0xffff) == command
    && h.words[2] == 0x0280_0001 && And(h.words[3], 0x00ff_0000) == 0 && h.words[4] == 0xd070_0004 && h.words[5] == 0
    && h.words[11] == 0x04d8_14e4 && h.words[13] == 0x40
  }

  /** The second root port, forwarding exactly the endpoint's bus and window. */
  ghost predicate CapturedBridge(h: Header) {
    && h.bdf == Bdf(0, 28, 1) && h.words[0] == 0x0f4a_8086 && And(h.words[1], 0xffff) == 7
    && h.words[2] == 0x0604_000e && And(h.words[3], 0x00ff_0000) == 0x0081_0000 && h.words[6] == 0x0002_0200
    && h.words[8] == 0xd070_d070 && h.words[9] == 0x0001_fff1 && h.words[10] == 0 && h.words[11] == 0
  }

  lemma HeaderExactly(h: Header, command: Word)
    ensures HeaderValid(h, command) <==> CapturedHeader(h, command)
  {
    hide And;
    FieldsAreMasks(h.words[1]);
    TypeByte(h.words[3]);
  }

  lemma TypeByte(word: Word)
    ensures And(word, 0x00ff_0000) == 0x1_0000 * (word / 0x1_0000 % 0x100)
  {
    hide And, Pow2;
    Powers();
    FieldMask(word, 16, 8);
  }

  /** What the D3 entry demands of the root port stage: the captured bridge, a clear that read 7 and left 3, and
      a quiet confirmation whose device status is 10 or 11 (hexadecimal). */
  lemma RootPriorExactly(bridge: Header, clear: RootClear, status: QuietStatus, quiet: Quiet)
    ensures RootPriorValid(bridge, clear, status, quiet) <==>
      && CapturedBridge(bridge) && clear.status == RootOk && clear.attempted == 1 && clear.before == 7
      && clear.after == 3 && status == QuietOk && 2 <= quiet.polls <= 100
      && (quiet.deviceStatus == 0x10 || quiet.deviceStatus == 0x11)
  {
    hide And;
    FieldsAreMasks(bridge.words[1]);
    TypeByte(bridge.words[3]);
  }

  lemma BridgeIsRoot(bridge: Header)
    requires CapturedBridge(bridge)
    ensures RootPortHeader(bridge) && bridge.bdf == Bdf(0, 28, 1)
  {
    hide And;
    FieldsAreMasks(bridge.words[1]);
    TypeByte(bridge.words[3]);
  }

  /** A completed clear and a quiet confirmation of the captured bridge are what the D3 entry demands, exactly
      when the sample before the clear showed device status 10 or 11. */
  lemma RootFeedsD3(bridge: Header, caps: seq<Cap>, prior: Express, clear: RootClear, events: seq<Event>, g: RootLog,
                    quiet: Quiet, t: Trail)
    requires RootRun(clear, events, g, bridge, caps) && clear.status == RootOk && SampleOk(prior)
    requires QuietRun(QuietOk, quiet, t, prior, bridge.bdf, 3)
    ensures RootPriorValid(bridge, clear, QuietOk, quiet) <==>
            CapturedBridge(bridge) && (prior.control == 0x0010_0000 || prior.control == 0x0011_0000)
  {
    hide RootPriorValid, QuietRun, Refreshed, GatedSeen;
    QuietSample(quiet, t, prior, bridge.bdf);
    RootPriorExactly(bridge, clear, QuietOk, quiet);
  }

  /** The endpoint as captured: header, observed registers and list. */
  ghost predicate CapturedEndpoint(h: Header, prior: Express, caps: seq<Cap>) {
    && CapturedHeader(h, 6) && prior == Express(ExpressOk, 0xd0, 0x0590_8fa0, 0x0019_0000)
    && caps == [Cap(0x40, 0xce03_5801), Cap(0x58, 0x0078_4809), Cap(0x48, 0x0080_d005), Cap(0xd0, 0x0001_0010)]
  }

  lemma EndpointExactly(h: Header, prior: Express, caps: seq<Cap>)
    ensures HeaderValid(h, COMMAND_INITIAL) && PcieValid(prior) && caps == CAPS <==> CapturedEndpoint(h, prior, caps)
  {
    hide CapturedHeader, HeaderValid;
    HeaderExactly(h, 6);
  }

  // ---------------------------------------------------------------- the captured list

  lemma CapsEntries(list: seq<Cap>)
    requires list == CAPS
    ensures |list| == 4
    ensures list[0].offset == 0x40 && Low8(list[0].raw) == 1 && Link(list[0].raw) == 0x58
    ensures High16(list[0].raw) == 0xce03
    ensures list[1].offset == 0x58 && Low8(list[1].raw) == 9 && Link(list[1].raw) == 0x48
    ensures list[2].offset == 0x48 && Low8(list[2].raw) == 5 && Link(list[2].raw) == 0xd0
    ensures list[3].offset == 0xd0 && Low8(list[3].raw) == 0x10 && Link(list[3].raw) == 0 && High16(list[3].raw) == 1
  {
  }

  lemma FourLinked(list: seq<Cap>)
    requires |list| == 4 && list[0].offset == 0x40 && Low8(list[0].raw) == 1 && Link(list[0].raw) == 0x58
    requires list[1].offset == 0x58 && Low8(list[1].raw) == 9 && Link(list[1].raw) == 0x48
    requires list[2].offset == 0x48 && Low8(list[2].raw) == 5 && Link(list[2].raw) == 0xd0
    requires list[3].offset == 0xd0 && Low8(list[3].raw) == 0x10 && Link(list[3].raw) == 0
    ensures Terminated(0x40, list) && Sole(list, EXPRESS_ID, 3) && Sole(list, POWER_ID, 0)
    ensures Free(list, 0x44) && Free(list, 0xd4) && Free(list, 0xd8)
  {
    assert LinkedAt(0x40, list, 0) && LinkedAt(0x40, list, 1) && LinkedAt(0x40, list, 2) && LinkedAt(0x40, list, 3);
  }

  /** The captured list is complete, and its PCI Express and power entries are usable. */
  lemma CapsUsable(h: Header, list: seq<Cap>)
    requires list == CAPS && HasList(h.words[1]) && h.words[13] == 0x40 && h.words[3] / 0x1_0000 % 0x100 == 0
    ensures Head(h) == 0x40 && Terminated(Head(h), list) && |list| == 4
    ensures ExpressUsable(h, list, 3) && PowerUsable(list, 0)
    ensures list[3].offset == 0xd0 && list[0].offset == 0x40 && High16(list[0].raw) == 0xce03
  {
    CapsEntries(list);
    FourLinked(list);
    assert Layout(h) == 0;
  }

  // ---------------------------------------------------------------- the header comparison

  /** Word i of the header, Status compared only in its capability-list bit. */
  predicate WordMatches(expected: Header, i: nat, value: Word)
    requires i < 16
  {
    if i == 1 then Low16(value) == Low16(expected.words[1]) && HasList(value) == HasList(expected.words[1])
    else value == expected.words[i]
  }

  method HeaderUnchanged(p: Platform, current: Header) returns (ok: bool, ghost events: seq<Event>)
    modifies p`log
    ensures p.log == old(p.log) + events && OnlyReads(events) && |events| <= 16
    ensures if ok then |events| == 16 && HeaderLog(events, current) else HeaderBad(events, current)
    ensures p.faithful && (forall i :: 0 <= i < 16 ==> WordMatches(current, i, p.Peek(Config(BCM, 4 * i)))) ==> ok
  {
    events := [];
    for i := 0 to 16
      invariant p.log == old(p.log) + events && OnlyReads(events) && |events| == i
      invariant forall k :: 0 <= k < i ==> HeaderRead(events[k], current, k)
    {
      var read, value := p.ReadDword(Config(BCM, 4 * i));
      events := events + [Read(Config(BCM, 4 * i), if read then Some(value) else None)];
      if !read || !WordMatches(current, i, value) { return false, events; }
    }
    return true, events;
  }

  ghost predicate HeaderRead(e: Event, current: Header, i: nat)
    requires i < 16
  {
    e.Read? && e.port == Config(BCM, 4 * i) && e.answer.Some? && WordMatches(current, i, e.answer.value)
  }

  /** The last word read failed or did not match. */
  ghost predicate HeaderBad(events: seq<Event>, current: Header) {
    && 1 <= |events| <= 16 && (forall i :: 0 <= i < |events| - 1 ==> HeaderRead(events[i], current, i))
    && var n := |events| - 1;
       events[n].Read? && events[n].port == Config(BCM, 4 * n) && !HeaderRead(events[n], current, n)
  }

  /** Faithful memory of the function, with the given Command and PMCSR. */
  ghost predicate Memory(p: Platform, endpoint: Header, command: Word, pmcsr: Word)
    reads p`words
  {
    && command < 0x1_0000 && HasList(endpoint.words[1])
    && (forall i :: 0 <= i < 16 ==> WordMatches(WithCommand(endpoint, command), i, p.Peek(Config(BCM, 4 * i))))
    && (forall i :: 0 <= i < 4 ==> p.Peek(Config(BCM, CAPS[i].offset)) == CAPS[i].raw)
    && p.Peek(Config(BCM, 0xd4)) == 0x0590_8fa0 && p.Peek(Config(BCM, 0xd8)) == 0x0019_0000
    && p.Peek(PMCSR) == pmcsr
  }

  lemma WithCommandKeeps(h: Header, command: Word)
    requires command < 0x1_0000
    ensures HasList(WithCommand(h, command).words[1]) == HasList(h.words[1])
    ensures Low16(WithCommand(h, command).words[1]) == command
  {
    var w := h.words[1];
    var q := w / 0x1_0000;
    assert WithLow16(w, command) == q * 0x1_0000 + command;
    assert w / 0x10_0000 == q / 16 == WithLow16(w, command) / 0x10_0000;
  }

  /** Such memory describes the captured list under the current Command. */
  lemma MemoryDescribes(p: Platform, endpoint: Header, command: Word, pmcsr: Word)
    requires HeaderValid(endpoint, COMMAND_INITIAL) && Memory(p, endpoint, command, pmcsr)
    ensures
      var current := WithCommand(endpoint, command);
      ArgumentsOk(current) && Describes(p, current, CAPS)
      && ExpressReady(p, current, CAPS, 3) && (pmcsr != ALL_ONES ==> PowerReady(p, current, CAPS, 0))
  {
    var current := WithCommand(endpoint, command);
    WithCommandKeeps(endpoint, command);
    CapsUsable(current, CAPS);
    assert WordMatches(current, 0, p.Peek(Config(BCM, 4 * 0)));
    assert WordMatches(current, 1, p.Peek(Config(BCM, 4 * 1)));
    assert WordMatches(current, 3, p.Peek(Config(BCM, 4 * 3)));
    assert WordMatches(current, 13, p.Peek(Config(BCM, 4 * 13)));
  }

  lemma MemoryQuiet(p: Platform, endpoint: Header, command: Word, pmcsr: Word, prior: Express)
    requires HeaderValid(endpoint, COMMAND_INITIAL) && Memory(p, endpoint, command, pmcsr) && p.faithful
    requires PcieValid(prior)
    ensures QuietReady(p, WithCommand(endpoint, command), CAPS, prior, command, 3)
  {
    MemoryDescribes(p, endpoint, command, pmcsr);
    WithCommandKeeps(endpoint, command);
    CapsUsable(endpoint, CAPS);
    assert WordMatches(WithCommand(endpoint, command), 1, p.Peek(Config(BCM, 4 * 1)));
  }

  // ---------------------------------------------------------------- refreshing the whole state

  const DEVICE_CONTROL: Port := Config(BCM, 0xd8)

  /** The log of a complete refresh: the sixteen header words as expected, then one read each of the
      device control register and of PMCSR, with the captured values. */
  ghost predicate RefreshLog(events: seq<Event>, current: Header, pmcsr: Word) {
    && HeaderLog(events, current)
    && Answers(events, DEVICE_CONTROL) == [0x0019_0000] && Answers(events, PMCSR) == [pmcsr]
  }

  ghost predicate HeaderLog(events: seq<Event>, current: Header) {
    |events| >= 16 && forall i :: 0 <= i < 16 ==> HeaderRead(events[i], current, i)
  }

  ghost predicate ExpressSeen(events: seq<Event>, current: Header, valid: bool) {
    exists e: Express, k: nat, b: Bracket :: ExpressRun(events, current, CAPS, e, k, b) && PcieValid(e) == valid
  }

  ghost predicate PowerBad(events: seq<Event>, current: Header, pmcsr: Word) {
    exists e: Power, k: nat, b: Bracket :: PowerRun(events, current, CAPS, e, k, b) && !PmValid(e, pmcsr)
  }

  /** The log of a refused refresh: a header word, the PCI Express or the power observation. */
  ghost predicate RefreshFailed(events: seq<Event>, current: Header, pmcsr: Word) {
    || HeaderBad(events, current)
    || (&& HeaderLog(events, current)
        && (|| ExpressSeen(events[16..], current, false)
            || exists tail :: PowerFailsLast(events[16..], tail, current, pmcsr)))
  }

  ghost predicate PowerFailsLast(rest: seq<Event>, tail: seq<Event>, current: Header, pmcsr: Word) {
    && |tail| <= |rest| && rest[|rest| - |tail|..] == tail && ExpressSeen(rest[..|rest| - |tail|], current, true)
    && PowerBad(tail, current, pmcsr)
  }

  lemma HeaderPrefix(header: seq<Event>, rest: seq<Event>, current: Header)
    requires |header| == 16 && HeaderLog(header, current)
    ensures HeaderLog(header + rest, current) && (header + rest)[16..] == rest
  {
    forall i | 0 <= i < 16 ensures HeaderRead((header + rest)[i], current, i) {
      assert (header + rest)[i] == header[i];
    }
  }

  lemma ExpressRefused(header: seq<Event>, express: seq<Event>, current: Header, pmcsr: Word)
    requires |header| == 16 && HeaderLog(header, current) && ExpressSeen(express, current, false)
    ensures RefreshFailed(header + express, current, pmcsr)
  {
    hide HeaderLog, ExpressSeen;
    HeaderPrefix(header, express, current);
  }

  lemma PowerRefused(header: seq<Event>, express: seq<Event>, tail: seq<Event>, current: Header, pmcsr: Word)
    requires |header| == 16 && HeaderLog(header, current) && ExpressSeen(express, current, true)
    requires PowerBad(tail, current, pmcsr)
    ensures RefreshFailed(header + express + tail, current, pmcsr)
  {
    hide HeaderLog, ExpressSeen, PowerBad;
    HeaderPrefix(header, express + tail, current);
    assert header + express + tail == header + (express + tail);
    assert (express + tail)[..|express|] == express && (express + tail)[|express|..] == tail;
    assert PowerFailsLast(express + tail, tail, current, pmcsr);
  }

  lemma HeaderSilent(events: seq<Event>, current: Header, offset: nat)
    requires |events| == 16 && HeaderLog(events, current) && offset >= 64
    ensures Answers(events, Config(BCM, offset)) == []
  {
    forall i | 0 <= i < 16 ensures !(events[i].Read? && events[i].port == Config(BCM, offset)) {
      assert HeaderRead(events[i], current, i);
    }
    NotAsked(events, Config(BCM, offset));
  }

  /** The PCI Express observation reads device control once and PMCSR never. */
  lemma ExpressReadsOnce(events: seq<Event>, h: Header, e: Express, k: nat, b: Bracket)
    requires ExpressRun(events, h, CAPS, e, k, b) && PcieValid(e) && h.bdf == BCM
    ensures Answers(events, DEVICE_CONTROL) == [0x0019_0000] && Answers(events, PMCSR) == []
  {
    ExpressAnswers(events, h, CAPS, e, k, b);
    CapsEntries(CAPS);
    FourLinked(CAPS);
    CollectionSilent(b.opening, h, CAPS, 0x44);
    CollectionSilent(b.closing, h, CAPS, 0x44);
    AnswersAround(b.opening, Read(Config(BCM, 0xd4), Some(e.capabilities)), Read(Config(BCM, 0xd8), Some(e.control)),
                  b.closing, PMCSR);
  }

  lemma AnswersAround(head: seq<Event>, first: Event, second: Event, tail: seq<Event>, port: Port)
    requires Answers(head, port) == [] && Answers(tail, port) == []
    requires first.Read? && second.Read? && first.port != port && second.port != port
    ensures Answers(head + [first] + [second] + tail, port) == []
  {
    AnswersAppend(head + [first] + [second], tail, port);
    AnswersAppend(head + [first], [second], port);
    AnswersAppend(head, [first], port);
    AnswerOf(first, port);
    AnswerOf(second, port);
  }

  /** The power observation reads PMCSR once and device control never. */
  lemma PowerReadsOnce(events: seq<Event>, h: Header, e: Power, pmcsr: Word, k: nat, b: Bracket)
    requires PowerRun(events, h, CAPS, e, k, b) && PmValid(e, pmcsr) && h.bdf == BCM
    ensures Answers(events, PMCSR) == [pmcsr] && Answers(events, DEVICE_CONTROL) == []
  {
    CapsEntries(CAPS);
    FourLinked(CAPS);
    var read := Read(Config(BCM, 0x44), Some(pmcsr));
    forall port | port == PMCSR || port == DEVICE_CONTROL
      ensures Answers(events, port) == if port == PMCSR then [pmcsr] else []
    {
      CollectionSilent(b.opening, h, CAPS, port.offset);
      CollectionSilent(b.closing, h, CAPS, port.offset);
      AnswersAppend(b.opening + [read], b.closing, port);
      AnswersAppend(b.opening, [read], port);
      AnswerOf(read, port);
    }
  }

  lemma JoinRefresh(header: seq<Event>, express: seq<Event>, power: seq<Event>, current: Header, pmcsr: Word)
    requires |header| == 16 && HeaderLog(header, current)
    requires Answers(express, DEVICE_CONTROL) == [0x0019_0000] && Answers(express, PMCSR) == []
    requires Answers(power, DEVICE_CONTROL) == [] && Answers(power, PMCSR) == [pmcsr]
    ensures RefreshLog(header + express + power, current, pmcsr)
  {
    forall port | port == PMCSR || port == DEVICE_CONTROL
      ensures Answers(header + express + power, port) == Answers(express, port) + Answers(power, port)
    {
      HeaderSilent(header, current, port.offset);
      AnswersAppend(header + express, power, port);
      AnswersAppend(header, express, port);
    }
    forall i | 0 <= i < 16 ensures HeaderRead((header + express + power)[i], current, i) {
      assert (header + express + power)[i] == header[i];
    }
  }

  /** The platform will answer a refresh of the function with this header and PMCSR. */
  ghost predicate RefreshReady(p: Platform, current: Header, pmcsr: Word)
    reads p`words
  {
    && p.faithful && current.bdf == BCM
    && (forall i :: 0 <= i < 16 ==> WordMatches(current, i, p.Peek(Config(BCM, 4 * i))))
    && ExpressReady(p, current, CAPS, 3) && p.Peek(Config(BCM, 0xd4)) == 0x0590_8fa0
    && p.Peek(Config(BCM, 0xd8)) == 0x0019_0000
    && PowerReady(p, current, CAPS, 0) && p.Peek(PMCSR) == pmcsr
  }

  lemma MemoryRefreshes(p: Platform, endpoint: Header, command: Word, pmcsr: Word)
    requires p.faithful && pmcsr < 0x1_0000 && HeaderValid(endpoint, COMMAND_INITIAL)
    requires Memory(p, endpoint, command, pmcsr)
    ensures RefreshReady(p, WithCommand(endpoint, command), pmcsr)
  {
    MemoryDescribes(p, endpoint, command, pmcsr);
  }

  method RefreshExpress(p: Platform, current: Header, ghost pmcsr: Word, ghost ready: bool)
    returns (ok: bool, pcie: Express, ghost events: seq<Event>)
    requires ready ==> RefreshReady(p, current, pmcsr)
    modifies p`log
    ensures p.log == old(p.log) + events && OnlyReads(events) && |events| <= 106
    ensures ok <==> PcieValid(pcie)
    ensures ExpressSeen(events, current, ok)
    ensures ok && current.bdf == BCM ==>
      Answers(events, DEVICE_CONTROL) == [0x0019_0000] && Answers(events, PMCSR) == []
    ensures ready ==> ok
  {
    ghost var k, b;
    pcie, events, k, b := ObserveExpress(p, current, CAPS, 3);
    ok := PcieValid(pcie);
    if ok && current.bdf == BCM { ExpressReadsOnce(events, current, pcie, k, b); }
  }

  method RefreshPower(p: Platform, current: Header, pmcsr: Word, ghost ready: bool)
    returns (ok: bool, power: Power, ghost events: seq<Event>)
    requires ready ==> RefreshReady(p, current, pmcsr)
    modifies p`log
    ensures p.log == old(p.log) + events && OnlyReads(events) && |events| <= 105
    ensures ok <==> PmValid(power, pmcsr)
    ensures !ok ==> PowerBad(events, current, pmcsr)
    ensures ok && current.bdf == BCM ==> Answers(events, PMCSR) == [pmcsr] && Answers(events, DEVICE_CONTROL) == []
    ensures ready ==> ok
  {
    ghost var k, b;
    power, events, k, b := ObservePower(p, current, CAPS, 0);
    CapsEntries(CAPS);
    ok := PmValid(power, pmcsr);
    if ok && current.bdf == BCM { PowerReadsOnce(events, current, power, pmcsr, k, b); }
  }

  method RefreshAll(p: Platform, current: Header, pmcsr: Word, ghost ready: bool)
    returns (ok: bool, pcie: Express, power: Power, ghost events: seq<Event>)
    requires current.bdf == BCM && (ready ==> RefreshReady(p, current, pmcsr))
    modifies p`log
    ensures p.log == old(p.log) + events && OnlyReads(events) && |events| <= 227
    ensures ok ==> PcieValid(pcie) && PmValid(power, pmcsr) && RefreshLog(events, current, pmcsr)
    ensures !ok ==> RefreshFailed(events, current, pmcsr)
    ensures ready ==> ok
  {
    hide HeaderLog, HeaderBad, ExpressSeen, PowerBad, RefreshLog, PcieValid, PmValid;
    ghost var header, express, tail;
    pcie, power := Failed(BadArgument), PowerFailure(PowerArgument);
    ok, header := HeaderUnchanged(p, current);
    events := header;
    if !ok { return; }
    ok, pcie, express := RefreshExpress(p, current, pmcsr, ready);
    events := header + express;
    if !ok {
      ExpressRefused(header, express, current, pmcsr);
      return;
    }
    ok, power, tail := RefreshPower(p, current, pmcsr, ready);
    events := header + express + tail;
    if ok {
      JoinRefresh(header, express, tail, current, pmcsr);
    } else {
      PowerRefused(header, express, tail, current, pmcsr);
    }
  }

  /** Header, PCI Express and power state are all as captured, under this Command and PMCSR. */
  method Refresh(p: Platform, initial: Header, caps: seq<Cap>, command: Word, pmcsr: Word)
    returns (ok: bool, pcie: Express, power: Power, ghost events: seq<Event>)
    requires command < 0x1_0000 && pmcsr < 0x1_0000
    modifies p`log
    ensures p.log == old(p.log) + events && OnlyReads(events) && |events| <= 227
    ensures ok ==> caps == CAPS && HeaderValid(initial, COMMAND_INITIAL) && PcieValid(pcie) && PmValid(power, pmcsr)
    ensures ok ==> RefreshLog(events, WithCommand(initial, command), pmcsr)
    ensures !ok && caps == CAPS && HeaderValid(initial, COMMAND_INITIAL) ==>
      RefreshFailed(events, WithCommand(initial, command), pmcsr)
    ensures p.faithful && HeaderValid(initial, COMMAND_INITIAL) && caps == CAPS
            && Memory(p, initial, command, pmcsr) ==>
      ok
  {
    hide RefreshFailed, RefreshLog;
    pcie, power, events := Failed(BadArgument), PowerFailure(PowerArgument), [];
    ok := CapsValid(caps);
    if !ok || !HeaderValid(initial, COMMAND_INITIAL) { return false, pcie, power, events; }
    ghost var ready := p.faithful && Memory(p, initial, command, pmcsr);
    if ready { MemoryRefreshes(p, initial, command, pmcsr); }
    ok, pcie, power, events := RefreshAll(p, WithCommand(initial, command), pmcsr, ready);
  }
}
