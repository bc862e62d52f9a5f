/** The Broadcom function's entry into D3hot: two stores, each behind its own complete checks. */
module BroadcomD3 {
  import opened Platforms
  import opened Capabilities
  import opened Observation
  import opened Pending
  import opened RootPort
  import opened Broadcom

  datatype D3Status =
    | D3Ok | D3Prior | D3Refresh | D3Command | CommandWrite | CommandReadback | D3Pending | D3Pm
    | PmWrite | PmReadback | D3Final

  datatype D3 = D3(commandAttempted: nat, beforeCommand: Word, afterCommand: Word, pendingPolls: nat,
                   deviceStatus: Word, beforePmcsr: Word, d3Attempted: nat, afterPmcsr: Word)

  const NO_D3: D3 := D3(0, 0, 0, 0, 0, 0, 0, 0)

  // ---------------------------------------------------------------- the two stores on faithful memory

  /** A faithful platform whose memory holds the captured function. */
  ghost predicate Ready(p: Platform, endpoint: Header, caps: seq<Cap>, command: Word, pmcsr: Word)
    reads p`words
  {
    p.faithful && HeaderValid(endpoint, COMMAND_INITIAL) && caps == CAPS && Memory(p, endpoint, command, pmcsr)
  }

  lemma CommandHolds(p: Platform, endpoint: Header, command: Word, pmcsr: Word)
    requires Memory(p, endpoint, command, pmcsr)
    ensures Low16(p.Peek(COMMAND)) == command && p.Peek(PMCSR) == pmcsr
  {
    WithCommandKeeps(endpoint, command);
    assert WordMatches(WithCommand(endpoint, command), 1, p.Peek(Config(BCM, 4 * 1)));
  }

  /** Memory after one 16-bit store. */
  function Stored(words: map<Port, Word>, port: Port, value: Word): map<Port, Word>
    requires value < 0x1_0000
  {
    words[port := WithLow16(Lookup(words, port), value)]
  }

  /** Command := 0. */
  method StoreCommand(p: Platform, ghost endpoint: Header, ghost ready: bool) returns (ok: bool)
    requires ready ==> p.faithful && Memory(p, endpoint, COMMAND_INITIAL, PMCSR_D0)
    modifies p`log, p`words
    ensures p.log == old(p.log) + [Write(COMMAND, COMMAND_DISABLED, ok)]
    ensures ready ==> ok && Memory(p, endpoint, COMMAND_DISABLED, PMCSR_D0)
    ensures ready ==> p.words == Stored(old(p.words), COMMAND, COMMAND_DISABLED)
  {
    ghost var w := p.Peek(COMMAND);
    if ready {
      assert WordMatches(WithCommand(endpoint, COMMAND_INITIAL), 1, p.Peek(Config(BCM, 4 * 1)));
      WithCommandKeeps(endpoint, COMMAND_INITIAL);
      StoredLow(w, COMMAND_DISABLED);
      StoredLow(endpoint.words[1], COMMAND_DISABLED);
    }
    ok := p.WriteWord(COMMAND, COMMAND_DISABLED);
    if ready {
      forall i | 0 <= i < 16 ensures WordMatches(WithCommand(endpoint, COMMAND_DISABLED), i,
                                                 p.Peek(Config(BCM, 4 * i))) {
        assert WordMatches(WithCommand(endpoint, COMMAND_INITIAL), i, old(p.Peek(Config(BCM, 4 * i))));
      }
      forall i | 0 <= i < 4 ensures p.Peek(Config(BCM, CAPS[i].offset)) == CAPS[i].raw {
        assert old(p.Peek(Config(BCM, CAPS[i].offset))) == CAPS[i].raw;
      }
    }
  }

  /** PMCSR := `pmcsr`. */
  method StorePower(p: Platform, ghost endpoint: Header, ghost before: Word, pmcsr: Word, ghost ready: bool)
    returns (ok: bool)
    requires pmcsr < 0x1_0000 && before < 0x1_0000
    requires ready ==> p.faithful && Memory(p, endpoint, COMMAND_DISABLED, before)
    modifies p`log, p`words
    ensures p.log == old(p.log) + [Write(PMCSR, pmcsr, ok)]
    ensures ready ==> ok && Memory(p, endpoint, COMMAND_DISABLED, pmcsr)
    ensures ready ==> p.words == Stored(old(p.words), PMCSR, pmcsr)
  {
    ok := p.WriteWord(PMCSR, pmcsr);
    if ready {
      forall i | 0 <= i < 16 ensures WordMatches(WithCommand(endpoint, COMMAND_DISABLED), i,
                                                 p.Peek(Config(BCM, 4 * i))) {
        assert WordMatches(WithCommand(endpoint, COMMAND_DISABLED), i, old(p.Peek(Config(BCM, 4 * i))));
      }
      forall i | 0 <= i < 4 ensures p.Peek(Config(BCM, CAPS[i].offset)) == CAPS[i].raw {
        assert old(p.Peek(Config(BCM, CAPS[i].offset))) == CAPS[i].raw;
      }
    }
  }

  method ReadLow(p: Platform, port: Port) returns (ok: bool, low: Word, ghost e: Event)
    modifies p`log
    ensures p.log == old(p.log) + [e] && e.Read? && e.port == port && low < 0x1_0000
    ensures if ok then LowRead(e, port, low) else e == Read(port, None)
    ensures p.faithful ==> ok && low == Low16(p.Peek(port))
  {
    var value;
    ok, value := p.ReadDword(port);
    low := Low16(value);
    e := Read(port, if ok then Some(value) else None);
  }

  // ---------------------------------------------------------------- disabling Command

  /** The log around the first store. */
  datatype Disabled = Disabled(opening: seq<Event>, command: Event, stored: bool, rest: seq<Event>)

  /** The store comes after a complete refresh and a read of the initial Command; only reads follow. */
  ghost predicate DisableLog(events: seq<Event>, d: Disabled, endpoint: Header) {
    && events == d.opening + [d.command] + [Write(COMMAND, COMMAND_DISABLED, d.stored)] + d.rest
    && OnlyReads(d.opening) && RefreshLog(d.opening, WithCommand(endpoint, COMMAND_INITIAL), PMCSR_D0)
    && LowRead(d.command, COMMAND, COMMAND_INITIAL) && OnlyReads(d.rest)
  }

  /** How the store and its readback end. */
  ghost predicate DisableTail(status: D3Status, after: Word, stored: bool, rest: seq<Event>) {
    match status
    case D3Ok => stored && after == COMMAND_DISABLED && |rest| == 1 && LowRead(rest[0], COMMAND, COMMAND_DISABLED)
    case CommandWrite => !stored && rest == [] && after == 0
    case CommandReadback =>
      && stored && |rest| == 1
      && if rest[0] == Read(COMMAND, None) then after == 0
         else after != COMMAND_DISABLED && LowRead(rest[0], COMMAND, after)
    case _ => false
  }

  ghost predicate DisableRun(status: D3Status, out: D3, events: seq<Event>, d: Disabled, endpoint: Header) {
    if status == D3Refresh then
      OnlyReads(events) && out == NO_D3 && RefreshFailed(events, WithCommand(endpoint, COMMAND_INITIAL), PMCSR_D0)
    else if status == D3Command then
      && OnlyReads(events) && out == NO_D3 && events == d.opening + [d.command]
      && RefreshLog(d.opening, WithCommand(endpoint, COMMAND_INITIAL), PMCSR_D0)
      && LowLost(d.command, COMMAND, COMMAND_INITIAL)
    else
      && DisableLog(events, d, endpoint) && DisableTail(status, out.afterCommand, d.stored, d.rest)
      && out == D3(1, COMMAND_INITIAL, out.afterCommand, 0, 0, 0, 0, 0)
  }

  /** A refresh under the initial Command, then that Command once more. */
  method CheckEnabled(p: Platform, endpoint: Header, caps: seq<Cap>, ghost ready: bool)
    returns (status: D3Status, ghost opening: seq<Event>, ghost command: Event, ghost events: seq<Event>)
    requires HeaderValid(endpoint, COMMAND_INITIAL) && caps == CAPS
    requires ready ==> Ready(p, endpoint, caps, COMMAND_INITIAL, PMCSR_D0)
    modifies p`log
    ensures p.log == old(p.log) + events && OnlyReads(events) && status in {D3Ok, D3Refresh, D3Command}
    ensures status == D3Ok ==>
      && events == opening + [command] && OnlyReads(opening) && LowRead(command, COMMAND, COMMAND_INITIAL)
      && RefreshLog(opening, WithCommand(endpoint, COMMAND_INITIAL), PMCSR_D0)
    ensures status == D3Refresh ==> RefreshFailed(events, WithCommand(endpoint, COMMAND_INITIAL), PMCSR_D0)
    ensures status == D3Command ==>
      && events == opening + [command] && LowLost(command, COMMAND, COMMAND_INITIAL)
      && RefreshLog(opening, WithCommand(endpoint, COMMAND_INITIAL), PMCSR_D0)
    ensures ready ==> status == D3Ok
  {
    hide RefreshLog, RefreshFailed, HeaderValid, Memory;
    var ok, pcie, power, low;
    command := Delay(0, false);
    ok, pcie, power, opening := Refresh(p, endpoint, caps, COMMAND_INITIAL, PMCSR_D0);
    if !ok { return D3Refresh, opening, command, opening; }
    ok, low, command := ReadLow(p, COMMAND);
    events := opening + [command];
    if ready { CommandHolds(p, endpoint, COMMAND_INITIAL, PMCSR_D0); }
    status := if ok && low == COMMAND_INITIAL then D3Ok else D3Command;
  }

  /** The store and its readback. */
  method WriteDisabled(p: Platform, ghost endpoint: Header, ghost caps: seq<Cap>, ghost ready: bool)
    returns (status: D3Status, after: Word, ghost stored: bool, ghost rest: seq<Event>)
    requires ready ==> Ready(p, endpoint, caps, COMMAND_INITIAL, PMCSR_D0)
    modifies p`log, p`words
    ensures p.log == old(p.log) + [Write(COMMAND, COMMAND_DISABLED, stored)] + rest && OnlyReads(rest)
    ensures DisableTail(status, after, stored, rest)
    ensures ready ==> status == D3Ok && Ready(p, endpoint, caps, COMMAND_DISABLED, PMCSR_D0)
    ensures ready ==> p.words == Stored(old(p.words), COMMAND, COMMAND_DISABLED)
  {
    ghost var e;
    after, rest := 0, [];
    var ok := StoreCommand(p, endpoint, ready);
    stored := ok;
    if !ok { status := CommandWrite; return; }
    var low;
    ok, low, e := ReadLow(p, COMMAND);
    if ready { CommandHolds(p, endpoint, COMMAND_DISABLED, PMCSR_D0); }
    rest := [e];
    if !ok { status := CommandReadback; return; }
    after := low;
    status := if low != COMMAND_DISABLED then CommandReadback else D3Ok;
  }

  method DisableCommand(p: Platform, endpoint: Header, caps: seq<Cap>, ghost ready: bool)
    returns (status: D3Status, out: D3, ghost events: seq<Event>, ghost d: Disabled)
    requires HeaderValid(endpoint, COMMAND_INITIAL) && caps == CAPS
    requires ready ==> Ready(p, endpoint, caps, COMMAND_INITIAL, PMCSR_D0)
    modifies p`log, p`words
    ensures p.log == old(p.log) + events
    ensures DisableRun(status, out, events, d, endpoint)
    ensures ready ==> status == D3Ok && Ready(p, endpoint, caps, COMMAND_DISABLED, PMCSR_D0)
    ensures ready ==> p.words == Replay(old(p.words), events)
  {
    hide RefreshLog, RefreshFailed, HeaderValid, Memory, Replay, Writes;
    ghost var opening, command, stored, rest;
    status, opening, command, events := CheckEnabled(p, endpoint, caps, ready);
    d, out := Disabled(opening, command, false, []), NO_D3;
    if status != D3Ok { return; }
    ghost var checked := events;
    var after;
    status, after, stored, rest := WriteDisabled(p, endpoint, caps, ready);
    OnlyReadsTrace(checked);
    OnlyReadsTrace(rest);
    ReplayOneStore(old(p.words), checked, COMMAND, COMMAND_DISABLED, stored, rest);
    d := d.(stored := stored, rest := rest);
    events := events + [Write(COMMAND, COMMAND_DISABLED, stored)] + rest;
    out := D3(1, COMMAND_INITIAL, after, 0, 0, 0, 0, 0);
  }

  // ---------------------------------------------------------------- settling under Command 0

  /** The log between the two stores. */
  datatype Settled = Settled(quiesce: seq<Event>, quiet: seq<Event>, settled: seq<Event>)

  /** A refresh under Command 0, two adjacent clear samples under Command 0, and another refresh. */
  ghost predicate SettleLog(events: seq<Event>, s: Settled, endpoint: Header, prior: Express, quiet: Quiet) {
    && events == s.quiesce + s.quiet + s.settled
    && RefreshLog(s.quiesce, WithCommand(endpoint, COMMAND_DISABLED), PMCSR_D0)
    && QuietSeen(s.quiet, quiet, prior, BCM, COMMAND_DISABLED)
    && RefreshLog(s.settled, WithCommand(endpoint, COMMAND_DISABLED), PMCSR_D0)
  }

  /** Why the events between the stores went no further. */
  ghost predicate SettleStops(status: D3Status, events: seq<Event>, s: Settled, endpoint: Header, prior: Express,
                              quiet: Quiet)
  {
    match status
    case D3Refresh => quiet == Quiet(0, 0) && RefreshFailed(events, WithCommand(endpoint, COMMAND_DISABLED), PMCSR_D0)
    case D3Pending =>
      && events == s.quiesce + s.quiet && RefreshLog(s.quiesce, WithCommand(endpoint, COMMAND_DISABLED), PMCSR_D0)
      && QuietFailed(s.quiet, quiet, WithCommand(endpoint, COMMAND_DISABLED), CAPS, prior, COMMAND_DISABLED)
    case D3Pm =>
      && events == s.quiesce + s.quiet + s.settled
      && RefreshLog(s.quiesce, WithCommand(endpoint, COMMAND_DISABLED), PMCSR_D0)
      && QuietSeen(s.quiet, quiet, prior, BCM, COMMAND_DISABLED)
      && RefreshFailed(s.settled, WithCommand(endpoint, COMMAND_DISABLED), PMCSR_D0)
    case _ => false
  }

  /** The polling loop under Command 0. */
  method PollDisabled(p: Platform, endpoint: Header, caps: seq<Cap>, prior: Express, ghost pmcsr: Word,
                      ghost ready: bool)
    returns (ok: bool, quiet: Quiet, ghost events: seq<Event>)
    requires HeaderValid(endpoint, COMMAND_INITIAL) && PcieValid(prior) && caps == CAPS
    requires ready ==> Ready(p, endpoint, caps, COMMAND_DISABLED, pmcsr)
    modifies p`log
    ensures p.log == old(p.log) + events && Writes(events) == [] && Delays(events) < POLL_LIMIT
    ensures quiet.polls <= POLL_LIMIT
    ensures ok ==> QuietSeen(events, quiet, prior, BCM, COMMAND_DISABLED)
    ensures !ok ==> QuietFailed(events, quiet, WithCommand(endpoint, COMMAND_DISABLED), CAPS, prior, COMMAND_DISABLED)
    ensures ready ==> ok && quiet.polls == 2
  {
    hide QuietRun, PollBroke;
    ghost var t;
    var status;
    if ready { MemoryQuiet(p, endpoint, COMMAND_DISABLED, pmcsr, prior); }
    status, quiet, t := ConfirmQuiet(p, endpoint, caps, prior, COMMAND_DISABLED, 3);
    ok, events := status == QuietOk, t.events;
  }

  /** A refresh under Command 0 and the polling loop. */
  method Quiesce(p: Platform, endpoint: Header, caps: seq<Cap>, prior: Express, ghost ready: bool)
    returns (status: D3Status, quiet: Quiet, ghost events: seq<Event>, ghost s: Settled)
    requires HeaderValid(endpoint, COMMAND_INITIAL) && PcieValid(prior) && caps == CAPS
    requires ready ==> Ready(p, endpoint, caps, COMMAND_DISABLED, PMCSR_D0)
    modifies p`log
    ensures p.log == old(p.log) + events && Writes(events) == [] && Delays(events) < POLL_LIMIT
    ensures status in {D3Ok, D3Refresh, D3Pending} && quiet.polls <= POLL_LIMIT
    ensures status != D3Ok ==> SettleStops(status, events, s, endpoint, prior, quiet)
    ensures status == D3Ok ==>
      && events == s.quiesce + s.quiet && RefreshLog(s.quiesce, WithCommand(endpoint, COMMAND_DISABLED), PMCSR_D0)
      && QuietSeen(s.quiet, quiet, prior, BCM, COMMAND_DISABLED)
    ensures ready ==> status == D3Ok && quiet.polls == 2
  {
    hide RefreshLog, RefreshFailed, HeaderValid, PcieValid, Memory, QuietSeen, QuietFailed;
    var ok, pcie, power;
    ghost var quiesce, polled;
    ok, pcie, power, quiesce := Refresh(p, endpoint, caps, COMMAND_DISABLED, PMCSR_D0);
    s := Settled(quiesce, [], []);
    OnlyReadsTrace(quiesce);
    if !ok { return D3Refresh, Quiet(0, 0), quiesce, s; }
    ok, quiet, polled := PollDisabled(p, endpoint, caps, prior, PMCSR_D0, ready);
    TraceAppend(quiesce, polled);
    events, s := quiesce + polled, Settled(quiesce, polled, []);
    status := if ok then D3Ok else D3Pending;
  }

  method Settle(p: Platform, endpoint: Header, caps: seq<Cap>, prior: Express, ghost ready: bool)
    returns (status: D3Status, quiet: Quiet, before: Word, ghost events: seq<Event>, ghost s: Settled)
    requires HeaderValid(endpoint, COMMAND_INITIAL) && PcieValid(prior) && caps == CAPS
    requires ready ==> Ready(p, endpoint, caps, COMMAND_DISABLED, PMCSR_D0)
    modifies p`log
    ensures p.log == old(p.log) + events && Writes(events) == [] && Delays(events) < POLL_LIMIT
    ensures status in {D3Ok, D3Refresh, D3Pending, D3Pm} && quiet.polls <= POLL_LIMIT
    ensures status != D3Ok ==> SettleStops(status, events, s, endpoint, prior, quiet)
    ensures status == D3Ok ==> SettleLog(events, s, endpoint, prior, quiet) && before == PMCSR_D0
    ensures status != D3Ok ==> before == 0
    ensures ready ==> status == D3Ok && quiet.polls == 2
  {
    hide Memory, HeaderValid, PcieValid, QuietSeen, QuietFailed, RefreshLog, RefreshFailed, OnlyReads, Writes,
      Delays, Reads;
    ghost var settled;
    var ok, pcie, power;
    status, quiet, events, s := Quiesce(p, endpoint, caps, prior, ready);
    before := 0;
    if status != D3Ok { return; }
    ok, pcie, power, settled := Refresh(p, endpoint, caps, COMMAND_DISABLED, PMCSR_D0);
    AppendReads(events, settled);
    events, s := events + settled, s.(settled := settled);
    if !ok { status := D3Pm; return; }
    before := Low16(power.control);
  }

  // ---------------------------------------------------------------- requesting D3hot

  /** How the store of PMCSR and the final checks end; only reads follow the store. */
  ghost predicate EnterRun(status: D3Status, after: Word, stored: bool, rest: seq<Event>, endpoint: Header) {
    && OnlyReads(rest)
    && match status
       case D3Ok =>
         && stored && after == PMCSR_D3HOT && |rest| >= 3 && LowRead(rest[0], PMCSR, PMCSR_D3HOT)
         && CollectionLog(rest[1..|rest| - 2], WithCommand(endpoint, COMMAND_DISABLED), CAPS)
         && LowRead(rest[|rest| - 2], COMMAND, COMMAND_DISABLED) && LowRead(rest[|rest| - 1], PMCSR, PMCSR_D3HOT)
       case PmWrite => !stored && rest == [] && after == 0
       case PmReadback =>
         && stored && |rest| == 1
         && if rest[0] == Read(PMCSR, None) then after == 0 else after != PMCSR_D3HOT && LowRead(rest[0], PMCSR, after)
       case D3Final =>
         && stored && after == PMCSR_D3HOT && |rest| >= 1 && LowRead(rest[0], PMCSR, PMCSR_D3HOT)
         && EnteredBad(rest[1..], WithCommand(endpoint, COMMAND_DISABLED))
       case _ => false
  }

  /** The list, Command or PMCSR was not as required. */
  ghost predicate EnteredBad(events: seq<Event>, current: Header) {
    var n := |events|;
    || Uncollected(events, current) || CollectedOther(events, current, CAPS)
    || (n >= 1 && CollectionLog(events[..n - 1], current, CAPS) && LowLost(events[n - 1], COMMAND, COMMAND_DISABLED))
    || (&& n >= 2 && CollectionLog(events[..n - 2], current, CAPS) && LowRead(events[n - 2], COMMAND, COMMAND_DISABLED)
        && LowLost(events[n - 1], PMCSR, PMCSR_D3HOT))
  }

  /** The list, Command and PMCSR after the store. */
  method CheckEntered(p: Platform, endpoint: Header, ghost ready: bool)
    returns (ok: bool, ghost events: seq<Event>)
    requires ready ==> Ready(p, endpoint, CAPS, COMMAND_DISABLED, PMCSR_D3HOT)
    modifies p`log
    ensures p.log == old(p.log) + events && OnlyReads(events)
    ensures ok ==>
      && |events| >= 2 && CollectionLog(events[..|events| - 2], WithCommand(endpoint, COMMAND_DISABLED), CAPS)
      && LowRead(events[|events| - 2], COMMAND, COMMAND_DISABLED) && LowRead(events[|events| - 1], PMCSR, PMCSR_D3HOT)
    ensures !ok ==> EnteredBad(events, WithCommand(endpoint, COMMAND_DISABLED))
    ensures ready ==> ok
  {
    hide CollectionLog, Uncollected, CollectedOther, Describes, ArgumentsOk, HeaderValid, Memory;
    ghost var list, command, power;
    if ready { MemoryDescribes(p, endpoint, COMMAND_DISABLED, PMCSR_D3HOT); }
    var collected, same, low;
    collected, same, list := Recollect(p, WithCommand(endpoint, COMMAND_DISABLED), CAPS);
    if !collected || !same { return false, list; }
    ok, low, command := ReadLow(p, COMMAND);
    if ready { CommandHolds(p, endpoint, COMMAND_DISABLED, PMCSR_D3HOT); }
    if !ok || low != COMMAND_DISABLED {
      assert (list + [command])[..|list|] == list;
      return false, list + [command];
    }
    ok, low, power := ReadLow(p, PMCSR);
    events := list + [command] + [power];
    assert events[..|events| - 2] == list;
    ok := ok && low == PMCSR_D3HOT;
  }

  method RequestD3Hot(p: Platform, endpoint: Header, ghost ready: bool)
    returns (status: D3Status, after: Word, ghost stored: bool, ghost rest: seq<Event>)
    requires ready ==> Ready(p, endpoint, CAPS, COMMAND_DISABLED, PMCSR_D0)
    modifies p`log, p`words
    ensures p.log == old(p.log) + [Write(PMCSR, PMCSR_D3HOT, stored)] + rest
    ensures EnterRun(status, after, stored, rest, endpoint)
    ensures ready ==> status == D3Ok && Ready(p, endpoint, CAPS, COMMAND_DISABLED, PMCSR_D3HOT)
    ensures ready ==> p.words == Stored(old(p.words), PMCSR, PMCSR_D3HOT)
  {
    hide CollectionLog, EnteredBad, HeaderValid, Memory;
    ghost var e, tail;
    after, rest := 0, [];
    var ok := StorePower(p, endpoint, PMCSR_D0, PMCSR_D3HOT, ready);
    stored := ok;
    if !ok { status := PmWrite; return; }
    var low;
    ok, low, e := ReadLow(p, PMCSR);
    rest := [e];
    if !ok { status := PmReadback; return; }
    after := low;
    if low != PMCSR_D3HOT { status := PmReadback; return; }
    ok, tail := CheckEntered(p, endpoint, ready);
    rest := [e] + tail;
    assert rest[1..] == tail;
    assert ok ==> rest[1..|rest| - 2] == tail[..|tail| - 2];
    status := if ok then D3Ok else D3Final;
  }

  // ---------------------------------------------------------------- the whole entry

  /** The retained record is that of a complete successful entry. */
  predicate D3Valid(status: D3Status, d3: D3) {
    && status == D3Ok && d3.commandAttempted == 1 && d3.beforeCommand == COMMAND_INITIAL
    && d3.afterCommand == COMMAND_DISABLED && 2 <= d3.pendingPolls <= POLL_LIMIT && d3.deviceStatus == 0x19
    && d3.beforePmcsr == PMCSR_D0 && d3.d3Attempted == 1 && d3.afterPmcsr == PMCSR_D3HOT
  }

  /** The same in numbers. */
  lemma D3ValidExactly(status: D3Status, d3: D3)
    ensures D3Valid(status, d3) <==>
            status == D3Ok && 2 <= d3.pendingPolls <= 100 && d3 == D3(1, 6, 0, d3.pendingPolls, 0x19, 0x4008, 1, 0x400b)
  {
  }

  datatype D3Log = D3Log(disable: seq<Event>, d: Disabled, between: seq<Event>, s: Settled, stored: bool,
                         ending: seq<Event>)

  /** The log of a run that attempted both stores. */
  ghost predicate BothStores(status: D3Status, out: D3, events: seq<Event>, g: D3Log, endpoint: Header, prior: Express)
  {
    && events == g.disable + g.between + [Write(PMCSR, PMCSR_D3HOT, g.stored)] + g.ending
    && DisableLog(g.disable, g.d, endpoint) && DisableTail(D3Ok, out.afterCommand, g.d.stored, g.d.rest)
    && SettleLog(g.between, g.s, endpoint, prior, Quiet(out.pendingPolls, out.deviceStatus)) && Writes(g.between) == []
    && EnterRun(status, out.afterPmcsr, g.stored, g.ending, endpoint)
    && out.commandAttempted == 1 && out.beforeCommand == COMMAND_INITIAL && out.beforePmcsr == PMCSR_D0
  }

  /** The log of a run that attempted only the first store. */
  ghost predicate FirstStore(status: D3Status, out: D3, events: seq<Event>, g: D3Log, endpoint: Header, prior: Express)
  {
    && events == g.disable + g.between && DisableLog(g.disable, g.d, endpoint) && Writes(g.between) == []
    && (if status == CommandWrite || status == CommandReadback
        then g.between == [] && DisableTail(status, out.afterCommand, g.d.stored, g.d.rest)
        else && DisableTail(D3Ok, out.afterCommand, g.d.stored, g.d.rest)
             && SettleStops(status, g.between, g.s, endpoint, prior, Quiet(out.pendingPolls, out.deviceStatus)))
    && out == D3(1, COMMAND_INITIAL, out.afterCommand, out.pendingPolls, out.deviceStatus, 0, 0, 0)
  }

  ghost predicate D3Run(status: D3Status, out: D3, events: seq<Event>, g: D3Log, endpoint: Header, prior: Express) {
    match out.d3Attempted
    case 0 =>
      if status == D3Prior then events == [] && out == NO_D3
      else if out.commandAttempted == 0 then
        status in {D3Refresh, D3Command} && DisableRun(status, out, events, g.d, endpoint)
      else FirstStore(status, out, events, g, endpoint, prior)
    case 1 => BothStores(status, out, events, g, endpoint, prior)
    case _ => false
  }

  /** The stores, in order, that a record admits to. */
  function Stores(out: D3, first: bool, second: bool): seq<Event> {
    (if out.commandAttempted == 1 then [Write(Config(Bdf(2, 0, 0), 4), 0, first)] else []) +
    (if out.d3Attempted == 1 then [Write(Config(Bdf(2, 0, 0), 0x44), 0x400b, second)] else [])
  }

  lemma DisableWrites(events: seq<Event>, d: Disabled, endpoint: Header)
    requires DisableLog(events, d, endpoint)
    ensures Writes(events) == [Write(COMMAND, COMMAND_DISABLED, d.stored)]
  {
    AppendReads(d.opening + [d.command] + [Write(COMMAND, COMMAND_DISABLED, d.stored)], d.rest);
    AppendEffect(d.opening + [d.command], Write(COMMAND, COMMAND_DISABLED, d.stored));
    OnlyReadsTrace(d.opening + [d.command]);
  }

  /** The stores of any run are a prefix of Command := 0, PMCSR := 400b: each is attempted once at
      most, the second only after the first succeeded, and a status other than a failed store means
      that the stores attempted so far succeeded. */
  lemma D3Stores(status: D3Status, out: D3, events: seq<Event>, g: D3Log, endpoint: Header, prior: Express)
    requires D3Run(status, out, events, g, endpoint, prior)
    ensures Writes(events) == Stores(out, status != CommandWrite, status != PmWrite)
    ensures out.d3Attempted == 1 ==> out.commandAttempted == 1
  {
    hide DisableLog, SettleLog, Writes, LowRead, CollectionLog, RefreshLog, Reads, Delays;
    if out.commandAttempted == 0 {
      OnlyReadsTrace(events);
    } else {
      DisableWrites(g.disable, g.d, endpoint);
      TraceAppend(g.disable, g.between);
      if out.d3Attempted == 1 {
        AppendEffect(g.disable + g.between, Write(PMCSR, PMCSR_D3HOT, g.stored));
        AppendReads(g.disable + g.between + [Write(PMCSR, PMCSR_D3HOT, g.stored)], g.ending);
      }
    }
  }

  /** Before PMCSR is stored, two adjacent samples of the device control register, each taken between
      two reads of Command 0, showed no pending transaction. */
  lemma QuietBeforeD3(status: D3Status, out: D3, events: seq<Event>, g: D3Log, endpoint: Header, prior: Express)
    returns (t: Trail)
    requires D3Run(status, out, events, g, endpoint, prior) && out.d3Attempted == 1
    ensures t.events == g.s.quiet && g.between == g.s.quiesce + t.events + g.s.settled && |t.samples| >= 2
    ensures IsClear(t.samples[|t.samples| - 1]) && IsClear(t.samples[|t.samples| - 2])
    ensures t.events == t.start + t.previous + [Delay(10, true)] + t.last
    ensures PollLog(t.previous, BCM, COMMAND_DISABLED, ControlPort(BCM, prior), t.samples[|t.samples| - 2])
    ensures PollLog(t.last, BCM, COMMAND_DISABLED, ControlPort(BCM, prior), t.samples[|t.samples| - 1])
  {
    hide RefreshLog, DisableLog, EnterRun, DisableTail, PollLog, FirstStore, DisableRun, NoPairBefore, Answers,
      IsClear;
    var quiet := Quiet(out.pendingPolls, out.deviceStatus);
    t :| QuietRun(QuietOk, quiet, t, prior, BCM, COMMAND_DISABLED) && t.events == g.s.quiet;
    assert PairAt(t.samples, |t.samples| - 2);
  }

  /** Success leaves exactly the record that assignment demands. */
  lemma D3OkValid(out: D3, events: seq<Event>, g: D3Log, endpoint: Header, prior: Express)
    requires D3Run(D3Ok, out, events, g, endpoint, prior) && PcieValid(prior)
    ensures D3Valid(D3Ok, out)
  {
    hide RefreshLog, DisableLog, CollectionLog, LowRead, OnlyReads, Framed;
    var quiet := Quiet(out.pendingPolls, out.deviceStatus);
    var t :| QuietRun(QuietOk, quiet, t, prior, BCM, COMMAND_DISABLED) && t.events == g.s.quiet;
    QuietStatusWord(quiet, t, prior, BCM, COMMAND_DISABLED);
  }

  const EMPTY_LOG: D3Log := D3Log([], Disabled([], Delay(0, false), false, []), [], Settled([], [], []), false, [])

  lemma DisableEnds(status: D3Status, out: D3, disable: seq<Event>, d: Disabled, endpoint: Header, prior: Express)
    requires DisableRun(status, out, disable, d, endpoint) && status != D3Ok
    ensures D3Run(status, out, disable, EMPTY_LOG.(disable := disable, d := d), endpoint, prior) && status != D3Prior
  {
    hide DisableLog, DisableTail;
    assert disable == disable + [];
    if status != D3Refresh && status != D3Command {
      TailStatus(status, out.afterCommand, d.stored, d.rest);
    }
  }

  lemma TailStatus(status: D3Status, after: Word, stored: bool, rest: seq<Event>)
    requires DisableTail(status, after, stored, rest)
    ensures status in {D3Ok, CommandWrite, CommandReadback}
  {
  }

  lemma SettleEnds(status: D3Status, out: D3, disable: seq<Event>, d: Disabled, between: seq<Event>, s: Settled,
                   quiet: Quiet, endpoint: Header, prior: Express)
    requires DisableRun(D3Ok, out, disable, d, endpoint) && Writes(between) == []
    requires status in {D3Refresh, D3Pending, D3Pm}
    requires SettleStops(status, between, s, endpoint, prior, quiet)
    ensures D3Run(status, out.(pendingPolls := quiet.polls, deviceStatus := quiet.deviceStatus), disable + between,
                  EMPTY_LOG.(disable := disable, d := d, between := between, s := s), endpoint, prior)
  {
    hide DisableLog, DisableTail, SettleStops, Writes;
  }

  lemma EntryEnds(status: D3Status, out: D3, disable: seq<Event>, d: Disabled, between: seq<Event>, s: Settled,
                  quiet: Quiet, after: Word, stored: bool, ending: seq<Event>, endpoint: Header, prior: Express)
    requires DisableRun(D3Ok, out, disable, d, endpoint) && Writes(between) == []
    requires SettleLog(between, s, endpoint, prior, quiet) && EnterRun(status, after, stored, ending, endpoint)
    ensures D3Run(status, D3(1, out.beforeCommand, out.afterCommand, quiet.polls, quiet.deviceStatus, PMCSR_D0, 1,
                             after),
                  disable + between + [Write(PMCSR, PMCSR_D3HOT, stored)] + ending,
                  D3Log(disable, d, between, s, stored, ending), endpoint, prior)
  {
    hide DisableLog, DisableTail, SettleLog, EnterRun, Writes;
  }

  /** The three phases, after the inputs were checked. */
  method RunPhases(p: Platform, endpoint: Header, caps: seq<Cap>, prior: Express, ghost ready: bool)
    returns (status: D3Status, out: D3, ghost events: seq<Event>, ghost g: D3Log)
    requires HeaderValid(endpoint, COMMAND_INITIAL) && PcieValid(prior) && caps == CAPS
    requires ready ==> Ready(p, endpoint, caps, COMMAND_INITIAL, PMCSR_D0)
    modifies p`log, p`words
    ensures p.log == old(p.log) + events
    ensures D3Run(status, out, events, g, endpoint, prior) && status != D3Prior
    ensures ready ==>
      status == D3Ok && out.pendingPolls == 2 && Ready(p, endpoint, caps, COMMAND_DISABLED, PMCSR_D3HOT)
    ensures ready ==> p.words == Replay(old(p.words), events)
  {
    hide Ready, HeaderValid, PcieValid, DisableRun, SettleLog, SettleStops, EnterRun, D3Run, Writes, Replay, Delays,
      WithLow16, Lookup;
    ghost var disable, d, between, s, stored, ending;
    status, out, disable, d := DisableCommand(p, endpoint, caps, ready);
    events, g := disable, EMPTY_LOG.(disable := disable, d := d);
    if status != D3Ok {
      DisableEnds(status, out, disable, d, endpoint, prior);
      return;
    }
    ghost var disabled := out;
    DisabledRecord(out, disable, d, endpoint);
    var quiet, before, after;
    status, quiet, before, between, s := Settle(p, endpoint, caps, prior, ready);
    events, g := disable + between, g.(between := between, s := s);
    out := out.(pendingPolls := quiet.polls, deviceStatus := quiet.deviceStatus);
    if status != D3Ok {
      SettleEnds(status, disabled, disable, d, between, s, quiet, endpoint, prior);
      return;
    }
    out := out.(beforePmcsr := before, d3Attempted := 1);
    ghost var settled := p.words;
    status, after, stored, ending := RequestD3Hot(p, endpoint, ready);
    EndingSilent(status, after, stored, ending, endpoint);
    ReplayOneStore(settled, between, PMCSR, PMCSR_D3HOT, stored, ending);
    ReplayAppend(old(p.words), disable, between + [Write(PMCSR, PMCSR_D3HOT, stored)] + ending);
    assert disable + (between + [Write(PMCSR, PMCSR_D3HOT, stored)] + ending)
        == disable + between + [Write(PMCSR, PMCSR_D3HOT, stored)] + ending;
    events := disable + between + [Write(PMCSR, PMCSR_D3HOT, stored)] + ending;
    g, out := g.(stored := stored, ending := ending), out.(afterPmcsr := after);
    EntryStatus(status, after, stored, ending, endpoint);
    EntryEnds(status, disabled, disable, d, between, s, quiet, after, stored, ending, endpoint, prior);
  }

  lemma EndingSilent(status: D3Status, after: Word, stored: bool, rest: seq<Event>, endpoint: Header)
    requires EnterRun(status, after, stored, rest, endpoint)
    ensures Writes(rest) == []
  {
    hide CollectionLog, EnteredBad, LowRead;
    OnlyReadsTrace(rest);
  }

  lemma DisabledRecord(out: D3, disable: seq<Event>, d: Disabled, endpoint: Header)
    requires DisableRun(D3Ok, out, disable, d, endpoint)
    ensures out == D3(1, out.beforeCommand, out.afterCommand, 0, 0, 0, 0, 0)
  {
  }

  lemma EntryStatus(status: D3Status, after: Word, stored: bool, rest: seq<Event>, endpoint: Header)
    requires EnterRun(status, after, stored, rest, endpoint)
    ensures status in {D3Ok, PmWrite, PmReadback, D3Final}
  {
  }

  lemma NothingDone(endpoint: Header, prior: Express)
    ensures D3Run(D3Prior, NO_D3, [], EMPTY_LOG, endpoint, prior)
  {
  }

  /** What the entry demands of its caller, in numbers. */
  ghost predicate D3Demands(endpoint: Header, bridge: Header, caps: seq<Cap>, prior: Express, clear: RootClear,
                            status: QuietStatus, quiet: Quiet)
  {
    && CapturedEndpoint(endpoint, prior, caps) && CapturedBridge(bridge) && clear == RootClear(RootOk, 1, 7, 3)
    && status == QuietOk && 2 <= quiet.polls <= 100 && (quiet.deviceStatus == 0x10 || quiet.deviceStatus == 0x11)
  }

  lemma DemandsExactly(endpoint: Header, bridge: Header, caps: seq<Cap>, prior: Express, clear: RootClear,
                       status: QuietStatus, quiet: Quiet)
    ensures D3Demands(endpoint, bridge, caps, prior, clear, status, quiet) <==>
      && HeaderValid(endpoint, COMMAND_INITIAL) && PcieValid(prior) && caps == CAPS
      && RootPriorValid(bridge, clear, status, quiet)
  {
    hide CapturedEndpoint, CapturedBridge, HeaderValid, PcieValid, RootPriorValid;
    EndpointExactly(endpoint, prior, caps);
    RootPriorExactly(bridge, clear, status, quiet);
  }

  /** Entry into D3hot, on any platform; a ready platform always gets there, Command 0 and PMCSR 400b. */
  method EnterD3Hot(p: Platform, endpoint: Header, bridge: Header, caps: seq<Cap>, prior: Express, rootClear: RootClear,
                    rootStatus: QuietStatus, rootQuiet: Quiet, ghost ready: bool)
    returns (status: D3Status, out: D3, ghost events: seq<Event>, ghost g: D3Log)
    requires ready ==>
      && Ready(p, endpoint, caps, COMMAND_INITIAL, PMCSR_D0) && PcieValid(prior)
      && RootPriorValid(bridge, rootClear, rootStatus, rootQuiet)
    modifies p`log, p`words
    ensures p.log == old(p.log) + events
    ensures D3Run(status, out, events, g, endpoint, prior)
    ensures status == D3Ok ==> D3Valid(status, out)
    ensures status == D3Prior <==> !D3Demands(endpoint, bridge, caps, prior, rootClear, rootStatus, rootQuiet)
    ensures ready ==>
      status == D3Ok && out.pendingPolls == 2 && Ready(p, endpoint, caps, COMMAND_DISABLED, PMCSR_D3HOT)
    ensures ready ==> p.words == Replay(old(p.words), events)
  {
    hide D3Run, D3Demands, HeaderValid, PcieValid, RootPriorValid, Memory;
    out, events, g := NO_D3, [], EMPTY_LOG;
    NothingDone(endpoint, prior);
    DemandsExactly(endpoint, bridge, caps, prior, rootClear, rootStatus, rootQuiet);
    var capsOk := CapsValid(caps);
    if !HeaderValid(endpoint, COMMAND_INITIAL) || !PcieValid(prior) || !capsOk
       || !RootPriorValid(bridge, rootClear, rootStatus, rootQuiet)
    {
      return D3Prior, out, events, g;
    }
    status, out, events, g := RunPhases(p, endpoint, caps, prior, ready);
    if status == D3Ok { D3OkValid(out, events, g, endpoint, prior); }
  }
}
