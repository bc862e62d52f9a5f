/** The Broadcom function's way back from D3hot to D0: one store, permitted by a generated check on
    what was just read, and an admission check on what was read afterwards. */
module BroadcomAssign {
  import opened Platforms
  import opened Capabilities
  import opened Observation
  import opened Pending
  import opened RootPort
  import opened Broadcom
  import opened BroadcomD3

  const RECOVERY_MS: nat := 10
  const BAR0_PORT: Port := Config(BCM, 0x10)
  const BAR1_PORT: Port := Config(BCM, 0x14)

  datatype AssignStatus =
    | AssignOk | AssignPrior | AssignPre | GeneratedWrite | AssignWrite | AssignDelay | AssignPost
    | AssignPending | AssignFinal | GeneratedAdmission

  /** Command, the two BARs and PMCSR, as read in one sweep. */
  datatype State = State(command: Word, bar0: Word, bar1: Word, pmcsr: Word)

  datatype Policy = Policy(bus: nat, device: nat, fn: nat, identity: nat, dma: nat, cfgWrite: nat, cmdSet: nat)

  datatype Assign = Assign(pre: State, writeAccepted: nat, d0Attempted: nat, post: State,
                           deviceControl: Word, quiet: Quiet, admitted: nat)

  /** The arguments of the two generated checks. */
  datatype WriteQuery = WriteQuery(contract: nat, d3Status: nat, beforeCommand: Word, afterCommand: Word,
                                   beforePmcsr: Word, afterPmcsr: Word, pre: State, offset: nat, width: nat,
                                   value: Word)
  datatype AdmissionQuery = AdmissionQuery(write: WriteQuery, post: State, deviceControl: Word, quiet: Quiet,
                                           policy: Policy)

  const NO_STATE: State := State(0, 0, 0, 0)
  const NO_ASSIGN: Assign := Assign(NO_STATE, 0, 0, NO_STATE, 0, Quiet(0, 0), 0)

  function AskWrite(contract: nat, d3: D3, pre: State): WriteQuery {
    WriteQuery(contract, 0, d3.beforeCommand, d3.afterCommand, d3.beforePmcsr, d3.afterPmcsr, pre, 0x44, 2, PMCSR_D0)
  }

  function AskAdmission(contract: nat, d3: D3, out: Assign, policy: Policy): AdmissionQuery {
    AdmissionQuery(AskWrite(contract, d3, out.pre), out.post, out.deviceControl, out.quiet, policy)
  }

  // ---------------------------------------------------------------- reading

  /** The header under Command 0 and the retained capability list. */
  ghost predicate IdentityKept(events: seq<Event>, endpoint: Header) {
    && HeaderLog(events, WithCommand(endpoint, COMMAND_DISABLED))
    && CollectionLog(events[16..], WithCommand(endpoint, COMMAND_DISABLED), CAPS)
  }

  /** A header word or the list was not as retained. */
  ghost predicate IdentityLost(events: seq<Event>, endpoint: Header) {
    var current := WithCommand(endpoint, COMMAND_DISABLED);
    || HeaderBad(events, current)
    || (&& HeaderLog(events, current)
        && (Uncollected(events[16..], current) || CollectedOther(events[16..], current, CAPS)))
  }

  lemma MemoryMatches(p: Platform, endpoint: Header, command: Word, pmcsr: Word)
    requires Memory(p, endpoint, command, pmcsr)
    ensures forall i :: 0 <= i < 16 ==> WordMatches(WithCommand(endpoint, command), i, p.Peek(Config(BCM, 4 * i)))
  {
  }

  method AssignHeader(p: Platform, endpoint: Header, caps: seq<Cap>, ghost pmcsr: Word, ghost ready: bool)
    returns (ok: bool, ghost events: seq<Event>)
    requires caps == CAPS && HeaderValid(endpoint, COMMAND_INITIAL)
    requires ready ==> Ready(p, endpoint, caps, COMMAND_DISABLED, pmcsr)
    modifies p`log
    ensures p.log == old(p.log) + events && OnlyReads(events) && |events| <= 68
    ensures if ok then IdentityKept(events, endpoint) else IdentityLost(events, endpoint)
    ensures ready ==> ok
  {
    hide HeaderLog, HeaderBad, CollectionLog, Uncollected, CollectedOther, HeaderValid, Memory, Describes, ArgumentsOk;
    ghost var header, list;
    var current := WithCommand(endpoint, COMMAND_DISABLED);
    if ready {
      MemoryDescribes(p, endpoint, COMMAND_DISABLED, pmcsr);
      MemoryMatches(p, endpoint, COMMAND_DISABLED, pmcsr);
    }
    ok, header := HeaderUnchanged(p, current);
    if !ok { return false, header; }
    var collected, same;
    collected, same, list := Recollect(p, current, caps);
    events, ok := header + list, collected && same;
    HeaderPrefix(header, list, current);
  }

  /** The four reads that filled `state`. */
  ghost predicate StateLog(events: seq<Event>, state: State) {
    && |events| == 4 && LowRead(events[0], COMMAND, state.command) && events[1] == Read(BAR0_PORT, Some(state.bar0))
    && events[2] == Read(BAR1_PORT, Some(state.bar1)) && LowRead(events[3], PMCSR, state.pmcsr)
  }

  const SWEEP: seq<Port> := [COMMAND, BAR0_PORT, BAR1_PORT, PMCSR]

  ghost predicate Answered(e: Event, port: Port) {
    e.Read? && e.port == port && e.answer.Some?
  }

  /** The read after `got` successful ones failed; the record holds what those answered. */
  ghost predicate SweepLost(events: seq<Event>, got: nat, before: State, state: State) {
    && got < 4 && |events| == got + 1 && events[got] == Read(SWEEP[got], None)
    && (forall i :: 0 <= i < got ==> Answered(events[i], SWEEP[i]))
    && state.pmcsr == before.pmcsr
    && state.command == (if got > 0 then Low16(events[0].answer.value) else before.command)
    && state.bar0 == (if got > 1 then events[1].answer.value else before.bar0)
    && state.bar1 == (if got > 2 then events[2].answer.value else before.bar1)
  }

  /** Fills the record read by read; a failed read leaves the rest as it was. */
  method ReadState(p: Platform, before: State, ghost endpoint: Header, ghost caps: seq<Cap>, ghost pmcsr: Word,
                   ghost ready: bool)
    returns (ok: bool, state: State, ghost events: seq<Event>)
    requires pmcsr < 0x1_0000 && (ready ==> Ready(p, endpoint, caps, COMMAND_DISABLED, pmcsr))
    modifies p`log
    ensures p.log == old(p.log) + events && OnlyReads(events)
    ensures ok ==> StateLog(events, state)
    ensures !ok ==> events != [] && SweepLost(events, |events| - 1, before, state)
    ensures ready ==> ok && state == State(COMMAND_DISABLED, BAR0, 0, pmcsr)
  {
    ghost var e, seen;
    var low, value;
    state := before;
    if ready { StateHolds(p, endpoint, pmcsr); }
    ok, low, e := ReadLow(p, COMMAND);
    events := [e];
    if !ok { return; }
    state := state.(command := low);
    ok, value, seen := ReadRegister(p, BAR0_PORT);
    events := events + seen;
    if !ok { return; }
    state := state.(bar0 := value);
    ok, value, seen := ReadRegister(p, BAR1_PORT);
    events := events + seen;
    if !ok { return; }
    state := state.(bar1 := value);
    ok, low, e := ReadLow(p, PMCSR);
    events := events + [e];
    if !ok { return; }
    state := state.(pmcsr := low);
  }

  lemma StateHolds(p: Platform, endpoint: Header, pmcsr: Word)
    requires HeaderValid(endpoint, COMMAND_INITIAL) && Memory(p, endpoint, COMMAND_DISABLED, pmcsr) && pmcsr < 0x1_0000
    ensures Low16(p.Peek(COMMAND)) == COMMAND_DISABLED && p.Peek(BAR0_PORT) == BAR0 && p.Peek(BAR1_PORT) == 0
    ensures Low16(p.Peek(PMCSR)) == pmcsr
  {
    var current := WithCommand(endpoint, COMMAND_DISABLED);
    CommandHolds(p, endpoint, COMMAND_DISABLED, pmcsr);
    assert WordMatches(current, 4, p.Peek(Config(BCM, 4 * 4))) && WordMatches(current, 5, p.Peek(Config(BCM, 4 * 5)));
  }

  // ---------------------------------------------------------------- before the store

  /** Everything read before the store: identity, list and the state handed to the write check. */
  ghost predicate PreLog(events: seq<Event>, identity: seq<Event>, sweep: seq<Event>, endpoint: Header, pre: State) {
    events == identity + sweep && IdentityKept(identity, endpoint) && StateLog(sweep, pre)
  }

  /** Why the state before the store could not be read. */
  ghost predicate PreLost(events: seq<Event>, identity: seq<Event>, sweep: seq<Event>, endpoint: Header, pre: State) {
    && events == identity + sweep
    && if sweep == [] then IdentityLost(identity, endpoint) && pre == NO_STATE
       else IdentityKept(identity, endpoint) && SweepLost(sweep, |sweep| - 1, NO_STATE, pre)
  }

  method Observe(p: Platform, endpoint: Header, caps: seq<Cap>, ghost ready: bool)
    returns (ok: bool, pre: State, ghost events: seq<Event>, ghost identity: seq<Event>, ghost sweep: seq<Event>)
    requires caps == CAPS && HeaderValid(endpoint, COMMAND_INITIAL)
    requires ready ==> Ready(p, endpoint, caps, COMMAND_DISABLED, PMCSR_D3HOT)
    modifies p`log
    ensures p.log == old(p.log) + events && OnlyReads(events)
    ensures ok ==> PreLog(events, identity, sweep, endpoint, pre)
    ensures !ok ==> PreLost(events, identity, sweep, endpoint, pre)
    ensures ready ==> ok && pre == State(COMMAND_DISABLED, BAR0, 0, PMCSR_D3HOT)
  {
    hide Ready, HeaderValid, IdentityKept, IdentityLost, StateLog, SweepLost;
    ok, identity := AssignHeader(p, endpoint, caps, PMCSR_D3HOT, ready);
    pre, sweep := NO_STATE, [];
    assert identity + [] == identity;
    if !ok { return false, pre, identity, identity, sweep; }
    ok, pre, sweep := ReadState(p, NO_STATE, endpoint, caps, PMCSR_D3HOT, ready);
    events := identity + sweep;
  }

  // ---------------------------------------------------------------- after the store

  /** The log after a successful store, part by part. */
  datatype Recovery = Recovery(identity: seq<Event>, refresh: seq<Event>, quiet: seq<Event>, sweep: seq<Event>)

  /** The recovery delay comes before any other access; then identity, a full refresh in D0, two
      adjacent clear samples under Command 0, and the final sweep. */
  ghost predicate PostLog(events: seq<Event>, r: Recovery, endpoint: Header, prior: Express, quiet: Quiet, post: State)
  {
    events != [] && events[0] == Delay(10, true) && RecoveryLog(events[1..], r, endpoint, prior, quiet, post)
  }

  ghost predicate RecoveryLog(events: seq<Event>, r: Recovery, endpoint: Header, prior: Express, quiet: Quiet,
                              post: State)
  {
    && events == r.identity + r.refresh + r.quiet + r.sweep
    && IdentityKept(r.identity, endpoint) && RefreshLog(r.refresh, WithCommand(endpoint, COMMAND_DISABLED), PMCSR_D0)
    && QuietSeen(r.quiet, quiet, prior, BCM, COMMAND_DISABLED) && StateLog(r.sweep, post)
  }

  ghost predicate AwakeLost(identity: seq<Event>, refresh: seq<Event>, endpoint: Header) {
    || (IdentityLost(identity, endpoint) && refresh == [])
    || (IdentityKept(identity, endpoint) && RefreshFailed(refresh, WithCommand(endpoint, COMMAND_DISABLED), PMCSR_D0))
  }

  /** Why the recovery went no further, and what the record then holds. */
  ghost predicate RecoveryStops(status: AssignStatus, events: seq<Event>, r: Recovery, endpoint: Header, prior: Express,
                                control: Word, quiet: Quiet, post: State)
  {
    if status == AssignPost then
      && events == r.identity + r.refresh && AwakeLost(r.identity, r.refresh, endpoint)
      && control == 0 && quiet == Quiet(0, 0) && post == NO_STATE
    else
      && control == 0x0019_0000 && IdentityKept(r.identity, endpoint)
      && RefreshLog(r.refresh, WithCommand(endpoint, COMMAND_DISABLED), PMCSR_D0)
      && if status == AssignPending then
           && events == r.identity + r.refresh + r.quiet && post == NO_STATE.(pmcsr := PMCSR_D0)
           && QuietFailed(r.quiet, quiet, WithCommand(endpoint, COMMAND_DISABLED), CAPS, prior, COMMAND_DISABLED)
         else
           && status == AssignFinal && events == r.identity + r.refresh + r.quiet + r.sweep
           && QuietSeen(r.quiet, quiet, prior, BCM, COMMAND_DISABLED)
           && r.sweep != [] && SweepLost(r.sweep, |r.sweep| - 1, NO_STATE.(pmcsr := PMCSR_D0), post)
  }

  method CheckAwake(p: Platform, endpoint: Header, caps: seq<Cap>, ghost ready: bool)
    returns (ok: bool, control: Word, pmcsr: Word, ghost events: seq<Event>, ghost identity: seq<Event>,
             ghost refresh: seq<Event>)
    requires caps == CAPS && HeaderValid(endpoint, COMMAND_INITIAL)
    requires ready ==> Ready(p, endpoint, caps, COMMAND_DISABLED, PMCSR_D0)
    modifies p`log
    ensures p.log == old(p.log) + events && OnlyReads(events) && events == identity + refresh
    ensures if ok then control == 0x0019_0000 && pmcsr == PMCSR_D0 else control == 0 && pmcsr == 0
    ensures ok ==>
      IdentityKept(identity, endpoint) && RefreshLog(refresh, WithCommand(endpoint, COMMAND_DISABLED), PMCSR_D0)
    ensures !ok ==> AwakeLost(identity, refresh, endpoint)
    ensures ready ==> ok
  {
    hide Memory, HeaderValid, IdentityKept, IdentityLost, RefreshLog, RefreshFailed;
    var pcie, power;
    control, pmcsr, refresh := 0, 0, [];
    ok, identity := AssignHeader(p, endpoint, caps, PMCSR_D0, ready);
    events := identity;
    if !ok { return; }
    ok, pcie, power, refresh := Refresh(p, endpoint, caps, COMMAND_DISABLED, PMCSR_D0);
    events := identity + refresh;
    if !ok { return; }
    control, pmcsr := pcie.control, Low16(power.control);
  }

  /** Everything after the recovery delay, up to the admission check. */
  method Revalidate(p: Platform, endpoint: Header, caps: seq<Cap>, prior: Express, ghost ready: bool)
    returns (status: AssignStatus, control: Word, quiet: Quiet, post: State, ghost events: seq<Event>,
             ghost r: Recovery)
    requires caps == CAPS && HeaderValid(endpoint, COMMAND_INITIAL) && PcieValid(prior)
    requires ready ==> Ready(p, endpoint, caps, COMMAND_DISABLED, PMCSR_D0)
    modifies p`log
    ensures p.log == old(p.log) + events && Writes(events) == [] && Delays(events) < POLL_LIMIT
    ensures status in {AssignOk, AssignPost, AssignPending, AssignFinal}
    ensures status == AssignOk ==> RecoveryLog(events, r, endpoint, prior, quiet, post) && control == 0x0019_0000
    ensures status != AssignOk ==> RecoveryStops(status, events, r, endpoint, prior, control, quiet, post)
    ensures ready ==> status == AssignOk && quiet.polls == 2 && post == State(COMMAND_DISABLED, BAR0, 0, PMCSR_D0)
  {
    hide Ready, HeaderValid, PcieValid, IdentityKept, RefreshLog, AwakeLost, QuietSeen, QuietFailed, StateLog,
      SweepLost, Writes, Delays, OnlyReads;
    control, quiet, post := 0, Quiet(0, 0), NO_STATE;
    ghost var awake, polled, sweep, identity, refresh;
    r := Recovery([], [], [], []);
    var ok, pmcsr;
    ok, control, pmcsr, awake, identity, refresh := CheckAwake(p, endpoint, caps, ready);
    OnlyReadsTrace(awake);
    events, r := awake, Recovery(identity, refresh, [], []);
    if !ok { status := AssignPost; return; }
    post := NO_STATE.(pmcsr := pmcsr);
    ok, quiet, polled := PollDisabled(p, endpoint, caps, prior, PMCSR_D0, ready);
    TraceAppend(awake, polled);
    events, r := awake + polled, Recovery(identity, refresh, polled, []);
    if !ok { status := AssignPending; return; }
    ok, post, sweep := ReadState(p, post, endpoint, caps, PMCSR_D0, ready);
    AppendReads(awake + polled, sweep);
    events, r := awake + polled + sweep, Recovery(identity, refresh, polled, sweep);
    status := if ok then AssignOk else AssignFinal;
  }

  method Recover(p: Platform, endpoint: Header, caps: seq<Cap>, prior: Express, ghost ready: bool)
    returns (status: AssignStatus, control: Word, quiet: Quiet, post: State, ghost events: seq<Event>,
             ghost r: Recovery)
    requires caps == CAPS && HeaderValid(endpoint, COMMAND_INITIAL) && PcieValid(prior)
    requires ready ==> p.faithful && Ready(p, endpoint, caps, COMMAND_DISABLED, PMCSR_D0)
    modifies p`log
    ensures p.log == old(p.log) + events && Writes(events) == [] && Delays(events) <= POLL_LIMIT
    ensures status in {AssignOk, AssignDelay, AssignPost, AssignPending, AssignFinal}
    ensures status == AssignDelay ==> events == [Delay(10, false)]
    ensures status != AssignDelay ==> events != [] && events[0] == Delay(10, true)
    ensures status == AssignOk ==> PostLog(events, r, endpoint, prior, quiet, post) && control == 0x0019_0000
    ensures status in {AssignPost, AssignPending, AssignFinal} ==>
      RecoveryStops(status, events[1..], r, endpoint, prior, control, quiet, post)
    ensures status == AssignDelay ==> control == 0 && quiet == Quiet(0, 0) && post == NO_STATE
    ensures ready ==> status == AssignOk && quiet.polls == 2 && post == State(COMMAND_DISABLED, BAR0, 0, PMCSR_D0)
  {
    hide Ready, HeaderValid, PcieValid, RecoveryLog, RecoveryStops, Writes, Delays;
    var ok := p.Wait(RECOVERY_MS);
    events := [Delay(RECOVERY_MS, ok)];
    OneDelay(RECOVERY_MS, ok);
    if !ok { return AssignDelay, 0, Quiet(0, 0), NO_STATE, events, Recovery([], [], [], []); }
    ghost var rest;
    status, control, quiet, post, rest, r := Revalidate(p, endpoint, caps, prior, ready);
    TraceAppend(events, rest);
    events := events + rest;
    assert rest == events[1..];
  }

  // ---------------------------------------------------------------- the whole assignment

  datatype AssignLog = AssignLog(pre: seq<Event>, identity: seq<Event>, sweep: seq<Event>, stored: bool,
                                 post: seq<Event>, r: Recovery)

  /** The inputs the run was given, besides the platform. */
  datatype Request = Request(endpoint: Header, prior: Express, d3: D3, contract: nat, policy: Policy,
                             writeCheck: WriteQuery -> int, admissionCheck: AdmissionQuery -> int)

  /** A run without a store: only reads, and the write check was not asked or refused. */
  ghost predicate NoStore(status: AssignStatus, out: Assign, events: seq<Event>, g: AssignLog, q: Request) {
    && OnlyReads(events) && out == NO_ASSIGN.(pre := out.pre)
    && match status
       case AssignPrior => events == [] && out == NO_ASSIGN
       case AssignPre => PreLost(events, g.identity, g.sweep, q.endpoint, out.pre)
       case GeneratedWrite =>
         && PreLog(events, g.identity, g.sweep, q.endpoint, out.pre)
         && q.writeCheck(AskWrite(q.contract, q.d3, out.pre)) != 1
       case _ => false
  }

  /** The store's outcome and everything after it. */
  ghost predicate WakeRun(status: AssignStatus, out: Assign, stored: bool, post: seq<Event>, r: Recovery, q: Request) {
    && out.writeAccepted == 1 && Writes(post) == [] && Delays(post) <= POLL_LIMIT
    && (status == AssignWrite ==> !stored && post == [])
    && (status == AssignDelay ==> stored && post == [Delay(10, false)])
    && (status == AssignOk || status == GeneratedAdmission ==>
          && stored && PostLog(post, r, q.endpoint, q.prior, out.quiet, out.post) && out.deviceControl == 0x0019_0000
          && (status == AssignOk <==> q.admissionCheck(AskAdmission(q.contract, q.d3, out, q.policy)) == 1))
    && (status in {AssignPost, AssignPending, AssignFinal} ==>
          && stored && post != [] && post[0] == Delay(10, true)
          && RecoveryStops(status, post[1..], r, q.endpoint, q.prior, out.deviceControl, out.quiet, out.post))
    && (status in {AssignWrite, AssignDelay} ==>
          out.deviceControl == 0 && out.quiet == Quiet(0, 0) && out.post == NO_STATE)
    && status !in {AssignPrior, AssignPre, GeneratedWrite} && out.admitted == if status == AssignOk then 1 else 0
  }

  /** A run with the one store: the write check permitted it on what had just been read. */
  ghost predicate OneStore(status: AssignStatus, out: Assign, events: seq<Event>, g: AssignLog, q: Request) {
    && events == g.pre + [Write(PMCSR, PMCSR_D0, g.stored)] + g.post && OnlyReads(g.pre)
    && PreLog(g.pre, g.identity, g.sweep, q.endpoint, out.pre)
    && q.writeCheck(AskWrite(q.contract, q.d3, out.pre)) == 1
    && WakeRun(status, out, g.stored, g.post, g.r, q)
  }

  ghost predicate AssignRun(status: AssignStatus, out: Assign, events: seq<Event>, g: AssignLog, q: Request) {
    match out.d0Attempted
    case 0 => NoStore(status, out, events, g, q)
    case 1 => OneStore(status, out, events, g, q)
    case _ => false
  }

  /** At most one store in any run, always PMCSR := 4008, and only with the write check's permission. */
  lemma AssignStores(status: AssignStatus, out: Assign, events: seq<Event>, g: AssignLog, q: Request)
    requires AssignRun(status, out, events, g, q)
    ensures Writes(events) ==
            if out.d0Attempted == 1 then [Write(Config(Bdf(2, 0, 0), 0x44), 0x4008, status != AssignWrite)] else []
    ensures out.d0Attempted == 1 ==> q.writeCheck(AskWrite(q.contract, q.d3, out.pre)) == 1
    ensures status == AssignOk ==> out.d0Attempted == 1 && out.admitted == 1
  {
    hide PreLog, PreLost, PostLog, RecoveryStops, Writes, Delays;
    if out.d0Attempted == 0 {
      OnlyReadsTrace(events);
    } else {
      OnlyReadsTrace(g.pre);
      AppendEffect(g.pre, Write(PMCSR, PMCSR_D0, g.stored));
      TraceAppend(g.pre + [Write(PMCSR, PMCSR_D0, g.stored)], g.post);
    }
  }

  /** What a ready platform reads before and after the store. */
  function PreExpected(): State {
    State(0, 0xd070_0004, 0, 0x400b)
  }

  function Woken(): Assign {
    Assign(PreExpected(), 1, 1, State(0, 0xd070_0004, 0, 0x4008), 0x0019_0000, Quiet(2, 0x19), 0)
  }

  /** Both checks answer 1 on what a ready platform reads. */
  ghost predicate ChecksAgree(q: Request) {
    && q.writeCheck(AskWrite(q.contract, q.d3, PreExpected())) == 1
    && q.admissionCheck(AskAdmission(q.contract, q.d3, Woken(), q.policy)) == 1
  }

  lemma QuietWord(events: seq<Event>, quiet: Quiet, prior: Express)
    requires QuietSeen(events, quiet, prior, BCM, COMMAND_DISABLED) && PcieValid(prior)
    ensures quiet.deviceStatus == 0x19
  {
    hide Framed, Polled;
    var t :| QuietRun(QuietOk, quiet, t, prior, BCM, COMMAND_DISABLED) && t.events == events;
    QuietStatusWord(quiet, t, prior, BCM, COMMAND_DISABLED);
  }

  /** The store and everything after it. */
  method WakeUp(p: Platform, q: Request, caps: seq<Cap>, pre: State, ghost ready: bool)
    returns (status: AssignStatus, out: Assign, ghost stored: bool, ghost post: seq<Event>, ghost r: Recovery)
    requires caps == CAPS && HeaderValid(q.endpoint, COMMAND_INITIAL) && PcieValid(q.prior)
    requires ready ==>
      Ready(p, q.endpoint, caps, COMMAND_DISABLED, PMCSR_D3HOT) && ChecksAgree(q) && pre == PreExpected()
    modifies p`log, p`words
    ensures p.log == old(p.log) + [Write(PMCSR, PMCSR_D0, stored)] + post
    ensures WakeRun(status, out, stored, post, r, q) && out.pre == pre && out.d0Attempted == 1
    ensures ready ==>
      && status == AssignOk && out == Woken().(admitted := 1)
      && Ready(p, q.endpoint, caps, COMMAND_DISABLED, PMCSR_D0)
    ensures ready ==> p.words == Stored(old(p.words), PMCSR, PMCSR_D0)
  {
    hide Memory, HeaderValid, PcieValid, PostLog, RecoveryStops, Writes, Delays, OnlyReads, D3Valid;
    EmptyTrace();
    out := Assign(pre, 1, 1, NO_STATE, 0, Quiet(0, 0), 0);
    post, r := [], Recovery([], [], [], []);
    var ok := StorePower(p, q.endpoint, PMCSR_D3HOT, PMCSR_D0, ready);
    stored := ok;
    if !ok { status := AssignWrite; return; }
    var control, quiet, state;
    status, control, quiet, state, post, r := Recover(p, q.endpoint, caps, q.prior, ready);
    out := out.(post := state, deviceControl := control, quiet := quiet);
    if status != AssignOk { return; }
    if ready { QuietOnly(post, r, q.endpoint, q.prior, quiet, state); }
    if q.admissionCheck(AskAdmission(q.contract, q.d3, out, q.policy)) != 1 { status := GeneratedAdmission; return; }
    out := out.(admitted := 1);
  }

  lemma QuietOnly(events: seq<Event>, r: Recovery, endpoint: Header, prior: Express, quiet: Quiet, post: State)
    requires PostLog(events, r, endpoint, prior, quiet, post) && PcieValid(prior)
    ensures quiet.deviceStatus == 0x19
  {
    hide IdentityKept, RefreshLog, StateLog;
    QuietWord(r.quiet, quiet, prior);
  }

  /** The arguments of the write check, in numbers: the state before, and the store it is asked about. */
  function CapturedQuery(contract: nat, pre: State): WriteQuery {
    WriteQuery(contract, 0, 6, 0, 0x4008, 0x400b, pre, 0x44, 2, 0x4008)
  }

  /** What the assignment demands of its caller, in numbers. */
  ghost predicate AssignDemands(endpoint: Header, prior: Express, caps: seq<Cap>, status: D3Status, d3: D3) {
    && CapturedEndpoint(endpoint, prior, caps) && status == D3Ok && 2 <= d3.pendingPolls <= 100
    && d3 == D3(1, 6, 0, d3.pendingPolls, 0x19, 0x4008, 1, 0x400b)
  }

  lemma AssignDemandsExactly(endpoint: Header, prior: Express, caps: seq<Cap>, status: D3Status, d3: D3, contract: nat,
                             pre: State)
    ensures AssignDemands(endpoint, prior, caps, status, d3) <==>
      HeaderValid(endpoint, COMMAND_INITIAL) && caps == CAPS && PcieValid(prior) && D3Valid(status, d3)
    ensures D3Valid(status, d3) ==> AskWrite(contract, d3, pre) == CapturedQuery(contract, pre)
  {
    hide CapturedEndpoint, HeaderValid, PcieValid;
    EndpointExactly(endpoint, prior, caps);
    D3ValidExactly(status, d3);
  }

  method AssignD0(p: Platform, q: Request, caps: seq<Cap>, d3Status: D3Status, ghost ready: bool)
    returns (status: AssignStatus, out: Assign, ghost events: seq<Event>, ghost g: AssignLog)
    requires ready ==>
      && Ready(p, q.endpoint, caps, COMMAND_DISABLED, PMCSR_D3HOT) && PcieValid(q.prior) && D3Valid(d3Status, q.d3)
      && ChecksAgree(q)
    modifies p`log, p`words
    ensures p.log == old(p.log) + events
    ensures AssignRun(status, out, events, g, q)
    ensures status == AssignPrior <==> !AssignDemands(q.endpoint, q.prior, caps, d3Status, q.d3)
    ensures out.d0Attempted == 1 ==> q.writeCheck(CapturedQuery(q.contract, out.pre)) == 1
    ensures status == AssignOk ==>
      q.admissionCheck(AdmissionQuery(CapturedQuery(q.contract, out.pre), out.post, 0x0019_0000, out.quiet,
                                      q.policy)) == 1
    ensures ready ==>
      && status == AssignOk && out == Woken().(admitted := 1)
      && Ready(p, q.endpoint, caps, COMMAND_DISABLED, PMCSR_D0)
    ensures ready ==> p.words == Replay(old(p.words), events)
  {
    hide Memory, HeaderValid, PcieValid, D3Valid, PreLog, PreLost, PostLog, RecoveryStops, Writes, Delays, Replay,
      AssignDemands, CapturedQuery, Woken, AskWrite;
    out, events, g := NO_ASSIGN, [], AssignLog([], [], [], false, [], Recovery([], [], [], []));
    var capsOk := CapsValid(caps);
    if !HeaderValid(q.endpoint, COMMAND_INITIAL) || !capsOk || !PcieValid(q.prior) || !D3Valid(d3Status, q.d3) {
      AssignDemandsExactly(q.endpoint, q.prior, caps, d3Status, q.d3, q.contract, NO_STATE);
      return AssignPrior, out, events, g;
    }
    ghost var pre, identity, sweep, stored, post, r;
    var ok, state;
    ok, state, pre, identity, sweep := Observe(p, q.endpoint, caps, ready);
    out := NO_ASSIGN.(pre := state);
    events, g := pre, AssignLog(pre, identity, sweep, false, [], Recovery([], [], [], []));
    AssignDemandsExactly(q.endpoint, q.prior, caps, d3Status, q.d3, q.contract, state);
    if !ok { status := AssignPre; return; }
    if q.writeCheck(AskWrite(q.contract, q.d3, state)) != 1 { status := GeneratedWrite; return; }
    status, out, stored, post, r := WakeUp(p, q, caps, state, ready);
    OnlyReadsTrace(pre);
    ReplayOneStore(old(p.words), pre, PMCSR, PMCSR_D0, stored, post);
    events, g := pre + [Write(PMCSR, PMCSR_D0, stored)] + post, g.(stored := stored, post := post, r := r);
  }

  /** From the first store on, Command is 0 in the memory after every event of the log. */
  ghost predicate CommandStaysZero(words: map<Port, Word>, events: seq<Event>) {
    forall n: nat :: n <= |events| && Writes(events[..n]) != [] ==>
      Low16(Lookup(Replay(words, events[..n]), Config(Bdf(2, 0, 0), 4))) == 0
  }

  const THREE_STORES: seq<Event> :=
    [ Write(Config(Bdf(2, 0, 0), 4), 0, true), Write(Config(Bdf(2, 0, 0), 0x44), 0x400b, true),
      Write(Config(Bdf(2, 0, 0), 0x44), 0x4008, true) ]

  lemma ThreeStores(words: map<Port, Word>, events: seq<Event>)
    requires Writes(events) == THREE_STORES
    ensures CommandStaysZero(words, events)
  {
    hide Writes, Replay, Low16;
    forall n: nat | n <= |events| && Writes(events[..n]) != []
      ensures Low16(Lookup(Replay(words, events[..n]), COMMAND)) == COMMAND_DISABLED
    {
      WritesOfPrefix(events, n);
      assert StoreTo(Writes(events[..n])[0], COMMAND);
      ReplayConstant(words, events[..n], COMMAND, COMMAND_DISABLED);
    }
  }

  /** Both generated checks answer 1 on what is then read and recorded. */
  predicate BothAgree(contract: nat, policy: Policy, writeCheck: WriteQuery -> int,
                      admissionCheck: AdmissionQuery -> int)
  {
    && writeCheck(CapturedQuery(contract, PreExpected())) == 1
    && admissionCheck(AdmissionQuery(CapturedQuery(contract, PreExpected()), State(0, 0xd070_0004, 0, 0x4008),
                                     0x0019_0000, Quiet(2, 0x19), policy)) == 1
  }

  lemma AgreeOnRequest(q: Request)
    requires D3Valid(D3Ok, q.d3) && BothAgree(q.contract, q.policy, q.writeCheck, q.admissionCheck)
    ensures ChecksAgree(q)
  {
    assert AskWrite(q.contract, q.d3, PreExpected()) == CapturedQuery(q.contract, PreExpected());
  }

  /** Entry into D3hot followed by assignment: on a ready platform with agreeing checks both succeed.
      The stores are Command := 0, PMCSR := 400b, PMCSR := 4008; Command is 0 from the first of them
      on, whatever moment one looks at, and PMCSR is back at its D0 value. */
  method SleepThenAssign(p: Platform, endpoint: Header, bridge: Header, caps: seq<Cap>, prior: Express,
                         rootClear: RootClear, rootStatus: QuietStatus, rootQuiet: Quiet, contract: nat, policy: Policy,
                         writeCheck: WriteQuery -> int, admissionCheck: AdmissionQuery -> int)
    returns (d3Status: D3Status, d3: D3, status: AssignStatus, out: Assign, ghost events: seq<Event>)
    requires p.faithful && Memory(p, endpoint, COMMAND_INITIAL, PMCSR_D0)
    requires D3Demands(endpoint, bridge, caps, prior, rootClear, rootStatus, rootQuiet)
    requires BothAgree(contract, policy, writeCheck, admissionCheck)
    modifies p`log, p`words
    ensures d3Status == D3Ok && d3 == D3(1, 6, 0, 2, 0x19, 0x4008, 1, 0x400b)
    ensures status == AssignOk && out == Woken().(admitted := 1)
    ensures Memory(p, endpoint, COMMAND_DISABLED, PMCSR_D0)
    ensures p.log == old(p.log) + events && Writes(events) == THREE_STORES
    ensures p.words == Replay(old(p.words), events) && CommandStaysZero(old(p.words), events)
  {
    hide Memory, HeaderValid, PcieValid, RootPriorValid, D3Demands, D3Run, AssignRun, ChecksAgree, Replay, Writes,
      CommandStaysZero, AssignDemands, CapturedQuery;
    DemandsExactly(endpoint, bridge, caps, prior, rootClear, rootStatus, rootQuiet);
    ghost var sleep, g, wake, g';
    d3Status, d3, sleep, g := EnterD3Hot(p, endpoint, bridge, caps, prior, rootClear, rootStatus, rootQuiet, true);
    D3ValidExactly(d3Status, d3);
    var q := Request(endpoint, prior, d3, contract, policy, writeCheck, admissionCheck);
    AgreeOnRequest(q);
    status, out, wake, g' := AssignD0(p, q, caps, d3Status, true);
    D3Stores(d3Status, d3, sleep, g, endpoint, prior);
    AssignStores(status, out, wake, g', q);
    events := sleep + wake;
    TraceAppend(sleep, wake);
    ReplayAppend(old(p.words), sleep, wake);
    ThreeStores(old(p.words), events);
  }

  /** The captured function's configuration space. */
  function CapturedWord(endpoint: Header, offset: nat): Word {
    if offset < 64 then endpoint.words[offset / 4]
    else if offset == 0x40 then CAPS[0].raw
    else if offset == 0x44 then PMCSR_D0
    else if offset == 0x48 then CAPS[2].raw
    else if offset == 0x58 then CAPS[1].raw
    else if offset == 0xd0 then CAPS[3].raw
    else if offset == 0xd4 then 0x0590_8fa0
    else 0x0019_0000
  }

  lemma CapturedMemory(p: Platform, endpoint: Header)
    requires HeaderValid(endpoint, COMMAND_INITIAL) && HasList(endpoint.words[1])
    requires forall offset: nat | offset < 0x100 :: p.Peek(Config(BCM, offset)) == CapturedWord(endpoint, offset)
    ensures Memory(p, endpoint, COMMAND_INITIAL, PMCSR_D0)
  {
    hide CapturedWord, HeaderValid, WithCommand;
    var current := WithCommand(endpoint, COMMAND_INITIAL);
    CapturedCommand(endpoint);
    forall i: nat | i < 16 ensures WordMatches(current, i, p.Peek(Config(BCM, 4 * i))) {
      CapturedWords(endpoint, i);
      assert p.Peek(Config(BCM, 4 * i)) == CapturedWord(endpoint, 4 * i);
    }
    forall i: nat | i < 4 ensures p.Peek(Config(BCM, CAPS[i].offset)) == CAPS[i].raw {
      CapturedEntry(endpoint, i);
      assert p.Peek(Config(BCM, CAPS[i].offset)) == CapturedWord(endpoint, CAPS[i].offset);
    }
    CapturedRegisters(endpoint);
  }

  lemma CapturedCommand(endpoint: Header)
    requires HeaderValid(endpoint, COMMAND_INITIAL)
    ensures WithCommand(endpoint, COMMAND_INITIAL) == endpoint
  {
  }

  lemma CapturedWords(endpoint: Header, i: nat)
    requires i < 16
    ensures CapturedWord(endpoint, 4 * i) == endpoint.words[i]
  {
  }

  lemma CapturedEntry(endpoint: Header, i: nat)
    requires i < 4
    ensures CAPS[i].offset < 0x100 && CapturedWord(endpoint, CAPS[i].offset) == CAPS[i].raw
  {
  }

  lemma CapturedRegisters(endpoint: Header)
    ensures CapturedWord(endpoint, 0xd4) == 0x0590_8fa0 && CapturedWord(endpoint, 0xd8) == 0x0019_0000
    ensures CapturedWord(endpoint, 0x44) == PMCSR_D0
  {
  }

  /** Such a platform exists: the captured function as plain memory. */
  method CapturedPlatform(endpoint: Header) returns (p: Platform)
    requires HeaderValid(endpoint, COMMAND_INITIAL) && HasList(endpoint.words[1])
    ensures fresh(p) && p.faithful && Memory(p, endpoint, COMMAND_INITIAL, PMCSR_D0)
  {
    hide Memory, HeaderValid, CapturedWord;
    var words := map offset: nat | offset < 0x100 :: Config(BCM, offset) := CapturedWord(endpoint, offset);
    p := new Platform(true, words, Gone);
    forall offset: nat | offset < 0x100 ensures p.Peek(Config(BCM, offset)) == CapturedWord(endpoint, offset) {
      assert Config(BCM, offset) in words;
    }
    CapturedMemory(p, endpoint);
  }
}
