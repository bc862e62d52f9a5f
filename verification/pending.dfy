/** Bounded polling of the Transactions Pending bit until two adjacent samples are clear. */
module Pending {
  import opened Platforms
  import opened Capabilities
  import opened Observation

  const POLL_LIMIT: nat := 100
  const DELAY_MS: nat := 10
  const PENDING_BIT: nat := 0x20_0000

  datatype QuietStatus =
    | QuietOk | QuietArgument | QuietPrior | CommandMoved | ObservationFailed | SampleChanged | DelayFailed | TimedOut

  datatype Quiet = Quiet(polls: nat, deviceStatus: Word)

  predicate IsClear(control: Word) {
    !Bit(control, PENDING_BIT)
  }

  /** The sample equals the prior observation except for the pending bit. */
  predicate SameSample(prior: Express, sample: Express) {
    && sample.status == ExpressOk && prior.status == ExpressOk && sample.offset == prior.offset
    && sample.capabilities == prior.capabilities
    && Clear(sample.control, PENDING_BIT) == Clear(prior.control, PENDING_BIT)
  }

  /** The header as it should now read, with the Command register replaced. */
  function WithCommand(h: Header, command: Word): Header
    requires command < 0x1_0000
  {
    h.(words := h.words[1 := WithLow16(h.words[1], command)])
  }

  lemma StoredLow(w: Word, low: Word)
    requires low < 0x1_0000
    ensures Low16(WithLow16(w, low)) == low && HasList(WithLow16(w, low)) == HasList(w)
  {
    var q := w / 0x1_0000;
    assert WithLow16(w, low) == q * 0x1_0000 + low;
    assert w / 0x10_0000 == q / 16 == WithLow16(w, low) / 0x10_0000;
  }

  // ---------------------------------------------------------------- one poll

  ghost function ControlPort(bdf: Bdf, prior: Express): Port {
    Config(bdf, prior.offset + 8)
  }

  lemma CollectionSilent(events: seq<Event>, h: Header, list: seq<Cap>, offset: nat)
    requires CollectionLog(events, h, list) && offset >= 64 && Free(list, offset)
    ensures Answers(events, Config(h.bdf, offset)) == []
  {
    forall i | 0 <= i < |events| ensures !(events[i].Read? && events[i].port == Config(h.bdf, offset)) {
      if i < 4 {
        assert IdentityRead(events[..4][i], h, i);
      } else {
        assert events[i] == events[4..][i - 4] == ListLog(h.bdf, list)[i - 4];
      }
    }
    NotAsked(events, Config(h.bdf, offset));
  }

  lemma ExpressParts(events: seq<Event>, h: Header, list: seq<Cap>, out: Express, k: nat, b: Bracket)
    requires ExpressRun(events, h, list, out, k, b) && out.status == ExpressOk
    ensures CollectionLog(b.opening, h, list) && CollectionLog(b.closing, h, list)
    ensures out.offset >= 64 && Free(list, out.offset + 8)
    ensures events == b.opening + [Read(Config(h.bdf, out.offset + 4), Some(out.capabilities))]
                      + [Read(Config(h.bdf, out.offset + 8), Some(out.control))] + b.closing
  {
    hide IdentityLog, ListLog, Free, ExpressShape, ArgumentsOk;
    assert Slot(list[k].offset);
  }

  /** A successful observation reads the control register exactly once. */
  lemma ExpressAnswers(events: seq<Event>, h: Header, list: seq<Cap>, out: Express, k: nat, b: Bracket)
    requires ExpressRun(events, h, list, out, k, b) && out.status == ExpressOk
    ensures Answers(events, Config(h.bdf, out.offset + 8)) == [out.control]
  {
    hide ExpressRun, CollectionLog, Free, Answers;
    ExpressParts(events, h, list, out, k, b);
    CollectionSilent(b.opening, h, list, out.offset + 8);
    CollectionSilent(b.closing, h, list, out.offset + 8);
    Sandwich(b.opening, Read(Config(h.bdf, out.offset + 4), Some(out.capabilities)),
             Read(Config(h.bdf, out.offset + 8), Some(out.control)), b.closing,
             Config(h.bdf, out.offset + 8), out.control);
  }

  lemma Sandwich(head: seq<Event>, other: Event, read: Event, tail: seq<Event>, port: Port, value: Word)
    requires Answers(head, port) == [] && Answers(tail, port) == []
    requires other.Read? && other.port != port && read == Read(port, Some(value))
    ensures Answers(head + [other] + [read] + tail, port) == [value]
  {
    AnswersAppend(head + [other] + [read], tail, port);
    AnswersAppend(head + [other], [read], port);
    AnswersAppend(head, [other], port);
    AnswerOf(other, port);
    AnswerOf(read, port);
  }

  /** What one poll needs from a faithful platform. */
  ghost predicate PollReady(p: Platform, h: Header, caps: seq<Cap>, prior: Express, command: Word, want: nat)
    reads p`words
  {
    && command < 0x1_0000 && Low16(p.Peek(Config(h.bdf, 4))) == command
    && ExpressReady(p, h, caps, want) && caps[want].offset == prior.offset
    && prior.status == ExpressOk
    && p.Peek(Config(h.bdf, prior.offset + 4)) == prior.capabilities
    && Clear(p.Peek(ControlPort(h.bdf, prior)), PENDING_BIT) == Clear(prior.control, PENDING_BIT)
  }

  /** The observation failed, or succeeded with something else than the prior sample. */
  ghost predicate SampleBad(status: QuietStatus, events: seq<Event>, h: Header, caps: seq<Cap>, prior: Express) {
    exists e: Express, k: nat, b: Bracket :: ExpressRun(events, h, caps, e, k, b)
      && ((status == ObservationFailed && e.status != ExpressOk)
          || (status == SampleChanged && e.status == ExpressOk && !SameSample(prior, e)))
  }

  /** Why a poll stopped: Command did not read as expected, or the sample between was bad. */
  ghost predicate PollStops(status: QuietStatus, seen: seq<Event>, h: Header, caps: seq<Cap>, prior: Express,
                            command: Word)
  {
    && seen != []
    && if status == CommandMoved then LowLost(seen[|seen| - 1], Config(h.bdf, 4), command)
       else LowRead(seen[0], Config(h.bdf, 4), command) && SampleBad(status, seen[1..], h, caps, prior)
  }

  /** One bracketed sample, compared with the prior observation. */
  method TakeSample(p: Platform, h: Header, caps: seq<Cap>, prior: Express, ghost want: nat)
    returns (status: QuietStatus, control: Word, ghost events: seq<Event>)
    modifies p`log
    ensures p.log == old(p.log) + events && OnlyReads(events) && |events| <= 106
    ensures status == QuietOk ==>
      && Answers(events, ControlPort(h.bdf, prior)) == [control] && prior.offset >= 64
      && Clear(control, PENDING_BIT) == Clear(prior.control, PENDING_BIT)
    ensures status in {QuietOk, ObservationFailed, SampleChanged}
    ensures status != QuietOk ==> SampleBad(status, events, h, caps, prior)
    ensures p.faithful && prior.status == ExpressOk && ExpressReady(p, h, caps, want)
            && caps[want].offset == prior.offset
            && p.Peek(Config(h.bdf, prior.offset + 4)) == prior.capabilities
            && Clear(p.Peek(ControlPort(h.bdf, prior)), PENDING_BIT) == Clear(prior.control, PENDING_BIT) ==>
      status == QuietOk && control == p.Peek(ControlPort(h.bdf, prior))
  {
    hide ExpressRun, ExpressReady, Clear, Answers;
    var sample;
    ghost var k, b;
    sample, events, k, b := ObserveExpress(p, h, caps, want);
    if sample.status != ExpressOk { return ObservationFailed, 0, events; }
    if !SameSample(prior, sample) { return SampleChanged, 0, events; }
    ExpressAnswers(events, h, caps, sample, k, b);
    ExpressParts(events, h, caps, sample, k, b);
    return QuietOk, sample.control, events;
  }

  /** A completed poll: one sample of the port, taken between two reads of the expected Command. */
  ghost predicate PollLog(r: seq<Event>, bdf: Bdf, command: Word, port: Port, sample: Word) {
    && OnlyReads(r) && r != [] && Answers(r, port) == [sample]
    && LowRead(r[0], Config(bdf, 4), command) && LowRead(r[|r| - 1], Config(bdf, 4), command)
  }

  lemma BracketAnswers(first: Event, middle: seq<Event>, last: Event, port: Port)
    requires first.Read? && last.Read? && first.port != port && last.port != port
    ensures Answers([first] + middle + [last], port) == Answers(middle, port)
  {
    AnswersAppend([first] + middle, [last], port);
    AnswersAppend([first], middle, port);
    AnswerOf(first, port);
    AnswerOf(last, port);
  }

  /** Command, bracketed sample, Command again. */
  method Poll(p: Platform, h: Header, caps: seq<Cap>, prior: Express, command: Word, ghost want: nat)
    returns (status: QuietStatus, control: Word, ghost events: seq<Event>)
    modifies p`log
    ensures p.log == old(p.log) + events && OnlyReads(events) && |events| <= 108
    ensures status == QuietOk ==>
      && PollLog(events, h.bdf, command, ControlPort(h.bdf, prior), control)
      && Clear(control, PENDING_BIT) == Clear(prior.control, PENDING_BIT)
    ensures status in {QuietOk, CommandMoved, ObservationFailed, SampleChanged}
    ensures status != QuietOk ==> PollStops(status, events, h, caps, prior, command)
    ensures p.faithful && PollReady(p, h, caps, prior, command, want) ==>
      status == QuietOk && control == p.Peek(ControlPort(h.bdf, prior))
  {
    hide SampleBad, ExpressReady, Clear, Low16, Answers;
    ghost var first, seen, last;
    var ok, value;
    ok, value, first := ReadRegister(p, Config(h.bdf, 4));
    if !ok || Low16(value) != command { return CommandMoved, 0, first; }
    status, control, seen := TakeSample(p, h, caps, prior, want);
    assert (first + seen)[1..] == seen;
    if status != QuietOk { return status, 0, first + seen; }
    ok, value, last := ReadRegister(p, Config(h.bdf, 4));
    events := first + seen + last;
    if !ok || Low16(value) != command { return CommandMoved, 0, events; }
    BracketAnswers(first[0], seen, last[0], ControlPort(h.bdf, prior));
  }

  // ---------------------------------------------------------------- the poll loop

  /** Samples i and i + 1 are both clear. */
  ghost predicate PairAt(samples: seq<Word>, i: nat) {
    i + 1 < |samples| && IsClear(samples[i]) && IsClear(samples[i + 1])
  }

  ghost predicate NoPairBefore(samples: seq<Word>, n: int) {
    forall i: nat :: i < n ==> !PairAt(samples, i)
  }

  /** The loop's counter: one exactly when the last sample was clear. */
  ghost predicate Counting(samples: seq<Word>, clear: nat) {
    && NoPairBefore(samples, |samples| - 1)
    && clear == if samples != [] && IsClear(samples[|samples| - 1]) then 1 else 0
  }

  lemma CountNext(samples: seq<Word>, clear: nat, control: Word)
    requires Counting(samples, clear)
    ensures
      var longer := samples + [control];
      if IsClear(control) && clear == 1 then PairAt(longer, |samples| - 1) && NoPairBefore(longer, |samples| - 1)
      else Counting(longer, if IsClear(control) then 1 else 0)
  {
    var longer := samples + [control];
    forall i: nat | i < |samples| - 1 ensures !PairAt(longer, i) {
      assert !PairAt(samples, i);
    }
  }

  /** The record of the completed polls, after d delays. */
  ghost predicate Polled(out: Quiet, samples: seq<Word>, events: seq<Event>, prior: Express, d: int) {
    && |samples| == out.polls <= POLL_LIMIT
    && Writes(events) == [] && Delays(events) == d && Reads(events) <= 108 * POLL_LIMIT
    && (forall i :: 0 <= i < |samples| ==> Clear(samples[i], PENDING_BIT) == Clear(prior.control, PENDING_BIT))
    && out.deviceStatus == (if samples == [] then 0 else High16(samples[|samples| - 1]))
  }

  /** The log of a polling run: its samples, and its last two completed polls. */
  datatype Trail = Trail(samples: seq<Word>, events: seq<Event>, start: seq<Event>, previous: seq<Event>,
                         earlier: seq<Event>, last: seq<Event>)

  const NO_TRAIL: Trail := Trail([], [], [], [], [], [])

  /** The log ends with the last two polls, one successful delay between them, then `rest`. */
  ghost predicate Framed(t: Trail, bdf: Bdf, command: Word, port: Port, rest: seq<Event>) {
    && Answers(t.events, port) == t.samples
    && (|t.samples| >= 1 ==>
          && PollLog(t.last, bdf, command, port, t.samples[|t.samples| - 1])
          && t.events == t.earlier + t.last + rest)
    && (|t.samples| >= 2 ==>
          && PollLog(t.previous, bdf, command, port, t.samples[|t.samples| - 2])
          && t.earlier == t.start + t.previous + [Delay(10, true)])
  }

  /** Everything the result promises about the run that produced it. */
  ghost predicate QuietRun(status: QuietStatus, out: Quiet, t: Trail, prior: Express, bdf: Bdf, command: Word) {
    match status
    case QuietOk =>
      && Polled(out, t.samples, t.events, prior, out.polls - 1) && Framed(t, bdf, command, ControlPort(bdf, prior), [])
      && 2 <= out.polls && PairAt(t.samples, out.polls - 2) && NoPairBefore(t.samples, out.polls - 2)
    case TimedOut =>
      && Polled(out, t.samples, t.events, prior, POLL_LIMIT - 1) && Framed(t, bdf, command, ControlPort(bdf, prior), [])
      && out.polls == POLL_LIMIT && NoPairBefore(t.samples, POLL_LIMIT - 1)
    case DelayFailed =>
      && Polled(out, t.samples, t.events, prior, out.polls)
      && Framed(t, bdf, command, ControlPort(bdf, prior), [Delay(10, false)])
      && 1 <= out.polls < POLL_LIMIT && NoPairBefore(t.samples, out.polls - 1)
    case QuietArgument => prior.status != ExpressOk && out == Quiet(0, 0) && t == NO_TRAIL
    case QuietPrior => false
    case _ =>
      && Polled(out, t.samples, t.events, prior, out.polls) && out.polls < POLL_LIMIT
      && NoPairBefore(t.samples, out.polls - 1)
  }

  /** These events are a successful polling run. */
  ghost predicate QuietSeen(events: seq<Event>, out: Quiet, prior: Express, bdf: Bdf, command: Word) {
    exists t: Trail :: QuietRun(QuietOk, out, t, prior, bdf, command) && t.events == events
  }

  /** The loop's whole state after `out.polls` polls, each followed by a delay. */
  ghost predicate Looping(out: Quiet, t: Trail, prior: Express, bdf: Bdf, command: Word, clear: nat) {
    match prior.status
    case ExpressOk =>
      && Polled(out, t.samples, t.events, prior, out.polls) && out.polls < POLL_LIMIT && Counting(t.samples, clear)
      && Reads(t.events) <= 108 * out.polls && (t.samples == [] ==> t.events == [])
      && Framed(t, bdf, command, ControlPort(bdf, prior), [Delay(DELAY_MS, true)])
    case _ => false
  }

  lemma LoopStart(prior: Express, bdf: Bdf, command: Word)
    requires prior.status == ExpressOk
    ensures Looping(Quiet(0, 0), NO_TRAIL, prior, bdf, command, 0)
  {
  }

  /** A poll that did not complete ends the run as it stands. */
  lemma LoopBroken(status: QuietStatus, out: Quiet, t: Trail, prior: Express, bdf: Bdf, command: Word, clear: nat,
                   seen: seq<Event>)
    requires Looping(out, t, prior, bdf, command, clear) && OnlyReads(seen) && |seen| <= 108
    requires status in {CommandMoved, ObservationFailed, SampleChanged}
    ensures QuietRun(status, out, t.(events := t.events + seen), prior, bdf, command)
  {
    AppendReads(t.events, seen);
  }

  /** The state between a completed poll and the delay after it. */
  ghost predicate Sampled(out: Quiet, t: Trail, prior: Express, bdf: Bdf, command: Word) {
    && Polled(out, t.samples, t.events, prior, out.polls - 1) && out.polls >= 1 && prior.status == ExpressOk
    && Reads(t.events) <= 108 * out.polls && Framed(t, bdf, command, ControlPort(bdf, prior), [])
  }

  function Extend(t: Trail, seen: seq<Event>, control: Word): Trail {
    Trail(t.samples + [control], t.events + seen, t.earlier, t.last, t.events, seen)
  }

  lemma FramedNext(t: Trail, bdf: Bdf, command: Word, port: Port, seen: seq<Event>, control: Word)
    requires Framed(t, bdf, command, port, [Delay(DELAY_MS, true)]) && PollLog(seen, bdf, command, port, control)
    ensures Framed(Extend(t, seen, control), bdf, command, port, [])
  {
    AnswersAppend(t.events, seen, port);
  }

  lemma PolledNext(out: Quiet, t: Trail, prior: Express, seen: seq<Event>, control: Word)
    requires Polled(out, t.samples, t.events, prior, out.polls) && Reads(t.events) <= 108 * out.polls
    requires out.polls < POLL_LIMIT
    requires OnlyReads(seen) && |seen| <= 108 && Clear(control, PENDING_BIT) == Clear(prior.control, PENDING_BIT)
    ensures
      var longer := Extend(t, seen, control);
      && Polled(Quiet(out.polls + 1, High16(control)), longer.samples, longer.events, prior, out.polls)
      && Reads(longer.events) <= 108 * (out.polls + 1)
  {
    AppendReads(t.events, seen);
  }

  lemma LoopPolled(out: Quiet, t: Trail, prior: Express, bdf: Bdf, command: Word, clear: nat, seen: seq<Event>,
                   control: Word)
    requires Looping(out, t, prior, bdf, command, clear) && |seen| <= 108
    requires PollLog(seen, bdf, command, ControlPort(bdf, prior), control)
    requires Clear(control, PENDING_BIT) == Clear(prior.control, PENDING_BIT)
    ensures Sampled(Quiet(out.polls + 1, High16(control)), Extend(t, seen, control), prior, bdf, command)
  {
    FramedNext(t, bdf, command, ControlPort(bdf, prior), seen, control);
    PolledNext(out, t, prior, seen, control);
  }

  function After(t: Trail, ok: bool): Trail {
    t.(events := t.events + [Delay(DELAY_MS, ok)])
  }

  lemma FramedDelayed(t: Trail, bdf: Bdf, command: Word, port: Port, ok: bool)
    requires Framed(t, bdf, command, port, [])
    ensures Framed(After(t, ok), bdf, command, port, [Delay(DELAY_MS, ok)])
  {
    hide PollLog, Answers;
    AppendEffect(t.events, Delay(DELAY_MS, ok));
    assert t.samples != [] ==> t.earlier + t.last + [] == t.earlier + t.last;
  }

  lemma LoopDelayed(out: Quiet, t: Trail, prior: Express, bdf: Bdf, command: Word, clear: nat, ok: bool)
    requires Sampled(out, t, prior, bdf, command) && out.polls < POLL_LIMIT && Counting(t.samples, clear)
    ensures ok ==> Looping(out, After(t, ok), prior, bdf, command, clear)
    ensures !ok ==> QuietRun(DelayFailed, out, After(t, ok), prior, bdf, command)
  {
    FramedDelayed(t, bdf, command, ControlPort(bdf, prior), ok);
    AppendEffect(t.events, Delay(DELAY_MS, ok));
  }

  lemma SamplesCounted(out: Quiet, t: Trail, prior: Express, bdf: Bdf, command: Word, clear: nat)
    requires Looping(out, t, prior, bdf, command, clear)
    ensures |t.samples| == out.polls
  {
  }

  /** Evaluating a completed poll: the run ends at the second clear sample or at the poll limit. */
  lemma LoopJudged(out: Quiet, t: Trail, prior: Express, bdf: Bdf, command: Word, clear: nat, seen: seq<Event>,
                   control: Word)
    requires Looping(out, t, prior, bdf, command, clear) && |seen| <= 108
    requires PollLog(seen, bdf, command, ControlPort(bdf, prior), control)
    requires Clear(control, PENDING_BIT) == Clear(prior.control, PENDING_BIT)
    ensures
      var longer, next := Extend(t, seen, control), Quiet(out.polls + 1, High16(control));
      var clear' := if IsClear(control) then clear + 1 else 0;
      if clear' == 2 then QuietRun(QuietOk, next, longer, prior, bdf, command)
      else if next.polls == POLL_LIMIT then QuietRun(TimedOut, next, longer, prior, bdf, command)
      else Sampled(next, longer, prior, bdf, command) && Counting(longer.samples, clear') && next.polls < POLL_LIMIT
  {
    hide Framed, Polled, PollLog, Clear, IsClear, High16, NoPairBefore, PairAt;
    SamplesCounted(out, t, prior, bdf, command, clear);
    LoopPolled(out, t, prior, bdf, command, clear, seen, control);
    CountNext(t.samples, clear, control);
  }

  /** What the loop needs from a faithful platform to see two clear samples at once. */
  ghost predicate QuietReady(p: Platform, h: Header, caps: seq<Cap>, prior: Express, command: Word, want: nat)
    reads p`words
  {
    p.faithful && PollReady(p, h, caps, prior, command, want) && IsClear(p.Peek(ControlPort(h.bdf, prior)))
  }

  /** The delay between two polls. */
  method Pause(p: Platform, out: Quiet, clear: nat, ghost t: Trail, ghost prior: Express, ghost bdf: Bdf,
               ghost command: Word)
    returns (more: bool, ghost t': Trail)
    requires Sampled(out, t, prior, bdf, command) && out.polls < POLL_LIMIT && Counting(t.samples, clear)
    modifies p`log
    ensures p.log == old(p.log) + [Delay(DELAY_MS, more)] && t' == After(t, more)
    ensures more ==> Looping(out, t', prior, bdf, command, clear)
    ensures !more ==> QuietRun(DelayFailed, out, t', prior, bdf, command)
    ensures p.faithful ==> more
  {
    more := p.Wait(DELAY_MS);
    LoopDelayed(out, t, prior, bdf, command, clear, more);
    t' := After(t, more);
  }

  /** One round of the loop: a poll, its evaluation and the delay. `more` asks for another round;
      on a ready platform the round goes on exactly until the second clear sample. */
  method Round(p: Platform, current: Header, caps: seq<Cap>, prior: Express, command: Word, before: Quiet, clear: nat,
               ghost t: Trail, ghost want: nat, ghost ready: bool)
    returns (more: bool, status: QuietStatus, out: Quiet, clear': nat, ghost t': Trail, ghost added: seq<Event>)
    requires Looping(before, t, prior, current.bdf, command, clear)
    requires ready ==> QuietReady(p, current, caps, prior, command, want) && before.polls == clear <= 1
    modifies p`log
    ensures p.log == old(p.log) + added && t'.events == t.events + added
    ensures more ==> Looping(out, t', prior, current.bdf, command, clear') && out.polls == before.polls + 1
    ensures !more ==> QuietRun(status, out, t', prior, current.bdf, command)
    ensures !more && status in {CommandMoved, ObservationFailed, SampleChanged} ==>
      PollStops(status, added, current, caps, prior, command)
    ensures ready ==> out.polls == clear' == clear + 1 && if clear == 1 then !more && status == QuietOk else more
  {
    hide Looping, QuietRun, Sampled, Counting, PollReady, PollLog, OnlyReads, PollStops;
    ghost var seen;
    var control;
    out, clear', more := before, clear, false;
    status, control, seen := Poll(p, current, caps, prior, command, want);
    added := seen;
    if status != QuietOk {
      LoopBroken(status, before, t, prior, current.bdf, command, clear, seen);
      t' := t.(events := t.events + seen);
      return;
    }
    LoopJudged(before, t, prior, current.bdf, command, clear, seen, control);
    t', out := Extend(t, seen, control), Quiet(before.polls + 1, High16(control));
    clear' := if IsClear(control) then clear + 1 else 0;
    if clear' == 2 { return; }
    if out.polls == POLL_LIMIT {
      status := TimedOut;
      return;
    }
    status := DelayFailed;
    more, t' := Pause(p, out, clear', t', prior, current.bdf, command);
    added := seen + [Delay(DELAY_MS, more)];
  }

  /** The last poll of the run was broken off. */
  ghost predicate PollBroke(status: QuietStatus, events: seq<Event>, h: Header, caps: seq<Cap>, prior: Express,
                            command: Word)
  {
    exists seen ::
      PollStops(status, seen, h, caps, prior, command) && |seen| <= |events| && events[|events| - |seen|..] == seen
  }

  /** These events are a polling run that ended otherwise, and what the poll that broke it off saw. */
  ghost predicate QuietFailed(events: seq<Event>, out: Quiet, h: Header, caps: seq<Cap>, prior: Express,
                              command: Word)
  {
    exists status: QuietStatus, t: Trail ::
      && QuietRun(status, out, t, prior, h.bdf, command) && status != QuietOk && t.events == events
      && (status in {CommandMoved, ObservationFailed, SampleChanged} ==>
            PollBroke(status, events, h, caps, prior, command))
  }

  /** The bounded loop. */
  method PollLoop(p: Platform, current: Header, caps: seq<Cap>, prior: Express, command: Word, ghost want: nat,
                  ghost ready: bool)
    returns (status: QuietStatus, out: Quiet, ghost t: Trail)
    requires prior.status == ExpressOk && (ready ==> QuietReady(p, current, caps, prior, command, want))
    modifies p`log
    ensures p.log == old(p.log) + t.events
    ensures QuietRun(status, out, t, prior, current.bdf, command)
    ensures status in {CommandMoved, ObservationFailed, SampleChanged} ==>
      PollBroke(status, t.events, current, caps, prior, command)
    ensures ready ==> status == QuietOk && out.polls == 2
  {
    hide PollStops, QuietRun, QuietReady;
    out, t := Quiet(0, 0), NO_TRAIL;
    var clear := 0;
    LoopStart(prior, current.bdf, command);
    for poll := 0 to POLL_LIMIT
      invariant poll < POLL_LIMIT && p.log == old(p.log) + t.events
      invariant Looping(out, t, prior, current.bdf, command, clear) && out.polls == poll
      invariant ready ==> poll == clear <= 1
    {
      ghost var added, sofar := [], t.events;
      var more;
      more, status, out, clear, t, added := Round(p, current, caps, prior, command, out, clear, t, want, ready);
      Regroup(old(p.log), sofar, added);
      assert t.events[|t.events| - |added|..] == added;
      if !more { return; }
    }
    assert false;
  }

  /** Two adjacent clear samples, each taken under the expected Command, within 100 polls. */
  method ConfirmQuiet(p: Platform, initial: Header, caps: seq<Cap>, prior: Express, command: Word, ghost want: nat)
    returns (status: QuietStatus, out: Quiet, ghost t: Trail)
    requires command < 0x1_0000
    modifies p`log
    ensures p.log == old(p.log) + t.events
    ensures QuietRun(status, out, t, prior, initial.bdf, command)
    ensures status in {CommandMoved, ObservationFailed, SampleChanged} ==>
      PollBroke(status, t.events, WithCommand(initial, command), caps, prior, command)
    ensures Writes(t.events) == [] && Delays(t.events) < POLL_LIMIT && out.polls <= POLL_LIMIT
    ensures QuietReady(p, WithCommand(initial, command), caps, prior, command, want) ==>
      status == QuietOk && out.polls == 2
  {
    if prior.status != ExpressOk { return QuietArgument, Quiet(0, 0), NO_TRAIL; }
    var current := WithCommand(initial, command);
    ghost var ready := QuietReady(p, current, caps, prior, command, want);
    status, out, t := PollLoop(p, current, caps, prior, command, want, ready);
  }

  /** Success returns the prior status word with the pending bit cleared. */
  lemma QuietStatusWord(out: Quiet, t: Trail, prior: Express, bdf: Bdf, command: Word)
    requires QuietRun(QuietOk, out, t, prior, bdf, command)
    ensures out.deviceStatus == High16(Clear(prior.control, PENDING_BIT))
  {
    var last := t.samples[|t.samples| - 1];
    assert PairAt(t.samples, out.polls - 2);
    assert Clear(last, PENDING_BIT) == last;
  }
}
