/** The root port above the Broadcom function: its bus mastering is cleared by one store between two complete
    refreshes, and then its transactions are polled until they are quiet. */
module RootPort {
  import opened Platforms
  import opened Capabilities
  import opened Observation
  import opened Pending

  datatype RootStatus = RootOk | RootPrior | RootRefresh | RootCommand | RootWrite | RootReadback | RootFinal

  datatype RootClear = RootClear(status: RootStatus, attempted: nat, before: nat, after: nat)

  function Unchanged(status: RootStatus): RootClear {
    RootClear(status, 0, 0, 0)
  }

  const MASTERING: Word := 7
  const GATED: Word := 3

  predicate RootPortHeader(h: Header) {
    && h.bdf.bus == 0 && h.bdf.device == 28 && h.bdf.fn <= 3
    && h.words[0] == 0x0f48_8086 + h.bdf.fn * 0x2_0000 && h.words[2] == 0x0604_000e
    && h.words[3] / 0x1_0000 % 0x100 == 0x81 && Low16(h.words[1]) == MASTERING
  }

  /** A successful observation at 40 with no device control and no pending transaction. */
  predicate SampleOk(e: Express) {
    && e.status == ExpressOk && e.offset == 0x40 && e.capabilities == 0x8000
    && e.control % 0x1_0000 == 0 && e.control / 0x20_0000 == 0
  }

  /** Word i of the bridge header; of the two Status halves only the capability-list bit counts. */
  predicate BridgeMatches(expected: Header, i: nat, value: Word)
    requires i < 16
  {
    if i == 1 then Low16(value) == Low16(expected.words[1]) && HasList(value) == HasList(expected.words[1])
    else if i == 7 then Low16(value) == Low16(expected.words[7])
    else value == expected.words[i]
  }

  ghost predicate BridgeRead(e: Event, h: Header, i: nat)
    requires i < 16
  {
    e.Read? && e.port == Config(h.bdf, 4 * i) && e.answer.Some? && BridgeMatches(h, i, e.answer.value)
  }

  ghost predicate BridgeSeen(events: seq<Event>, h: Header) {
    |events| >= 16 && forall i :: 0 <= i < 16 ==> BridgeRead(events[i], h, i)
  }

  /** The last word read failed or did not match. */
  ghost predicate BridgeBad(events: seq<Event>, h: Header) {
    && 1 <= |events| <= 16 && (forall i :: 0 <= i < |events| - 1 ==> BridgeRead(events[i], h, i))
    && var n := |events| - 1;
       events[n].Read? && events[n].port == Config(h.bdf, 4 * n) && !BridgeRead(events[n], h, n)
  }

  ghost predicate Sampled(events: seq<Event>, h: Header, caps: seq<Cap>, valid: bool) {
    exists e: Express, k: nat, b: Bracket :: ExpressRun(events, h, caps, e, k, b) && SampleOk(e) == valid
  }

  /** A complete refresh: sixteen header words and an observation with a valid sample. */
  ghost predicate Refreshed(events: seq<Event>, h: Header, caps: seq<Cap>) {
    BridgeSeen(events, h) && Sampled(events[16..], h, caps, true)
  }

  ghost predicate RefreshLost(events: seq<Event>, h: Header, caps: seq<Cap>) {
    BridgeBad(events, h) || (BridgeSeen(events, h) && Sampled(events[16..], h, caps, false))
  }

  /** Faithful memory of the port under this Command. */
  ghost predicate RootMemory(p: Platform, h: Header, caps: seq<Cap>, prior: Express, want: nat, command: Word)
    reads p`words
  {
    && command < 0x1_0000 && SampleOk(prior)
    && (forall i :: 0 <= i < 16 ==> BridgeMatches(WithCommand(h, command), i, p.Peek(Config(h.bdf, 4 * i))))
    && ExpressReady(p, WithCommand(h, command), caps, want) && caps[want].offset == 0x40
    && p.Peek(Config(h.bdf, 0x44)) == 0x8000 && p.Peek(Config(h.bdf, 0x48)) == prior.control
  }

  method BridgeUnchanged(p: Platform, h: Header) returns (ok: bool, ghost events: seq<Event>)
    modifies p`log
    ensures p.log == old(p.log) + events && OnlyReads(events) && |events| <= 16
    ensures if ok then |events| == 16 && BridgeSeen(events, h) else BridgeBad(events, h)
    ensures p.faithful && (forall i :: 0 <= i < 16 ==> BridgeMatches(h, i, p.Peek(Config(h.bdf, 4 * i)))) ==> ok
  {
    events := [];
    for i := 0 to 16
      invariant p.log == old(p.log) + events && OnlyReads(events) && |events| == i
      invariant forall k :: 0 <= k < i ==> BridgeRead(events[k], h, k)
    {
      var read, value := p.ReadDword(Config(h.bdf, 4 * i));
      events := events + [Read(Config(h.bdf, 4 * i), if read then Some(value) else None)];
      if !read || !BridgeMatches(h, i, value) { return false, events; }
    }
    return true, events;
  }

  lemma BridgePrefix(header: seq<Event>, rest: seq<Event>, h: Header)
    requires |header| == 16 && BridgeSeen(header, h)
    ensures BridgeSeen(header + rest, h) && (header + rest)[16..] == rest
  {
    forall i | 0 <= i < 16 ensures BridgeRead((header + rest)[i], h, i) {
      assert (header + rest)[i] == header[i];
    }
  }

  method RefreshRoot(p: Platform, h: Header, caps: seq<Cap>, ghost initial: Header, ghost prior: Express,
                     ghost want: nat, ghost command: Word, ghost ready: bool)
    returns (ok: bool, ghost events: seq<Event>)
    requires ready ==>
      p.faithful && RootMemory(p, initial, caps, prior, want, command) && h == WithCommand(initial, command)
    modifies p`log
    ensures p.log == old(p.log) + events && OnlyReads(events) && |events| <= 122
    ensures if ok then Refreshed(events, h, caps) else RefreshLost(events, h, caps)
    ensures ready ==> ok
  {
    hide BridgeSeen, BridgeBad, ExpressRun, SampleOk, ExpressReady;
    ghost var header, tail, k, b;
    ok, header := BridgeUnchanged(p, h);
    events := header;
    if !ok { return; }
    var sample;
    sample, tail, k, b := ObserveExpress(p, h, caps, want);
    BridgePrefix(header, tail, h);
    events := header + tail;
    if ready { SampleAsPrior(sample, prior); }
    ok := SampleOk(sample);
  }

  lemma SampleAsPrior(sample: Express, prior: Express)
    requires SampleOk(prior)
    ensures sample == Express(ExpressOk, 0x40, 0x8000, prior.control) ==> SampleOk(sample)
  {
  }

  // ---------------------------------------------------------------- the store

  function CommandPort(h: Header): Port {
    Config(h.bdf, 4)
  }

  lemma WithOwnCommand(h: Header)
    requires Low16(h.words[1]) == MASTERING
    ensures WithCommand(h, MASTERING) == h
  {
  }

  /** The memory after the store describes the port under Command 3. */
  lemma GatedMemory(before: Platform, words: map<Port, Word>, h: Header, caps: seq<Cap>, prior: Express, want: nat)
    requires RootMemory(before, h, caps, prior, want, MASTERING)
    requires words == before.words[CommandPort(h) := WithLow16(before.Peek(CommandPort(h)), GATED)]
    ensures forall i :: 0 <= i < 16 ==> BridgeMatches(WithCommand(h, GATED), i, Lookup(words, Config(h.bdf, 4 * i)))
    ensures forall i :: 0 <= i < 4 ==> CheckPasses(WithCommand(h, GATED), i, Lookup(words, Config(h.bdf, CHECKED[i])))
    ensures Terminated(Head(WithCommand(h, GATED)), caps) && ArgumentsOk(WithCommand(h, GATED))
    ensures ExpressUsable(WithCommand(h, GATED), caps, want)
  {
    hide Terminated, Sole, Free;
    var w := before.Peek(CommandPort(h));
    assert BridgeMatches(WithCommand(h, MASTERING), 1, before.Peek(Config(h.bdf, 4 * 1)));
    StoredLow(w, GATED);
    StoredLow(h.words[1], GATED);
    StoredLow(h.words[1], MASTERING);
    forall i | 0 <= i < 16 ensures BridgeMatches(WithCommand(h, GATED), i, Lookup(words, Config(h.bdf, 4 * i))) {
      assert BridgeMatches(WithCommand(h, MASTERING), i, before.Peek(Config(h.bdf, 4 * i)));
    }
    forall i | 0 <= i < 4 ensures CheckPasses(WithCommand(h, GATED), i, Lookup(words, Config(h.bdf, CHECKED[i]))) {
      assert CheckPasses(WithCommand(h, MASTERING), i, before.Peek(Config(h.bdf, CHECKED[i])));
    }
  }

  /** Command := 3. */
  method Gate(p: Platform, h: Header, ghost caps: seq<Cap>, ghost prior: Express, ghost want: nat, ghost ready: bool)
    returns (ok: bool)
    requires ready ==> p.faithful && RootMemory(p, h, caps, prior, want, MASTERING)
    modifies p`log, p`words
    ensures p.log == old(p.log) + [Write(CommandPort(h), GATED, ok)]
    ensures ready ==> ok && RootMemory(p, h, caps, prior, want, GATED)
    ensures ready ==> p.words == old(p.words)[CommandPort(h) := WithLow16(old(p.Peek(CommandPort(h))), GATED)]
  {
    hide Terminated, Sole, Free, ExpressShape, BridgeMatches, CheckPasses, ArgumentsOk;
    ghost var words := p.words[CommandPort(h) := WithLow16(p.Peek(CommandPort(h)), GATED)];
    if ready {
      GatedMemory(p, words, h, caps, prior, want);
      SlotsOnly(Head(WithCommand(h, GATED)), caps);
    }
    ok := p.WriteWord(CommandPort(h), GATED);
  }

  lemma SlotsOnly(head: nat, list: seq<Cap>)
    requires Terminated(head, list)
    ensures forall i :: 0 <= i < |list| ==> list[i].offset >= 64
  {
  }

  // ---------------------------------------------------------------- the whole clear

  /** The parts of the log: the opening refresh, Command before and after the store, and what follows. */
  datatype RootLog = RootLog(opening: seq<Event>, command: Event, readback: Event, closing: seq<Event>, last: Event)

  const NO_ROOT_LOG: RootLog := RootLog([], Delay(0, false), Delay(0, false), [], Delay(0, false))

  /** Everything up to the store, and the store. */
  ghost predicate Gated(stored: seq<Event>, g: RootLog, h: Header, caps: seq<Cap>, ok: bool) {
    && stored == g.opening + [g.command] + [Write(CommandPort(h), GATED, ok)] && OnlyReads(g.opening)
    && Refreshed(g.opening, h, caps) && LowRead(g.command, CommandPort(h), MASTERING)
  }

  /** A store, and Command read back as 3. */
  ghost predicate GatedSeen(events: seq<Event>, g: RootLog, h: Header, caps: seq<Cap>) {
    exists stored :: Gated(stored, g, h, caps, true) && events == stored + [g.readback]
                     && LowRead(g.readback, CommandPort(h), GATED)
  }

  /** The word that a lost read leaves in the record. */
  ghost predicate LowSeen(e: Event, port: Port, low: Word, before: nat, after: nat) {
    LowLost(e, port, low) && after == if e.answer.None? then before else Low16(e.answer.value)
  }

  /** Result and log of every run. */
  ghost predicate RootRun(out: RootClear, events: seq<Event>, g: RootLog, h: Header, caps: seq<Cap>) {
    match out.status
    case RootPrior => events == [] && out == Unchanged(RootPrior)
    case RootRefresh => OnlyReads(events) && out == Unchanged(RootRefresh) && RefreshLost(events, h, caps)
    case RootCommand =>
      && OnlyReads(events) && out == Unchanged(RootCommand) && events == g.opening + [g.command]
      && Refreshed(g.opening, h, caps) && LowLost(g.command, CommandPort(h), MASTERING)
    case RootWrite => out == RootClear(RootWrite, 1, 7, 0) && Gated(events, g, h, caps, false)
    case RootReadback =>
      && out == RootClear(RootReadback, 1, 7, out.after) && LowSeen(g.readback, CommandPort(h), GATED, 0, out.after)
      && exists stored :: Gated(stored, g, h, caps, true) && events == stored + [g.readback]
    case RootFinal => RootStops(out, events, g, h, caps)
    case RootOk =>
      && out == RootClear(RootOk, 1, 7, 3) && LowRead(g.last, CommandPort(h), GATED) && OnlyReads(g.closing)
      && Refreshed(g.closing, WithCommand(h, GATED), caps)
      && exists seen :: GatedSeen(seen, g, h, caps) && events == seen + g.closing + [g.last]
  }

  /** After the store was confirmed, the closing refresh or the last read of Command was bad. */
  ghost predicate RootStops(out: RootClear, events: seq<Event>, g: RootLog, h: Header, caps: seq<Cap>) {
    && out == RootClear(RootFinal, 1, 7, out.after) && OnlyReads(g.closing)
    && exists seen :: GatedSeen(seen, g, h, caps)
         && if events == seen + g.closing then out.after == 3 && RefreshLost(g.closing, WithCommand(h, GATED), caps)
            else && events == seen + g.closing + [g.last] && Refreshed(g.closing, WithCommand(h, GATED), caps)
                 && LowSeen(g.last, CommandPort(h), GATED, 3, out.after)
  }

  method ReadCommand(p: Platform, h: Header) returns (ok: bool, low: Word, ghost e: Event)
    modifies p`log
    ensures p.log == old(p.log) + [e] && e.Read? && e.port == CommandPort(h)
    ensures if ok then LowRead(e, CommandPort(h), low) else e == Read(CommandPort(h), None)
    ensures p.faithful ==> ok && low == Low16(p.Peek(CommandPort(h)))
  {
    var value;
    ok, value := p.ReadDword(CommandPort(h));
    low := Low16(value);
    e := Read(CommandPort(h), if ok then Some(value) else None);
  }

  lemma CommandHeld(p: Platform, h: Header, caps: seq<Cap>, prior: Express, want: nat, command: Word)
    requires RootMemory(p, h, caps, prior, want, command)
    ensures Low16(p.Peek(CommandPort(h))) == command
  {
    StoredLow(h.words[1], command);
    assert BridgeMatches(WithCommand(h, command), 1, p.Peek(Config(h.bdf, 4 * 1)));
  }

  /** Refresh, Command 7, the store, Command 3, refresh, Command 3. */
  method ClearRoot(p: Platform, h: Header, caps: seq<Cap>, prior: Express, ghost want: nat, ghost ready: bool)
    returns (out: RootClear, ghost events: seq<Event>, ghost g: RootLog)
    requires ready ==>
      p.faithful && RootPortHeader(h) && SampleOk(prior) && RootMemory(p, h, caps, prior, want, MASTERING)
    modifies p`log, p`words
    ensures p.log == old(p.log) + events && RootRun(out, events, g, h, caps)
    ensures out.status == RootPrior <==> !RootPortHeader(h) || !SampleOk(prior)
    ensures ready ==> out.status == RootOk && RootMemory(p, h, caps, prior, want, GATED)
    ensures ready ==> p.words == old(p.words)[CommandPort(h) := WithLow16(old(p.Peek(CommandPort(h))), GATED)]
  {
    hide Refreshed, RefreshLost, RootMemory, RootPortHeader, SampleOk, RootRun, Gated, LowRead, LowLost, OnlyReads,
      WithLow16, Low16, Lookup;
    g, events := NO_ROOT_LOG, [];
    NothingAsked(g, h, caps);
    if !RootPortHeader(h) || !SampleOk(prior) { return Unchanged(RootPrior), events, g; }
    OwnCommand(h);
    var ok, low;
    ghost var opening, e, stored;
    ok, opening := RefreshRoot(p, h, caps, h, prior, want, MASTERING, ready);
    if !ok {
      RefreshEnds(opening, g, h, caps);
      return Unchanged(RootRefresh), opening, g;
    }
    if ready { CommandHeld(p, h, caps, prior, want, MASTERING); }
    ok, low, e := ReadCommand(p, h);
    g, events := g.(opening := opening, command := e), opening + [e];
    LowIs(e, CommandPort(h), ok, low, MASTERING);
    if !ok || low != MASTERING {
      CommandEnds(opening, e, g, h, caps);
      return Unchanged(RootCommand), events, g;
    }
    ok := Gate(p, h, caps, prior, want, ready);
    stored := opening + [e] + [Write(CommandPort(h), GATED, ok)];
    StoreEnds(stored, g, h, caps, ok);
    if !ok { return RootClear(RootWrite, 1, 7, 0), stored, g; }
    out, events, g := CloseRoot(p, h, caps, prior, want, stored, g, ready);
    events := stored + events;
  }

  lemma NothingAsked(g: RootLog, h: Header, caps: seq<Cap>)
    ensures RootRun(Unchanged(RootPrior), [], g, h, caps)
  {
  }

  lemma RefreshEnds(events: seq<Event>, g: RootLog, h: Header, caps: seq<Cap>)
    requires OnlyReads(events) && RefreshLost(events, h, caps)
    ensures RootRun(Unchanged(RootRefresh), events, g, h, caps)
  {
    hide RefreshLost;
  }

  lemma CommandEnds(opening: seq<Event>, e: Event, g: RootLog, h: Header, caps: seq<Cap>)
    requires OnlyReads(opening) && Refreshed(opening, h, caps) && LowLost(e, CommandPort(h), MASTERING)
    requires g.opening == opening && g.command == e
    ensures RootRun(Unchanged(RootCommand), opening + [e], g, h, caps)
  {
    hide Refreshed;
  }

  lemma StoreEnds(stored: seq<Event>, g: RootLog, h: Header, caps: seq<Cap>, ok: bool)
    requires stored == g.opening + [g.command] + [Write(CommandPort(h), GATED, ok)] && OnlyReads(g.opening)
    requires Refreshed(g.opening, h, caps) && LowRead(g.command, CommandPort(h), MASTERING)
    ensures Gated(stored, g, h, caps, ok)
    ensures !ok ==> RootRun(RootClear(RootWrite, 1, 7, 0), stored, g, h, caps)
  {
    hide Refreshed, LowRead;
  }

  lemma OwnCommand(h: Header)
    requires RootPortHeader(h)
    ensures WithCommand(h, MASTERING) == h
  {
    WithOwnCommand(h);
  }

  /** The readback, and when it shows 3 the closing checks. */
  method CloseRoot(p: Platform, h: Header, caps: seq<Cap>, prior: Express, ghost want: nat, ghost stored: seq<Event>,
                   ghost g: RootLog, ghost ready: bool)
    returns (out: RootClear, ghost rest: seq<Event>, ghost g': RootLog)
    requires Gated(stored, g, h, caps, true)
    requires ready ==> p.faithful && RootMemory(p, h, caps, prior, want, GATED)
    modifies p`log
    ensures p.log == old(p.log) + rest && RootRun(out, stored + rest, g', h, caps) && out.status != RootPrior
    ensures ready ==> out.status == RootOk
  {
    hide Refreshed, RefreshLost, RootMemory, LowRead, LowLost, Gated;
    if ready { CommandHeld(p, h, caps, prior, want, GATED); }
    ghost var e, closing;
    var ok, low;
    ok, low, e := ReadCommand(p, h);
    g', rest := g.(readback := e), [e];
    GatedAlike(stored, g, g', h, caps);
    LowIs(e, CommandPort(h), ok, low, GATED);
    if !ok { return RootClear(RootReadback, 1, 7, 0), rest, g'; }
    if low != GATED { return RootClear(RootReadback, 1, 7, low), rest, g'; }
    ghost var seen := stored + [e];
    out, closing, e := Confirm(p, h, caps, prior, want, ready);
    g' := g'.(closing := closing, last := e);
    GatedAlike(stored, g, g', h, caps);
    assert GatedSeen(seen, g', h, caps);
    rest := rest + closing + if e.Read? then [e] else [];
    assert stored + rest == seen + closing + if e.Read? then [e] else [];
  }

  lemma GatedAlike(stored: seq<Event>, g: RootLog, g': RootLog, h: Header, caps: seq<Cap>)
    requires Gated(stored, g, h, caps, true) && g'.opening == g.opening && g'.command == g.command
    ensures Gated(stored, g', h, caps, true)
  {
  }

  lemma LowIs(e: Event, port: Port, ok: bool, low: Word, expected: Word)
    requires if ok then LowRead(e, port, low) else e == Read(port, None)
    ensures LowRead(e, port, expected) <==> ok && low == expected
    ensures !(ok && low == expected) ==> LowSeen(e, port, expected, 0, if ok then low else 0)
  {
  }

  /** The closing refresh and the last read of Command; `last` is no read when it was not reached. */
  method Confirm(p: Platform, h: Header, caps: seq<Cap>, prior: Express, ghost want: nat, ghost ready: bool)
    returns (out: RootClear, ghost closing: seq<Event>, ghost last: Event)
    requires ready ==> p.faithful && RootMemory(p, h, caps, prior, want, GATED)
    modifies p`log
    ensures p.log == old(p.log) + closing + if last.Read? then [last] else []
    ensures out == RootClear(out.status, 1, 7, out.after) && OnlyReads(closing)
    ensures out.status in {RootOk, RootFinal}
    ensures !last.Read? ==>
      out.status == RootFinal && out.after == 3 && RefreshLost(closing, WithCommand(h, GATED), caps)
    ensures last.Read? ==> Refreshed(closing, WithCommand(h, GATED), caps)
    ensures last.Read? && out.status == RootOk ==> out.after == 3 && LowRead(last, CommandPort(h), GATED)
    ensures last.Read? && out.status == RootFinal ==> LowSeen(last, CommandPort(h), GATED, 3, out.after)
    ensures ready ==> out.status == RootOk
  {
    hide Refreshed, RefreshLost, RootMemory;
    var ok, low;
    last := Delay(0, false);
    ok, closing := RefreshRoot(p, WithCommand(h, GATED), caps, h, prior, want, GATED, ready);
    if !ok { return RootClear(RootFinal, 1, 7, 3), closing, last; }
    if ready { CommandHeld(p, h, caps, prior, want, GATED); }
    ok, low, last := ReadCommand(p, h);
    if !ok { return RootClear(RootFinal, 1, 7, 3), closing, last; }
    out := RootClear(if low == GATED then RootOk else RootFinal, 1, 7, low);
  }

  /** The one store of any run, and only after Command read 7. */
  lemma RootStores(out: RootClear, events: seq<Event>, g: RootLog, h: Header, caps: seq<Cap>)
    requires RootRun(out, events, g, h, caps)
    ensures Writes(events) ==
            if out.status in {RootPrior, RootRefresh, RootCommand} then []
            else [Write(Config(h.bdf, 4), 3, out.status != RootWrite)]
  {
    hide Refreshed, RefreshLost, Writes, LowRead, LowLost, GatedSeen, Gated;
    match out.status
    case RootPrior => EmptyTrace();
    case RootRefresh => OnlyReadsTrace(events);
    case RootCommand => OnlyReadsTrace(events);
    case RootWrite => GatedStores(events, g, h, caps, false);
    case RootReadback =>
      var stored :| Gated(stored, g, h, caps, true) && events == stored + [g.readback];
      GatedStores(stored, g, h, caps, true);
      LowIsRead(g.readback, CommandPort(h), GATED);
      AppendReads(stored, [g.readback]);
    case RootFinal =>
      var seen :|
        && GatedSeen(seen, g, h, caps)
        && (events == seen + g.closing
            || (events == seen + g.closing + [g.last] && LowSeen(g.last, CommandPort(h), GATED, 3, out.after)));
      SeenStores(seen, g, h, caps);
      AppendReads(seen, g.closing);
      if events != seen + g.closing {
        assert LowSeen(g.last, CommandPort(h), GATED, 3, out.after);
        LowIsRead(g.last, CommandPort(h), GATED);
        AppendReads(seen + g.closing, [g.last]);
      }
    case RootOk =>
      var seen :| GatedSeen(seen, g, h, caps) && events == seen + g.closing + [g.last];
      SeenStores(seen, g, h, caps);
      AppendReads(seen, g.closing);
      LowIsRead(g.last, CommandPort(h), GATED);
      AppendReads(seen + g.closing, [g.last]);
  }

  lemma LowIsRead(e: Event, port: Port, low: Word)
    ensures LowRead(e, port, low) || LowLost(e, port, low) ==> e.Read?
  {
  }

  lemma GatedStores(stored: seq<Event>, g: RootLog, h: Header, caps: seq<Cap>, ok: bool)
    requires Gated(stored, g, h, caps, ok)
    ensures Writes(stored) == [Write(Config(h.bdf, 4), 3, ok)]
  {
    OnlyReadsTrace(g.opening + [g.command]);
    AppendEffect(g.opening + [g.command], Write(CommandPort(h), GATED, ok));
  }

  lemma SeenStores(seen: seq<Event>, g: RootLog, h: Header, caps: seq<Cap>)
    requires GatedSeen(seen, g, h, caps)
    ensures Writes(seen) == [Write(Config(h.bdf, 4), 3, true)]
  {
    hide Gated;
    var stored :| Gated(stored, g, h, caps, true) && seen == stored + [g.readback]
                  && LowRead(g.readback, CommandPort(h), GATED);
    GatedStores(stored, g, h, caps, true);
    AppendReads(stored, [g.readback]);
  }

  // ---------------------------------------------------------------- quiet below the port

  /** The polling loop under Command 3, which asks for a completed clear. */
  method ConfirmRootQuiet(p: Platform, h: Header, caps: seq<Cap>, prior: Express, clear: RootClear, ghost want: nat,
                          ghost ready: bool)
    returns (status: QuietStatus, out: Quiet, ghost t: Trail)
    requires ready ==> p.faithful && RootMemory(p, h, caps, prior, want, GATED)
    modifies p`log
    ensures p.log == old(p.log) + t.events
    ensures status == QuietPrior <==> !RootPortHeader(h) || !SampleOk(prior) || clear != RootClear(RootOk, 1, 7, 3)
    ensures if status == QuietPrior then out == Quiet(0, 0) && t == NO_TRAIL
            else QuietRun(status, out, t, prior, h.bdf, GATED)
    ensures status in {CommandMoved, ObservationFailed, SampleChanged} ==>
      PollBroke(status, t.events, WithCommand(h, GATED), caps, prior, GATED)
    ensures Writes(t.events) == [] && Delays(t.events) < POLL_LIMIT
    ensures ready && status != QuietPrior ==> status == QuietOk && out.polls == 2
  {
    hide QuietRun, PollBroke, RootMemory, RootPortHeader, SampleOk;
    if !RootPortHeader(h) || !SampleOk(prior) || clear != RootClear(RootOk, 1, 7, 3) {
      EmptyTrace();
      return QuietPrior, Quiet(0, 0), NO_TRAIL;
    }
    if ready { RootQuietReady(p, h, caps, prior, want); }
    status, out, t := ConfirmQuiet(p, h, caps, prior, GATED, want);
    NeverPrior(status, out, t, prior, h.bdf);
  }

  lemma NeverPrior(status: QuietStatus, out: Quiet, t: Trail, prior: Express, bdf: Bdf)
    requires QuietRun(status, out, t, prior, bdf, GATED)
    ensures status != QuietPrior
  {
  }

  lemma RootQuietReady(p: Platform, h: Header, caps: seq<Cap>, prior: Express, want: nat)
    requires p.faithful && RootMemory(p, h, caps, prior, want, GATED)
    ensures QuietReady(p, WithCommand(h, GATED), caps, prior, GATED, want)
  {
    hide ExpressReady;
    CommandHeld(p, h, caps, prior, want, GATED);
    NotPending(prior);
  }

  lemma NotPending(prior: Express)
    requires SampleOk(prior)
    ensures IsClear(prior.control)
  {
  }

  /** What the polling reports after a clear: the device status that the prior sample already showed. */
  lemma QuietSample(out: Quiet, t: Trail, prior: Express, bdf: Bdf)
    requires QuietRun(QuietOk, out, t, prior, bdf, GATED) && SampleOk(prior)
    ensures 2 <= out.polls <= 100 && 0x1_0000 * out.deviceStatus == prior.control
  {
    hide Framed, Polled;
    QuietStatusWord(out, t, prior, bdf, GATED);
    NotPending(prior);
    QuietBounds(out, t, prior, bdf);
  }

  lemma QuietBounds(out: Quiet, t: Trail, prior: Express, bdf: Bdf)
    requires QuietRun(QuietOk, out, t, prior, bdf, GATED)
    ensures 2 <= out.polls <= 100
  {
  }
}
