/** The EHCI legacy-support handoff (EHCI 1.0, sections 2.1.7, 2.1.8 and 5.1). */
module Ehci {
  import opened Platforms
  import opened Capabilities
  import opened Observation
  import opened Semaphores

  const EHCI: Bdf := Bdf(0, 29, 0)
  const EHCI_BAR: Word := 0xd091_5000

  // ---------------------------------------------------------------- capability registers

  datatype EhciCaps = EhciCaps(capbase: Word, structural: Word, capability: Word)
  const NO_CAPS: EhciCaps := EhciCaps(0, 0, 0)

  datatype EhciStatus = EhciOk | EhciHeader | EhciConfigRead | EhciDrift | EhciMmioRead | EhciAbsent | EhciFormat

  predicate EhciHeaderOk(h: Header) {
    && h.bdf == EHCI && h.words[0] == 0x0f34_8086 && h.words[2] == 0x0c03_200e
    && h.words[3] / 0x1_0000 % 0x100 == 0 && Bit(h.words[1], 2) && h.words[4] == EHCI_BAR
  }

  /** Word i under its comparison mask. */
  predicate EhciMatches(h: Header, i: nat, raw: Word)
    requires i < 5
  {
    if i == 1 then Bit(raw, 2) == Bit(h.words[1], 2)
    else if i == 3 then raw / 0x1_0000 % 0x100 == h.words[3] / 0x1_0000 % 0x100
    else raw == h.words[i]
  }

  /** EHCI 1.0 with an aligned operational base beyond the capability registers and some ports. */
  predicate EhciFormatOk(caps: EhciCaps) {
    && High16(caps.capbase) == 0x100 && caps.capbase / 0x100 % 0x100 == 0
    && caps.capbase % 0x100 >= 16 && caps.capbase % 4 == 0 && caps.structural % 16 != 0
  }

  /** Five matching configuration words and the three registers. */
  ghost predicate EhciCapsLog(events: seq<Event>, h: Header, caps: EhciCaps) {
    ConfigSeen(events, h, 5) && RegistersSeen(events, caps) && EhciFormatOk(caps)
  }

  ghost predicate EhciWordRead(e: Event, h: Header, i: nat)
    requires i < 5
  {
    e.Read? && e.port == Config(EHCI, 4 * i) && e.answer.Some? && EhciMatches(h, i, e.answer.value)
  }

  /** Why the registers could not be collected; each failure is the last read. */
  ghost predicate EhciStops(status: EhciStatus, events: seq<Event>, h: Header) {
    var n := |events| - 1;
    match status
    case EhciOk => false
    case EhciHeader => !EhciHeaderOk(h) && events == []
    case EhciConfigRead => 0 <= n < 5 && ConfigSeen(events, h, n) && events[n] == Read(Config(EHCI, 4 * n), None)
    case EhciDrift =>
      && 0 <= n < 5 && ConfigSeen(events, h, n) && events[n].Read? && events[n].port == Config(EHCI, 4 * n)
      && events[n].answer.Some? && !EhciMatches(h, n, events[n].answer.value)
    case EhciMmioRead => 5 <= n < 8 && ConfigSeen(events, h, 5) && events[n] == Read(Mmio(EHCI_BAR + 4 * (n - 5)), None)
    case EhciAbsent =>
      5 <= n < 8 && ConfigSeen(events, h, 5) && events[n] == Read(Mmio(EHCI_BAR + 4 * (n - 5)), Some(ALL_ONES))
    case EhciFormat => ConfigSeen(events, h, 5) && exists caps :: RegistersSeen(events, caps) && !EhciFormatOk(caps)
  }

  ghost predicate ConfigSeen(events: seq<Event>, h: Header, n: nat) {
    n <= 5 && n <= |events| && forall i :: 0 <= i < n ==> EhciWordRead(events[i], h, i)
  }

  ghost predicate RegistersSeen(events: seq<Event>, caps: EhciCaps) {
    && |events| == 8 && events[5] == Read(Mmio(EHCI_BAR), Some(caps.capbase))
    && events[6] == Read(Mmio(EHCI_BAR + 4), Some(caps.structural))
    && events[7] == Read(Mmio(EHCI_BAR + 8), Some(caps.capability))
    && caps.capbase != ALL_ONES && caps.structural != ALL_ONES && caps.capability != ALL_ONES
  }

  method CheckConfig(p: Platform, h: Header) returns (status: EhciStatus, ghost events: seq<Event>)
    modifies p`log
    ensures p.log == old(p.log) + events && OnlyReads(events) && |events| <= 5
    ensures if status == EhciOk then |events| == 5 && ConfigSeen(events, h, 5) else EhciStops(status, events, h)
    ensures status in {EhciOk, EhciConfigRead, EhciDrift}
    ensures p.faithful ==> Truthful(p.words, events)
  {
    events := [];
    for i := 0 to 5
      invariant p.log == old(p.log) + events && OnlyReads(events) && |events| == i
      invariant p.faithful ==> Truthful(p.words, events)
      invariant ConfigSeen(events, h, i)
    {
      var ok, raw := p.ReadDword(Config(EHCI, 4 * i));
      events := events + [Read(Config(EHCI, 4 * i), if ok then Some(raw) else None)];
      if !ok { return EhciConfigRead, events; }
      if !EhciMatches(h, i, raw) { return EhciDrift, events; }
    }
    return EhciOk, events;
  }

  method SampleRegisters(p: Platform) returns (status: EhciStatus, values: seq<Word>, ghost events: seq<Event>)
    modifies p`log
    ensures p.log == old(p.log) + events && OnlyReads(events) && |events| <= 3
    ensures status == EhciOk ==>
      && |values| == 3 == |events|
      && forall i :: 0 <= i < 3 ==> values[i] != ALL_ONES && events[i] == Read(Mmio(EHCI_BAR + 4 * i), Some(values[i]))
    ensures status in {EhciOk, EhciMmioRead, EhciAbsent}
    ensures status != EhciOk ==>
      events != [] && events[|events| - 1] == Read(Mmio(EHCI_BAR + 4 * (|events| - 1)),
                                                   if status == EhciMmioRead then None else Some(ALL_ONES))
    ensures p.faithful ==> Truthful(p.words, events)
  {
    events, values := [], [];
    for i := 0 to 3
      invariant p.faithful ==> Truthful(p.words, events)
      invariant p.log == old(p.log) + events && OnlyReads(events) && |events| == i == |values|
      invariant forall k :: 0 <= k < i ==>
        values[k] != ALL_ONES && events[k] == Read(Mmio(EHCI_BAR + 4 * k), Some(values[k]))
    {
      var ok, raw := p.ReadDword(Mmio(EHCI_BAR + 4 * i));
      events := events + [Read(Mmio(EHCI_BAR + 4 * i), if ok then Some(raw) else None)];
      if !ok { return EhciMmioRead, values, events; }
      if raw == ALL_ONES { return EhciAbsent, values, events; }
      values := values + [raw];
    }
    return EhciOk, values, events;
  }

  lemma ConfigExtends(first: seq<Event>, more: seq<Event>, h: Header)
    requires ConfigSeen(first, h, 5) && |first| == 5
    ensures ConfigSeen(first + more, h, 5)
  {
    forall i | 0 <= i < 5 ensures EhciWordRead((first + more)[i], h, i) {
      assert EhciWordRead(first[i], h, i);
    }
  }

  method CollectEhciCapabilities(p: Platform, h: Header)
    returns (status: EhciStatus, caps: EhciCaps, ghost events: seq<Event>)
    modifies p`log
    ensures p.log == old(p.log) + events && OnlyReads(events) && |events| <= 8
    ensures status == EhciOk ==> EhciHeaderOk(h) && EhciCapsLog(events, h, caps)
    ensures status != EhciOk ==> caps == NO_CAPS && EhciStops(status, events, h)
    ensures status == EhciHeader <==> !EhciHeaderOk(h)
    ensures p.faithful ==> Truthful(p.words, events)
  {
    events := [];
    if !EhciHeaderOk(h) { return EhciHeader, NO_CAPS, events; }
    status, events := CheckConfig(p, h);
    if status != EhciOk { return status, NO_CAPS, events; }
    ghost var more;
    var values;
    status, values, more := SampleRegisters(p);
    ghost var first := events;
    events := first + more;
    TruthfulParts(p.words, first, more);
    ConfigExtends(first, more, h);
    if status != EhciOk { return status, NO_CAPS, events; }
    caps := EhciCaps(values[0], values[1], values[2]);
    assert events[5] == more[0] && events[6] == more[1] && events[7] == more[2];
    assert RegistersSeen(events, caps);
    if !EhciFormatOk(caps) { return EhciFormat, NO_CAPS, events; }
  }

  // ---------------------------------------------------------------- the extended capability list

  datatype LegacyStatus =
    | LegacyOk | LegacyRefresh | LegacyDrift | LegacyPointer | LegacyCycle | LegacyRead | LegacyId
    | LegacyDuplicate | LegacyOverlap | LegacyAbsent

  const LEGACY_ID: nat := 1

  /** `legacy` is the offset of the only legacy-support entry, 0 if there is none. */
  ghost predicate LegacyAt(list: seq<Cap>, legacy: nat) {
    && (forall i :: 0 <= i < |list| ==> (Low8(list[i].raw) == LEGACY_ID <==> list[i].offset == legacy))
    && (legacy != 0 ==> legacy <= 248 && exists i :: 0 <= i < |list| && list[i].offset == legacy)
  }

  ghost predicate Identified(list: seq<Cap>) {
    forall i :: 0 <= i < |list| ==> Low8(list[i].raw) != 0
  }

  /** The walk so far. */
  ghost predicate Walked(head: nat, list: seq<Cap>, legacy: nat) {
    Linked(head, list) && Identified(list) && LegacyAt(list, legacy)
  }

  lemma WalkedNext(head: nat, list: seq<Cap>, legacy: nat, cap: Cap)
    requires Walked(head, list, legacy) && cap.offset == Capabilities.Expected(head, list, |list|) && Slot(cap.offset)
    requires cap.offset !in Offsets(list) && Low8(cap.raw) != 255 && Low8(cap.raw) != 0
    requires Low8(cap.raw) == LEGACY_ID ==> legacy == 0 && cap.offset <= 248
    ensures Walked(head, list + [cap], if Low8(cap.raw) == LEGACY_ID then cap.offset else legacy)
    ensures Capabilities.Expected(head, list + [cap], |list| + 1) == Link(cap.raw)
    ensures Offsets(list + [cap]) == Offsets(list) + [cap.offset]
  {
    LinkedNext(head, list, cap);
    NotMet(list, cap.offset);
    var longer := list + [cap];
    assert longer[|list|] == cap;
    forall i | 0 <= i < |list| ensures longer[i] == list[i] { }
  }

  lemma NothingWalked(head: nat)
    ensures Walked(head, [], 0)
  {
  }

  /** How the walk ends. */
  ghost predicate EhciWalkEnd(head: nat, status: LegacyStatus, list: seq<Cap>, legacy: nat, events: seq<Event>) {
    && Walked(head, list, legacy) && |list| <= CAPACITY
    && var link, log := Capabilities.Expected(head, list, |list|), ListLog(EHCI, list);
    && |log| <= |events| <= |log| + 1 && events[..|log|] == log
    && (|events| > |log| ==>
          |list| < CAPACITY && Slot(link) && events[|log|].Read? && events[|log|].port == Config(EHCI, link))
    && match status
       case LegacyOk => link == 0 && events == log
       case LegacyPointer =>
         if events == log then link != 0 && !Slot(link)
         else link > 248 && events[|log|].answer.Some? && Low8(events[|log|].answer.value) == LEGACY_ID
       case LegacyCycle => link in Offsets(list) && events == log
       case LegacyRead => |events| > |log| && events[|log|].answer.None?
       case LegacyId => |events| > |log| && events[|log|].answer.Some? && Low8(events[|log|].answer.value) in {0, 255}
       case LegacyDuplicate =>
         && |events| > |log| && events[|log|].answer.Some? && Low8(events[|log|].answer.value) == LEGACY_ID
         && legacy != 0
       case _ => false
  }

  method WalkEhci(p: Platform, head: nat)
    returns (status: LegacyStatus, list: seq<Cap>, legacy: nat, ghost events: seq<Event>)
    requires head < 0x100
    modifies p`log
    ensures p.log == old(p.log) + events && OnlyReads(events) && |events| <= CAPACITY
    ensures EhciWalkEnd(head, status, list, legacy, events)
    ensures p.faithful ==> Truthful(p.words, events)
  {
    hide Linked, Offsets, LegacyAt, Identified, ListLog, BitmapOf;
    events, list, legacy := [], [], 0;
    var seen: Bitmap := seq(64, i => false);
    var offset := head;
    WalkStart(head, EHCI, seen);
    assert Walked(head, [], 0) by { NothingWalked(head); }
    while offset != 0
      invariant Walked(head, list, legacy) && offset == Capabilities.Expected(head, list, |list|) && offset < 0x100
      invariant BitmapOf(seen, Offsets(list))
      invariant p.faithful ==> Truthful(p.words, events)
      invariant p.log == old(p.log) + events && events == ListLog(EHCI, list) && OnlyReads(events) && |events| == |list|
      decreases CAPACITY - |list|
    {
      LinkedFits(head, list, []);
      if offset < 64 || offset % 4 != 0 { return LegacyPointer, list, legacy, events; }
      BitmapReads(seen, offset, Offsets(list));
      if Marked(seen, offset) { return LegacyCycle, list, legacy, events; }
      NotMet(list, offset);
      LinkedFits(head, list, [offset]);
      if |list| == CAPACITY { return LegacyPointer, list, legacy, events; }
      BitmapNext(seen, offset, Offsets(list));
      seen := Mark(seen, offset);
      var ok, raw := p.ReadDword(Config(EHCI, offset));
      ghost var before := events;
      events := events + [Read(Config(EHCI, offset), if ok then Some(raw) else None)];
      assert events[..|before|] == before;
      if !ok { return LegacyRead, list, legacy, events; }
      var id := Low8(raw);
      if id == 0 || id == 255 { return LegacyId, list, legacy, events; }
      if id == LEGACY_ID && legacy != 0 { return LegacyDuplicate, list, legacy, events; }
      if id == LEGACY_ID && offset > 248 { return LegacyPointer, list, legacy, events; }
      WalkedNext(head, list, legacy, Cap(offset, raw));
      ListLogNext(EHCI, list, Cap(offset, raw));
      if id == LEGACY_ID { legacy := offset; }
      list := list + [Cap(offset, raw)];
      offset := Link(raw);
    }
    LinkedFits(head, list, []);
    status := LegacyOk;
  }

  /** What a successful collection publishes under these capability registers. */
  ghost predicate Published(caps: EhciCaps, s: Legacy) {
    && Walked(Link(caps.capability), s.headers, s.offset)
    && Capabilities.Expected(Link(caps.capability), s.headers, |s.headers|) == 0
    && if s.offset == 0 then s.control == 0 else Free(s.headers, s.offset + 4) && s.control != ALL_ONES
  }

  /** Why the control word could not be read. */
  ghost predicate ControlStops(status: LegacyStatus, list: seq<Cap>, legacy: nat, events: seq<Event>) {
    && legacy != 0
    && match status
       case LegacyOverlap => !Free(list, legacy + 4) && events == []
       case LegacyRead => Free(list, legacy + 4) && events == [Read(Config(EHCI, legacy + 4), None)]
       case LegacyAbsent => Free(list, legacy + 4) && events == [Read(Config(EHCI, legacy + 4), Some(ALL_ONES))]
       case _ => false
  }

  /** Why a collection failed, after which reads. */
  ghost predicate LegacyStops(status: LegacyStatus, events: seq<Event>, registers: seq<Event>, h: Header,
                              previous: EhciCaps)
  {
    match status
    case LegacyOk => false
    case LegacyRefresh => exists st: EhciStatus :: EhciStops(st, events, h)
    case LegacyDrift => exists caps: EhciCaps :: EhciCapsLog(events, h, caps) && caps != previous
    case _ =>
      && EhciCapsLog(registers, h, previous) && registers <= events
      && exists list, legacy, walk :: ListStops(status, events[|registers|..], previous, list, legacy, walk)
  }

  /** The walk failed, or it ended well and the control word failed. */
  ghost predicate ListStops(status: LegacyStatus, tail: seq<Event>, caps: EhciCaps, list: seq<Cap>, legacy: nat,
                            walk: seq<Event>)
  {
    var head := Link(caps.capability);
    || (tail == walk && status != LegacyOk && EhciWalkEnd(head, status, list, legacy, walk))
    || (&& EhciWalkEnd(head, LegacyOk, list, legacy, walk) && walk <= tail
        && ControlStops(status, list, legacy, tail[|walk|..]))
  }

  /** The control word after the legacy-support entry, which no other entry may occupy. */
  method ReadControl(p: Platform, list: seq<Cap>, legacy: nat)
    returns (status: LegacyStatus, control: Word, ghost events: seq<Event>)
    modifies p`log
    ensures p.log == old(p.log) + events && OnlyReads(events) && |events| <= 1
    ensures status == LegacyOk ==>
      if legacy == 0 then control == 0 && events == []
      else Free(list, legacy + 4) && control != ALL_ONES && events == [Read(Config(EHCI, legacy + 4), Some(control))]
    ensures status != LegacyOk ==> ControlStops(status, list, legacy, events)
    ensures status in {LegacyOk, LegacyOverlap, LegacyRead, LegacyAbsent}
    ensures p.faithful ==> Truthful(p.words, events)
  {
    control, events, status := 0, [], LegacyOk;
    if legacy == 0 { return; }
    var free := NoneAt(list, legacy + 4, legacy + 4);
    if !free { status := LegacyOverlap; return; }
    var ok;
    ok, control, events := ReadRegister(p, Config(EHCI, legacy + 4));
    if !ok { status := LegacyRead; return; }
    if control == ALL_ONES { status := LegacyAbsent; }
  }

  /** The log of a complete collection: the registers, one read per entry, then the control word. */
  ghost predicate LegacyLog(events: seq<Event>, registers: seq<Event>, h: Header, caps: EhciCaps, s: Legacy) {
    && EhciCapsLog(registers, h, caps)
    && events == registers + ListLog(EHCI, s.headers)
                 + (if s.offset == 0 then [] else [Read(Config(EHCI, s.offset + 4), Some(s.control))])
  }

  lemma WalkStopped(status: LegacyStatus, registers: seq<Event>, walk: seq<Event>, h: Header, caps: EhciCaps,
                    list: seq<Cap>, legacy: nat)
    requires EhciCapsLog(registers, h, caps) && status != LegacyOk
    requires EhciWalkEnd(Link(caps.capability), status, list, legacy, walk)
    ensures LegacyStops(status, registers + walk, registers, h, caps)
  {
    hide EhciCapsLog, Walked, ControlStops;
    assert (registers + walk)[|registers|..] == walk;
    assert ListStops(status, walk, caps, list, legacy, walk);
  }

  lemma ControlStopped(status: LegacyStatus, registers: seq<Event>, walk: seq<Event>, tail: seq<Event>, h: Header,
                       caps: EhciCaps, list: seq<Cap>, legacy: nat)
    requires EhciCapsLog(registers, h, caps) && EhciWalkEnd(Link(caps.capability), LegacyOk, list, legacy, walk)
    requires ControlStops(status, list, legacy, tail)
    ensures LegacyStops(status, registers + walk + tail, registers, h, caps)
  {
    hide EhciCapsLog, EhciWalkEnd, Free;
    assert (registers + walk + tail)[|registers|..] == walk + tail;
    assert (walk + tail)[|walk|..] == tail;
    assert ListStops(status, walk + tail, caps, list, legacy, walk);
  }

  /** The walk and the control word, once the registers are known to be unchanged. */
  method WalkWithControl(p: Platform, caps: EhciCaps, ghost registers: seq<Event>, ghost h: Header)
    returns (status: LegacyStatus, s: Legacy, ghost events: seq<Event>)
    requires EhciCapsLog(registers, h, caps)
    modifies p`log
    ensures p.log == old(p.log) + events && OnlyReads(events) && |events| <= CAPACITY + 1
    ensures status == LegacyOk ==> Published(caps, s) && LegacyLog(registers + events, registers, h, caps, s)
    ensures status != LegacyOk ==> s == NO_LEGACY && LegacyStops(status, registers + events, registers, h, caps)
    ensures p.faithful ==> Truthful(p.words, events)
  {
    hide EhciCapsLog, Walked, Free, LegacyStops, ControlStops, ListLog, Truthful;
    s := NO_LEGACY;
    var list, legacy, control;
    ghost var walk, tail;
    status, list, legacy, walk := WalkEhci(p, Link(caps.capability));
    events := walk;
    if status != LegacyOk {
      WalkStopped(status, registers, walk, h, caps, list, legacy);
      return;
    }
    status, control, tail := ReadControl(p, list, legacy);
    Regroup(registers, walk, tail);
    TruthfulParts(p.words, walk, tail);
    events := walk + tail;
    if status == LegacyOk {
      s := Legacy(list, legacy, control);
    } else {
      ControlStopped(status, registers, walk, tail, h, caps, list, legacy);
    }
  }

  method CollectLegacy(p: Platform, h: Header, previous: EhciCaps)
    returns (status: LegacyStatus, s: Legacy, ghost events: seq<Event>, ghost registers: seq<Event>)
    modifies p`log
    ensures p.log == old(p.log) + events && OnlyReads(events) && |events| <= 57
    ensures status == LegacyOk ==>
      EhciHeaderOk(h) && Published(previous, s) && LegacyLog(events, registers, h, previous, s)
    ensures status != LegacyOk ==> s == NO_LEGACY && LegacyStops(status, events, registers, h, previous)
    ensures p.faithful ==> Truthful(p.words, events)
  {
    hide EhciCapsLog, EhciHeaderOk, Published, LegacyLog, EhciStops, ListStops, Truthful;
    s := NO_LEGACY;
    var refreshed, caps;
    ghost var rest;
    refreshed, caps, registers := CollectEhciCapabilities(p, h);
    if refreshed != EhciOk { return LegacyRefresh, s, registers, registers; }
    if caps.capbase != previous.capbase || caps.structural != previous.structural
       || caps.capability != previous.capability
    {
      return LegacyDrift, s, registers, registers;
    }
    assert caps == previous;
    status, s, rest := WalkWithControl(p, previous, registers, h);
    TruthfulParts(p.words, registers, rest);
    events := registers + rest;
  }

  /** The entries of a published list are apart, and its legacy-support word is unique. */
  lemma PublishedApart(caps: EhciCaps, s: Legacy)
    requires Published(caps, s)
    ensures Apart(s.headers) && |s.headers| <= CAPACITY && (s.offset != 0 ==> Slot(s.offset) && s.offset <= 248)
    ensures s.offset != 0 ==> exists i :: 0 <= i < |s.headers| && s.headers[i].offset == s.offset
  {
    LinkedFits(Link(caps.capability), s.headers, []);
  }

  // ---------------------------------------------------------------- a controller that answers truthfully

  /** The registers in memory. */
  ghost predicate RegistersHeld(words: map<Port, Word>, h: Header, caps: EhciCaps) {
    && EhciHeaderOk(h) && (forall i :: 0 <= i < 5 ==> EhciMatches(h, i, Lookup(words, Config(EHCI, 4 * i))))
    && Lookup(words, Mmio(EHCI_BAR)) == caps.capbase != ALL_ONES
    && Lookup(words, Mmio(EHCI_BAR + 4)) == caps.structural != ALL_ONES
    && Lookup(words, Mmio(EHCI_BAR + 8)) == caps.capability != ALL_ONES && EhciFormatOk(caps)
  }

  /** A published list in memory, with its control word. */
  ghost predicate ListHeld(words: map<Port, Word>, caps: EhciCaps, s: Legacy) {
    && Published(caps, s)
    && (forall i :: 0 <= i < |s.headers| ==> Lookup(words, Config(EHCI, s.headers[i].offset)) == s.headers[i].raw)
    && (s.offset != 0 ==> Lookup(words, Config(EHCI, s.offset + 4)) == s.control)
  }

  lemma RegistersAnswer(words: map<Port, Word>, h: Header, caps: EhciCaps, st: EhciStatus, events: seq<Event>)
    requires RegistersHeld(words, h, caps) && Truthful(words, events)
    ensures !EhciStops(st, events, h)
  {
    forall seen | RegistersSeen(events, seen) ensures seen == caps {
      SeenAreHeld(words, h, caps, events, seen);
    }
    assert events != [] ==> events[|events| - 1].answer == Some(Lookup(words, events[|events| - 1].port));
  }

  lemma SeenAreHeld(words: map<Port, Word>, h: Header, caps: EhciCaps, events: seq<Event>, seen: EhciCaps)
    requires RegistersHeld(words, h, caps) && Truthful(words, events) && RegistersSeen(events, seen)
    ensures seen == caps
  {
    hide EhciHeaderOk, EhciMatches, EhciFormatOk;
    assert events[5].answer == Some(Lookup(words, events[5].port));
    assert events[6].answer == Some(Lookup(words, events[6].port));
    assert events[7].answer == Some(Lookup(words, events[7].port));
  }

  /** After a proper prefix of the list in memory the link leads to a fresh, readable, legal entry. */
  lemma PrefixGoesOn(words: map<Port, Word>, caps: EhciCaps, s: Legacy, n: nat)
    requires ListHeld(words, caps, s) && n <= |s.headers|
    ensures
      var head, list := Link(caps.capability), s.headers[..n];
      var link := Capabilities.Expected(head, list, n);
      if n == |s.headers| then link == 0
      else
        && Slot(link) && link !in Offsets(list) && Low8(Lookup(words, Config(EHCI, link))) !in {0, 255}
        && (Low8(Lookup(words, Config(EHCI, link))) == LEGACY_ID ==>
              link == s.offset <= 248 && forall k :: 0 <= k < n ==> Low8(list[k].raw) != LEGACY_ID)
  {
    var head, list := Link(caps.capability), s.headers[..n];
    assert Capabilities.Expected(head, list, n) == Capabilities.Expected(head, s.headers, n);
    if n < |s.headers| {
      assert LinkedAt(head, s.headers, n);
    }
  }

  /** On truthful answers the walk returns the list in memory. */
  lemma WalkFinds(words: map<Port, Word>, caps: EhciCaps, s: Legacy, status: LegacyStatus, list: seq<Cap>, legacy: nat,
                  walk: seq<Event>)
    requires ListHeld(words, caps, s) && Truthful(words, walk)
    requires EhciWalkEnd(Link(caps.capability), status, list, legacy, walk)
    ensures status == LegacyOk && list == s.headers && legacy == s.offset && walk == ListLog(EHCI, list)
  {
    var head := Link(caps.capability);
    var n := CommonPrefix(words, EHCI, head, list, walk, s.headers);
    assert list[..|list|] == list && s.headers[..|s.headers|] == s.headers;
    assert |walk| > |list| ==> walk[|list|].answer == Some(Lookup(words, walk[|list|].port));
    PrefixGoesOn(words, caps, s, n);
    assert list == s.headers;
    LegacyDetermined(head, list, legacy, s.offset);
  }

  lemma LegacyDetermined(head: nat, list: seq<Cap>, a: nat, b: nat)
    requires Walked(head, list, a) && Walked(head, list, b)
    ensures a == b
  {
    forall i | 0 <= i < |list| ensures list[i].offset == a <==> list[i].offset == b { }
  }

  lemma ListNeverStops(words: map<Port, Word>, caps: EhciCaps, s: Legacy, st: LegacyStatus, tail: seq<Event>,
                       list: seq<Cap>, legacy: nat, walk: seq<Event>)
    requires ListHeld(words, caps, s) && Truthful(words, tail)
    ensures !ListStops(st, tail, caps, list, legacy, walk)
  {
    hide EhciWalkEnd, Walked;
    var head := Link(caps.capability);
    if EhciWalkEnd(head, st, list, legacy, tail) {
      WalkFinds(words, caps, s, st, list, legacy, tail);
    }
    if EhciWalkEnd(head, LegacyOk, list, legacy, walk) && walk <= tail {
      assert forall i :: 0 <= i < |walk| ==> walk[i] == tail[i];
      WalkFinds(words, caps, s, LegacyOk, list, legacy, walk);
      assert |tail| > |walk| ==> tail[|walk|..][0] == tail[|walk|];
    }
  }

  lemma NeverStops(words: map<Port, Word>, h: Header, caps: EhciCaps, s: Legacy, events: seq<Event>,
                   registers: seq<Event>, st: LegacyStatus)
    requires RegistersHeld(words, h, caps) && ListHeld(words, caps, s) && Truthful(words, events)
    ensures !LegacyStops(st, events, registers, h, caps)
  {
    hide RegistersHeld, ListHeld, ListStops, EhciStops, RegistersSeen, ConfigSeen, EhciFormatOk;
    forall st: EhciStatus ensures !EhciStops(st, events, h) {
      RegistersAnswer(words, h, caps, st, events);
    }
    forall seen | RegistersSeen(events, seen) ensures seen == caps {
      SeenAreHeld(words, h, caps, events, seen);
    }
    if registers <= events {
      var tail := events[|registers|..];
      TruthfulParts(words, registers, tail);
      assert registers + tail == events;
      forall list, legacy, walk ensures !ListStops(st, tail, caps, list, legacy, walk) {
        ListNeverStops(words, caps, s, st, tail, list, legacy, walk);
      }
    }
  }

  lemma LogDetermines(words: map<Port, Word>, h: Header, caps: EhciCaps, s: Legacy, events: seq<Event>,
                      registers: seq<Event>, found: Legacy)
    requires ListHeld(words, caps, s) && Truthful(words, events)
    requires LegacyLog(events, registers, h, caps, found) && Published(caps, found)
    ensures found == s
  {
    hide EhciCapsLog, Walked;
    var walk := ListLog(EHCI, found.headers);
    var tail := if found.offset == 0 then [] else [Read(Config(EHCI, found.offset + 4), Some(found.control))];
    TruthfulParts(words, registers + walk, tail);
    TruthfulParts(words, registers, walk);
    PublishedApart(caps, found);
    WalkFinds(words, caps, s, LegacyOk, found.headers, found.offset, walk);
    assert tail != [] ==> tail[0].answer == Some(Lookup(words, tail[0].port));
  }

  /** On truthful answers the collector returns what the memory holds. */
  lemma CollectorTruthful(words: map<Port, Word>, h: Header, caps: EhciCaps, s: Legacy, events: seq<Event>,
                          registers: seq<Event>)
    requires RegistersHeld(words, h, caps) && ListHeld(words, caps, s) && Truthful(words, events)
    ensures forall st: LegacyStatus :: !LegacyStops(st, events, registers, h, caps)
    ensures forall found :: LegacyLog(events, registers, h, caps, found) && Published(caps, found) ==> found == s
  {
    hide RegistersHeld, ListHeld, LegacyStops, LegacyLog, Published, Truthful;
    forall st: LegacyStatus ensures !LegacyStops(st, events, registers, h, caps) {
      NeverStops(words, h, caps, s, events, registers, st);
    }
    forall found | LegacyLog(events, registers, h, caps, found) && Published(caps, found) ensures found == s {
      LogDetermines(words, h, caps, s, events, registers, found);
    }
  }

  // ---------------------------------------------------------------- the handoff

  /** Setting the OS bit: the high byte of the support word. */
  function OsRequest(offset: nat): Store {
    Store(Config(EHCI, offset + 3), 1)
  }

  /** That byte, stored into a word the BIOS owns, sets the OS bit and nothing else. */
  lemma RequestSetsOsBit(offset: nat, support: Word)
    requires Slot(offset) && BiosOwned(support)
    ensures
      var store := OsRequest(offset);
      && store.port.Config? && store.port.bdf == EHCI && store.port.offset - store.port.offset % 4 == offset
      && WithByte(support, store.port.offset % 4, store.value) == Requested(support)
      && !Bit(support, OS_OWNED) && Bit(Requested(support), OS_OWNED) && Plain(Requested(support)) == Plain(support)
  {
    assert support / 0x100_0000 == 0;
    assert Clear(Requested(support), BIOS_OWNED) == HandedOver(support);
    assert Plain(support) == support - BIOS_OWNED;
  }

  /** The opening collection failed. */
  ghost predicate RefreshLost(events: seq<Event>, h: Header, caps: EhciCaps) {
    exists st: LegacyStatus, registers :: LegacyStops(st, events, registers, h, caps)
  }

  /** It published something else than the caller's list. */
  ghost predicate Drifted(events: seq<Event>, h: Header, caps: EhciCaps, previous: Legacy) {
    exists s: Legacy, registers :: LegacyLog(events, registers, h, caps, s) && Published(caps, s) && s != previous
  }

  /** Why the closing collection was rejected: it failed, another list, or ownership lost again. */
  ghost predicate FinalLost(closing: seq<Event>, h: Header, caps: EhciCaps, previous: Legacy, support: Word,
                            out: Handoff)
    requires BiosOwned(support)
  {
    || (RefreshLost(closing, h, caps) && out.support == HandedOver(support))
    || exists s: Legacy, registers ::
         && LegacyLog(closing, registers, h, caps, s) && Published(caps, s)
         && if Agrees(previous, s, OWNERSHIP) then SupportIs(s, out.support) && out.support != HandedOver(support)
            else out.support == HandedOver(support)
  }

  ghost predicate EndsLost(events: seq<Event>, h: Header, caps: EhciCaps, previous: Legacy, support: Word, out: Handoff)
    requires BiosOwned(support)
  {
    exists closing :: FinalLost(closing, h, caps, previous, support, out) && |closing| <= |events|
                      && events[|events| - |closing|..] == closing
  }

  // ---------------------------------------------------------------- firmware that lets go

  /** The memory as it will be when the firmware lets go. */
  ghost predicate HeldOnRelease(words: map<Port, Word>, h: Header, caps: EhciCaps, s: Legacy, support: Word)
    requires BiosOwned(support)
  {
    var after := words[Config(EHCI, s.offset) := HandedOver(support)];
    RegistersHeld(after, h, caps) && ListHeld(after, caps, Replaced(s, HandedOver(support)))
  }

  /** A controller that answers truthfully, performs the request, and whose firmware owns it and lets
      go during the given delay after the request. */
  ghost predicate Cooperative(p: Platform, h: Header, caps: EhciCaps, s: Legacy, delays: nat)
    reads p`words, p`firmware
  {
    && p.faithful && RegistersHeld(p.words, h, caps) && ListHeld(p.words, caps, s)
    && (exists support: Word :: SupportIs(s, support) && BiosOwned(support))
    && delays >= 1 && p.firmware == Holding(Config(EHCI, s.offset), BIOS_OWNED, delays, map[])
  }

  /** A list keeps its links and identifiers when a support word changes only in its high half. */
  lemma ReplacedPublished(caps: EhciCaps, s: Legacy, support: Word, raw: Word)
    requires Published(caps, s) && SupportIs(s, support) && Low16(raw) == Low16(support)
    ensures Published(caps, Replaced(s, raw))
  {
    var head, r := Link(caps.capability), Replaced(s, raw);
    PublishedApart(caps, s);
    HalfDecides(raw, support);
    forall i | 0 <= i < |s.headers|
      ensures r.headers[i].offset == s.headers[i].offset
      ensures Link(r.headers[i].raw) == Link(s.headers[i].raw) && Low8(r.headers[i].raw) == Low8(s.headers[i].raw)
    {
      if s.headers[i].offset == s.offset {
        SupportUnique(s.headers, s.headers[i], Cap(s.offset, support));
      }
    }
    forall i | 0 <= i < |r.headers| ensures LinkedAt(head, r.headers, i) {
      assert LinkedAt(head, s.headers, i);
    }
  }

  lemma HeldAfter(words: map<Port, Word>, h: Header, caps: EhciCaps, s: Legacy, support: Word, raw: Word)
    requires RegistersHeld(words, h, caps) && ListHeld(words, caps, s) && SupportIs(s, support)
    requires Low16(raw) == Low16(support)
    ensures
      var after := words[Config(EHCI, s.offset) := raw];
      RegistersHeld(after, h, caps) && ListHeld(after, caps, Replaced(s, raw))
  {
    hide Walked, EhciMatches, EhciFormatOk, Low16;
    PublishedApart(caps, s);
    ReplacedPublished(caps, s, support, raw);
  }

  /** The request sets the OS bit in memory, and what the memory will be on release. */
  lemma RequestHeld(words: map<Port, Word>, h: Header, caps: EhciCaps, s: Legacy, support: Word)
    requires RegistersHeld(words, h, caps) && ListHeld(words, caps, s) && SupportIs(s, support) && BiosOwned(support)
    ensures
      var request, port := OsRequest(s.offset), Config(EHCI, s.offset);
      && request.port.Config? && Config(request.port.bdf, request.port.offset - request.port.offset % 4) == port
      && WithByte(Lookup(words, port), request.port.offset % 4, request.value) == Requested(support)
      && HeldOnRelease(words[port := Requested(support)], h, caps, s, support)
  {
    hide RegistersHeld, Walked;
    PublishedApart(caps, s);
    RequestSetsOsBit(s.offset, support);
    HalvesKept(support);
    HeldAfter(words, h, caps, s, support, HandedOver(support));
    var port := Config(EHCI, s.offset);
    assert words[port := Requested(support)][port := HandedOver(support)] == words[port := HandedOver(support)];
    var k :| 0 <= k < |s.headers| && s.headers[k] == Cap(s.offset, support);
    assert Lookup(words, Config(EHCI, s.headers[k].offset)) == support;
  }

  lemma ReleaseHeld(words: map<Port, Word>, h: Header, caps: EhciCaps, s: Legacy, support: Word)
    requires BiosOwned(support) && HeldOnRelease(words, h, caps, s, support)
    ensures
      var after := words[Config(EHCI, s.offset) := HandedOver(support)];
      RegistersHeld(after, h, caps) && ListHeld(after, caps, Replaced(s, HandedOver(support)))
  {
  }

  /** The word found is the owned one. */
  lemma FoundIsOwned(caps: EhciCaps, s: Legacy, status: HandoffStatus, found: Word)
    requires status == Observed || status == Initial
    requires Confirmed(caps, s, status, found) && exists support: Word :: SupportIs(s, support) && BiosOwned(support)
    ensures status == Observed
  {
    hide Walked;
    PublishedApart(caps, s);
    var support: Word :| SupportIs(s, support) && BiosOwned(support);
    if SupportIs(s, found) {
      SupportUnique(s.headers, Cap(s.offset, support), Cap(s.offset, found));
    }
  }

  /** What the opening collection established about the caller's list. */
  ghost predicate Confirmed(caps: EhciCaps, previous: Legacy, status: HandoffStatus, support: Word) {
    && Published(caps, previous)
    && match status
       case Initial => previous.offset == 0 || (SupportIs(previous, support) && !BiosOwned(support))
       case _ => SupportIs(previous, support) && BiosOwned(support)
  }

  /** The opening collection, compared with the caller's list; Observed stands for going on. */
  method BeginHandoff(p: Platform, h: Header, caps: EhciCaps, previous: Legacy)
    returns (status: HandoffStatus, support: Word, ghost events: seq<Event>)
    modifies p`log
    ensures p.faithful && RegistersHeld(p.words, h, caps) && ListHeld(p.words, caps, previous) ==>
      status == Observed || status == Initial
    ensures p.log == old(p.log) + events && OnlyReads(events) && |events| <= 57
    ensures status in {Observed, Refresh, Drift, Initial}
    ensures status in {Observed, Initial} ==> Confirmed(caps, previous, status, support)
    ensures status == Refresh ==> RefreshLost(events, h, caps)
    ensures status == Drift ==> Drifted(events, h, caps, previous)
  {
    hide LegacyLog, LegacyStops, Walked, EntryAgrees, RegistersHeld, Truthful;
    support := 0;
    var collected, s;
    ghost var registers;
    collected, s, events, registers := CollectLegacy(p, h, caps);
    if p.faithful && RegistersHeld(p.words, h, caps) && ListHeld(p.words, caps, previous) {
      CollectorTruthful(p.words, h, caps, previous, events, registers);
    }
    if collected != LegacyOk { return Refresh, support, events; }
    PublishedApart(caps, s);
    AgreesSelf(s);
    var same := SameLegacy(previous, s, 0);
    if !same || previous.control != s.control { return Drift, support, events; }
    StrictIsEqual(previous, s);
    assert previous == s;
    support := FindSupport(s.headers, s.offset);
    status := if s.offset == 0 || !BiosOwned(support) then Initial else Observed;
  }

  /** The closing collection. */
  method FinishHandoff(p: Platform, h: Header, caps: EhciCaps, previous: Legacy, support: Word, before: Handoff)
    returns (status: HandoffStatus, out: Handoff, ghost events: seq<Event>, ghost last: Legacy)
    requires Published(caps, previous) && SupportIs(previous, support) && BiosOwned(support)
    requires 1 <= before.polls && before == Handoff(1, before.polls, HandedOver(support), 0)
    modifies p`log
    ensures p.log == old(p.log) + events && OnlyReads(events) && |events| <= 57
    ensures status in {Observed, Final} && Outcome(status, out, support) && out.polls == before.polls
    ensures status == Observed ==>
      && Published(caps, last) && Agrees(previous, last, OWNERSHIP) && SupportIs(last, HandedOver(support))
      && out.control == last.control
    ensures status == Final ==> FinalLost(events, h, caps, previous, support, out)
    ensures p.faithful && RegistersHeld(p.words, h, caps)
            && ListHeld(p.words, caps, Replaced(previous, HandedOver(support))) ==>
      status == Observed && last == Replaced(previous, HandedOver(support))
  {
    hide LegacyLog, LegacyStops, Walked, EntryAgrees, RegistersHeld, Truthful, Plain;
    out := before;
    OwnershipPlain(support);
    var collected, s, ok;
    ghost var registers;
    collected, s, events, registers := CollectLegacy(p, h, caps);
    last := s;
    PublishedApart(caps, previous);
    ReplacedAgrees(previous, support, HandedOver(support));
    ghost var handed := Replaced(previous, HandedOver(support));
    if p.faithful && RegistersHeld(p.words, h, caps) && ListHeld(p.words, caps, handed) {
      CollectorTruthful(p.words, h, caps, handed, events, registers);
    }
    if collected != LegacyOk { return Final, out, events, last; }
    var same := SameLegacy(previous, s, OWNERSHIP);
    if !same { return Final, out, events, last; }
    AgreesKeeps(previous, s);
    PublishedApart(caps, s);
    ok, out := ConfirmSupport(previous, s, support, out);
    if SupportIs(s, HandedOver(support)) {
      SupportUnique(s.headers, Cap(s.offset, out.support), Cap(s.offset, HandedOver(support)));
    }
    if !ok { return Final, out, events, last; }
    out := out.(control := s.control);
    status := Observed;
  }

  /** Polling until the BIOS lets go, then the closing collection. */
  method AwaitHandoff(p: Platform, h: Header, caps: EhciCaps, previous: Legacy, support: Word,
                      ghost opening: seq<Event>, ghost delays: nat, ghost ready: bool)
    returns (status: HandoffStatus, out: Handoff, ghost events: seq<Event>, ghost last: Legacy)
    requires Published(caps, previous) && SupportIs(previous, support)
    requires Waiting(Handoff(1, 0, support, 0), opening, OsRequest(previous.offset), support, 57)
    requires ready ==>
      && Serving(p, Config(EHCI, previous.offset), support, delays, map[])
      && HeldOnRelease(p.words, h, caps, previous, support)
    modifies p`log, p`words, p`firmware
    ensures p.log == old(p.log) + events
    ensures HandoffRun(status, out, opening + events, OsRequest(previous.offset), support, 57)
    ensures status !in {Refresh, Drift, Initial, WriteFailed}
    ensures status == Observed ==>
      && Published(caps, last) && Agrees(previous, last, OWNERSHIP) && SupportIs(last, HandedOver(support))
      && out.control == last.control
    ensures status == Final ==> BiosOwned(support) && EndsLost(events, h, caps, previous, support, out)
    ensures ready ==> Progress(status, out, delays, previous.control)
  {
    hide Published, SupportIs, Agrees, OnlyReads, Writes, Reads, Delays, FinalLost, RegistersHeld, ListHeld,
      HeldOnRelease;
    ghost var store := OsRequest(previous.offset);
    ghost var added, closing;
    events, last, out := [], NO_LEGACY, Handoff(1, 0, support, 0);
    assert opening + [] == opening;
    for i := 0 to HANDOFF_POLLS
      invariant p.log == old(p.log) + events && out.polls == i
      invariant Waiting(out, opening + events, store, support, 57)
      invariant ready ==> i < delays && Serving(p, Config(EHCI, previous.offset), support, delays - i, map[])
      invariant ready ==> p.words == old(p.words)
    {
      var step;
      step, out, added := PollOnce(p, Config(EHCI, previous.offset), support, out, store, opening + events, 57,
                                   if ready then delays - i else 0, map[], ready);
      Regroup(opening, events, added);
      Regroup(old(p.log), events, added);
      events := events + added;
      if step.Stop? { return step.status, out, events, last; }
      if step == LetGo {
        ghost var polled, sofar := out, events;
        if ready {
          ReleaseHeld(old(p.words), h, caps, previous, support);
          NothingElse(old(p.words)[Config(EHCI, previous.offset) := HandedOver(support)]);
        }
        status, out, closing, last := FinishHandoff(p, h, caps, previous, support, out);
        Close(polled, opening + sofar, store, support, 57, closing, status, out);
        Regroup(opening, sofar, closing);
        Regroup(old(p.log), sofar, closing);
        events := sofar + closing;
        assert events[|events| - |closing|..] == closing;
        return;
      }
    }
    status := Timeout;
  }

  method RequestHandoff(p: Platform, h: Header, caps: EhciCaps, previous: Legacy, ghost delays: nat)
    returns (status: HandoffStatus, out: Handoff, ghost events: seq<Event>, ghost support: Word, ghost last: Legacy)
    modifies p`log, p`words, p`firmware
    ensures p.log == old(p.log) + events
    ensures HandoffRun(status, out, events, OsRequest(previous.offset), support, 57)
    ensures status == Refresh ==> RefreshLost(events, h, caps)
    ensures status == Drift ==> Drifted(events, h, caps, previous)
    ensures status !in {Refresh, Drift} ==> Confirmed(caps, previous, status, support)
    ensures status == Observed ==>
      && Published(caps, last) && Agrees(previous, last, OWNERSHIP) && SupportIs(last, HandedOver(support))
      && out.control == last.control
    ensures status == Final ==> BiosOwned(support) && EndsLost(events, h, caps, previous, support, out)
    ensures old(Cooperative(p, h, caps, previous, delays)) ==> Progress(status, out, delays, previous.control)
  {
    hide Published, SupportIs, Agrees, OnlyReads, Writes, Reads, Delays, RefreshLost, Drifted, FinalLost, RegistersHeld,
      ListHeld, HeldOnRelease, Progress;
    ghost var ready := Cooperative(p, h, caps, previous, delays);
    ghost var opening, rest;
    var found;
    ghost var store := OsRequest(previous.offset);
    status, found, opening := BeginHandoff(p, h, caps, previous);
    support, last, events, out := found, NO_LEGACY, opening, NO_HANDOFF;
    if ready { FoundIsOwned(caps, previous, status, found); }
    if status != Observed {
      Refused(status, opening, store, support, 57);
      return;
    }
    var request := OsRequest(previous.offset);
    if ready { RequestHeld(p.words, h, caps, previous, found); }
    var ok := p.WriteByte(request.port, request.value);
    Open(opening, store, support, 57, ok);
    events := opening + [Write(store.port, store.value, ok)];
    if !ok { return WriteFailed, Handoff(1, 0, found, 0), events, support, last; }
    ghost var begun := events;
    status, out, rest, last := AwaitHandoff(p, h, caps, previous, found, begun, delays, ready);
    events := begun + rest;
    if status == Final { EndsLater(begun, rest, h, caps, previous, found, out); }
  }

  lemma EndsLater(begun: seq<Event>, rest: seq<Event>, h: Header, caps: EhciCaps, previous: Legacy, support: Word,
                  out: Handoff)
    requires BiosOwned(support) && EndsLost(rest, h, caps, previous, support, out)
    ensures EndsLost(begun + rest, h, caps, previous, support, out)
  {
    hide FinalLost;
    var closing :| FinalLost(closing, h, caps, previous, support, out) && |closing| <= |rest|
                   && rest[|rest| - |closing|..] == closing;
    assert (begun + rest)[|begun + rest| - |closing|..] == closing;
  }

  // ---------------------------------------------------------------- the capture decoder

  const CAPTURED_SUPPORT: Word := 0x1_0001
  const CAPTURED: Legacy := Legacy([Cap(104, CAPTURED_SUPPORT)], 104, 0x8_2005)

  function StatusCode(status: HandoffStatus): nat {
    match status
    case Observed => 0
    case Refresh => 2
    case Drift => 3
    case Initial => 4
    case WriteFailed => 5
    case DelayLost => 6
    case PollFailed => 7
    case Changed => 8
    case Timeout => 9
    case Final => 10
  }

  /** The decoder's bounds and its relation between the printed numbers, from the captured binding. */
  predicate DecoderAccepts(status: nat, attempted: nat, polls: nat, support: Word, control: Word) {
    && status <= 13 && status != 1 && status != 4 && attempted <= 1 && polls <= 100
    && if status in {2, 3, 11, 12, 13} then attempted == 0 && polls == 0 && support == 0 && control == 0
       else if status == 0 then attempted == 1 && polls >= 1 && support == 0x100_0001 && control != ALL_ONES
       else if status == 5 then attempted == 1 && polls == 0 && support == 0x1_0001 && control == 0
       else if status == 6 then
         attempted == 1 && polls < 100 && control == 0 && support == if polls == 0 then 0x1_0001 else 0x101_0001
       else if status == 7 then
         attempted == 1 && polls >= 1 && control == 0 && support == if polls == 1 then 0x1_0001 else 0x101_0001
       else if status == 8 then
         attempted == 1 && polls >= 1 && control == 0 && (Plain(support) != 1 || !Bit(support, OS_OWNED))
       else if status == 9 then attempted == 1 && polls == 100 && support == 0x101_0001 && control == 0
       else attempted == 1 && polls >= 1 && control == 0 && support in {1, 0x1_0001, 0x100_0001, 0x101_0001}
  }

  /** The decoder's relation is exactly the protocol's result relation, for every status it can print. */
  lemma DecoderExact(status: HandoffStatus, out: Handoff)
    requires status !in {Refresh, Drift, Initial}
    ensures DecoderAccepts(StatusCode(status), out.attempted, out.polls, out.support, out.control) <==>
            out.polls <= HANDOFF_POLLS && Outcome(status, out, CAPTURED_SUPPORT)
  {
    assert Plain(CAPTURED_SUPPORT) == 1;
    if Plain(out.support) == 1 {
      PlainWords(CAPTURED_SUPPORT, out.support);
    }
    assert Plain(1) == 1 && Plain(0x1_0001) == 1 && Plain(0x100_0001) == 1 && Plain(0x101_0001) == 1;
  }

  /** Every result of the protocol from the captured binding is one the decoder accepts; in
      particular it never stops at the initial-state check. */
  lemma DecoderAcceptsRuns(status: HandoffStatus, out: Handoff, events: seq<Event>, support: Word, caps: EhciCaps)
    requires HandoffRun(status, out, events, OsRequest(CAPTURED.offset), support, 57)
    requires status !in {Refresh, Drift} ==> Confirmed(caps, CAPTURED, status, support)
    ensures DecoderAccepts(StatusCode(status), out.attempted, out.polls, out.support, out.control)
  {
    hide Writes, Reads, Delays, Published;
    if status !in {Refresh, Drift} {
      assert support == CAPTURED_SUPPORT;
      DecoderExact(status, out);
    }
  }

  // ---------------------------------------------------------------- the captured controller

  const CAPTURED_CAPS: EhciCaps := EhciCaps(0x100_0020, 0x20_0008, 0x3_6881)

  /** Its configuration space: the header, the one entry and the control word after it. */
  function CapturedWord(h: Header, offset: nat): Word {
    if offset < 64 then h.words[offset / 4] else if offset == 104 then CAPTURED_SUPPORT else CAPTURED.control
  }

  lemma CapturedHolds(words: map<Port, Word>, h: Header)
    requires EhciHeaderOk(h)
    requires forall offset: nat | offset < 0x100 :: Lookup(words, Config(EHCI, offset)) == CapturedWord(h, offset)
    requires Lookup(words, Mmio(EHCI_BAR)) == CAPTURED_CAPS.capbase
    requires Lookup(words, Mmio(EHCI_BAR + 4)) == CAPTURED_CAPS.structural
    requires Lookup(words, Mmio(EHCI_BAR + 8)) == CAPTURED_CAPS.capability
    ensures RegistersHeld(words, h, CAPTURED_CAPS) && ListHeld(words, CAPTURED_CAPS, CAPTURED)
  {
    forall i: nat | i < 5 ensures Lookup(words, Config(EHCI, 4 * i)) == h.words[i] {
      assert CapturedWord(h, 4 * i) == h.words[i];
    }
    CapturedPublished();
  }

  lemma CapturedPublished()
    ensures Published(CAPTURED_CAPS, CAPTURED)
  {
    var head, list := Link(CAPTURED_CAPS.capability), CAPTURED.headers;
    assert head == 104 && |list| == 1 && list[0] == Cap(104, CAPTURED_SUPPORT);
    assert LinkedAt(head, list, 0);
  }

  /** The captured controller as a platform: from it the handoff succeeds at exactly the poll after
      which the firmware lets go, with support 01000001 and control 00082005, and times out when that is
      after the hundredth. The one store sets the byte at 6b to 1. */
  method CapturedHandoff(h: Header, delays: nat)
    returns (status: HandoffStatus, out: Handoff, ghost events: seq<Event>)
    requires EhciHeaderOk(h) && delays >= 1
    ensures if delays <= 100 then status == Observed && out == Handoff(1, delays, 0x100_0001, 0x8_2005)
            else status == Timeout && out == Handoff(1, 100, 0x101_0001, 0)
    ensures Writes(events) == [Write(Config(Bdf(0, 29, 0), 0x6b), 1, true)]
    ensures Delays(events) <= 100 && Reads(events) <= 214
  {
    hide RegistersHeld, ListHeld, CapturedWord, EhciHeaderOk, HandoffRun, Published, Writes, Delays, Reads;
    var config := map offset: nat | offset < 0x100 :: Config(EHCI, offset) := CapturedWord(h, offset);
    var registers := map[Mmio(EHCI_BAR) := CAPTURED_CAPS.capbase, Mmio(EHCI_BAR + 4) := CAPTURED_CAPS.structural,
                         Mmio(EHCI_BAR + 8) := CAPTURED_CAPS.capability];
    var p := new Platform(true, config + registers, Holding(Config(EHCI, 104), BIOS_OWNED, delays, map[]));
    forall offset: nat | offset < 0x100 ensures Lookup(p.words, Config(EHCI, offset)) == CapturedWord(h, offset) {
      assert Config(EHCI, offset) in config;
    }
    CapturedHolds(p.words, h);
    assert SupportIs(CAPTURED, CAPTURED_SUPPORT) && BiosOwned(CAPTURED_SUPPORT);
    ghost var support, last;
    status, out, events, support, last := RequestHandoff(p, h, CAPTURED_CAPS, CAPTURED, delays);
    CapturedResult(status, out, events, support);
  }

  lemma CapturedResult(status: HandoffStatus, out: Handoff, events: seq<Event>, support: Word)
    requires HandoffRun(status, out, events, OsRequest(CAPTURED.offset), support, 57)
    requires status == Observed || status == Timeout
    requires Confirmed(CAPTURED_CAPS, CAPTURED, status, support)
    ensures Writes(events) == [Write(Config(Bdf(0, 29, 0), 0x6b), 1, true)]
    ensures Delays(events) <= 100 && Reads(events) <= 214
    ensures out == if status == Observed then Handoff(1, out.polls, 0x100_0001, out.control)
                   else Handoff(1, 100, 0x101_0001, 0)
  {
    hide Published, Writes, Delays, Reads;
    assert support == CAPTURED_SUPPORT;
  }
}
