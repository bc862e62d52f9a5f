/** The xHCI extended capability list and its legacy-support handoff (xHCI 1.0, section 7.1). */
module Xhci {
  import opened Platforms
  import opened Capabilities
  import opened Semaphores

  const XHCI: Bdf := Bdf(0, 20, 0)
  const XHCI_BAR: nat := 0xd090_0000
  const EXT_LIMIT: nat := 48
  const LEGACY_ID: nat := 1

  // ---------------------------------------------------------------- capability registers

  type XhciCaps = s: seq<Word> | |s| == 7 witness [0, 0, 0, 0, 0, 0, 0]
  const NO_CAPS: XhciCaps := [0, 0, 0, 0, 0, 0, 0]

  datatype XhciStatus = XhciOk | XhciHeader | XhciConfigRead | XhciDrift | XhciMmioRead | XhciAbsent | XhciFormat

  predicate XhciHeaderOk(h: Header) {
    && h.bdf == XHCI && h.words[0] == 0x0f35_8086 && h.words[2] == 0x0c03_300e
    && h.words[3] / 0x1_0000 % 0x100 == 0 && Bit(h.words[1], 2) && h.words[4] == 0xd090_0004 && h.words[5] == 0
  }

  predicate XhciMatches(h: Header, i: nat, raw: Word)
    requires i < 6
  {
    if i == 1 then Bit(raw, 2) == Bit(h.words[1], 2)
    else if i == 3 then raw / 0x1_0000 % 0x100 == h.words[3] / 0x1_0000 % 0x100
    else raw == h.words[i]
  }

  ghost predicate XhciWordRead(e: Event, h: Header, i: nat)
    requires i < 6
  {
    e.Read? && e.port == Config(XHCI, 4 * i) && e.answer.Some? && XhciMatches(h, i, e.answer.value)
  }

  ghost predicate BindingLog(events: seq<Event>, h: Header) {
    |events| == 6 && forall i :: 0 <= i < 6 ==> XhciWordRead(events[i], h, i)
  }

  ghost predicate RegisterLog(events: seq<Event>, caps: seq<Word>) {
    && |events| == 7 == |caps|
    && forall i :: 0 <= i < 7 ==> caps[i] != ALL_ONES && events[i] == Read(Mmio(XHCI_BAR + 4 * i), Some(caps[i]))
  }

  /** The last configuration word failed or did not match. */
  ghost predicate BindingLost(status: XhciStatus, events: seq<Event>, h: Header) {
    && 1 <= |events| <= 6 && (forall i :: 0 <= i < |events| - 1 ==> XhciWordRead(events[i], h, i))
    && var n := |events| - 1;
    && events[n].Read? && events[n].port == Config(XHCI, 4 * n)
    && if status == XhciConfigRead then events[n].answer.None?
       else status == XhciDrift && events[n].answer.Some? && !XhciMatches(h, n, events[n].answer.value)
  }

  /** The last register failed or answered all ones. */
  ghost predicate RegisterLost(status: XhciStatus, events: seq<Event>) {
    && 1 <= |events| <= 7 && (status == XhciMmioRead || status == XhciAbsent)
    && events[|events| - 1] == Read(Mmio(XHCI_BAR + 4 * (|events| - 1)),
                                    if status == XhciMmioRead then None else Some(ALL_ONES))
  }

  method CheckBinding(p: Platform, h: Header) returns (status: XhciStatus, ghost events: seq<Event>)
    modifies p`log
    ensures p.log == old(p.log) + events && OnlyReads(events) && |events| <= 6
    ensures if status == XhciOk then BindingLog(events, h) else BindingLost(status, events, h)
    ensures status in {XhciOk, XhciConfigRead, XhciDrift}
    ensures p.faithful ==> Truthful(p.words, events)
  {
    events := [];
    for i := 0 to 6
      invariant p.faithful ==> Truthful(p.words, events)
      invariant p.log == old(p.log) + events && OnlyReads(events) && |events| == i
      invariant forall k :: 0 <= k < i ==> XhciWordRead(events[k], h, k)
    {
      var ok, raw := p.ReadDword(Config(XHCI, 4 * i));
      events := events + [Read(Config(XHCI, 4 * i), if ok then Some(raw) else None)];
      if !ok { return XhciConfigRead, events; }
      if !XhciMatches(h, i, raw) { return XhciDrift, events; }
    }
    return XhciOk, events;
  }

  method SampleRegisters(p: Platform) returns (status: XhciStatus, values: seq<Word>, ghost events: seq<Event>)
    modifies p`log
    ensures p.log == old(p.log) + events && OnlyReads(events) && |events| <= 7
    ensures if status == XhciOk then RegisterLog(events, values) else RegisterLost(status, events)
    ensures status in {XhciOk, XhciMmioRead, XhciAbsent}
    ensures p.faithful ==> Truthful(p.words, events)
  {
    events, values := [], [];
    for i := 0 to 7
      invariant p.faithful ==> Truthful(p.words, events)
      invariant p.log == old(p.log) + events && OnlyReads(events) && |events| == i == |values|
      invariant forall k :: 0 <= k < i ==>
        values[k] != ALL_ONES && events[k] == Read(Mmio(XHCI_BAR + 4 * k), Some(values[k]))
    {
      var ok, raw := p.ReadDword(Mmio(XHCI_BAR + 4 * i));
      events := events + [Read(Mmio(XHCI_BAR + 4 * i), if ok then Some(raw) else None)];
      if !ok { return XhciMmioRead, values, events; }
      if raw == ALL_ONES { return XhciAbsent, values, events; }
      values := values + [raw];
    }
    return XhciOk, values, events;
  }

  /** The registers, read between two complete checks of the configuration binding. */
  datatype Sampling = Sampling(before: seq<Event>, registers: seq<Event>, after: seq<Event>)

  ghost predicate XhciCapsLog(events: seq<Event>, g: Sampling, h: Header, caps: XhciCaps) {
    && events == g.before + g.registers + g.after && BindingLog(g.before, h) && RegisterLog(g.registers, caps)
    && BindingLog(g.after, h) && caps[0] == 0x0100_0080
  }

  /** Why the registers could not be collected, after which reads. */
  ghost predicate XhciStops(status: XhciStatus, events: seq<Event>, g: Sampling, h: Header) {
    match status
    case XhciOk => false
    case XhciHeader => !XhciHeaderOk(h) && events == []
    case XhciFormat =>
      && events == g.before + g.registers && BindingLog(g.before, h)
      && exists caps: seq<Word> :: RegisterLog(g.registers, caps) && caps[0] != 0x0100_0080
    case XhciMmioRead =>
      events == g.before + g.registers && BindingLog(g.before, h) && RegisterLost(status, g.registers)
    case XhciAbsent => events == g.before + g.registers && BindingLog(g.before, h) && RegisterLost(status, g.registers)
    case _ => BindingStops(status, events, g, h)
  }

  /** The binding failed on the first or on the second pass. */
  ghost predicate BindingStops(status: XhciStatus, events: seq<Event>, g: Sampling, h: Header) {
    || BindingLost(status, events, h)
    || (&& events == g.before + g.registers + g.after && BindingLog(g.before, h) && BindingLost(status, g.after, h)
        && exists caps: seq<Word> :: RegisterLog(g.registers, caps) && caps[0] == 0x0100_0080)
  }

  method CollectXhciCapabilities(p: Platform, h: Header)
    returns (status: XhciStatus, caps: XhciCaps, ghost events: seq<Event>, ghost g: Sampling)
    modifies p`log
    ensures p.log == old(p.log) + events && OnlyReads(events) && |events| <= 19
    ensures status == XhciOk ==> XhciHeaderOk(h) && XhciCapsLog(events, g, h, caps)
    ensures status != XhciOk ==> caps == NO_CAPS && XhciStops(status, events, g, h)
    ensures status == XhciHeader <==> !XhciHeaderOk(h)
    ensures p.faithful ==> Truthful(p.words, events)
  {
    hide BindingLog, BindingLost, RegisterLost, Truthful;
    NothingTold(p.words);
    events, caps, g := [], NO_CAPS, Sampling([], [], []);
    if !XhciHeaderOk(h) { return XhciHeader, caps, events, g; }
    ghost var before, registers, after;
    var values;
    status, before := CheckBinding(p, h);
    events := before;
    if status != XhciOk { return; }
    status, values, registers := SampleRegisters(p);
    TruthfulParts(p.words, before, registers);
    events, g := before + registers, Sampling(before, registers, []);
    if status != XhciOk { return; }
    if values[0] != 0x0100_0080 { status := XhciFormat; return; }
    status, after := CheckBinding(p, h);
    TruthfulParts(p.words, before + registers, after);
    events, g := before + registers + after, Sampling(before, registers, after);
    if status == XhciOk { caps := values; }
  }

  // ---------------------------------------------------------------- the extended list

  /** The upper half of the register window, dword-aligned. */
  predicate InWindow(offset: nat) {
    0x8000 <= offset <= 0xfffc && offset % 4 == 0
  }

  /** Where entry i must sit: links are forward displacements in dwords; 0 ends the list. */
  function NextAt(head: nat, list: seq<Cap>, i: nat): nat
    requires i <= |list|
  {
    if i == 0 then head
    else if Link(list[i - 1].raw) == 0 then 0
    else list[i - 1].offset + 4 * Link(list[i - 1].raw)
  }

  ghost predicate ChainedAt(head: nat, list: seq<Cap>, i: nat)
    requires i < |list|
  {
    list[i].offset == NextAt(head, list, i) && InWindow(list[i].offset)
  }

  ghost predicate Chained(head: nat, list: seq<Cap>) {
    forall i :: 0 <= i < |list| ==> ChainedAt(head, list, i)
  }

  /** No visited set is needed: displacements are positive, so offsets strictly increase. */
  lemma {:induction false} Increasing(head: nat, list: seq<Cap>, i: nat, j: nat)
    requires Chained(head, list) && i < j < |list|
    ensures list[i].offset + 4 * (j - i) <= list[j].offset
  {
    assert ChainedAt(head, list, j) && ChainedAt(head, list, j - 1);
    if i < j - 1 {
      Increasing(head, list, i, j - 1);
    }
  }

  /** Hence any walk inside the window is finite, limit or not. */
  lemma ChainFinite(head: nat, list: seq<Cap>)
    requires Chained(head, list)
    ensures |list| <= 0x2000
  {
    if |list| >= 2 {
      Increasing(head, list, 0, |list| - 1);
      assert ChainedAt(head, list, 0) && ChainedAt(head, list, |list| - 1);
    }
  }

  predicate Legal(cap: Cap) {
    Low8(cap.raw) != 0 && Low8(cap.raw) != 255
  }

  /** `legacy` is the only legacy-support entry, 0 if none; its successor leaves room for the control word. */
  ghost predicate LegacyAt(list: seq<Cap>, legacy: nat) {
    && (forall i :: 0 <= i < |list| ==> Legal(list[i]))
    && (forall i :: 0 <= i < |list| && Low8(list[i].raw) == LEGACY_ID ==>
          list[i].offset == legacy && Link(list[i].raw) != 1)
    && (legacy != 0 ==>
          && legacy <= 0xfff8
          && exists i :: 0 <= i < |list| && list[i].offset == legacy && Low8(list[i].raw) == LEGACY_ID)
  }

  /** The local check on one link excludes every entry from the control word's place. */
  lemma NothingAtControl(head: nat, list: seq<Cap>, legacy: nat, j: nat)
    requires Chained(head, list) && LegacyAt(list, legacy) && legacy != 0 && j < |list|
    ensures list[j].offset != legacy + 4
  {
    var k :| 0 <= k < |list| && list[k].offset == legacy && Low8(list[k].raw) == LEGACY_ID;
    if j < k {
      Increasing(head, list, j, k);
    } else if k < j {
      assert ChainedAt(head, list, k + 1);
      if k + 1 < j {
        Increasing(head, list, k + 1, j);
      }
    }
  }

  lemma ChainApart(head: nat, list: seq<Cap>)
    requires Chained(head, list)
    ensures Apart(list)
  {
    forall i | 0 <= i < |list| ensures list[i].offset != 0 {
      assert ChainedAt(head, list, i);
    }
    forall i, j | 0 <= i < j < |list| ensures list[i].offset != list[j].offset {
      Increasing(head, list, i, j);
    }
  }

  /** At most one entry is a legacy-support capability. */
  lemma LegacyUnique(head: nat, list: seq<Cap>, legacy: nat, i: nat, j: nat)
    requires Chained(head, list) && LegacyAt(list, legacy) && i < |list| && j < |list|
    requires Low8(list[i].raw) == LEGACY_ID && Low8(list[j].raw) == LEGACY_ID
    ensures i == j
  {
    ChainApart(head, list);
  }

  datatype LegacyStatus =
    | LegacyOk | LegacyRefresh | LegacyDrift | LegacyPointer | LegacyLimit | LegacyRead | LegacyId
    | LegacyDuplicate | LegacyOverlap | LegacyFinal

  function Address(offset: nat): Port {
    Extended(XHCI_BAR + offset)
  }

  ghost function ExtLog(list: seq<Cap>): seq<Event> {
    seq(|list|, i requires 0 <= i < |list| => Read(Address(list[i].offset), Some(list[i].raw)))
  }

  lemma ExtLogNext(list: seq<Cap>, cap: Cap)
    ensures ExtLog(list + [cap]) == ExtLog(list) + [Read(Address(cap.offset), Some(cap.raw))]
  {
  }

  /** Why an entry just read at `link` stops the walk. */
  ghost predicate Rejects(status: LegacyStatus, link: nat, legacy: nat, raw: Word) {
    match status
    case LegacyId => Low8(raw) == 0 || Low8(raw) == 255
    case LegacyDuplicate => Low8(raw) == LEGACY_ID && legacy != 0
    case LegacyPointer => Low8(raw) == LEGACY_ID && link > 0xfff8
    case LegacyOverlap => Low8(raw) == LEGACY_ID && Link(raw) == 1
    case _ => false
  }

  ghost predicate XhciWalkEnd(head: nat, status: LegacyStatus, list: seq<Cap>, legacy: nat, events: seq<Event>) {
    && Chained(head, list) && LegacyAt(list, legacy) && |list| <= EXT_LIMIT
    && var link, log := NextAt(head, list, |list|), ExtLog(list);
       if events == log then
         && (status == LegacyOk <==> link == 0) && (status == LegacyLimit ==> |list| == EXT_LIMIT && InWindow(link))
         && (status == LegacyPointer ==> !InWindow(link)) && status in {LegacyOk, LegacyLimit, LegacyPointer}
       else
         && |list| < EXT_LIMIT && InWindow(link) && |events| == |log| + 1 && events[..|log|] == log
         && events[|log|].Read? && events[|log|].port == Address(link)
         && if events[|log|].answer.None? then status == LegacyRead
            else Rejects(status, link, legacy, events[|log|].answer.value)
  }

  lemma ChainedNext(head: nat, list: seq<Cap>, legacy: nat, cap: Cap)
    requires Chained(head, list) && LegacyAt(list, legacy) && cap.offset == NextAt(head, list, |list|)
    requires InWindow(cap.offset)
    requires Legal(cap) && (Low8(cap.raw) == LEGACY_ID ==> legacy == 0 && cap.offset <= 0xfff8 && Link(cap.raw) != 1)
    ensures Chained(head, list + [cap])
    ensures LegacyAt(list + [cap], if Low8(cap.raw) == LEGACY_ID then cap.offset else legacy)
    ensures NextAt(head, list + [cap], |list| + 1) == if Link(cap.raw) == 0 then 0 else cap.offset + 4 * Link(cap.raw)
  {
    var longer := list + [cap];
    forall i | 0 <= i < |longer| ensures ChainedAt(head, longer, i) {
      assert i < |list| ==> ChainedAt(head, list, i);
    }
    forall i | 0 <= i < |list| && Low8(list[i].raw) == LEGACY_ID ensures list[i].offset != 0 {
      assert ChainedAt(head, list, i);
    }
    assert longer[|list|] == cap;
    forall i | 0 <= i < |list| ensures longer[i] == list[i] { }
  }

  method WalkXhci(p: Platform, head: nat)
    returns (status: LegacyStatus, list: seq<Cap>, legacy: nat, ghost events: seq<Event>)
    modifies p`log
    ensures p.log == old(p.log) + events && OnlyReads(events) && |events| <= EXT_LIMIT
    ensures XhciWalkEnd(head, status, list, legacy, events)
    ensures p.faithful ==> Truthful(p.words, events)
  {
    hide ExtLog, Chained, LegacyAt, Low8, Link;
    events, list, legacy := [], [], 0;
    var offset := head;
    ChainedStart(head);
    while offset != 0
      invariant Chained(head, list) && LegacyAt(list, legacy) && offset == NextAt(head, list, |list|)
      invariant |list| <= EXT_LIMIT
      invariant p.faithful ==> Truthful(p.words, events)
      invariant p.log == old(p.log) + events && events == ExtLog(list) && OnlyReads(events) && |events| == |list|
      decreases EXT_LIMIT - |list|
    {
      if !InWindow(offset) { return LegacyPointer, list, legacy, events; }
      if |list| == EXT_LIMIT { return LegacyLimit, list, legacy, events; }
      var ok, raw := p.ReadDword(Address(offset));
      ghost var before := events;
      events := events + [Read(Address(offset), if ok then Some(raw) else None)];
      assert events[..|before|] == before && |events| != |before|;
      if !ok { return LegacyRead, list, legacy, events; }
      var id, next := Low8(raw), Link(raw);
      if id == 0 || id == 255 { return LegacyId, list, legacy, events; }
      if id == LEGACY_ID && legacy != 0 { return LegacyDuplicate, list, legacy, events; }
      if id == LEGACY_ID && offset > 0xfff8 { return LegacyPointer, list, legacy, events; }
      if id == LEGACY_ID && next == 1 { return LegacyOverlap, list, legacy, events; }
      ChainedNext(head, list, legacy, Cap(offset, raw));
      ExtLogNext(list, Cap(offset, raw));
      if id == LEGACY_ID { legacy := offset; }
      list := list + [Cap(offset, raw)];
      offset := if next != 0 then offset + 4 * next else 0;
    }
    status := LegacyOk;
  }

  lemma ChainedStart(head: nat)
    ensures Chained(head, []) && LegacyAt([], 0) && ExtLog([]) == []
  {
  }

  // ---------------------------------------------------------------- the complete collection

  /** The list head: the high half of the fifth register, in dwords. */
  function XhciHead(caps: XhciCaps): nat {
    High16(caps[4]) * 4
  }

  /** What a successful collection publishes. */
  ghost predicate Published(caps: XhciCaps, s: Legacy) {
    && Chained(XhciHead(caps), s.headers) && LegacyAt(s.headers, s.offset) && |s.headers| <= EXT_LIMIT
    && NextAt(XhciHead(caps), s.headers, |s.headers|) == 0
    && if s.offset == 0 then s.control == 0 else s.control != ALL_ONES
  }

  /** Nothing published overlaps the control word, and the legacy word is unique. */
  lemma PublishedApart(caps: XhciCaps, s: Legacy)
    requires Published(caps, s)
    ensures Apart(s.headers) && |s.headers| <= CAPACITY
    ensures s.offset != 0 ==> exists i :: 0 <= i < |s.headers| && s.headers[i].offset == s.offset
    ensures s.offset != 0 ==> InWindow(s.offset) && s.offset <= 0xfff8
    ensures s.offset != 0 ==> forall i :: 0 <= i < |s.headers| ==> s.headers[i].offset != s.offset + 4
  {
    ChainApart(XhciHead(caps), s.headers);
    if s.offset != 0 {
      var k :| 0 <= k < |s.headers| && s.headers[k].offset == s.offset;
      assert ChainedAt(XhciHead(caps), s.headers, k);
      forall i | 0 <= i < |s.headers| ensures s.headers[i].offset != s.offset + 4 {
        NothingAtControl(XhciHead(caps), s.headers, s.offset, i);
      }
    }
  }

  datatype Collection = Collection(before: seq<Event>, walk: seq<Event>, after: seq<Event>)

  /** Registers, one read per entry, the control word, and the registers again. */
  ghost predicate LegacyLog(events: seq<Event>, g: Collection, s: Legacy) {
    && events == g.before + g.walk + g.after
    && g.walk == ExtLog(s.headers) + if s.offset == 0 then [] else [Read(Address(s.offset + 4), Some(s.control))]
  }

  ghost predicate Unsampled(events: seq<Event>, h: Header) {
    exists st: XhciStatus, g: Sampling :: XhciStops(st, events, g, h)
  }

  ghost predicate SampledOther(events: seq<Event>, h: Header, prior: XhciCaps) {
    exists other: XhciCaps, g: Sampling :: XhciCapsLog(events, g, h, other) && other != prior
  }

  /** The walk failed, or it ended well and the control word failed. */
  ghost predicate ListStops(status: LegacyStatus, events: seq<Event>, caps: XhciCaps) {
    exists list, legacy, walk :: ListStopsAt(status, events, caps, list, legacy, walk)
  }

  ghost predicate ListStopsAt(status: LegacyStatus, events: seq<Event>, caps: XhciCaps, list: seq<Cap>, legacy: nat,
                              walk: seq<Event>)
  {
    || (events == walk && status != LegacyOk && XhciWalkEnd(XhciHead(caps), status, list, legacy, walk))
    || (&& XhciWalkEnd(XhciHead(caps), LegacyOk, list, legacy, walk) && status == LegacyRead && legacy != 0
        && (|| events == walk + [Read(Address(legacy + 4), None)]
            || events == walk + [Read(Address(legacy + 4), Some(ALL_ONES))]))
  }

  /** Why a collection failed, after which reads. */
  ghost predicate LegacyStops(status: LegacyStatus, events: seq<Event>, g: Collection, first: Sampling, h: Header,
                              prior: XhciCaps)
  {
    match status
    case LegacyOk => false
    case LegacyRefresh => Unsampled(events, h)
    case LegacyDrift => SampledOther(events, h, prior)
    case LegacyFinal =>
      && events == g.before + g.walk + g.after && XhciCapsLog(g.before, first, h, prior)
      && (exists s: Legacy :: LegacyLog(events, g, s) && Published(prior, s))
      && (Unsampled(g.after, h) || SampledOther(g.after, h, prior))
    case _ => events == g.before + g.walk && XhciCapsLog(g.before, first, h, prior) && ListStops(status, g.walk, prior)
  }

  /** The registers, unchanged since `prior`. */
  method Resample(p: Platform, h: Header, prior: XhciCaps)
    returns (sampled: bool, same: bool, ghost events: seq<Event>, ghost g: Sampling)
    modifies p`log
    ensures p.log == old(p.log) + events && OnlyReads(events) && |events| <= 19
    ensures sampled && same ==> XhciHeaderOk(h) && XhciCapsLog(events, g, h, prior)
    ensures if !sampled then Unsampled(events, h) else same || SampledOther(events, h, prior)
    ensures p.faithful ==> Truthful(p.words, events)
  {
    hide XhciHeaderOk, XhciCapsLog, XhciStops, Truthful;
    var status, caps;
    status, caps, events, g := CollectXhciCapabilities(p, h);
    sampled := status == XhciOk;
    for i := 0 to 7
      invariant caps[..i] == prior[..i]
    {
      if caps[i] != prior[i] { return sampled, false, events, g; }
    }
    assert caps[..7] == caps && prior[..7] == prior;
    same := true;
  }

  method ReadControl(p: Platform, legacy: nat) returns (ok: bool, control: Word, ghost events: seq<Event>)
    requires legacy != 0 ==> InWindow(legacy + 4)
    modifies p`log
    ensures p.log == old(p.log) + events && OnlyReads(events) && |events| <= 1
    ensures ok ==> if legacy == 0 then control == 0 && events == []
                   else control != ALL_ONES && events == [Read(Address(legacy + 4), Some(control))]
    ensures !ok ==>
      && legacy != 0
      && (events == [Read(Address(legacy + 4), None)] || events == [Read(Address(legacy + 4), Some(ALL_ONES))])
    ensures p.faithful ==> Truthful(p.words, events)
  {
    if legacy == 0 { return true, 0, []; }
    ok, control := p.ReadDword(Address(legacy + 4));
    events := [Read(Address(legacy + 4), if ok then Some(control) else None)];
    ok := ok && control != ALL_ONES;
  }

  lemma WalkStatus(head: nat, status: LegacyStatus, list: seq<Cap>, legacy: nat, events: seq<Event>)
    requires XhciWalkEnd(head, status, list, legacy, events)
    ensures status !in {LegacyRefresh, LegacyDrift, LegacyFinal}
  {
  }

  /** The list and its control word, walked once the registers are known to be unchanged. */
  method WalkAndControl(p: Platform, caps: XhciCaps) returns (status: LegacyStatus, s: Legacy, ghost events: seq<Event>)
    modifies p`log
    ensures p.log == old(p.log) + events && OnlyReads(events) && |events| <= EXT_LIMIT + 1
    ensures status == LegacyOk ==>
      && Published(caps, s)
      && events == ExtLog(s.headers) + if s.offset == 0 then [] else [Read(Address(s.offset + 4), Some(s.control))]
    ensures status != LegacyOk ==> ListStops(status, events, caps)
    ensures status !in {LegacyRefresh, LegacyDrift, LegacyFinal}
    ensures p.faithful ==> Truthful(p.words, events)
  {
    s := NO_LEGACY;
    var list, legacy, ok, control;
    ghost var walk, tail;
    status, list, legacy, walk := WalkXhci(p, XhciHead(caps));
    events := walk;
    WalkStatus(XhciHead(caps), status, list, legacy, walk);
    if status != LegacyOk {
      assert ListStopsAt(status, walk, caps, list, legacy, walk);
      return;
    }
    assert legacy != 0 ==> InWindow(legacy + 4) by {
      if legacy != 0 {
        var k :| 0 <= k < |list| && list[k].offset == legacy && Low8(list[k].raw) == LEGACY_ID;
        assert ChainedAt(XhciHead(caps), list, k);
      }
    }
    ok, control, tail := ReadControl(p, legacy);
    TruthfulParts(p.words, walk, tail);
    events := walk + tail;
    if !ok {
      status := LegacyRead;
      assert ListStopsAt(LegacyRead, walk + tail, caps, list, legacy, walk);
      return;
    }
    s := Legacy(list, legacy, control);
  }

  method CollectLegacy(p: Platform, h: Header, prior: XhciCaps)
    returns (status: LegacyStatus, s: Legacy, ghost events: seq<Event>, ghost g: Collection, ghost first: Sampling,
             ghost second: Sampling)
    modifies p`log
    ensures p.log == old(p.log) + events && OnlyReads(events) && |events| <= 87
    ensures status == LegacyOk ==>
      && XhciHeaderOk(h) && Published(prior, s) && LegacyLog(events, g, s)
      && XhciCapsLog(g.before, first, h, prior) && XhciCapsLog(g.after, second, h, prior)
    ensures status != LegacyOk ==> s == NO_LEGACY && LegacyStops(status, events, g, first, h, prior)
    ensures p.faithful ==> Truthful(p.words, events)
  {
    hide XhciHeaderOk, XhciCapsLog, Published, Unsampled, SampledOther, ListStops, Truthful;
    s, g, second := NO_LEGACY, Collection([], [], []), Sampling([], [], []);
    ghost var before, walk, after;
    var sampled, same, found;
    sampled, same, before, first := Resample(p, h, prior);
    events := before;
    if !sampled { status := LegacyRefresh; return; }
    if !same { status := LegacyDrift; return; }
    status, found, walk := WalkAndControl(p, prior);
    TruthfulParts(p.words, before, walk);
    events, g := before + walk, Collection(before, walk, []);
    if status != LegacyOk { return; }
    sampled, same, after, second := Resample(p, h, prior);
    TruthfulParts(p.words, before + walk, after);
    events, g := before + walk + after, Collection(before, walk, after);
    if !sampled || !same {
      assert LegacyLog(events, g, found);
      status := LegacyFinal;
      return;
    }
    s := found;
  }

  // ---------------------------------------------------------------- a controller that answers truthfully

  ghost predicate RegistersHeld(words: map<Port, Word>, h: Header, caps: XhciCaps) {
    && XhciHeaderOk(h) && (forall i :: 0 <= i < 6 ==> XhciMatches(h, i, Lookup(words, Config(XHCI, 4 * i))))
    && (forall i :: 0 <= i < 7 ==> Lookup(words, Mmio(XHCI_BAR + 4 * i)) == caps[i] != ALL_ONES)
    && caps[0] == 0x0100_0080
  }

  ghost predicate ListHeld(words: map<Port, Word>, caps: XhciCaps, s: Legacy) {
    && Published(caps, s)
    && (forall i :: 0 <= i < |s.headers| ==> Lookup(words, Address(s.headers[i].offset)) == s.headers[i].raw)
    && (s.offset != 0 ==> Lookup(words, Address(s.offset + 4)) == s.control)
  }

  lemma SeenAreHeld(words: map<Port, Word>, h: Header, caps: XhciCaps, events: seq<Event>, seen: seq<Word>)
    requires RegistersHeld(words, h, caps) && Truthful(words, events) && RegisterLog(events, seen)
    ensures seen == caps
  {
    hide XhciHeaderOk, XhciMatches;
    forall i | 0 <= i < 7 ensures seen[i] == caps[i] {
      assert events[i].answer == Some(Lookup(words, events[i].port));
    }
  }

  lemma BindingAnswers(words: map<Port, Word>, h: Header, caps: XhciCaps, st: XhciStatus, events: seq<Event>)
    requires RegistersHeld(words, h, caps) && Truthful(words, events)
    ensures !BindingLost(st, events, h) && !RegisterLost(st, events)
  {
    hide XhciHeaderOk;
    assert 1 <= |events| <= 7 ==> Lookup(words, Mmio(XHCI_BAR + 4 * (|events| - 1))) == caps[|events| - 1];
    assert events != [] ==> events[|events| - 1].answer == Some(Lookup(words, events[|events| - 1].port));
  }

  lemma RegistersAnswer(words: map<Port, Word>, h: Header, caps: XhciCaps, st: XhciStatus, events: seq<Event>,
                        g: Sampling)
    requires RegistersHeld(words, h, caps) && Truthful(words, events)
    ensures !XhciStops(st, events, g, h)
  {
    hide RegistersHeld, Truthful, BindingLost, RegisterLost, BindingLog, RegisterLog;
    BindingAnswers(words, h, caps, st, events);
    TruthfulParts(words, g.before, g.registers);
    TruthfulParts(words, g.before + g.registers, g.after);
    if Truthful(words, g.registers) {
      BindingAnswers(words, h, caps, st, g.registers);
      forall seen | RegisterLog(g.registers, seen) ensures seen == caps {
        SeenAreHeld(words, h, caps, g.registers, seen);
      }
    }
    if Truthful(words, g.after) {
      BindingAnswers(words, h, caps, st, g.after);
    }
    HeldHeader(words, h, caps);
  }

  lemma HeldHeader(words: map<Port, Word>, h: Header, caps: XhciCaps)
    requires RegistersHeld(words, h, caps)
    ensures XhciHeaderOk(h) && caps[0] == 0x0100_0080
  {
  }

  /** The registers are sampled, and as held. */
  lemma SamplesHeld(words: map<Port, Word>, h: Header, caps: XhciCaps, events: seq<Event>)
    requires RegistersHeld(words, h, caps) && Truthful(words, events)
    ensures !Unsampled(events, h) && !SampledOther(events, h, caps)
  {
    hide RegistersHeld, Truthful, XhciStops, BindingLog, RegisterLog;
    forall st: XhciStatus, g: Sampling ensures !XhciStops(st, events, g, h) {
      RegistersAnswer(words, h, caps, st, events, g);
    }
    forall other: XhciCaps, g: Sampling | XhciCapsLog(events, g, h, other) ensures other == caps {
      TruthfulParts(words, g.before, g.registers);
      TruthfulParts(words, g.before + g.registers, g.after);
      SeenAreHeld(words, h, caps, g.registers, other);
    }
  }

  lemma CommonWalk(words: map<Port, Word>, head: nat, list: seq<Cap>, walk: seq<Event>, expected: seq<Cap>)
    returns (n: nat)
    requires Chained(head, list) && Chained(head, expected) && Truthful(words, walk)
    requires |list| <= |walk| && walk[..|list|] == ExtLog(list)
    requires forall i :: 0 <= i < |expected| ==> Lookup(words, Address(expected[i].offset)) == expected[i].raw
    ensures n <= |list| && n <= |expected| && list[..n] == expected[..n] && (n == |list| || n == |expected|)
    ensures n < |list| ==> ChainedAt(head, list, n)
  {
    n := 0;
    while n < |list| && n < |expected|
      invariant n <= |list| && n <= |expected| && list[..n] == expected[..n]
    {
      assert ChainedAt(head, list, n) && ChainedAt(head, expected, n);
      assert walk[n] == ExtLog(list)[n];
      assert list[n] == expected[n];
      n := n + 1;
    }
  }

  lemma PrefixGoesOn(words: map<Port, Word>, caps: XhciCaps, s: Legacy, n: nat)
    requires ListHeld(words, caps, s) && n <= |s.headers|
    ensures
      var head, list := XhciHead(caps), s.headers[..n];
      var link := NextAt(head, list, n);
      if n == |s.headers| then link == 0
      else
        var raw := Lookup(words, Address(link));
        && InWindow(link) && n < EXT_LIMIT && Legal(Cap(link, raw))
        && (Low8(raw) == LEGACY_ID ==> link == s.offset <= 0xfff8 && Link(raw) != 1
                                       && forall k :: 0 <= k < n ==> Low8(list[k].raw) != LEGACY_ID)
  {
    var head, list := XhciHead(caps), s.headers[..n];
    assert NextAt(head, list, n) == NextAt(head, s.headers, n);
    if n < |s.headers| {
      assert ChainedAt(head, s.headers, n);
      ChainApart(head, s.headers);
      assert Legal(s.headers[n]);
    }
  }

  lemma LegacyDetermined(head: nat, list: seq<Cap>, a: nat, b: nat)
    requires Chained(head, list) && LegacyAt(list, a) && LegacyAt(list, b)
    ensures a == b
  {
    forall i | 0 <= i < |list| ensures list[i].offset != 0 { assert ChainedAt(head, list, i); }
  }

  lemma WalkFinds(words: map<Port, Word>, caps: XhciCaps, s: Legacy, status: LegacyStatus, list: seq<Cap>, legacy: nat,
                  walk: seq<Event>)
    requires ListHeld(words, caps, s) && Truthful(words, walk)
    requires XhciWalkEnd(XhciHead(caps), status, list, legacy, walk)
    ensures status == LegacyOk && list == s.headers && legacy == s.offset && walk == ExtLog(list)
  {
    var head := XhciHead(caps);
    var n := CommonWalk(words, head, list, walk, s.headers);
    assert list[..|list|] == list && s.headers[..|s.headers|] == s.headers;
    assert |walk| > |list| ==> walk[|list|].answer == Some(Lookup(words, walk[|list|].port));
    PrefixGoesOn(words, caps, s, n);
    assert list == s.headers;
    LegacyDetermined(head, list, legacy, s.offset);
  }

  lemma ListNeverStops(words: map<Port, Word>, caps: XhciCaps, s: Legacy, st: LegacyStatus, events: seq<Event>)
    requires ListHeld(words, caps, s) && Truthful(words, events)
    ensures !ListStops(st, events, caps)
  {
    forall list, legacy, walk ensures !ListStopsAt(st, events, caps, list, legacy, walk) {
      ListNeverStopsAt(words, caps, s, st, events, list, legacy, walk);
    }
  }

  lemma ListNeverStopsAt(words: map<Port, Word>, caps: XhciCaps, s: Legacy, st: LegacyStatus, events: seq<Event>,
                         list: seq<Cap>, legacy: nat, walk: seq<Event>)
    requires ListHeld(words, caps, s) && Truthful(words, events)
    ensures !ListStopsAt(st, events, caps, list, legacy, walk)
  {
    hide XhciWalkEnd, Chained, LegacyAt;
    var head := XhciHead(caps);
    if XhciWalkEnd(head, st, list, legacy, events) {
      WalkFinds(words, caps, s, st, list, legacy, events);
    }
    if XhciWalkEnd(head, LegacyOk, list, legacy, walk) && walk <= events {
      assert forall i :: 0 <= i < |walk| ==> walk[i] == events[i];
      WalkFinds(words, caps, s, LegacyOk, list, legacy, walk);
      assert |events| > |walk| ==> events[|walk|].answer == Some(Lookup(words, events[|walk|].port));
    }
  }

  lemma NeverStops(words: map<Port, Word>, h: Header, caps: XhciCaps, s: Legacy, events: seq<Event>, g: Collection,
                   first: Sampling, st: LegacyStatus)
    requires RegistersHeld(words, h, caps) && ListHeld(words, caps, s) && Truthful(words, events)
    ensures !LegacyStops(st, events, g, first, h, caps)
  {
    hide RegistersHeld, ListHeld, Truthful, XhciCapsLog, Unsampled, SampledOther, ListStops, Published;
    SamplesHeld(words, h, caps, events);
    TruthfulParts(words, g.before, g.walk);
    TruthfulParts(words, g.before + g.walk, g.after);
    if Truthful(words, g.walk) {
      ListNeverStops(words, caps, s, st, g.walk);
    }
    if Truthful(words, g.after) {
      SamplesHeld(words, h, caps, g.after);
    }
  }

  lemma LogDetermines(words: map<Port, Word>, caps: XhciCaps, s: Legacy, events: seq<Event>, g: Collection,
                      found: Legacy)
    requires ListHeld(words, caps, s) && Truthful(words, events) && LegacyLog(events, g, found)
    requires Published(caps, found)
    ensures found == s
  {
    hide Chained, LegacyAt;
    var walk := ExtLog(found.headers);
    var tail := if found.offset == 0 then [] else [Read(Address(found.offset + 4), Some(found.control))];
    TruthfulParts(words, g.before + g.walk, g.after);
    TruthfulParts(words, g.before, g.walk);
    TruthfulParts(words, walk, tail);
    WalkFinds(words, caps, s, LegacyOk, found.headers, found.offset, walk);
    assert tail != [] ==> tail[0].answer == Some(Lookup(words, tail[0].port));
  }
}
