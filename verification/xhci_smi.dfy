/** The SMI stage after the xHCI handoff: one zero store to the legacy control word. */
module XhciSmi {
  import opened Platforms
  import opened Capabilities
  import opened Arithmetic
  import opened Masks
  import opened Semaphores
  import opened Xhci
  import opened XhciHandoff

  const OWNED_OFFSET: nat := 0x8460
  const OWNED_SUPPORT: Word := 0x0100_0801
  const CONTROL_OFFSET: nat := 0x8464

  /** The SMI bits 15:13, 4 and 0 of a half word: enables in the low half, status in the high one. */
  function SmiBits(half: nat): nat {
    half / 0x2000 * 0x2000 + half / 16 % 2 * 16 + half % 2
  }

  /** Those bits are what the mask e011 selects. */
  lemma SmiBitsAreMask(half: nat)
    requires half < 0x1_0000
    ensures And(half, 0xe011) == SmiBits(half)
  {
    hide And, High, Low, Pow2;
    Powers();
    var h1, h4, h5 := High(half, 1), High(High(half, 1), 3), High(High(High(half, 1), 3), 1);
    SmiMask();
    Parts(half, 1);
    Parts(h1, 3);
    Parts(h4, 1);
    Parts(h5, 8);
    AndSplit(half, 0xe011, 1);
    AndSplit(h1, 0x7008, 3);
    AndSplit(h4, 0xe01, 1);
    AndSplit(h5, 0x700, 8);
    NoBits(Low(h1, 3));
    NoBits(Low(h5, 8));
    AndOnes(Low(half, 1), 1);
    AndOnes(Low(h4, 1), 1);
    AndOnes(High(h5, 8), 3);
    SmiParts(half, h1, h4, h5, High(h5, 8), Low(h1, 3), Low(h5, 8));
  }

  lemma SmiMask()
    ensures High(0xe011, 1) == 0x7008 && Low(0xe011, 1) == 1 && High(0x7008, 3) == 0xe01 && Low(0x7008, 3) == 0
    ensures High(0xe01, 1) == 0x700 && Low(0xe01, 1) == 1 && High(0x700, 8) == 7 && Low(0x700, 8) == 0
  {
    Powers();
    Parts(0x7008, 3);
    Parts(0x700, 8);
  }

  lemma SmiParts(half: nat, h1: nat, h4: nat, h5: nat, h13: nat, gap1: nat, gap5: nat)
    requires half == 2 * h1 + half % 2 && h1 == 8 * h4 + gap1 && gap1 < 8 && h4 == 2 * h5 + h4 % 2
    requires h5 == 0x100 * h13 + gap5 && gap5 < 0x100
    ensures SmiBits(half) == 0x2000 * h13 + 16 * (h4 % 2) + half % 2
  {
    Divides(half, 0x2000, h13, 32 * gap5 + 16 * (h4 % 2) + 2 * gap1 + half % 2);
    Divides(half, 16, h4, 2 * gap1 + half % 2);
  }

  /** No bit outside the enable and status bits. */
  predicate ReservedClear(control: Word) {
    SmiBits(Low16(control)) == Low16(control) && SmiBits(High16(control)) == High16(control)
  }

  /** Nothing but status bits: every enable is off. */
  predicate OnlyStatus(control: Word) {
    Low16(control) == 0 && SmiBits(High16(control)) == High16(control)
  }

  ghost predicate Owned(s: Legacy) {
    && |s.headers| <= EXT_LIMIT && s.offset == OWNED_OFFSET
    && exists k :: 0 <= k < |s.headers| && s.headers[k] == Cap(OWNED_OFFSET, OWNED_SUPPORT)
                   && forall i :: 0 <= i < k ==> s.headers[i].offset != OWNED_OFFSET
  }

  method SmiOwned(s: Legacy) returns (owned: bool)
    ensures owned <==> Owned(s)
  {
    if |s.headers| > EXT_LIMIT || s.offset != OWNED_OFFSET { return false; }
    for i := 0 to |s.headers|
      invariant forall k :: 0 <= k < i ==> s.headers[k].offset != s.offset
    {
      if s.headers[i].offset == s.offset { return s.headers[i].raw == OWNED_SUPPORT; }
    }
    return false;
  }

  datatype SmiStatus = SmiObserved | SmiPrior | SmiRefresh | SmiState | SmiWrite | SmiFinal | SmiReadback
  datatype Smi = Smi(attempted: nat, before: Word, after: Word)
  const NO_SMI: Smi := Smi(0, 0, 0)

  predicate PriorOk(previous: Legacy, status: HandoffStatus, out: Handoff, v: Verify) {
    && status == Observed && out.attempted == 1 && 1 <= out.polls <= HANDOFF_POLLS && out.support == OWNED_SUPPORT
    && ReservedClear(out.control) && v == NO_VERIFY
    && 1 <= |previous.headers| <= EXT_LIMIT && previous.offset == OWNED_OFFSET
  }

  /** A handoff observed from the captured support word always satisfies the next stage's demands on
      its record; what remains is the list's own offset and the control word's reserved bits. */
  lemma HandoffFeedsSmi(caps: XhciCaps, previous: Legacy, out: Handoff, v: Verify, events: seq<Event>, support: Word)
    requires HandoffRun(Observed, out, events, OsRequest(previous.offset, support), support, 87) && v == NO_VERIFY
    requires Confirmed(caps, previous, Observed, support)
    ensures PriorOk(previous, Observed, out, v) <==>
            previous.offset == OWNED_OFFSET && support == 0x1_0801 && ReservedClear(out.control)
  {
    hide Writes, Reads, Delays, Chained, LegacyAt;
  }

  /** What each status says about the run. */
  ghost predicate SmiRun(status: SmiStatus, out: Smi, events: seq<Event>) {
    && Delays(events) == 0 && Reads(events) <= 174
    && match status
       case SmiPrior => out == NO_SMI && events == []
       case SmiRefresh => out == NO_SMI && Writes(events) == []
       case SmiState => out == NO_SMI && Writes(events) == []
       case _ =>
         && Writes(events) == [Write(Address(CONTROL_OFFSET), 0, status != SmiWrite)]
         && out.attempted == 1 && ReservedClear(out.before)
         && (status == SmiWrite || status == SmiFinal ==> out.after == 0)
         && (status == SmiReadback || status == SmiObserved ==> (status == SmiObserved <==> OnlyStatus(out.after)))
  }

  method Recollect(p: Platform, h: Header, caps: XhciCaps, previous: Legacy, ghost expected: Legacy)
    returns (collected: bool, agrees: bool, s: Legacy, ghost events: seq<Event>)
    modifies p`log
    ensures p.log == old(p.log) + events && OnlyReads(events) && |events| <= 87
    ensures if collected then Collected(events, caps, s) else RefreshLost(events, h, caps)
    ensures collected ==> (agrees <==> Owned(s) && NoDifference(previous, s))
    ensures p.faithful && RegistersHeld(p.words, h, caps) && ListHeld(p.words, caps, expected) ==>
      collected && s == expected
  {
    hide LegacyLog, LegacyStops, XhciCapsLog, XhciHeaderOk, Published, RegistersHeld, ListHeld, Truthful;
    var status, v;
    ghost var g, first, second;
    status, s, events, g, first, second := CollectLegacy(p, h, caps);
    collected := status == LegacyOk;
    if p.faithful && RegistersHeld(p.words, h, caps) && ListHeld(p.words, caps, expected) {
      NeverStops(p.words, h, caps, expected, events, g, first, status);
      if collected { LogDetermines(p.words, caps, expected, events, g, s); }
    }
    agrees := SmiOwned(s);
    if agrees {
      var differs;
      differs, v := FinalDifference(previous, s);
      agrees := !differs;
    }
  }

  /** Owned, unchanged since `previous`, no reserved bit, and the enables the handoff saw. */
  ghost predicate Clearable(previous: Legacy, s: Legacy, control: Word) {
    && Owned(s) && NoDifference(previous, s) && ReservedClear(s.control)
    && SmiBits(Low16(s.control)) == SmiBits(Low16(control))
  }

  /** The state before the store: owned, unchanged since `previous`, no reserved bit, the enables the
      handoff saw. SmiObserved stands for going on. */
  method CheckSmi(p: Platform, h: Header, caps: XhciCaps, previous: Legacy, handoff: Handoff, ghost expected: Legacy)
    returns (status: SmiStatus, current: Legacy, ghost events: seq<Event>)
    modifies p`log
    ensures p.log == old(p.log) + events && OnlyReads(events) && |events| <= 87
    ensures status in {SmiObserved, SmiRefresh, SmiState}
    ensures status == SmiRefresh ==> RefreshLost(events, h, caps)
    ensures status != SmiRefresh ==>
      Collected(events, caps, current) && (status == SmiObserved <==> Clearable(previous, current, handoff.control))
    ensures p.faithful && RegistersHeld(p.words, h, caps) && ListHeld(p.words, caps, expected) ==>
      status != SmiRefresh && current == expected
  {
    hide Collected, RefreshLost, Owned, NoDifference, SmiBits, RegistersHeld, ListHeld;
    var collected, agrees;
    collected, agrees, current, events := Recollect(p, h, caps, previous, expected);
    if !collected { return SmiRefresh, current, events; }
    status := SmiObserved;
    if !agrees || !ReservedClear(current.control)
       || SmiBits(Low16(current.control)) != SmiBits(Low16(handoff.control))
    {
      status := SmiState;
    }
  }

  /** The closing collection failed, or showed a list that is not owned or differs. */
  ghost predicate FinalLost(closing: seq<Event>, h: Header, caps: XhciCaps, current: Legacy) {
    || RefreshLost(closing, h, caps)
    || exists s: Legacy :: Collected(closing, caps, s) && !(Owned(s) && NoDifference(current, s))
  }

  /** Storing zero to the control word leaves the rest of the list in memory, still owned. */
  lemma ClearedHeld(words: map<Port, Word>, h: Header, caps: XhciCaps, s: Legacy)
    requires RegistersHeld(words, h, caps) && ListHeld(words, caps, s) && Owned(s)
    ensures
      var after, cleared := words[Address(CONTROL_OFFSET) := 0], s.(control := 0);
      && RegistersHeld(after, h, caps) && ListHeld(after, caps, cleared) && Owned(cleared) && NoDifference(s, cleared)
      && OnlyStatus(0)
  {
    hide Chained, LegacyAt, XhciMatches, SameEntry;
    PublishedApart(caps, s);
    DifferenceEquivalence(s, s, s);
  }

  /** The zero store and the closing collection. */
  method ClearControl(p: Platform, h: Header, caps: XhciCaps, current: Legacy, ghost ready: bool)
    returns (status: SmiStatus, after: Word, ghost closing: seq<Event>, ghost last: Legacy)
    requires ready ==>
      p.faithful && RegistersHeld(p.words, h, caps) && ListHeld(p.words, caps, current) && Owned(current)
    modifies p`log, p`words
    ensures p.log == old(p.log) + [Write(Address(CONTROL_OFFSET), 0, status != SmiWrite)] + closing
    ensures OnlyReads(closing) && |closing| <= 87 && status in {SmiWrite, SmiFinal, SmiObserved, SmiReadback}
    ensures status in {SmiWrite, SmiFinal} ==> after == 0
    ensures status in {SmiObserved, SmiReadback} ==>
      && Published(caps, last) && Owned(last) && NoDifference(current, last) && after == last.control
      && (status == SmiObserved <==> OnlyStatus(after))
    ensures status == SmiFinal ==> FinalLost(closing, h, caps, current)
    ensures ready ==> status == SmiObserved && after == 0
  {
    hide RefreshLost, Owned, NoDifference, SmiBits, LegacyLog, Published, RegistersHeld, ListHeld;
    closing, last, after := [], NO_LEGACY, 0;
    if ready { ClearedHeld(p.words, h, caps, current); }
    var ok := p.WriteDword(Address(CONTROL_OFFSET), 0);
    if !ok { status := SmiWrite; return; }
    var collected, agrees, final;
    collected, agrees, final, closing := Recollect(p, h, caps, current, current.(control := 0));
    if !collected || !agrees {
      status := SmiFinal;
      assert collected ==> Collected(closing, caps, final);
      return;
    }
    last, after := final, final.control;
    status := if OnlyStatus(final.control) then SmiObserved else SmiReadback;
  }

  lemma StoreBetween(opening: seq<Event>, e: Event, closing: seq<Event>)
    requires OnlyReads(opening) && OnlyReads(closing) && e.Write?
    ensures Writes(opening + [e] + closing) == [e] && Delays(opening + [e] + closing) == 0
    ensures Reads(opening + [e] + closing) == |opening| + |closing|
  {
    OnlyReadsTrace(opening);
    AppendEffect(opening, e);
    AppendReads(opening + [e], closing);
  }

  /** What each status says about the lists seen. */
  ghost predicate SmiReason(status: SmiStatus, out: Smi, events: seq<Event>, h: Header, caps: XhciCaps,
                            previous: Legacy, control: Word)
  {
    match status
    case SmiPrior => true
    case SmiRefresh => RefreshLost(events, h, caps)
    case SmiState => exists s: Legacy :: Collected(events, caps, s) && !Clearable(previous, s, control)
    case _ =>
      exists opening, current: Legacy, closing ::
        && StoredBetween(status, out, events, caps, opening, current, closing) && Clearable(previous, current, control)
        && (status == SmiFinal ==> FinalLost(closing, h, caps, current))
  }

  /** The store comes right after a collection of `current`, whose control word was recorded. */
  ghost predicate StoredBetween(status: SmiStatus, out: Smi, events: seq<Event>, caps: XhciCaps, opening: seq<Event>,
                                current: Legacy, closing: seq<Event>)
  {
    && events == opening + [Write(Address(CONTROL_OFFSET), 0, status != SmiWrite)] + closing
    && Collected(opening, caps, current) && out.before == current.control
  }

  /** One zero store to the control word between two collections; the final list agrees with the one
      the caller started from, by way of the fresh one. */
  method DisableSmi(p: Platform, h: Header, caps: XhciCaps, previous: Legacy, handoffStatus: HandoffStatus,
                    handoff: Handoff, verify: Verify,
                    ghost expected: Legacy)
    returns (status: SmiStatus, out: Smi, ghost events: seq<Event>, ghost last: Legacy)
    modifies p`log, p`words
    ensures p.log == old(p.log) + events
    ensures SmiRun(status, out, events)
    ensures SmiReason(status, out, events, h, caps, previous, handoff.control)
    ensures status == SmiPrior <==> !PriorOk(previous, handoffStatus, handoff, verify)
    ensures out.attempted == 1 ==> SmiBits(Low16(out.before)) == SmiBits(Low16(handoff.control))
    ensures status in {SmiObserved, SmiReadback} ==>
      Published(caps, last) && Owned(last) && NoDifference(previous, last) && out.after == last.control
    ensures p.faithful && old(RegistersHeld(p.words, h, caps) && ListHeld(p.words, caps, expected))
            && PriorOk(previous, handoffStatus, handoff, verify) && Clearable(previous, expected, handoff.control) ==>
      status == SmiObserved && out == Smi(1, expected.control, 0)
  {
    hide Published, Owned, NoDifference, SmiBits, ReservedClear, OnlyStatus, PriorOk, Writes, Delays, Reads, OnlyReads,
      Collected, RefreshLost, FinalLost, RegistersHeld, ListHeld;
    ghost var ready := p.faithful && RegistersHeld(p.words, h, caps) && ListHeld(p.words, caps, expected)
                       && Clearable(previous, expected, handoff.control);
    out, events, last := NO_SMI, [], NO_LEGACY;
    if !PriorOk(previous, handoffStatus, handoff, verify) {
      EmptyTrace();
      return SmiPrior, out, events, last;
    }
    ghost var opening, closing;
    var current, after;
    status, current, opening := CheckSmi(p, h, caps, previous, handoff, expected);
    events := opening;
    if status != SmiObserved {
      OnlyReadsTrace(opening);
      return;
    }
    status, after, closing, last := ClearControl(p, h, caps, current, ready);
    out := Smi(1, current.control, after);
    StoreBetween(opening, Write(Address(CONTROL_OFFSET), 0, status != SmiWrite), closing);
    events := opening + [Write(Address(CONTROL_OFFSET), 0, status != SmiWrite)] + closing;
    assert StoredBetween(status, out, events, caps, opening, current, closing);
    DifferenceEquivalence(previous, current, last);
  }

  /** Handoff and SMI stage on one cooperative controller with the captured legacy entry: ownership is
      observed at the poll after which the firmware let go, whatever live status changed with that, and then
      every enable reads back off. */
  method HandoffThenSmi(p: Platform, h: Header, caps: XhciCaps, previous: Legacy, ghost delays: nat,
                        ghost also: map<Port, Word>)
    returns (status: HandoffStatus, handoff: Handoff, smiStatus: SmiStatus, out: Smi, ghost events: seq<Event>)
    requires Cooperative(p, h, caps, previous, delays, also) && delays <= HANDOFF_POLLS
    requires previous.offset == OWNED_OFFSET && SupportIs(previous, 0x1_0801) && ReservedClear(previous.control)
    modifies p`log, p`words, p`firmware
    ensures status == Observed && handoff == Handoff(1, delays, OWNED_SUPPORT, previous.control)
    ensures smiStatus == SmiObserved && out == Smi(1, previous.control, 0)
    ensures p.log == old(p.log) + events && Delays(events) <= HANDOFF_POLLS && Reads(events) <= 274 + 174
    ensures Writes(events) == [Write(Address(OWNED_OFFSET), 0x101_0801, true), Write(Address(CONTROL_OFFSET), 0, true)]
  {
    hide RegistersHeld, ListHeld, Published, NoDifference, SmiBits, Writes, Reads, Delays, HandedList, SmiReason,
      SmiRun;
    ghost var first, support, last, words, more, final := [], 0, NO_LEGACY, p.words, [], NO_LEGACY;
    var v;
    status, handoff, v, first, support, last := RequestHandoff(p, h, caps, previous, delays, also);
    SupportKnown(caps, previous, support);
    HandoffFeedsSmi(caps, previous, handoff, v, first, support);
    StoredOnce(status, handoff, first, OsRequest(previous.offset, support), support);
    OwnedAfterHandoff(words, h, caps, previous, also);
    ghost var expected := Moved(Replaced(previous, OWNED_SUPPORT), also);
    smiStatus, out, more, final := DisableSmi(p, h, caps, previous, status, handoff, v, expected);
    ClearedOnce(smiStatus, out, more);
    TraceAppend(first, more);
    events := first + more;
  }

  lemma StoredOnce(status: HandoffStatus, out: Handoff, events: seq<Event>, store: Store, support: Word)
    requires HandoffRun(status, out, events, store, support, 87) && status == Observed
    ensures Writes(events) == [Write(store.port, store.value, true)]
    ensures Delays(events) <= HANDOFF_POLLS && Reads(events) <= 274
  {
  }

  lemma ClearedOnce(status: SmiStatus, out: Smi, events: seq<Event>)
    requires SmiRun(status, out, events) && status == SmiObserved
    ensures Writes(events) == [Write(Address(CONTROL_OFFSET), 0, true)] && Delays(events) == 0 && Reads(events) <= 174
  {
  }

  lemma SupportKnown(caps: XhciCaps, s: Legacy, support: Word)
    requires Published(caps, s) && SupportIs(s, support) && SupportIs(s, 0x1_0801)
    ensures support == 0x1_0801
  {
    hide Chained, LegacyAt;
    PublishedApart(caps, s);
    SupportUnique(s.headers, Cap(s.offset, support), Cap(s.offset, 0x1_0801));
  }

  /** The memory after the handoff holds an owned list that differs in nothing else. */
  lemma OwnedAfterHandoff(words: map<Port, Word>, h: Header, caps: XhciCaps, s: Legacy, also: map<Port, Word>)
    requires RegistersHeld(words, h, caps) && ListHeld(words, caps, s) && Alive(s, also)
    requires s.offset == OWNED_OFFSET && SupportIs(s, 0x1_0801)
    ensures
      var after, r := words[Address(s.offset) := OWNED_SUPPORT] + also, Moved(Replaced(s, OWNED_SUPPORT), also);
      RegistersHeld(after, h, caps) && ListHeld(after, caps, r) && Owned(r) && NoDifference(s, r)
  {
    hide RegistersHeld, Chained, LegacyAt, NoDifference, Plain, Alive, Moved, NextAt, Replaced, Owned;
    var support: Word := 0x1_0801;
    PublishedApart(caps, s);
    HeldAfter(words, h, caps, s, support, OWNED_SUPPORT);
    HandedUnchanged(caps, s, support, also);
    ReplacedAlive(s, OWNED_SUPPORT, also);
    MovedHeld(words[Address(s.offset) := OWNED_SUPPORT], h, caps, Replaced(s, OWNED_SUPPORT), also);
    FirstOwned(s, support, also);
  }

  lemma FirstOwned(s: Legacy, support: Word, also: map<Port, Word>)
    requires s.offset == OWNED_OFFSET && SupportIs(s, support) && Apart(s.headers) && |s.headers| <= EXT_LIMIT
    requires Address(s.offset) !in also
    ensures Owned(Moved(Replaced(s, OWNED_SUPPORT), also))
  {
    var r := Moved(Replaced(s, OWNED_SUPPORT), also);
    var k :| 0 <= k < |s.headers| && s.headers[k] == Cap(s.offset, support);
    assert r.headers[k] == Cap(OWNED_OFFSET, OWNED_SUPPORT);
    forall i | 0 <= i < k ensures r.headers[i].offset != OWNED_OFFSET { }
  }
}
