/** The xHCI ownership handoff and its final comparison. */
module XhciHandoff {
  import opened Platforms
  import opened Capabilities
  import opened Arithmetic
  import opened Masks
  import opened Semaphores
  import opened Xhci

  // ---------------------------------------------------------------- the final comparison

  const CMDM_OFFSET: nat := 0x8040
  const CMDM_TAG: Word := 0x0cc1
  const CMDM_STATUS: Word := 0xfff7_0000

  /** The bits of an entry that may change: the ownership bits of the legacy entry, the live status
      bits (31:20 and 18:16) of the identified vendor entry, nothing elsewhere. */
  function MutableBits(header: Cap, legacy: nat): Word {
    if header.offset == legacy then OWNERSHIP
    else if header.offset == CMDM_OFFSET && Low16(header.raw) == CMDM_TAG then CMDM_STATUS
    else 0
  }

  /** The mask is chosen by the first of the two entries. */
  predicate SameEntry(a: Cap, b: Cap, legacy: nat) {
    a.offset == b.offset && SameWord(a.raw, b.raw, MutableBits(a, legacy))
  }

  /** Bits 15:0 and bit 19 agree. */
  predicate SameVendorBits(a: Word, b: Word) {
    a % 0x1_0000 == b % 0x1_0000 && a / 0x8_0000 % 2 == b / 0x8_0000 % 2
  }

  /** Two words under the vendor entry's mask: everything but the live status bits agrees. */
  lemma VendorMask(a: Word, b: Word)
    ensures SameWord(a, b, 0xfff7_0000) <==> SameVendorBits(a, b)
  {
    hide High, Low, AgreeOutside, SameUnder, Pow2;
    Powers();
    SameUnderIsAgree(a, b, 0xfff7_0000, 32);
    VendorMaskParts();
    AgreeSplit(a, b, 0xfff7_0000, 16, 32);
    Parts(a, 16);
    Parts(b, 16);
    AgreeEverywhere(Low(a, 16), Low(b, 16), 16);
    VendorHigh(High(a, 16), High(b, 16));
    Divides(a, 0x8_0000, High(a, 16) / 8, High(a, 16) % 8 * 0x1_0000 + Low(a, 16));
    Divides(b, 0x8_0000, High(b, 16) / 8, High(b, 16) % 8 * 0x1_0000 + Low(b, 16));
  }

  lemma VendorHigh(a: nat, b: nat)
    ensures AgreeOutside(a, b, 0xfff7, 16) <==> a / 8 % 2 == b / 8 % 2
  {
    hide High, Low, AgreeOutside, Pow2;
    Powers();
    VendorMaskParts();
    AgreeSplit(a, b, 0xfff7, 3, 16);
    AgreeNowhere(Low(a, 3), Low(b, 3), 3);
    Parts(a, 3);
    Parts(b, 3);
    var a3, b3 := High(a, 3), High(b, 3);
    AgreeSplit(a3, b3, 0x1ffe, 1, 13);
    Parts(a3, 1);
    Parts(b3, 1);
    AgreeEverywhere(Low(a3, 1), Low(b3, 1), 1);
    AgreeNowhere(High(a3, 1), High(b3, 1), 12);
  }

  lemma VendorMaskParts()
    ensures Low(0xfff7_0000, 16) == 0 && High(0xfff7_0000, 16) == 0xfff7
    ensures Low(0xfff7, 3) == 7 && High(0xfff7, 3) == 0x1ffe && Low(0x1ffe, 1) == 0 && High(0x1ffe, 1) == 0xfff
  {
    Powers();
    Parts(0xfff7_0000, 16);
    Parts(0xfff7, 3);
  }

  /** What may differ between two readings of an entry, bit by bit: at the legacy-support entry the two
      ownership bits 16 and 24, at the vendor entry 8040 with identification 0cc1 the live status in bits
      18:16 and 31:20, in any other entry nothing. */
  lemma EntryExactly(a: Cap, b: Cap, legacy: nat)
    ensures SameEntry(a, b, legacy) <==>
      && a.offset == b.offset
      && if a.offset == legacy then
           && a.raw % 0x1_0000 == b.raw % 0x1_0000 && a.raw / 0x2_0000 % 0x80 == b.raw / 0x2_0000 % 0x80
           && a.raw / 0x200_0000 == b.raw / 0x200_0000
         else if a.offset == 0x8040 && a.raw % 0x1_0000 == 0xcc1 then
           a.raw % 0x1_0000 == b.raw % 0x1_0000 && a.raw / 0x8_0000 % 2 == b.raw / 0x8_0000 % 2
         else a.raw == b.raw
  {
    hide SameWord;
    SameOwnershipBits(a.raw, b.raw);
    VendorMask(a.raw, b.raw);
    SameExactly(a.raw, b.raw);
  }

  /** The mask never covers the bits that select it: the other entry would choose the same one. */
  lemma MaskChosenAlike(a: Cap, b: Cap, legacy: nat)
    requires SameEntry(a, b, legacy)
    ensures MutableBits(a, legacy) == MutableBits(b, legacy)
  {
    hide SameWord;
    if a.offset != legacy {
      LowHalfKept(a.raw, b.raw, MutableBits(a, legacy));
    }
  }

  lemma EntryEquivalence(a: Cap, b: Cap, c: Cap, legacy: nat)
    ensures SameEntry(a, a, legacy)
    ensures SameEntry(a, b, legacy) ==> SameEntry(b, a, legacy)
    ensures SameEntry(a, b, legacy) && SameEntry(b, c, legacy) ==> SameEntry(a, c, legacy)
  {
    hide SameWord, MutableBits;
    SameWordEquivalence(a.raw, b.raw, c.raw, MutableBits(a, legacy));
    if SameEntry(a, b, legacy) {
      MaskChosenAlike(a, b, legacy);
    }
  }

  ghost predicate NoDifference(a: Legacy, b: Legacy) {
    && |a.headers| == |b.headers| && a.offset == b.offset
    && forall i :: 0 <= i < |a.headers| ==> SameEntry(a.headers[i], b.headers[i], a.offset)
  }

  /** Having no final difference is an equivalence on lists. */
  lemma DifferenceEquivalence(a: Legacy, b: Legacy, c: Legacy)
    ensures NoDifference(a, a)
    ensures NoDifference(a, b) ==> NoDifference(b, a)
    ensures NoDifference(a, b) && NoDifference(b, c) ==> NoDifference(a, c)
  {
    hide SameEntry;
    forall i | 0 <= i < |a.headers| ensures SameEntry(a.headers[i], a.headers[i], a.offset) {
      EntryEquivalence(a.headers[i], a.headers[i], a.headers[i], a.offset);
    }
    if NoDifference(a, b) {
      forall i | 0 <= i < |a.headers| ensures SameEntry(b.headers[i], a.headers[i], b.offset) {
        EntryEquivalence(a.headers[i], b.headers[i], a.headers[i], a.offset);
      }
      if NoDifference(b, c) {
        forall i | 0 <= i < |a.headers| ensures SameEntry(a.headers[i], c.headers[i], a.offset) {
          EntryEquivalence(a.headers[i], b.headers[i], c.headers[i], a.offset);
        }
      }
    }
  }

  lemma NoDifferenceKeeps(a: Legacy, b: Legacy)
    requires NoDifference(a, b)
    ensures SupportKept(a, b)
  {
    forall i | 0 <= i < |a.headers|
      ensures a.headers[i].offset == b.headers[i].offset
      ensures a.headers[i].offset == a.offset ==> Plain(a.headers[i].raw) == Plain(b.headers[i].raw)
    {
      assert SameEntry(a.headers[i], b.headers[i], a.offset);
      SameOwnership(a.headers[i].raw, b.headers[i].raw);
    }
  }

  datatype VerifyKind =
    | NoKind | CollectorKind | CountKind | LegacyOffsetKind | HeaderOffsetKind | HeaderRawKind | SemaphoreKind
  datatype Verify = Verify(kind: VerifyKind, index: nat, expected: nat, observed: nat)
  const NO_VERIFY: Verify := Verify(NoKind, 0, 0, 0)

  /** The report names the first difference. */
  ghost predicate Reports(v: Verify, a: Legacy, b: Legacy) {
    match v.kind
    case NoKind => NoDifference(a, b) && v == NO_VERIFY
    case CountKind => |a.headers| != |b.headers| && v == Verify(CountKind, 0, |a.headers|, |b.headers|)
    case LegacyOffsetKind =>
      |a.headers| == |b.headers| && a.offset != b.offset && v == Verify(LegacyOffsetKind, 0, a.offset, b.offset)
    case HeaderOffsetKind =>
      && FirstDifference(v.index, a, b) && a.headers[v.index].offset != b.headers[v.index].offset
      && v.expected == a.headers[v.index].offset && v.observed == b.headers[v.index].offset
    case HeaderRawKind =>
      && FirstDifference(v.index, a, b) && a.headers[v.index].offset == b.headers[v.index].offset
      && v.expected == a.headers[v.index].raw && v.observed == b.headers[v.index].raw
    case _ => false
  }

  ghost predicate FirstDifference(k: nat, a: Legacy, b: Legacy) {
    && k < |a.headers| == |b.headers| && a.offset == b.offset && !SameEntry(a.headers[k], b.headers[k], a.offset)
    && forall i :: 0 <= i < k ==> SameEntry(a.headers[i], b.headers[i], a.offset)
  }

  method FinalDifference(a: Legacy, b: Legacy) returns (differs: bool, v: Verify)
    ensures differs <==> !NoDifference(a, b)
    ensures differs <==> v.kind != NoKind
    ensures Reports(v, a, b)
  {
    hide SameWord, MutableBits;
    if |a.headers| != |b.headers| { return true, Verify(CountKind, 0, |a.headers|, |b.headers|); }
    if a.offset != b.offset { return true, Verify(LegacyOffsetKind, 0, a.offset, b.offset); }
    for i := 0 to |a.headers|
      invariant forall k :: 0 <= k < i ==> SameEntry(a.headers[k], b.headers[k], a.offset)
    {
      if a.headers[i].offset != b.headers[i].offset {
        return true, Verify(HeaderOffsetKind, i, a.headers[i].offset, b.headers[i].offset);
      }
      if !SameEntry(a.headers[i], b.headers[i], a.offset) {
        return true, Verify(HeaderRawKind, i, a.headers[i].raw, b.headers[i].raw);
      }
    }
    return false, NO_VERIFY;
  }

  // ---------------------------------------------------------------- the handoff

  /** Setting the OS bit in a dword that has it clear. */
  function OsRequest(offset: nat, support: Word): Store {
    Store(Address(offset), if BiosOwned(support) then Requested(support) else 0)
  }

  ghost predicate Confirmed(caps: XhciCaps, previous: Legacy, status: HandoffStatus, support: Word) {
    && Published(caps, previous)
    && match status
       case Initial => previous.offset == 0 || (SupportIs(previous, support) && !BiosOwned(support))
       case _ => SupportIs(previous, support) && BiosOwned(support)
  }

  /** A collection failed. */
  ghost predicate RefreshLost(events: seq<Event>, h: Header, caps: XhciCaps) {
    exists st: LegacyStatus, g: Collection, first: Sampling :: LegacyStops(st, events, g, first, h, caps)
  }

  /** A collection succeeded and published s. */
  ghost predicate Collected(events: seq<Event>, caps: XhciCaps, s: Legacy) {
    Published(caps, s) && exists g: Collection :: LegacyLog(events, g, s)
  }

  ghost predicate Drifted(events: seq<Event>, caps: XhciCaps, previous: Legacy) {
    exists s: Legacy :: Collected(events, caps, s) && s != previous
  }

  // ---------------------------------------------------------------- firmware that lets go

  /** The vendor entry of the list, and a word that differs from it in live status bits only. */
  ghost predicate VendorAt(s: Legacy, i: int, port: Port, raw: Word) {
    && 0 <= i < |s.headers| && port == Address(0x8040) && s.headers[i].offset == 0x8040 != s.offset
    && s.headers[i].raw % 0x1_0000 == 0xcc1 && SameVendorBits(s.headers[i].raw, raw)
  }

  /** Nothing but live status changes by itself. */
  ghost predicate Alive(s: Legacy, also: map<Port, Word>) {
    forall port | port in also :: exists i :: VendorAt(s, i, port, also[port])
  }

  /** The list after that change. */
  function Moved(s: Legacy, also: map<Port, Word>): Legacy {
    s.(headers := seq(|s.headers|, i requires 0 <= i < |s.headers| =>
      var port := Address(s.headers[i].offset);
      if port in also then Cap(s.headers[i].offset, also[port]) else s.headers[i]))
  }

  /** The list after the handoff. */
  function Handed(s: Legacy, support: Word, also: map<Port, Word>): Legacy
    requires BiosOwned(support)
  {
    Moved(Replaced(s, HandedOver(support)), also)
  }

  ghost predicate HeldOnRelease(words: map<Port, Word>, h: Header, caps: XhciCaps, s: Legacy, support: Word,
                                also: map<Port, Word>)
    requires BiosOwned(support)
  {
    var after := words[Address(s.offset) := HandedOver(support)] + also;
    && RegistersHeld(after, h, caps) && ListHeld(after, caps, Handed(s, support, also))
    && NoDifference(s, Handed(s, support, also)) && SupportIs(Handed(s, support, also), HandedOver(support))
  }

  /** A controller that answers truthfully, performs the request, and whose firmware owns it and lets go
      during the given delay after the request; the vendor entry's live status may change with that. */
  ghost predicate Cooperative(p: Platform, h: Header, caps: XhciCaps, s: Legacy, delays: nat, also: map<Port, Word>)
    reads p`words, p`firmware
  {
    && p.faithful && RegistersHeld(p.words, h, caps) && ListHeld(p.words, caps, s) && Alive(s, also)
    && (exists support: Word :: SupportIs(s, support) && BiosOwned(support))
    && delays >= 1 && p.firmware == Holding(Address(s.offset), BIOS_OWNED, delays, also)
  }

  /** A list stays published when its words change in their high halves only. */
  lemma HighHalvesFree(caps: XhciCaps, s: Legacy, r: Legacy)
    requires Published(caps, s) && r.offset == s.offset && r.control == s.control && |r.headers| == |s.headers|
    requires forall i :: 0 <= i < |s.headers| ==>
      r.headers[i].offset == s.headers[i].offset && Low16(r.headers[i].raw) == Low16(s.headers[i].raw)
    ensures Published(caps, r)
  {
    hide Low16;
    var head := XhciHead(caps);
    forall i | 0 <= i < |s.headers|
      ensures Link(r.headers[i].raw) == Link(s.headers[i].raw) && Low8(r.headers[i].raw) == Low8(s.headers[i].raw)
    {
      HalfDecides(r.headers[i].raw, s.headers[i].raw);
    }
    forall i | 0 <= i < |r.headers| ensures ChainedAt(head, r.headers, i) {
      assert ChainedAt(head, s.headers, i);
    }
    LegacySurvives(s, r);
  }

  lemma ReplacedPublished(caps: XhciCaps, s: Legacy, support: Word, raw: Word)
    requires Published(caps, s) && SupportIs(s, support) && Low16(raw) == Low16(support)
    ensures Published(caps, Replaced(s, raw))
  {
    hide Chained, LegacyAt, Low16;
    var r := Replaced(s, raw);
    PublishedApart(caps, s);
    forall i | 0 <= i < |s.headers|
      ensures r.headers[i].offset == s.headers[i].offset && Low16(r.headers[i].raw) == Low16(s.headers[i].raw)
    {
      if s.headers[i].offset == s.offset {
        SupportUnique(s.headers, s.headers[i], Cap(s.offset, support));
      }
    }
    HighHalvesFree(caps, s, r);
  }

  lemma VendorMoves(s: Legacy, also: map<Port, Word>, port: Port) returns (i: int)
    requires Alive(s, also) && port in also
    ensures VendorAt(s, i, port, also[port])
  {
    i :| VendorAt(s, i, port, also[port]);
  }

  /** Where an entry of the list moves. */
  lemma MovedAt(s: Legacy, also: map<Port, Word>, i: nat)
    requires Alive(s, also) && Apart(s.headers) && i < |s.headers| && Address(s.headers[i].offset) in also
    ensures VendorAt(s, i, Address(s.headers[i].offset), also[Address(s.headers[i].offset)])
  {
    var port := Address(s.headers[i].offset);
    var k :| VendorAt(s, k, port, also[port]);
    assert s.headers[k].offset == s.headers[i].offset;
  }

  /** Live status is no final difference. */
  lemma MovedUnchanged(s: Legacy, also: map<Port, Word>)
    requires Alive(s, also) && Apart(s.headers)
    ensures NoDifference(s, Moved(s, also))
    ensures forall support: Word :: SupportIs(s, support) ==> SupportIs(Moved(s, also), support)
  {
    hide SameEntry, Alive;
    var r := Moved(s, also);
    forall i | 0 <= i < |s.headers| ensures SameEntry(s.headers[i], r.headers[i], s.offset) {
      EntryExactly(s.headers[i], r.headers[i], s.offset);
      if Address(s.headers[i].offset) in also { MovedAt(s, also, i); }
    }
    forall support: Word | SupportIs(s, support) ensures SupportIs(r, support) {
      var k :| 0 <= k < |s.headers| && s.headers[k] == Cap(s.offset, support);
      if Address(s.headers[k].offset) in also { MovedAt(s, also, k); }
      assert r.headers[k] == Cap(s.offset, support);
    }
  }

  lemma MovedHeld(words: map<Port, Word>, h: Header, caps: XhciCaps, s: Legacy, also: map<Port, Word>)
    requires RegistersHeld(words, h, caps) && ListHeld(words, caps, s) && Alive(s, also)
    ensures RegistersHeld(words + also, h, caps) && ListHeld(words + also, caps, Moved(s, also))
  {
    hide Chained, LegacyAt, XhciMatches, XhciHeaderOk, NextAt, Alive;
    PublishedApart(caps, s);
    var r := Moved(s, also);
    forall i | 0 <= i < |s.headers|
      ensures r.headers[i].offset == s.headers[i].offset && Low16(r.headers[i].raw) == Low16(s.headers[i].raw)
    {
      if Address(s.headers[i].offset) in also { MovedAt(s, also, i); }
    }
    HighHalvesFree(caps, s, r);
    forall port | port in also ensures port == Address(0x8040) {
      var i := VendorMoves(s, also, port);
    }
    if Address(s.offset + 4) in also && s.offset != 0 {
      var i := VendorMoves(s, also, Address(s.offset + 4));
      assert false;
    }
  }

  lemma ReplacedAlive(s: Legacy, raw: Word, also: map<Port, Word>)
    requires Alive(s, also)
    ensures Alive(Replaced(s, raw), also) && Address(s.offset) !in also
  {
    var r := Replaced(s, raw);
    forall port | port in also ensures exists i :: VendorAt(r, i, port, also[port]) {
      var i :| VendorAt(s, i, port, also[port]);
      assert VendorAt(r, i, port, also[port]);
    }
    if Address(s.offset) in also {
      var i := VendorMoves(s, also, Address(s.offset));
      assert false;
    }
  }

  lemma LegacySurvives(s: Legacy, r: Legacy)
    requires LegacyAt(s.headers, s.offset) && r.offset == s.offset && |r.headers| == |s.headers|
    requires forall i :: 0 <= i < |s.headers| ==>
      && r.headers[i].offset == s.headers[i].offset && Link(r.headers[i].raw) == Link(s.headers[i].raw)
      && Low8(r.headers[i].raw) == Low8(s.headers[i].raw)
    ensures LegacyAt(r.headers, r.offset)
  {
    forall i | 0 <= i < |r.headers| ensures Legal(r.headers[i]) { assert Legal(s.headers[i]); }
    if s.offset != 0 {
      var k :| 0 <= k < |s.headers| && s.headers[k].offset == s.offset && Low8(s.headers[k].raw) == Xhci.LEGACY_ID;
      assert r.headers[k].offset == r.offset;
    }
  }

  lemma HeldAfter(words: map<Port, Word>, h: Header, caps: XhciCaps, s: Legacy, support: Word, raw: Word)
    requires RegistersHeld(words, h, caps) && ListHeld(words, caps, s) && SupportIs(s, support)
    requires Low16(raw) == Low16(support)
    ensures
      var after := words[Address(s.offset) := raw];
      RegistersHeld(after, h, caps) && ListHeld(after, caps, Replaced(s, raw))
  {
    hide Chained, LegacyAt, XhciMatches, Low16;
    PublishedApart(caps, s);
    ReplacedPublished(caps, s, support, raw);
  }

  lemma RequestHeld(words: map<Port, Word>, h: Header, caps: XhciCaps, s: Legacy, support: Word,
                    also: map<Port, Word>)
    requires RegistersHeld(words, h, caps) && ListHeld(words, caps, s) && SupportIs(s, support) && BiosOwned(support)
    requires Alive(s, also)
    ensures HeldOnRelease(words[Address(s.offset) := Requested(support)], h, caps, s, support, also)
    ensures Address(s.offset) !in also
  {
    hide RegistersHeld, Chained, LegacyAt, Alive, NoDifference, SameEntry, Plain, NextAt, Moved, Replaced;
    var raw, port := HandedOver(support), Address(s.offset);
    HalvesKept(support);
    HeldAfter(words, h, caps, s, support, raw);
    assert words[port := Requested(support)][port := raw] == words[port := raw];
    HandedUnchanged(caps, s, support, also);
    ReplacedAlive(s, raw, also);
    MovedHeld(words[port := raw], h, caps, Replaced(s, raw), also);
  }

  /** The list after the handoff shows no final difference, and its support word handed over. */
  lemma HandedUnchanged(caps: XhciCaps, s: Legacy, support: Word, also: map<Port, Word>)
    requires Published(caps, s) && SupportIs(s, support) && BiosOwned(support) && Alive(s, also)
    ensures NoDifference(s, Handed(s, support, also)) && SupportIs(Handed(s, support, also), HandedOver(support))
  {
    hide Chained, LegacyAt, Alive, NoDifference, SameEntry, Plain, NextAt, Moved;
    var raw := HandedOver(support);
    PublishedApart(caps, s);
    OwnershipPlain(support);
    ReplacedUnchanged(s, support, raw);
    ReplacedAlive(s, raw, also);
    MovedUnchanged(Replaced(s, raw), also);
    DifferenceEquivalence(s, Replaced(s, raw), Handed(s, support, also));
  }

  lemma ReleaseHeld(words: map<Port, Word>, h: Header, caps: XhciCaps, s: Legacy, support: Word, also: map<Port, Word>)
    requires BiosOwned(support) && HeldOnRelease(words, h, caps, s, support, also)
    ensures
      var after := words[Address(s.offset) := HandedOver(support)] + also;
      && RegistersHeld(after, h, caps) && ListHeld(after, caps, Handed(s, support, also))
      && NoDifference(s, Handed(s, support, also)) && SupportIs(Handed(s, support, also), HandedOver(support))
      && Handed(s, support, also).control == s.control
  {
  }

  lemma FoundIsOwned(caps: XhciCaps, s: Legacy, status: HandoffStatus, found: Word)
    requires status == Observed || status == Initial
    requires Confirmed(caps, s, status, found) && exists support: Word :: SupportIs(s, support) && BiosOwned(support)
    ensures status == Observed
  {
    hide Chained, LegacyAt;
    PublishedApart(caps, s);
    var support: Word :| SupportIs(s, support) && BiosOwned(support);
    if SupportIs(s, found) {
      SupportUnique(s.headers, Cap(s.offset, support), Cap(s.offset, found));
    }
  }

  /** Another support word with the same plain part is no final difference. */
  lemma ReplacedUnchanged(s: Legacy, support: Word, raw: Word)
    requires SupportIs(s, support) && Apart(s.headers) && Plain(raw) == Plain(support)
    ensures NoDifference(s, Replaced(s, raw)) && SupportIs(Replaced(s, raw), raw)
  {
    hide Plain, SameWord;
    var r := Replaced(s, raw);
    forall i | 0 <= i < |s.headers| ensures SameEntry(s.headers[i], r.headers[i], s.offset) {
      if s.headers[i].offset == s.offset {
        SupportUnique(s.headers, s.headers[i], Cap(s.offset, support));
        SameOwnership(s.headers[i].raw, raw);
      } else {
        SameWordEquivalence(s.headers[i].raw, 0, 0, MutableBits(s.headers[i], s.offset));
      }
    }
    var k :| 0 <= k < |s.headers| && s.headers[k] == Cap(s.offset, support);
    assert r.headers[k] == Cap(s.offset, raw);
  }

  method BeginHandoff(p: Platform, h: Header, caps: XhciCaps, previous: Legacy)
    returns (status: HandoffStatus, support: Word, ghost events: seq<Event>)
    modifies p`log
    ensures p.faithful && RegistersHeld(p.words, h, caps) && ListHeld(p.words, caps, previous) ==>
      status == Observed || status == Initial
    ensures p.log == old(p.log) + events && OnlyReads(events) && |events| <= 87
    ensures status in {Observed, Refresh, Drift, Initial}
    ensures status in {Observed, Initial} ==> Confirmed(caps, previous, status, support)
    ensures status == Refresh ==> RefreshLost(events, h, caps)
    ensures status == Drift ==> Drifted(events, caps, previous)
  {
    hide LegacyLog, LegacyStops, XhciCapsLog, XhciHeaderOk, Chained, LegacyAt, EntryAgrees,
      RegistersHeld, Truthful;
    support := 0;
    var collected, s;
    ghost var g, first, second;
    collected, s, events, g, first, second := CollectLegacy(p, h, caps);
    if p.faithful && RegistersHeld(p.words, h, caps) && ListHeld(p.words, caps, previous) {
      NeverStops(p.words, h, caps, previous, events, g, first, collected);
      if collected == LegacyOk { LogDetermines(p.words, caps, previous, events, g, s); }
    }
    if collected != LegacyOk { return Refresh, support, events; }
    PublishedApart(caps, s);
    AgreesSelf(s);
    assert Collected(events, caps, s);
    var same := SameLegacy(previous, s, 0);
    if !same || previous.control != s.control { return Drift, support, events; }
    StrictIsEqual(previous, s);
    assert previous == s;
    support := FindSupport(s.headers, s.offset);
    if s.offset == 0 || !BiosOwned(support) { return Initial, support, events; }
    status := if InWindow(s.offset) then Observed else Initial;
  }

  method FinishHandoff(p: Platform, h: Header, caps: XhciCaps, previous: Legacy, support: Word, before: Handoff,
                       ghost handed: Legacy)
    returns (status: HandoffStatus, out: Handoff, v: Verify, ghost events: seq<Event>, ghost last: Legacy)
    requires Published(caps, previous) && SupportIs(previous, support) && BiosOwned(support)
    requires 1 <= before.polls && before == Handoff(1, before.polls, HandedOver(support), 0)
    modifies p`log
    ensures p.log == old(p.log) + events && OnlyReads(events) && |events| <= 87
    ensures status in {Observed, Final} && Outcome(status, out, support) && out.polls == before.polls
    ensures status == Observed ==> HandedList(caps, previous, last, support) && out.control == last.control
    ensures if status == Observed then v == NO_VERIFY else Diagnosed(v, events, h, caps, previous, support, out)
    ensures p.faithful && RegistersHeld(p.words, h, caps) && ListHeld(p.words, caps, handed)
            && NoDifference(previous, handed) && SupportIs(handed, HandedOver(support)) ==>
      status == Observed && last == handed
  {
    hide LegacyLog, LegacyStops, XhciCapsLog, XhciHeaderOk, Chained, LegacyAt, SameEntry, Plain, RegistersHeld,
      ListHeld, NextAt, Truthful;
    out, v := before, NO_VERIFY;
    OwnershipPlain(support);
    var collected, s, differs, ok;
    ghost var g, first, second;
    collected, s, events, g, first, second := CollectLegacy(p, h, caps);
    last := s;
    PublishedApart(caps, previous);
    if p.faithful && RegistersHeld(p.words, h, caps) && ListHeld(p.words, caps, handed) {
      NeverStops(p.words, h, caps, handed, events, g, first, collected);
      if collected == LegacyOk { LogDetermines(p.words, caps, handed, events, g, s); }
    }
    if collected != LegacyOk {
      assert CollectorStopped(collected, events, h, caps);
      return Final, out, Verify(CollectorKind, 0, 0, LegacyCode(collected)), events, last;
    }
    assert Collected(events, caps, s);
    differs, v := FinalDifference(previous, s);
    if differs {
      assert Disagrees(v, previous, s, support, out);
      return Final, out, v, events, last;
    }
    NoDifferenceKeeps(previous, s);
    PublishedApart(caps, s);
    ok, out := ConfirmSupport(previous, s, support, out);
    if SupportIs(s, HandedOver(support)) {
      SupportUnique(s.headers, Cap(s.offset, out.support), Cap(s.offset, HandedOver(support)));
    }
    if !ok {
      var k := FirstAt(s.headers, s.offset);
      SupportUnique(s.headers, s.headers[k], Cap(s.offset, out.support));
      assert Disagrees(Verify(SemaphoreKind, k, HandedOver(support), out.support), previous, s, support, out);
      return Final, out, Verify(SemaphoreKind, k, HandedOver(support), out.support), events, last;
    }
    out := out.(control := s.control);
    status := Observed;
  }

  /** Why the closing collection was rejected: the collector's own status, or the first difference
      from the opening list, or the semaphore word of a list without difference. */
  ghost predicate Diagnosed(v: Verify, closing: seq<Event>, h: Header, caps: XhciCaps, previous: Legacy, support: Word,
                            out: Handoff)
    requires BiosOwned(support)
  {
    match v.kind
    case NoKind => false
    case CollectorKind =>
      && v == Verify(CollectorKind, 0, 0, v.observed) && out.support == HandedOver(support)
      && exists st: LegacyStatus :: CollectorStopped(st, closing, h, caps) && v.observed == LegacyCode(st)
    case _ => exists s: Legacy :: Collected(closing, caps, s) && Disagrees(v, previous, s, support, out)
  }

  ghost predicate CollectorStopped(st: LegacyStatus, closing: seq<Event>, h: Header, caps: XhciCaps) {
    exists g: Collection, first: Sampling :: LegacyStops(st, closing, g, first, h, caps)
  }

  ghost predicate Disagrees(v: Verify, previous: Legacy, s: Legacy, support: Word, out: Handoff)
    requires BiosOwned(support)
  {
    if v.kind == SemaphoreKind then
      && NoDifference(previous, s) && v.expected == HandedOver(support) && v.observed == out.support != v.expected
      && v.index < |s.headers| && s.headers[v.index] == Cap(s.offset, out.support)
    else Reports(v, previous, s) && v.kind != NoKind && out.support == HandedOver(support)
  }

  /** The log ends with such a collection. */
  ghost predicate EndsDiagnosed(v: Verify, events: seq<Event>, h: Header, caps: XhciCaps, previous: Legacy,
                                support: Word, out: Handoff)
    requires BiosOwned(support)
  {
    exists closing :: Diagnosed(v, closing, h, caps, previous, support, out) && |closing| <= |events|
                      && events[|events| - |closing|..] == closing
  }

  lemma DiagnosedLater(v: Verify, begun: seq<Event>, rest: seq<Event>, h: Header, caps: XhciCaps, previous: Legacy,
                       support: Word, out: Handoff)
    requires BiosOwned(support) && EndsDiagnosed(v, rest, h, caps, previous, support, out)
    ensures EndsDiagnosed(v, begun + rest, h, caps, previous, support, out)
  {
    hide Diagnosed;
    var closing :| Diagnosed(v, closing, h, caps, previous, support, out) && |closing| <= |rest|
                   && rest[|rest| - |closing|..] == closing;
    assert (begun + rest)[|begun + rest| - |closing|..] == closing;
  }

  function LegacyCode(status: LegacyStatus): nat {
    match status
    case LegacyOk => 0
    case LegacyRefresh => 2
    case LegacyDrift => 3
    case LegacyPointer => 4
    case LegacyLimit => 5
    case LegacyRead => 6
    case LegacyId => 7
    case LegacyDuplicate => 8
    case LegacyOverlap => 9
    case LegacyFinal => 10
  }

  method FirstAt(list: seq<Cap>, offset: nat) returns (k: nat)
    ensures k <= |list| && (forall i :: 0 <= i < k ==> list[i].offset != offset)
    ensures (k < |list| ==> list[k].offset == offset)
  {
    k := 0;
    while k < |list| && list[k].offset != offset
      invariant k <= |list| && forall i :: 0 <= i < k ==> list[i].offset != offset
    {
      k := k + 1;
    }
  }

  /** The closing list: published, no final difference, and its support word handed over. */
  ghost predicate HandedList(caps: XhciCaps, previous: Legacy, last: Legacy, support: Word)
    requires BiosOwned(support)
  {
    Published(caps, last) && NoDifference(previous, last) && SupportIs(last, HandedOver(support))
  }

  method AwaitHandoff(p: Platform, h: Header, caps: XhciCaps, previous: Legacy, support: Word,
                      ghost opening: seq<Event>, ghost delays: nat, ghost also: map<Port, Word>, ghost ready: bool)
    returns (status: HandoffStatus, out: Handoff, v: Verify, ghost events: seq<Event>, ghost last: Legacy)
    requires Published(caps, previous) && SupportIs(previous, support) && BiosOwned(support)
    requires Waiting(Handoff(1, 0, support, 0), opening, OsRequest(previous.offset, support), support, 87)
    requires ready ==>
      && Serving(p, Address(previous.offset), support, delays, also)
      && HeldOnRelease(p.words, h, caps, previous, support, also)
    modifies p`log, p`words, p`firmware
    ensures p.log == old(p.log) + events
    ensures HandoffRun(status, out, opening + events, OsRequest(previous.offset, support), support, 87)
    ensures status !in {Refresh, Drift, Initial, WriteFailed}
    ensures status == Observed ==> HandedList(caps, previous, last, support) && out.control == last.control
    ensures if status == Final then EndsDiagnosed(v, events, h, caps, previous, support, out) else v == NO_VERIFY
    ensures ready ==> Progress(status, out, delays, previous.control)
    ensures ready && status == Observed ==>
      && last == Handed(previous, support, also)
      && p.words == old(p.words)[Address(previous.offset) := HandedOver(support)] + also
  {
    hide Published, SupportIs, HandedList, OnlyReads, Writes, Reads, Delays, Diagnosed, RegistersHeld, ListHeld,
      HeldOnRelease, Moved, Replaced, NoDifference;
    ghost var store := OsRequest(previous.offset, support);
    ghost var added, closing;
    events, last, out, v := [], NO_LEGACY, Handoff(1, 0, support, 0), NO_VERIFY;
    assert opening + [] == opening;
    for i := 0 to HANDOFF_POLLS
      invariant p.log == old(p.log) + events && out.polls == i && v == NO_VERIFY
      invariant Waiting(out, opening + events, store, support, 87)
      invariant ready ==> i < delays && Serving(p, Address(previous.offset), support, delays - i, also)
      invariant ready ==> p.words == old(p.words)
    {
      var step;
      step, out, added := PollOnce(p, Address(previous.offset), support, out, store, opening + events, 87,
                                   if ready then delays - i else 0, also, ready);
      Regroup(opening, events, added);
      Regroup(old(p.log), events, added);
      events := events + added;
      if step.Stop? { return step.status, out, v, events, last; }
      if step == LetGo {
        ghost var polled, sofar := out, events;
        if ready { ReleaseHeld(old(p.words), h, caps, previous, support, also); }
        status, out, v, closing, last := FinishHandoff(p, h, caps, previous, support, out,
                                                       Handed(previous, support, also));
        Close(polled, opening + sofar, store, support, 87, closing, status, out);
        Regroup(opening, sofar, closing);
        Regroup(old(p.log), sofar, closing);
        events := sofar + closing;
        assert events[|events| - |closing|..] == closing;
        return;
      }
    }
    status := Timeout;
  }

  method RequestHandoff(p: Platform, h: Header, caps: XhciCaps, previous: Legacy, ghost delays: nat,
                        ghost also: map<Port, Word>)
    returns (status: HandoffStatus, out: Handoff, v: Verify, ghost events: seq<Event>, ghost support: Word,
             ghost last: Legacy)
    modifies p`log, p`words, p`firmware
    ensures p.log == old(p.log) + events
    ensures HandoffRun(status, out, events, OsRequest(previous.offset, support), support, 87)
    ensures status == Refresh ==> RefreshLost(events, h, caps)
    ensures status == Drift ==> Drifted(events, caps, previous)
    ensures status !in {Refresh, Drift} ==> Confirmed(caps, previous, status, support)
    ensures status == Observed ==> HandedList(caps, previous, last, support) && out.control == last.control
    ensures status == Final ==> BiosOwned(support) && EndsDiagnosed(v, events, h, caps, previous, support, out)
    ensures status != Final ==> v == NO_VERIFY
    ensures old(Cooperative(p, h, caps, previous, delays, also)) ==> Progress(status, out, delays, previous.control)
    ensures old(Cooperative(p, h, caps, previous, delays, also)) && status == Observed ==>
      && BiosOwned(support) && last == Handed(previous, support, also)
      && p.words == old(p.words)[Address(previous.offset) := HandedOver(support)] + also
  {
    hide Published, SupportIs, HandedList, OnlyReads, Writes, Reads, Delays, RefreshLost, Drifted, EndsDiagnosed,
      RegistersHeld, ListHeld, HeldOnRelease, Progress, Alive, Moved, Replaced;
    ghost var ready := Cooperative(p, h, caps, previous, delays, also);
    ghost var opening, rest;
    var found;
    status, found, opening := BeginHandoff(p, h, caps, previous);
    support, last, events, out, v := found, NO_LEGACY, opening, NO_HANDOFF, NO_VERIFY;
    if ready { FoundIsOwned(caps, previous, status, found); }
    if status != Observed {
      Refused(status, opening, OsRequest(previous.offset, support), support, 87);
      return;
    }
    var request := OsRequest(previous.offset, found);
    if ready { RequestHeld(p.words, h, caps, previous, found, also); }
    var ok := p.WriteDword(request.port, request.value);
    Open(opening, request, support, 87, ok);
    events := opening + [Write(request.port, request.value, ok)];
    if !ok { return WriteFailed, Handoff(1, 0, found, 0), v, events, support, last; }
    ghost var begun := events;
    status, out, v, rest, last := AwaitHandoff(p, h, caps, previous, found, begun, delays, also, ready);
    events := begun + rest;
    if status == Final { DiagnosedLater(v, begun, rest, h, caps, previous, found, out); }
  }
}
