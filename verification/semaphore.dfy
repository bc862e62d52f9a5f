/** The BIOS and OS ownership bits of a USB legacy-support capability, shared by EHCI and xHCI. */
module Semaphores {
  import opened Platforms
  import opened Capabilities
  import opened Arithmetic
  import opened Masks

  const BIOS_OWNED: nat := 0x1_0000
  const OS_OWNED: nat := 0x100_0000
  const HANDOFF_POLLS: nat := 100
  const HANDOFF_DELAY_MS: nat := 10

  /** The word outside its two ownership bits. */
  function Plain(word: Word): Word {
    Clear(Clear(word, BIOS_OWNED), OS_OWNED)
  }

  /** Owned by the BIOS, not by the OS, every reserved bit of the high half zero. */
  predicate BiosOwned(support: Word) {
    High16(support) == 1
  }

  /** After the request, before the BIOS has let go. */
  function Requested(support: Word): Word
    requires BiosOwned(support)
  {
    support + OS_OWNED
  }

  /** After the handoff: the BIOS bit cleared, the OS bit set, all else as it was. */
  function HandedOver(support: Word): Word
    requires BiosOwned(support)
  {
    support - BIOS_OWNED + OS_OWNED
  }

  /** The two words a poll can continue or finish on are determined by the initial one. */
  lemma OwnershipWords(support: Word, raw: Word)
    requires BiosOwned(support) && Plain(raw) == Plain(support) && Bit(raw, OS_OWNED)
    ensures raw == if Bit(raw, BIOS_OWNED) then Requested(support) else HandedOver(support)
  {
    assert Plain(support) == support - BIOS_OWNED;
    var low := Clear(raw, BIOS_OWNED);
    assert Bit(low, OS_OWNED);
    assert Plain(raw) == low - OS_OWNED;
  }

  /** Words that differ only in their ownership bits: the four the decoder lists. */
  lemma PlainWords(support: Word, raw: Word)
    requires BiosOwned(support) && Plain(raw) == Plain(support)
    ensures raw in {support - BIOS_OWNED, support, HandedOver(support), Requested(support)}
  {
    assert Plain(support) == support - BIOS_OWNED;
    var low := Clear(raw, BIOS_OWNED);
    assert Plain(raw) == low || Plain(raw) == low - OS_OWNED;
  }

  /** A published list: its entries, the offset of the legacy-support capability (0 if none) and
      the control word after it. */
  datatype Legacy = Legacy(headers: seq<Cap>, offset: nat, control: Word)

  const NO_LEGACY: Legacy := Legacy([], 0, 0)

  ghost predicate SupportIs(s: Legacy, support: Word) {
    s.offset != 0 && Cap(s.offset, support) in s.headers
  }

  /** `(a ^ b) & ~mask == 0` on 32-bit words. */
  predicate SameWord(a: Word, b: Word, mask: Word) {
    Powers();
    SameUnder(a, b, mask, 32)
  }

  /** Entry i agrees, up to the mutable bits of the legacy entry. */
  predicate EntryAgrees(a: Cap, b: Cap, legacy: nat, mutable: Word) {
    a.offset == b.offset && SameWord(a.raw, b.raw, if a.offset == legacy then mutable else 0)
  }

  /** For a fixed mask the comparison is an equivalence. */
  lemma SameWordEquivalence(a: Word, b: Word, c: Word, mask: Word)
    ensures SameWord(a, a, mask) && (SameWord(a, b, mask) ==> SameWord(b, a, mask))
    ensures SameWord(a, b, mask) && SameWord(b, c, mask) ==> SameWord(a, c, mask)
  {
    hide AgreeOutside, SameUnder, Pow2;
    Powers();
    SameUnderIsAgree(a, a, mask, 32);
    SameUnderIsAgree(a, b, mask, 32);
    SameUnderIsAgree(b, a, mask, 32);
    SameUnderIsAgree(b, c, mask, 32);
    SameUnderIsAgree(a, c, mask, 32);
    AgreeEquivalence(a, b, c, mask, 32);
  }

  /** A mask that spares the low half keeps it. */
  lemma LowHalfKept(a: Word, b: Word, mask: Word)
    requires SameWord(a, b, mask) && mask % 0x1_0000 == 0
    ensures Low16(a) == Low16(b)
  {
    hide AgreeOutside, SameUnder, Pow2, Low, High;
    Powers();
    SameUnderIsAgree(a, b, mask, 32);
    AgreeSplit(a, b, mask, 16, 32);
    Parts(a, 16);
    Parts(b, 16);
    Parts(mask, 16);
    AgreeEverywhere(Low(a, 16), Low(b, 16), 16);
  }

  lemma SameExactly(a: Word, b: Word)
    ensures SameWord(a, b, 0) <==> a == b
  {
    Powers();
    SameUnderIsAgree(a, b, 0, 32);
    AgreeEverywhere(a, b, 32);
  }

  /** The word cut at the two ownership bits. */
  ghost function Fields(w: Word): (nat, nat, nat, nat, nat) {
    var above16 := High(w, 16);
    var above17 := High(above16, 1);
    var above24 := High(above17, 7);
    (Low(w, 16), Low(above16, 1), Low(above17, 7), Low(above24, 1), High(above24, 1))
  }

  lemma FieldsOf(w: Word)
    ensures var (f0, b16, f17, b24, f25) := Fields(w);
      && f0 < 0x1_0000 && b16 < 2 && f17 < 0x80 && b24 < 2 && f25 < 0x80
      && w == f0 + 0x1_0000 * b16 + 0x2_0000 * f17 + 0x100_0000 * b24 + 0x200_0000 * f25
  {
    hide High, Low;
    Powers();
    Parts(w, 16);
    Parts(High(w, 16), 1);
    Parts(High(High(w, 16), 1), 7);
    Parts(High(High(High(w, 16), 1), 7), 1);
  }

  lemma PlainFields(w: Word)
    ensures var (f0, b16, f17, b24, f25) := Fields(w); Plain(w) == f0 + 0x2_0000 * f17 + 0x200_0000 * f25
  {
    hide Fields;
    FieldsOf(w);
    var (f0, b16, f17, b24, f25) := Fields(w);
    Divides(w, BIOS_OWNED, b16 + 2 * f17 + 0x100 * b24 + 0x200 * f25, f0);
    var low := w - 0x1_0000 * b16;
    Divides(low, OS_OWNED, b24 + 2 * f25, f0 + 0x2_0000 * f17);
  }

  const OWNERSHIP: Word := 0x0101_0000

  /** The plain word is the word under the complement of the ownership bits. */
  lemma PlainIsMask(w: Word)
    ensures And(w, ALL_ONES - OWNERSHIP) == Plain(w)
  {
    hide And, High, Low, Pow2, Plain;
    Powers();
    ComplementMask();
    PlainFields(w);
    FieldsOf(w);
    var h16 := High(w, 16);
    var h17 := High(h16, 1);
    var h24 := High(h17, 7);
    var h25 := High(h24, 1);
    AndSplit(w, 0xfefe_ffff, 16);
    AndSplit(h16, 0xfefe, 1);
    AndSplit(h17, 0x7f7f, 7);
    AndSplit(h24, 0xfe, 1);
    NoBits(Low(h16, 1));
    NoBits(Low(h24, 1));
    Parts(w, 16);
    Parts(h17, 7);
    AndOnes(Low(w, 16), 16);
    AndOnes(Low(h17, 7), 7);
    AndOnes(h25, 7);
  }

  lemma ComplementMask()
    ensures High(0xfefe_ffff, 16) == 0xfefe && Low(0xfefe_ffff, 16) == 0xffff && High(0xfefe, 1) == 0x7f7f
    ensures Low(0xfefe, 1) == 0
    ensures High(0x7f7f, 7) == 0xfe && Low(0x7f7f, 7) == 0x7f && High(0xfe, 1) == 0x7f && Low(0xfe, 1) == 0
  {
    Powers();
    Parts(0xfefe_ffff, 16);
    Parts(0x7f7f, 7);
  }

  lemma OwnershipMask()
    ensures Low(OWNERSHIP, 16) == 0 && High(OWNERSHIP, 16) == 0x101 && Low(0x101, 1) == 1 && High(0x101, 1) == 0x80
    ensures Low(0x80, 7) == 0 && High(0x80, 7) == 1 && Low(1, 1) == 1 && High(1, 1) == 0
  {
    Powers();
    Parts(OWNERSHIP, 16);
    Parts(0x80, 7);
  }

  lemma PlainEqual(a: Word, b: Word)
    ensures Plain(a) == Plain(b) <==>
      Fields(a).0 == Fields(b).0 && Fields(a).2 == Fields(b).2 && Fields(a).4 == Fields(b).4
  {
    hide Fields, Plain;
    FieldsOf(a);
    FieldsOf(b);
    PlainFields(a);
    PlainFields(b);
    PartsEqual(Fields(a).0, Fields(a).2, Fields(a).4, Fields(b).0, Fields(b).2, Fields(b).4);
  }

  lemma PartsEqual(low: nat, middle: nat, high: nat, low': nat, middle': nat, high': nat)
    requires low < 0x1_0000 && low' < 0x1_0000 && middle < 0x80 && middle' < 0x80
    ensures low + 0x2_0000 * middle + 0x200_0000 * high == low' + 0x2_0000 * middle' + 0x200_0000 * high' <==>
            low == low' && middle == middle' && high == high'
  {
  }

  lemma AgreeFields(a: Word, b: Word)
    ensures AgreeOutside(a, b, OWNERSHIP, 32) <==>
      Fields(a).0 == Fields(b).0 && Fields(a).2 == Fields(b).2 && Fields(a).4 == Fields(b).4
  {
    hide High, Low, AgreeOutside, Pow2;
    Powers();
    OwnershipMask();
    AgreeSplit(a, b, OWNERSHIP, 16, 32);
    Parts(a, 16);
    Parts(b, 16);
    AgreeEverywhere(Low(a, 16), Low(b, 16), 16);
    OwnershipHigh(High(a, 16), High(b, 16));
  }

  /** Comparing outside the ownership bits is comparing the plain words. */
  lemma SameOwnership(a: Word, b: Word)
    ensures SameWord(a, b, OWNERSHIP) <==> Plain(a) == Plain(b)
  {
    hide Plain, Fields, AgreeOutside, SameUnder, Pow2;
    Powers();
    SameUnderIsAgree(a, b, OWNERSHIP, 32);
    AgreeFields(a, b);
    PlainEqual(a, b);
  }

  /** The same in bits: 15:0, 23:17 and 31:25 agree. */
  lemma SameOwnershipBits(a: Word, b: Word)
    ensures SameWord(a, b, OWNERSHIP) <==>
      a % 0x1_0000 == b % 0x1_0000 && a / 0x2_0000 % 0x80 == b / 0x2_0000 % 0x80 && a / 0x200_0000 == b / 0x200_0000
  {
    hide Fields, Plain, SameWord;
    SameOwnership(a, b);
    PlainEqual(a, b);
    FieldBits(a);
    FieldBits(b);
  }

  lemma FieldBits(w: Word)
    ensures Fields(w).0 == w % 0x1_0000 && Fields(w).2 == w / 0x2_0000 % 0x80 && Fields(w).4 == w / 0x200_0000
  {
    hide Fields;
    FieldsOf(w);
    var (f0, b16, f17, b24, f25) := Fields(w);
    Divides(w, 0x1_0000, b16 + 2 * f17 + 0x100 * b24 + 0x200 * f25, f0);
    Divides(w, 0x2_0000, f17 + 0x80 * b24 + 0x100 * f25, 0x1_0000 * b16 + f0);
    Divides(f17 + 0x80 * b24 + 0x100 * f25, 0x80, b24 + 2 * f25, f17);
    Divides(w, 0x200_0000, f25, 0x100_0000 * b24 + 0x2_0000 * f17 + 0x1_0000 * b16 + f0);
  }

  lemma OwnershipHigh(a: nat, b: nat)
    requires a < 0x1_0000 && b < 0x1_0000
    ensures AgreeOutside(a, b, 0x101, 16) <==>
      Low(High(a, 1), 7) == Low(High(b, 1), 7) && High(High(High(a, 1), 7), 1) == High(High(High(b, 1), 7), 1)
  {
    hide High, Low, AgreeOutside, Pow2;
    Powers();
    OwnershipMask();
    AgreeSplit(a, b, 0x101, 1, 16);
    AgreeNowhere(Low(a, 1), Low(b, 1), 1);
    Parts(a, 1);
    Parts(b, 1);
    var a1, b1 := High(a, 1), High(b, 1);
    AgreeSplit(a1, b1, 0x80, 7, 15);
    Parts(a1, 7);
    Parts(b1, 7);
    AgreeEverywhere(Low(a1, 7), Low(b1, 7), 7);
    var a2, b2 := High(a1, 7), High(b1, 7);
    AgreeSplit(a2, b2, 1, 1, 8);
    AgreeNowhere(Low(a2, 1), Low(b2, 1), 1);
    Parts(a2, 1);
    Parts(b2, 1);
    AgreeEverywhere(High(a2, 1), High(b2, 1), 7);
  }

  ghost predicate Agrees(a: Legacy, b: Legacy, mutable: Word) {
    && |a.headers| == |b.headers| <= CAPACITY && a.offset == b.offset
    && forall i :: 0 <= i < |a.headers| ==> EntryAgrees(a.headers[i], b.headers[i], a.offset, mutable)
  }

  method SameLegacy(a: Legacy, b: Legacy, mutable: Word) returns (same: bool)
    ensures same <==> Agrees(a, b, mutable)
  {
    hide EntryAgrees;
    if |a.headers| > CAPACITY || |a.headers| != |b.headers| || a.offset != b.offset { return false; }
    for i := 0 to |a.headers|
      invariant forall k :: 0 <= k < i ==> EntryAgrees(a.headers[k], b.headers[k], a.offset, mutable)
    {
      if !EntryAgrees(a.headers[i], b.headers[i], a.offset, mutable) { return false; }
    }
    return true;
  }

  lemma AgreesSelf(a: Legacy)
    requires |a.headers| <= CAPACITY
    ensures Agrees(a, a, 0)
  {
    forall i | 0 <= i < |a.headers| ensures EntryAgrees(a.headers[i], a.headers[i], a.offset, 0) {
      SameExactly(a.headers[i].raw, a.headers[i].raw);
    }
  }

  lemma StrictIsEqual(a: Legacy, b: Legacy)
    requires Agrees(a, b, 0)
    ensures a.headers == b.headers && a.offset == b.offset
  {
    forall i | 0 <= i < |a.headers| ensures a.headers[i] == b.headers[i] {
      assert EntryAgrees(a.headers[i], b.headers[i], a.offset, 0);
      SameExactly(a.headers[i].raw, b.headers[i].raw);
    }
  }

  /** Distinct offsets, none of them zero. */
  ghost predicate Apart(list: seq<Cap>) {
    && (forall i :: 0 <= i < |list| ==> list[i].offset != 0)
    && forall i, j :: 0 <= i < j < |list| ==> list[i].offset != list[j].offset
  }

  /** The raw word of the last entry at this offset, 0 if there is none. */
  method FindSupport(list: seq<Cap>, offset: nat) returns (support: Word)
    requires Apart(list)
    ensures Cap(offset, support) in list || (support == 0 && forall i :: 0 <= i < |list| ==> list[i].offset != offset)
  {
    support := 0;
    for i := 0 to |list|
      invariant Cap(offset, support) in list[..i]
                || (support == 0 && forall k :: 0 <= k < i ==> list[k].offset != offset)
    {
      if list[i].offset == offset { support := list[i].raw; }
    }
  }

  lemma SupportUnique(list: seq<Cap>, a: Cap, b: Cap)
    requires Apart(list) && a in list && b in list && a.offset == b.offset
    ensures a == b
  {
  }

  lemma NothingElse(words: map<Port, Word>)
    ensures words + map[] == words
  {
  }

  // ---------------------------------------------------------------- the handoff protocol

  datatype HandoffStatus =
    | Observed | Refresh | Drift | Initial | WriteFailed | DelayLost | PollFailed | Changed | Timeout | Final

  datatype Handoff = Handoff(attempted: nat, polls: nat, support: Word, control: Word)
  const NO_HANDOFF: Handoff := Handoff(0, 0, 0, 0)

  /** The one store that requests ownership. */
  datatype Store = Store(port: Port, value: Word)

  /** The support word last seen after n polls that all found the BIOS holding on. */
  function Held(support: Word, n: nat): Word
    requires BiosOwned(support)
  {
    if n == 0 then support else Requested(support)
  }

  /** After `out.polls` polls the BIOS still holds on. */
  ghost predicate Waiting(out: Handoff, events: seq<Event>, store: Store, support: Word, collected: nat) {
    && BiosOwned(support) && out.polls <= HANDOFF_POLLS && out == Handoff(1, out.polls, Held(support, out.polls), 0)
    && Writes(events) == [Write(store.port, store.value, true)] && Delays(events) == out.polls
    && Reads(events) <= collected + out.polls
  }

  /** What each status says about the result record of a run that issued the store. */
  ghost predicate Outcome(status: HandoffStatus, out: Handoff, support: Word)
    requires BiosOwned(support)
  {
    match status
    case Observed =>
      1 <= out.polls && out == Handoff(1, out.polls, HandedOver(support), out.control) && out.control != ALL_ONES
    case WriteFailed => out == Handoff(1, 0, support, 0)
    case DelayLost => out.polls < HANDOFF_POLLS && out == Handoff(1, out.polls, Held(support, out.polls), 0)
    case PollFailed => 1 <= out.polls && out == Handoff(1, out.polls, Held(support, out.polls - 1), 0)
    case Changed =>
      && 1 <= out.polls && out == Handoff(1, out.polls, out.support, 0)
      && (Plain(out.support) != Plain(support) || !Bit(out.support, OS_OWNED))
    case Timeout => out == Handoff(1, HANDOFF_POLLS, Requested(support), 0)
    case Final => 1 <= out.polls && out == Handoff(1, out.polls, out.support, 0) && Plain(out.support) == Plain(support)
    case _ => false
  }

  /** The result and log of every run: at most one store, 100 delays, and two collections plus 100
      reads. `support` is the legacy-support word of the list found at the start. */
  ghost predicate HandoffRun(status: HandoffStatus, out: Handoff, events: seq<Event>, store: Store, support: Word,
                             collected: nat)
  {
    && Delays(events) <= HANDOFF_POLLS && Reads(events) <= 2 * collected + HANDOFF_POLLS && out.polls <= HANDOFF_POLLS
    && if status in {Refresh, Drift, Initial} then out == NO_HANDOFF && Writes(events) == []
       else && BiosOwned(support) && Outcome(status, out, support)
            && Writes(events) == [Write(store.port, store.value, status != WriteFailed)]
  }

  /** A controller whose firmware has been asked and lets go during the last of `left` delays. */
  ghost predicate Serving(p: Platform, port: Port, support: Word, left: nat, also: map<Port, Word>)
    reads p`words, p`firmware
  {
    && p.faithful && BiosOwned(support) && left >= 1 && p.firmware == Holding(port, BIOS_OWNED, left, also)
    && p.Peek(port) == Requested(support) && port !in also
  }

  /** Ownership is observed at exactly the poll after which the firmware let go, or not in time. */
  ghost predicate Progress(status: HandoffStatus, out: Handoff, delays: nat, control: Word) {
    if delays <= HANDOFF_POLLS then status == Observed && out.polls == delays && out.control == control
    else status == Timeout && out.polls == HANDOFF_POLLS
  }

  /** The words that pass the polls' checks, and how the firmware gets from one to the other. */
  lemma OwnershipFacts(support: Word)
    requires BiosOwned(support)
    ensures Clear(Requested(support), BIOS_OWNED) == HandedOver(support)
    ensures Plain(Requested(support)) == Plain(support) == Plain(HandedOver(support))
    ensures Bit(Requested(support), OS_OWNED) && Bit(Requested(support), BIOS_OWNED)
    ensures Bit(HandedOver(support), OS_OWNED) && !Bit(HandedOver(support), BIOS_OWNED)
  {
    HandedBits(support);
    OwnershipPlain(support);
    assert Clear(Requested(support), BIOS_OWNED) == HandedOver(support);
  }

  /** Link and identifier lie in the low half. */
  lemma HalfDecides(a: Word, b: Word)
    requires Low16(a) == Low16(b)
    ensures Link(a) == Link(b) && Low8(a) == Low8(b)
  {
    HalfFields(a);
    HalfFields(b);
  }

  lemma HalfFields(a: Word)
    ensures Link(a) == Low16(a) / 0x100 && Low8(a) == Low16(a) % 0x100
  {
    var q, low := a / 0x1_0000, a % 0x1_0000;
    Divides(a, 0x100, q * 0x100 + low / 0x100, low % 0x100);
    Divides(q * 0x100 + low / 0x100, 0x100, q, low / 0x100);
  }

  lemma HalvesKept(support: Word)
    requires BiosOwned(support)
    ensures Low16(Requested(support)) == Low16(HandedOver(support)) == Low16(support)
  {
  }

  /** The list with another support word. */
  function Replaced(s: Legacy, raw: Word): Legacy {
    s.(headers := seq(|s.headers|, i requires 0 <= i < |s.headers| =>
      if s.headers[i].offset == s.offset then Cap(s.offset, raw) else s.headers[i]))
  }

  /** It agrees with the original up to the ownership bits when the words do. */
  lemma ReplacedAgrees(s: Legacy, support: Word, raw: Word)
    requires SupportIs(s, support) && Apart(s.headers) && |s.headers| <= CAPACITY && Plain(raw) == Plain(support)
    ensures Agrees(s, Replaced(s, raw), OWNERSHIP) && SupportIs(Replaced(s, raw), raw)
  {
    hide Plain, SameWord;
    var r := Replaced(s, raw);
    forall i | 0 <= i < |s.headers| ensures EntryAgrees(s.headers[i], r.headers[i], s.offset, OWNERSHIP) {
      if s.headers[i].offset == s.offset {
        SupportUnique(s.headers, s.headers[i], Cap(s.offset, support));
        SameOwnership(s.headers[i].raw, raw);
      } else {
        SameExactly(s.headers[i].raw, s.headers[i].raw);
      }
    }
    var k :| 0 <= k < |s.headers| && s.headers[k] == Cap(s.offset, support);
    assert r.headers[k] == Cap(s.offset, raw);
  }

  datatype Step = Continue | LetGo | Stop(status: HandoffStatus)

  /** One poll: a delay, one read of the support word, and its evaluation. */
  method PollOnce(p: Platform, port: Port, support: Word, before: Handoff, ghost store: Store, ghost events: seq<Event>,
                  ghost collected: nat, ghost left: nat, ghost also: map<Port, Word>, ghost ready: bool)
    returns (step: Step, out: Handoff, ghost added: seq<Event>)
    requires Waiting(before, events, store, support, collected) && before.polls < HANDOFF_POLLS
    requires ready ==> Serving(p, port, support, left, also)
    modifies p`log, p`words, p`firmware
    ensures p.log == old(p.log) + added && added != [] && added[0].Delay? && added[0].ms == 10
    ensures step == Continue ==>
      Waiting(out, events + added, store, support, collected) && out.polls == before.polls + 1
    ensures step == LetGo ==> Released(out, events + added, store, support, collected) && out.polls == before.polls + 1
    ensures step.Stop? ==> HandoffRun(step.status, out, events + added, store, support, collected)
    ensures step.Stop? ==> step.status in {DelayLost, PollFailed, Changed}
    ensures ready ==>
      if left > 1 then step == Continue && Serving(p, port, support, left - 1, also) && p.words == old(p.words)
      else step == LetGo && p.words == old(p.words)[port := HandedOver(support)] + also
  {
    hide Writes, Delays, Reads, Plain, Clear, Bit;
    OwnershipFacts(support);
    out := before;
    var ok := p.WaitFirmware(HANDOFF_DELAY_MS);
    added := [Delay(HANDOFF_DELAY_MS, ok)];
    AppendEffect(events, Delay(HANDOFF_DELAY_MS, ok));
    if !ok { return Stop(DelayLost), out, added; }
    out := out.(polls := before.polls + 1);
    var raw;
    ok, raw := p.ReadDword(port);
    ghost var e := Read(port, if ok then Some(raw) else None);
    AppendReads(events + added, [e]);
    assert events + added + [e] == events + (added + [e]);
    added := added + [e];
    if !ok { return Stop(PollFailed), out, added; }
    out := out.(support := raw);
    if Plain(raw) != Plain(support) || !Bit(raw, OS_OWNED) { return Stop(Changed), out, added; }
    OwnershipWords(support, raw);
    step := if Bit(raw, BIOS_OWNED) then Continue else LetGo;
  }

  /** After a poll that found the BIOS bit clear. */
  ghost predicate Released(out: Handoff, events: seq<Event>, store: Store, support: Word, collected: nat) {
    && BiosOwned(support) && 1 <= out.polls <= HANDOFF_POLLS && out == Handoff(1, out.polls, HandedOver(support), 0)
    && Writes(events) == [Write(store.port, store.value, true)] && Delays(events) == out.polls
    && Reads(events) <= collected + out.polls
  }

  /** A closing collection ends the run. */
  lemma Close(out: Handoff, events: seq<Event>, store: Store, support: Word, collected: nat, closing: seq<Event>,
              status: HandoffStatus, out': Handoff)
    requires Released(out, events, store, support, collected) && OnlyReads(closing) && |closing| <= collected
    requires (status == Final || status == Observed) && Outcome(status, out', support) && out'.polls == out.polls
    ensures HandoffRun(status, out', events + closing, store, support, collected)
  {
    AppendReads(events, closing);
  }

  /** Starting the run: a collection, then the store. */
  lemma Open(opening: seq<Event>, store: Store, support: Word, collected: nat, ok: bool)
    requires OnlyReads(opening) && |opening| <= collected && BiosOwned(support)
    ensures
      var events := opening + [Write(store.port, store.value, ok)];
      if ok then Waiting(Handoff(1, 0, support, 0), events, store, support, collected)
      else HandoffRun(WriteFailed, Handoff(1, 0, support, 0), events, store, support, collected)
  {
    OnlyReadsTrace(opening);
    AppendEffect(opening, Write(store.port, store.value, ok));
  }

  /** A run that stopped before the store. */
  lemma Refused(status: HandoffStatus, opening: seq<Event>, store: Store, support: Word, collected: nat)
    requires OnlyReads(opening) && |opening| <= collected && status in {Refresh, Drift, Initial}
    ensures HandoffRun(status, NO_HANDOFF, opening, store, support, collected)
  {
    OnlyReadsTrace(opening);
  }

  /** Same offsets throughout, and the legacy-support word unchanged outside its ownership bits. */
  ghost predicate SupportKept(a: Legacy, b: Legacy) {
    && |a.headers| == |b.headers| && a.offset == b.offset
    && forall i :: 0 <= i < |a.headers| ==>
         && a.headers[i].offset == b.headers[i].offset
         && (a.headers[i].offset == a.offset ==> Plain(a.headers[i].raw) == Plain(b.headers[i].raw))
  }

  lemma AgreesKeeps(a: Legacy, b: Legacy)
    requires Agrees(a, b, OWNERSHIP)
    ensures SupportKept(a, b)
  {
    forall i | 0 <= i < |a.headers|
      ensures a.headers[i].offset == b.headers[i].offset
      ensures a.headers[i].offset == a.offset ==> Plain(a.headers[i].raw) == Plain(b.headers[i].raw)
    {
      assert EntryAgrees(a.headers[i], b.headers[i], a.offset, OWNERSHIP);
      SameOwnership(a.headers[i].raw, b.headers[i].raw);
    }
  }

  /** Every entry at the legacy offset of the closing list must show the handoff. */
  method ConfirmSupport(first: Legacy, last: Legacy, support: Word, before: Handoff) returns (ok: bool, out: Handoff)
    requires BiosOwned(support) && SupportIs(first, support) && Apart(first.headers) && Apart(last.headers)
    requires before.support == HandedOver(support) && SupportKept(first, last)
    ensures out == before.(support := out.support) && Plain(out.support) == Plain(support)
    ensures if ok then out.support == HandedOver(support) else out.support != HandedOver(support)
    ensures SupportIs(last, out.support)
  {
    out, ok := before, false;
    OwnershipPlain(support);
    ghost var k :| 0 <= k < |first.headers| && first.headers[k] == Cap(first.offset, support);
    for j := 0 to |last.headers|
      invariant out == before.(support := HandedOver(support))
      invariant k < j ==> Cap(last.offset, HandedOver(support)) in last.headers
    {
      if last.headers[j].offset == first.offset {
        assert j == k && last.headers[j] == Cap(last.offset, last.headers[j].raw);
        HandedBits(support);
        out := out.(support := last.headers[j].raw);
        if !Bit(out.support, OS_OWNED) || Bit(out.support, BIOS_OWNED) { return false, out; }
        OwnershipWords(support, out.support);
      }
    }
    ok := true;
  }

  lemma HandedBits(support: Word)
    requires BiosOwned(support)
    ensures Bit(HandedOver(support), OS_OWNED) && !Bit(HandedOver(support), BIOS_OWNED)
  {
  }

  lemma OwnershipPlain(support: Word)
    requires BiosOwned(support)
    ensures Plain(HandedOver(support)) == Plain(support)
  {
    assert Plain(support) == support - BIOS_OWNED;
    assert Clear(HandedOver(support), BIOS_OWNED) == HandedOver(support);
  }
}
