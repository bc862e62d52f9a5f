/** The recorded controller: its registers, its list, and the run that took it over. */
module XhciCaptured {
  import opened Platforms
  import opened Capabilities
  import opened Masks
  import opened RegisterFields
  import opened Semaphores
  import opened Xhci
  import opened XhciHandoff
  import opened XhciSmi

  const CAPTURED_CAPS: XhciCaps :=
    [0x0100_0080, 0x0700_0820, 0x8400_0054, 0x0200_000a, 0x2000_77c1, 0x3000, 0x2000]

  const CAPTURED: Legacy :=
    Legacy([Cap(0x8000, 0x0200_0802), Cap(0x8020, 0x0300_0802), Cap(0x8040, 0x0001_0cc1), Cap(0x8070, 0x0000_fcc0),
            Cap(0x8460, 0x0001_0801), Cap(0x8480, 0x0005_000a)], 0x8460, 0x2001)

  /** Its configuration header, in the source's masks. */
  ghost predicate CapturedHeader(h: Header) {
    && h.bdf == Bdf(0, 20, 0) && h.words[0] == 0x0f35_8086 && h.words[2] == 0x0c03_300e
    && And(h.words[3], 0x00ff_0000) == 0 && And(h.words[1], 2) != 0 && h.words[4] == 0xd090_0004 && h.words[5] == 0
  }

  lemma HeaderExactly(h: Header)
    ensures XhciHeaderOk(h) <==> CapturedHeader(h)
  {
    hide And, Pow2, Bit;
    Powers();
    BitIsMask(h.words[1], 1);
    FieldMask(h.words[3], 16, 8);
  }

  /** The configuration words, the registers and the list as memory. */
  function ConfigMemory(h: Header): map<Port, Word> {
    map i: nat | i < 6 :: Config(Bdf(0, 20, 0), 4 * i) := h.words[i]
  }

  function RegisterMemory(): map<Port, Word> {
    map i: nat | i < 7 :: Mmio(0xd090_0000 + 4 * i) := CAPTURED_CAPS[i]
  }

  const LIST_MEMORY: map<Port, Word> :=
    map[Extended(0xd090_8000) := 0x0200_0802, Extended(0xd090_8020) := 0x0300_0802,
        Extended(0xd090_8040) := 0x0001_0cc1, Extended(0xd090_8070) := 0x0000_fcc0,
        Extended(0xd090_8460) := 0x0001_0801, Extended(0xd090_8464) := 0x2001, Extended(0xd090_8480) := 0x0005_000a]

  function CapturedMemory(h: Header): map<Port, Word> {
    ConfigMemory(h) + RegisterMemory() + LIST_MEMORY
  }

  lemma ConfigHeld(h: Header, i: nat)
    requires i < 6
    ensures Lookup(CapturedMemory(h), Config(XHCI, 4 * i)) == h.words[i]
  {
    hide RegisterMemory, LIST_MEMORY;
    MmioOnly();
    assert Config(XHCI, 4 * i) in ConfigMemory(h);
  }

  lemma MmioOnly()
    ensures forall port :: port in RegisterMemory() ==> port.Mmio?
    ensures forall port :: port in LIST_MEMORY ==> port.Extended?
  {
  }

  lemma RegisterHeld(h: Header, i: nat)
    requires i < 7
    ensures Lookup(CapturedMemory(h), Mmio(XHCI_BAR + 4 * i)) == CAPTURED_CAPS[i]
  {
    hide ConfigMemory, LIST_MEMORY, CAPTURED_CAPS;
    MmioOnly();
    assert Mmio(XHCI_BAR + 4 * i) in RegisterMemory();
  }

  lemma EntryHeld(h: Header, i: nat)
    requires i < 6
    ensures Lookup(CapturedMemory(h), Address(CAPTURED.headers[i].offset)) == CAPTURED.headers[i].raw
    ensures Lookup(CapturedMemory(h), Address(CAPTURED.offset + 4)) == CAPTURED.control
  {
    hide ConfigMemory, RegisterMemory;
  }

  lemma CapturedPublished()
    ensures Published(CAPTURED_CAPS, CAPTURED) && SupportIs(CAPTURED, 0x1_0801) && BiosOwned(0x1_0801)
  {
    hide ChainedAt, NextAt, LegacyAt, XhciHead;
    CapturedHead();
    forall i: nat | i < 6 ensures ChainedAt(0x8000, CAPTURED.headers, i) { CapturedStep(i); }
    LegacyEntry();
  }

  lemma CapturedHead()
    ensures XhciHead(CAPTURED_CAPS) == 0x8000 && NextAt(0x8000, CAPTURED.headers, 6) == 0
  {
    assert CAPTURED.headers[5] == Cap(0x8480, 0x0005_000a);
  }

  lemma CapturedStep(i: nat)
    requires i < 6
    ensures ChainedAt(0x8000, CAPTURED.headers, i)
  {
  }

  lemma LegacyEntry()
    ensures LegacyAt(CAPTURED.headers, 0x8460) && CAPTURED.headers[4] == Cap(0x8460, 0x0001_0801)
  {
    forall i | 0 <= i < 6 ensures Legal(CAPTURED.headers[i]) { }
  }

  lemma CapturedHeld(h: Header)
    requires CapturedHeader(h)
    ensures RegistersHeld(CapturedMemory(h), h, CAPTURED_CAPS) && ListHeld(CapturedMemory(h), CAPTURED_CAPS, CAPTURED)
  {
    hide XhciHeaderOk, CapturedHeader, Published, CapturedMemory, CAPTURED_CAPS, CAPTURED;
    HeaderExactly(h);
    CapturedPublished();
    CapturedSizes();
    var words := CapturedMemory(h);
    forall i: nat | i < 6 ensures Lookup(words, Config(XHCI, 4 * i)) == h.words[i] { ConfigHeld(h, i); }
    forall i: nat | i < 7 ensures Lookup(words, Mmio(XHCI_BAR + 4 * i)) == CAPTURED_CAPS[i] { RegisterHeld(h, i); }
    forall i: nat | i < 6
      ensures Lookup(words, Address(CAPTURED.headers[i].offset)) == CAPTURED.headers[i].raw
      ensures Lookup(words, Address(CAPTURED.offset + 4)) == CAPTURED.control
    {
      EntryHeld(h, i);
    }
  }

  lemma CapturedSizes()
    ensures |CAPTURED.headers| == 6 && CAPTURED_CAPS[0] == 0x0100_0080
    ensures forall i :: 0 <= i < 7 ==> CAPTURED_CAPS[i] != ALL_ONES
  {
  }

  /** The recorded run, and with it every run in which the firmware lets go in time and the vendor entry's
      live status changes to any word that keeps bits 15:0 and bit 19: ownership is observed with support
      01000801, and then every SMI enable reads back off. The two stores are those that were recorded. */
  method CapturedRun(h: Header, delays: nat, vendor: Word)
    returns (status: HandoffStatus, handoff: Handoff, smiStatus: SmiStatus, out: Smi, ghost events: seq<Event>)
    requires CapturedHeader(h) && 1 <= delays <= 100
    requires vendor % 0x1_0000 == 0x0cc1 && vendor / 0x8_0000 % 2 == 0
    ensures status == Observed && handoff == Handoff(1, delays, 0x0100_0801, 0x2001)
    ensures smiStatus == SmiObserved && out == Smi(1, 0x2001, 0)
    ensures Writes(events) ==
            [Write(Extended(0xd090_8460), 0x0101_0801, true), Write(Extended(0xd090_8464), 0, true)]
    ensures Delays(events) <= 100 && Reads(events) <= 448
  {
    hide RegistersHeld, ListHeld, CapturedHeader, Published, CapturedMemory, Writes, Delays, Reads, Alive, BiosOwned,
      ReservedClear, SmiBits, CAPTURED_CAPS;
    var also := map[Extended(0xd090_8040) := vendor];
    var p := new Platform(true, CapturedMemory(h), Holding(Extended(0xd090_8460), 0x1_0000, delays, also));
    CapturedHeld(h);
    CapturedPublished();
    CapturedAlive(vendor);
    CapturedControl(CAPTURED.control);
    status, handoff, smiStatus, out, events := HandoffThenSmi(p, h, CAPTURED_CAPS, CAPTURED, delays, also);
  }

  lemma CapturedAlive(vendor: Word)
    requires vendor % 0x1_0000 == 0x0cc1 && vendor / 0x8_0000 % 2 == 0
    ensures Alive(CAPTURED, map[Extended(0xd090_8040) := vendor])
  {
    assert SameVendorBits(0x0001_0cc1, vendor);
    hide SameVendorBits;
    assert CAPTURED.headers[2] == Cap(0x8040, 0x0001_0cc1);
    assert VendorAt(CAPTURED, 2, Extended(0xd090_8040), vendor);
  }

  /** SMI enables 2000 and 1, no status. */
  lemma CapturedControl(control: Word)
    requires control == 0x2001
    ensures ReservedClear(control)
  {
    hide SmiBits;
    EnablesOnly(Low16(control));
    NoBitsNoSmi(High16(control));
  }

  lemma EnablesOnly(half: nat)
    requires half == 0x2001
    ensures SmiBits(half) == half
  {
  }

  lemma NoBitsNoSmi(half: nat)
    requires half == 0
    ensures SmiBits(half) == half
  {
  }
}
