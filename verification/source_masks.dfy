/** Every test that the protocols make on a register, in the masks of the source. */
module SourceMasks {
  import opened Platforms
  import opened Masks
  import opened RegisterFields
  import opened Capabilities
  import opened Observation
  import opened Pending
  import opened Semaphores
  import P = RootPort
  import B = Broadcom
  import E = Ehci
  import X = Xhci
  import H = XhciHandoff
  import S = XhciSmi
  import D = BroadcomD3
  import A = BroadcomAssign
  import C = CommandClear
  import N = Enumeration

  // ---------------------------------------------------------------- fields and masks

  lemma Everything(word: Word)
    ensures And(word, 0xffff_ffff) == word
  {
    hide And, Pow2;
    Powers();
    AndOnes(word, 32);
  }

  lemma Field(word: nat, low: nat, width: nat)
    ensures And(word, (Pow2(width) - 1) * Pow2(low)) == word / Pow2(low) % Pow2(width) * Pow2(low)
  {
    FieldMask(word, low, width);
  }

  /** The mask 0010ffff of the Command register and the capability-list bit. */
  lemma CommandMask(word: Word)
    ensures And(word, 0x0010_ffff) == (if HasList(word) then 0x0010_0000 else 0) + Low16(word)
  {
    hide And, Pow2, High, Low;
    Powers();
    var high := High(word, 16);
    AndSplit(word, 0x0010_ffff, 16);
    Parts(word, 16);
    Parts(0x0010_ffff, 16);
    AndOnes(Low(word, 16), 16);
    MorePowers();
    Field(high, 4, 1);
    ListBit(word, high);
  }

  lemma ListBit(word: Word, high: nat)
    requires high == word / 0x1_0000
    ensures HasList(word) <==> high / 16 % 2 == 1
  {
    assert word / 0x10_0000 == high / 16;
  }

  /** What a mask keeps and what its complement keeps add up to the word. */
  lemma {:induction false} Complement(a: nat, mask: nat, n: nat)
    requires a < Pow2(n) && mask < Pow2(n)
    ensures And(a, mask) + And(a, Pow2(n) - 1 - mask) == a
  {
    hide And;
    if n == 0 {
      NothingMasked();
    } else {
      var rest := Pow2(n) - 1 - mask;
      Complement(a / 2, mask / 2, n - 1);
      Halved(rest, mask, n);
      AndBits(a, mask);
      AndBits(a, rest);
      OneBit(a, mask, rest);
    }
  }

  lemma NothingMasked()
    ensures And(0, 0) == 0
  {
  }

  lemma Halved(rest: nat, mask: nat, n: nat)
    requires n > 0 && mask < Pow2(n) && rest == Pow2(n) - 1 - mask
    ensures rest / 2 == Pow2(n - 1) - 1 - mask / 2 && rest % 2 == 1 - mask % 2
  {
  }

  lemma OneBit(a: nat, mask: nat, rest: nat)
    requires rest % 2 == 1 - mask % 2
    ensures BothOdd(a, mask) + BothOdd(a, rest) == a % 2
  {
  }

  // ---------------------------------------------------------------- capability lists

  lemma ArgumentsExactly(h: Header)
    ensures ArgumentsOk(h) <==>
            h.bdf.device <= 31 && h.bdf.fn <= 7 && And(h.words[3] / 0x1_0000, 0x7f) <= 1
            && And(h.words[0], 0xffff) != 0xffff
    ensures Layout(h) == And(h.words[3] / 0x1_0000, 0x7f)
    ensures Head(h) == if And(h.words[1], 0x0010_0000) != 0 then And(h.words[13], 0xff) else 0
  {
    hide And, Pow2;
    Powers();
    FieldsAreMasks(h.words[0]);
    FieldsAreMasks(h.words[1]);
    FieldsAreMasks(h.words[13]);
    Field(h.words[3] / 0x1_0000, 0, 7);
  }

  const IDENTITY: seq<(nat, nat)> := [(0, 0xffff_ffff), (4, 0x0010_0000), (12, 0x00ff_0000), (52, 0xff)]

  /** The four identity checks: which word, under which mask. */
  lemma IdentityExactly(h: Header, i: nat, value: Word)
    requires i < 4
    ensures CHECKED[i] == IDENTITY[i].0
    ensures CheckPasses(h, i, value) <==>
            And(value, IDENTITY[i].1) == And(h.words[IDENTITY[i].0 / 4], IDENTITY[i].1)
  {
    hide And, Pow2, HasList;
    Powers();
    var word := h.words[IDENTITY[i].0 / 4];
    Everything(value);
    Everything(word);
    ListMask(value);
    ListMask(word);
    Field(value, 16, 8);
    Field(word, 16, 8);
    Field(value, 0, 8);
    Field(word, 0, 8);
  }

  lemma ListMask(word: Word)
    ensures And(word, 0x0010_0000) == if HasList(word) then 0x0010_0000 else 0
  {
    hide And, Pow2;
    Powers();
    Field(word, 20, 1);
  }

  // ---------------------------------------------------------------- observed capabilities

  lemma ExpressExactly(h: Header, cap: Cap)
    ensures
      var flags, layout := cap.raw / 0x1_0000, And(h.words[3] / 0x1_0000, 0x7f);
      var version, kind := And(flags, 15), And(flags / 16, 15);
      ExpressShape(h, cap) <==>
        && (version == 1 || version == 2) && And(flags, 0xc000) == 0 && cap.offset <= 244
        && ((layout == 0 && (kind == 0 || kind == 1) && And(flags, 0x100) == 0) || (layout == 1 && kind == 4))
  {
    hide And, Pow2;
    Powers();
    var flags := cap.raw / 0x1_0000;
    ArgumentsExactly(h);
    Field(flags, 0, 4);
    Field(flags / 16, 0, 4);
    Field(flags, 14, 2);
    Field(flags, 8, 1);
    assert Pow2(4) == 16 && Pow2(2) == 4 && Pow2(14) == 0x4000 by { MorePowers(); }
  }

  lemma MorePowers()
    ensures Pow2(2) == 4 && Pow2(4) == 16 && Pow2(5) == 32 && Pow2(14) == 0x4000
  {
  }

  lemma PowerExactly(cap: Cap)
    ensures
      var pmc := And(cap.raw / 0x1_0000, 7);
      PowerForm(cap) <==> 1 <= pmc && pmc <= 3 && cap.offset <= 0xf8
  {
    hide And, Pow2;
    Powers();
    Field(cap.raw / 0x1_0000, 0, 3);
  }

  /** A sample counts when it is of the same capability as before, with the same device capabilities, and
      `(sample ^ prior) & ~00200000 == 0`. */
  lemma SampleExactly(prior: Express, sample: Express)
    ensures SameSample(prior, sample) <==>
      && sample.status == ExpressOk && prior.status == ExpressOk && sample.offset == prior.offset
      && sample.capabilities == prior.capabilities && SameWord(sample.control, prior.control, 0x0020_0000)
    ensures IsClear(sample.control) <==> And(sample.control, 0x0020_0000) == 0
  {
    hide SameWord, Clear, IsClear, And;
    ControlExactly(sample.control, prior.control);
  }

  lemma ControlExactly(a: Word, b: Word)
    ensures Clear(a, PENDING_BIT) == Clear(b, PENDING_BIT) <==> SameWord(a, b, 0x0020_0000)
    ensures IsClear(a) <==> And(a, 0x0020_0000) == 0
  {
    hide And, Pow2, SameUnder, AgreeOutside;
    Powers();
    SameUnderIsAgree(a, b, 0x0020_0000, 32);
    PendingMask(a, b);
    Field(a, 21, 1);
    assert Pow2(21) == 0x0020_0000 by { PendingPower(); }
  }

  lemma PendingPower()
    ensures Pow2(21) == 0x0020_0000 && Pow2(10) == 0x400
  {
    Powers();
    assert Pow2(21) == 2 * Pow2(20);
    assert Pow2(10) == 4 * Pow2(8);
  }

  lemma PendingMask(a: Word, b: Word)
    ensures AgreeOutside(a, b, 0x0020_0000, 32) <==> Clear(a, PENDING_BIT) == Clear(b, PENDING_BIT)
  {
    hide AgreeOutside, Pow2, High, Low;
    Powers();
    PendingPower();
    Parts(0x0020_0000, 21);
    AgreeSplit(a, b, 0x0020_0000, 21, 32);
    Parts(a, 21);
    Parts(b, 21);
    AgreeEverywhere(Low(a, 21), Low(b, 21), 21);
    var a', b' := High(a, 21), High(b, 21);
    Parts(1, 1);
    AgreeSplit(a', b', 1, 1, 11);
    AgreeNowhere(Low(a', 1), Low(b', 1), 1);
    Parts(a', 1);
    Parts(b', 1);
    AgreeEverywhere(High(a', 1), High(b', 1), 10);
    ClearedParts(a, a', High(a', 1), Low(a, 21));
    ClearedParts(b, b', High(b', 1), Low(b, 21));
  }

  lemma ClearedParts(a: Word, above: nat, upper: nat, low: nat)
    requires a == above * 0x0020_0000 + low && low < 0x0020_0000 && above / 2 == upper && above == a / 0x0020_0000
    ensures Clear(a, PENDING_BIT) == upper * 0x0040_0000 + low
  {
  }

  // ---------------------------------------------------------------- Broadcom and its root port

  lemma EndpointWordExactly(expected: Header, i: nat, value: Word)
    requires i < 16
    ensures
      var mask := if i == 1 then 0x0010_ffff else 0xffff_ffff;
      B.WordMatches(expected, i, value) <==> And(value, mask) == And(expected.words[i], mask)
  {
    hide And, HasList;
    Everything(value);
    Everything(expected.words[i]);
    CommandMask(value);
    CommandMask(expected.words[i]);
  }

  lemma BridgeWordExactly(expected: Header, i: nat, value: Word)
    requires i < 16
    ensures
      var mask := if i == 1 then 0x0010_ffff else if i == 7 then 0xffff else 0xffff_ffff;
      P.BridgeMatches(expected, i, value) <==> And(value, mask) == And(expected.words[i], mask)
  {
    hide And, HasList;
    Everything(value);
    Everything(expected.words[i]);
    CommandMask(value);
    CommandMask(expected.words[i]);
    FieldsAreMasks(value);
    FieldsAreMasks(expected.words[i]);
  }

  lemma RootHeaderExactly(h: Header)
    ensures P.RootPortHeader(h) <==>
            h.bdf.bus == 0 && h.bdf.device == 28 && h.bdf.fn <= 3
            && h.words[0] == 0x0f48_8086 + 0x2_0000 * h.bdf.fn && h.words[2] == 0x0604_000e
            && And(h.words[3], 0x00ff_0000) == 0x0081_0000 && And(h.words[1], 0xffff) == 7
  {
    hide And;
    FieldsAreMasks(h.words[1]);
    B.TypeByte(h.words[3]);
  }

  lemma RootSampleExactly(e: Express)
    ensures P.SampleOk(e) <==>
            e.status == ExpressOk && e.offset == 0x40 && e.capabilities == 0x8000 && And(e.control, 0xffe0_ffff) == 0
  {
    hide And, Pow2, High, Low;
    Powers();
    MorePowers();
    Complement(e.control, 0x001f_0000, 32);
    Field(e.control, 16, 5);
    SplitControl(e.control);
  }

  lemma SplitControl(control: Word)
    ensures control == control / 0x1_0000 % 32 * 0x1_0000 <==> control % 0x1_0000 == 0 && control / 0x20_0000 == 0
  {
  }

  // ---------------------------------------------------------------- the USB controllers

  lemma EhciExactly(h: Header, i: nat, raw: Word)
    requires i < 5
    ensures E.EhciHeaderOk(h) <==>
            h.bdf == Bdf(0, 29, 0) && h.words[0] == 0x0f34_8086 && h.words[2] == 0x0c03_200e
            && And(h.words[3], 0x00ff_0000) == 0 && And(h.words[1], 2) != 0 && h.words[4] == 0xd091_5000
    ensures
      var mask := if i == 1 then 2 else if i == 3 then 0x00ff_0000 else 0xffff_ffff;
      E.EhciMatches(h, i, raw) <==> And(raw, mask) == And(h.words[i], mask)
  {
    hide And, Bit;
    UsbMasks(h.words[i]);
    UsbMasks(raw);
    UsbMasks(h.words[3]);
    UsbMasks(h.words[1]);
  }

  lemma XhciWordExactly(h: Header, i: nat, raw: Word)
    requires i < 6
    ensures
      var mask := if i == 1 then 2 else if i == 3 then 0x00ff_0000 else 0xffff_ffff;
      X.XhciMatches(h, i, raw) <==> And(raw, mask) == And(h.words[i], mask)
  {
    hide And, Bit;
    UsbMasks(h.words[i]);
    UsbMasks(raw);
  }

  lemma UsbMasks(word: Word)
    ensures And(word, 2) == (if Bit(word, 2) then 2 else 0)
    ensures And(word, 0x00ff_0000) == word / 0x1_0000 % 0x100 * 0x1_0000 && And(word, 0xffff_ffff) == word
  {
    hide And, Pow2;
    Powers();
    Field(word, 1, 1);
    Field(word, 16, 8);
    Everything(word);
  }

  lemma EhciFormatExactly(caps: E.EhciCaps)
    ensures
      var length := And(caps.capbase, 0xff);
      E.EhciFormatOk(caps) <==>
        && caps.capbase / 0x1_0000 == 0x100 && And(caps.capbase, 0xff00) == 0 && length >= 16
        && And(length, 3) == 0 && And(caps.structural, 15) != 0
  {
    hide And, Pow2;
    Powers();
    MorePowers();
    Field(caps.capbase, 0, 8);
    Field(caps.capbase, 8, 8);
    Field(caps.capbase % 0x100, 0, 2);
    Field(caps.structural, 0, 4);
    assert caps.capbase % 0x100 % 4 == caps.capbase % 4;
  }

  /** The addresses an extended capability may have. */
  lemma WindowExactly(offset: nat)
    ensures X.InWindow(offset) <==> 0x8000 <= offset && offset <= 0xfffc && And(offset, 3) == 0
  {
    hide And, Pow2;
    Powers();
    MorePowers();
    Field(offset, 0, 2);
  }

  /** No bit outside e011e011; nothing but the status bits e0110000. */
  lemma SmiExactly(control: Word)
    ensures S.ReservedClear(control) <==> And(control, 0x1fee_1fee) == 0
    ensures S.OnlyStatus(control) <==> And(control, 0x1fee_ffff) == 0
  {
    hide And, Pow2, High, Low, S.SmiBits;
    Powers();
    Complement(control, 0xe011_e011, 32);
    Complement(control, 0xe011_0000, 32);
    AndSplit(control, 0xe011_e011, 16);
    AndSplit(control, 0xe011_0000, 16);
    Parts(0xe011_e011, 16);
    Parts(0xe011_0000, 16);
    Parts(control, 16);
    S.SmiBitsAreMask(Low16(control));
    S.SmiBitsAreMask(High16(control));
    NoBits(Low(control, 16));
    Complement(Low16(control), 0xe011, 16);
    Complement(High16(control), 0xe011, 16);
  }

  /** Owned by the BIOS alone: exactly bit 16 of the high half. The request sets bit 24, the release then
      clears bit 16; a poll compares everything else. */
  lemma OwnershipExactly(support: Word, raw: Word)
    ensures BiosOwned(support) <==> And(support, 0xffff_0000) == 0x0001_0000
    ensures BiosOwned(support) ==> Requested(support) == support + 0x0100_0000
    ensures BiosOwned(support) ==> HandedOver(support) == support + 0x00ff_0000
    ensures Plain(raw) == Plain(support) <==> And(raw, 0xfefe_ffff) == And(support, 0xfefe_ffff)
    ensures Bit(raw, BIOS_OWNED) <==> And(raw, 0x0001_0000) != 0
    ensures Bit(raw, OS_OWNED) <==> And(raw, 0x0100_0000) != 0
  {
    hide And, Pow2, Plain, Bit;
    Powers();
    FieldsAreMasks(support);
    PlainIsMask(raw);
    PlainIsMask(support);
    BitIsMask(raw, 16);
    BitIsMask(raw, 24);
    assert Pow2(24) == 0x100_0000 by { OwnershipPower(); }
  }

  lemma OwnershipPower()
    ensures Pow2(24) == 0x100_0000
  {
    Powers();
    assert Pow2(24) == 16 * Pow2(20);
  }

  /** What the SMI stage demands of the handoff before it. */
  lemma SmiPriorExactly(previous: Legacy, status: HandoffStatus, out: Handoff, v: H.Verify)
    ensures S.PriorOk(previous, status, out, v) <==>
      && status == Observed && out.attempted == 1 && 1 <= out.polls && out.polls <= 100 && out.support == 0x0100_0801
      && And(out.control, 0x1fee_1fee) == 0 && v == H.Verify(H.NoKind, 0, 0, 0)
      && 1 <= |previous.headers| && |previous.headers| <= 48 && previous.offset == 0x8460
  {
    hide And, S.ReservedClear;
    SmiExactly(out.control);
  }

  // ---------------------------------------------------------------- records and bounds

  /** Results start out zero, and the bounds of the loops. */
  lemma Constants()
    ensures A.NO_ASSIGN == A.Assign(A.State(0, 0, 0, 0), 0, 0, A.State(0, 0, 0, 0), 0, Quiet(0, 0), 0)
    ensures D.NO_D3 == D.D3(0, 0, 0, 0, 0, 0, 0, 0)
    ensures NO_HANDOFF == Handoff(0, 0, 0, 0) && NO_LEGACY == Legacy([], 0, 0)
    ensures E.NO_CAPS == E.EhciCaps(0, 0, 0) && X.NO_CAPS == [0, 0, 0, 0, 0, 0, 0] && S.NO_SMI == S.Smi(0, 0, 0)
    ensures Failed(Shape) == Express(Shape, 0, 0, 0) && PowerFailure(PowerShape) == Power(PowerShape, 0, 0, 0)
    ensures H.NO_VERIFY == H.Verify(H.NoKind, 0, 0, 0)
    ensures forall st :: P.Unchanged(st) == P.RootClear(st, 0, 0, 0)
    ensures CAPACITY == X.EXT_LIMIT == 48 && POLL_LIMIT == HANDOFF_POLLS == 100
    ensures DELAY_MS == HANDOFF_DELAY_MS == A.RECOVERY_MS == 10
  {
  }

  // ---------------------------------------------------------------- inventory

  lemma PresentExactly(identity: Word)
    ensures N.Answering(identity) <==> And(identity, 0xffff) != 0xffff
  {
    hide And;
    FieldsAreMasks(identity);
  }

  lemma ReadbackExactly(h: Header, word: nat, value: Word)
    requires word < 16
    ensures C.ReadbackOk(h, word, value) <==> if word == 1 then And(value, 0xffff) == 0 else value == h.words[word]
    ensures C.IsBridge(h) <==> And(h.words[3] / 0x1_0000, 0x7f) == 1
  {
    hide And;
    FieldsAreMasks(value);
    ArgumentsExactly(h);
  }
}
