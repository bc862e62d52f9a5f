/** The two ways of addressing one configuration dword, memory-mapped ECAM and the CF8 address word,
    and the fact that both present the same configuration space. */
module ConfigAccess {
  import opened Arithmetic
  import opened Platforms

  const ECAM_BASE: nat := 0xe000_0000

  /** A decoded MCFG allocation. */
  datatype Allocation = Allocation(base: nat, segment: nat, firstBus: nat, lastBus: nat)

  datatype Access = Ecam(allocation: Allocation) | Cf8

  /** One segment: 256 buses, 32 devices, eight functions, 64 dwords each. */
  predicate InSegment(bdf: Bdf, offset: nat) {
    bdf.bus <= 255 && bdf.device <= 31 && bdf.fn <= 7 && offset <= 252 && offset % 4 == 0
  }

  predicate Captured(a: Allocation) {
    a == Allocation(ECAM_BASE, 0, 0, 255)
  }

  function EcamAddress(a: Allocation, bdf: Bdf, offset: nat): (r: Option<nat>)
    ensures r.Some? <==> Captured(a) && InSegment(bdf, offset)
    ensures r.Some? ==> ECAM_BASE <= r.value < ECAM_BASE + 0x1000_0000 && r.value % 4 == 0
  {
    if a.base != ECAM_BASE || a.segment != 0 || a.firstBus != 0 || a.lastBus != 255 || bdf.bus > 255 || bdf.device > 31
       || bdf.fn > 7 || offset > 252 || offset % 4 != 0
    then None
    else Some(a.base + bdf.bus * 0x10_0000 + bdf.device * 0x8000 + bdf.fn * 0x1000 + offset)
  }

  /** The CF8 address word; its fields do not overlap, so the OR is a sum. */
  function Cf8Address(bdf: Bdf, offset: nat): (r: Option<nat>)
    requires bdf.bus <= 255 && offset <= 255
    ensures r.Some? <==> InSegment(bdf, offset)
    ensures r.Some? ==> 0x8000_0000 <= r.value < 0x8100_0000
  {
    if bdf.device >= 32 || bdf.fn >= 8 || offset % 4 != 0 then None
    else Some(0x8000_0000 + bdf.bus * 0x1_0000 + bdf.device * 0x800 + bdf.fn * 0x100 + offset)
  }

  function EcamDecode(address: nat): (Bdf, nat)
    requires address >= ECAM_BASE
  {
    var a := address - ECAM_BASE;
    (Bdf(a / 0x10_0000, a / 0x8000 % 32, a / 0x1000 % 8), a % 0x1000)
  }

  function Cf8Decode(address: nat): (Bdf, nat)
    requires address >= 0x8000_0000
  {
    var a := address - 0x8000_0000;
    (Bdf(a / 0x1_0000, a / 0x800 % 32, a / 0x100 % 8), a % 0x100)
  }

  /** The position of a function in the scan of its segment, and back. */
  function Index(bdf: Bdf): nat {
    bdf.bus * 256 + bdf.device * 8 + bdf.fn
  }

  function BdfAt(n: nat): Bdf {
    Bdf(n / 256, n / 8 % 32, n % 8)
  }

  lemma IndexRoundTrip(bdf: Bdf)
    requires bdf.device <= 31 && bdf.fn <= 7
    ensures BdfAt(Index(bdf)) == bdf
  {
    Divides(Index(bdf), 8, bdf.bus * 32 + bdf.device, bdf.fn);
    Divides(Index(bdf), 256, bdf.bus, bdf.device * 8 + bdf.fn);
    Divides(bdf.bus * 32 + bdf.device, 32, bdf.bus, bdf.device);
  }

  lemma EcamFields(q: nat, offset: nat)
    requires offset < 0x1000
    ensures
      var x := q * 0x1000 + offset;
      x / 0x1000 == q && x % 0x1000 == offset && x / 0x8000 == q / 8 && x / 0x10_0000 == q / 256
  {
    var x := q * 0x1000 + offset;
    Divides(x, 0x1000, q, offset);
    Divides(x, 0x8000, q / 8, q % 8 * 0x1000 + offset);
    Divides(x, 0x10_0000, q / 256, q % 256 * 0x1000 + offset);
  }

  lemma EcamRoundTrip(a: Allocation, bdf: Bdf, offset: nat)
    requires Captured(a) && InSegment(bdf, offset)
    ensures EcamDecode(EcamAddress(a, bdf, offset).value) == (bdf, offset)
  {
    EcamFields(Index(bdf), offset);
    IndexRoundTrip(bdf);
    var q := Index(bdf);
    assert EcamAddress(a, bdf, offset).value - ECAM_BASE == q * 0x1000 + offset;
    assert EcamDecode(ECAM_BASE + (q * 0x1000 + offset)) == (BdfAt(q), offset);
  }

  lemma Cf8Fields(q: nat, offset: nat)
    requires offset < 0x100
    ensures
      var x := q * 0x100 + offset;
      x / 0x100 == q && x % 0x100 == offset && x / 0x800 == q / 8 && x / 0x1_0000 == q / 256
  {
    var x := q * 0x100 + offset;
    Divides(x, 0x100, q, offset);
    Divides(x, 0x800, q / 8, q % 8 * 0x100 + offset);
    Divides(x, 0x1_0000, q / 256, q % 256 * 0x100 + offset);
  }

  lemma Cf8RoundTrip(bdf: Bdf, offset: nat)
    requires InSegment(bdf, offset)
    ensures Cf8Decode(Cf8Address(bdf, offset).value) == (bdf, offset)
  {
    Cf8Fields(Index(bdf), offset);
    IndexRoundTrip(bdf);
    var q := Index(bdf);
    assert Cf8Address(bdf, offset).value - 0x8000_0000 == q * 0x100 + offset;
    assert Cf8Decode(0x8000_0000 + (q * 0x100 + offset)) == (BdfAt(q), offset);
  }

  /** Where a dword is read through each mechanism. */
  function PortOf(via: Access, bdf: Bdf, offset: nat): Port
    requires InSegment(bdf, offset) && (via.Ecam? ==> Captured(via.allocation))
  {
    match via
    case Ecam(a) => Mmio(EcamAddress(a, bdf, offset).value)
    case Cf8 => Mechanism1(Cf8Address(bdf, offset).value)
  }

  predicate Usable(via: Access) {
    via.Ecam? ==> Captured(via.allocation)
  }

  /** Both encodings are injective. */
  lemma PortsDiffer(via: Access, a: Bdf, i: nat, b: Bdf, j: nat)
    requires InSegment(a, i) && InSegment(b, j) && Usable(via)
    requires PortOf(via, a, i) == PortOf(via, b, j)
    ensures a == b && i == j
  {
    if via.Ecam? {
      EcamRoundTrip(via.allocation, a, i);
      EcamRoundTrip(via.allocation, b, j);
    } else {
      Cf8RoundTrip(a, i);
      Cf8RoundTrip(b, j);
    }
  }

  /** A configuration space, independent of how it is reached. */
  type Space = (Bdf, nat) -> Word

  /** The platform's memory shows this space through this mechanism. */
  ghost predicate Presents(p: Platform, via: Access, space: Space)
    reads p`words
  {
    Usable(via) && forall bdf, offset | InSegment(bdf, offset) :: p.Peek(PortOf(via, bdf, offset)) == space(bdf, offset)
  }

  /** Every dword of the segment. */
  ghost predicate Shown(words: map<Port, Word>, via: Access, space: Space)
    requires Usable(via)
  {
    forall bdf, offset | InSegment(bdf, offset) ::
      PortOf(via, bdf, offset) in words && words[PortOf(via, bdf, offset)] == space(bdf, offset)
  }

  ghost function Dwords(): set<(Bdf, nat)> {
    set b, d, f, w | 0 <= b < 256 && 0 <= d < 32 && 0 <= f < 8 && 0 <= w < 64 :: (Bdf(b, d, f), 4 * w)
  }

  lemma DwordsAll(bdf: Bdf, offset: nat)
    ensures (bdf, offset) in Dwords() <==> InSegment(bdf, offset)
  {
    if InSegment(bdf, offset) {
      assert offset == 4 * (offset / 4);
      assert bdf == Bdf(bdf.bus, bdf.device, bdf.fn);
    }
  }

  ghost function PortAt(via: Access, at: (Bdf, nat)): Port
    requires Usable(via)
  {
    if InSegment(at.0, at.1) then PortOf(via, at.0, at.1) else Extended(0)
  }

  /** Because the encoding is injective, any space can be shown in full through either mechanism. */
  lemma SpaceShown(via: Access, space: Space) returns (words: map<Port, Word>)
    requires Usable(via)
    ensures Shown(words, via, space)
  {
    forall x, y | x in Dwords() && y in Dwords() && PortAt(via, x) == PortAt(via, y) ensures x == y {
      DwordsAll(x.0, x.1);
      DwordsAll(y.0, y.1);
      PortsDiffer(via, x.0, x.1, y.0, y.1);
    }
    words := map x | x in Dwords() :: PortAt(via, x) := space(x.0, x.1);
    forall bdf, offset | InSegment(bdf, offset)
      ensures PortOf(via, bdf, offset) in words && words[PortOf(via, bdf, offset)] == space(bdf, offset)
    {
      DwordsAll(bdf, offset);
      assert PortAt(via, (bdf, offset)) in words;
    }
  }

  /** One dword through either mechanism; an address outside the segment is refused unread. */
  method ReadVia(p: Platform, via: Access, bdf: Bdf, offset: nat, ghost space: Space, ghost ready: bool)
    returns (ok: bool, value: Word, ghost events: seq<Event>)
    requires bdf.bus <= 255 && offset <= 255
    requires ready ==> p.faithful && Presents(p, via, space)
    modifies p`log
    ensures p.log == old(p.log) + events && OnlyReads(events)
    ensures if Usable(via) && InSegment(bdf, offset)
            then events == [Read(PortOf(via, bdf, offset), if ok then Some(value) else None)]
            else !ok && events == []
    ensures ready && InSegment(bdf, offset) ==> ok && value == space(bdf, offset)
  {
    var port;
    match via {
      case Ecam(a) =>
        var address := EcamAddress(a, bdf, offset);
        if address.None? { return false, 0, []; }
        port := Mmio(address.value);
      case Cf8 =>
        var address := Cf8Address(bdf, offset);
        if address.None? { return false, 0, []; }
        port := Mechanism1(address.value);
    }
    ok, value := p.ReadDword(port);
    events := [Read(port, if ok then Some(value) else None)];
  }
}
