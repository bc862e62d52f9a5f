/** Four-level paging (section 4.5 of the Intel SDM, volume 3A) over the eleven-page root that
    covers the first 16 MiB with 4 KiB leaves. Entries are 64-bit words, held as naturals. */
module Paging {
  import opened Arithmetic

  const LEAVES: nat := 4096
  const PT_PAGES: nat := 8
  const ROOT_PAGES: nat := 11

  /** The 48 translated bits of a linear address. */
  type LinearAddress = a: int | 0 <= a < 0x1_0000_0000_0000

  /** Physical memory: page address to the page's words. */
  type Memory = map<nat, seq<nat>>

  // ---------------------------------------------------------------- entry fields

  predicate Bit(word: nat, weight: nat)
    requires weight > 0
  {
    word / weight % 2 == 1
  }

  /** The bit of a word given by the parts above, at and below it. */
  lemma BitAt(word: nat, weight: nat, above: nat, bit: nat, below: nat)
    requires below < weight && bit <= 1 && word == (2 * above + bit) * weight + below
    ensures Bit(word, weight) <==> bit == 1
  {
    Divides(word, weight, 2 * above + bit, below);
    Divides(2 * above + bit, 2, above, bit);
  }

  const PRESENT: nat := 1
  const WRITABLE: nat := 2
  const USER: nat := 4
  const ACCESSED: nat := 0x20
  const LARGE: nat := 0x80
  const NX: nat := 0x8000_0000_0000_0000

  predicate Present(entry: nat) {
    entry % 2 == 1
  }

  /** Bits 51..12: the frame number. */
  function Frame(entry: nat): nat {
    entry / 0x1000 % 0x100_0000_0000
  }

  /** An entry without the Accessed bit, which the processor sets on its own. */
  function Settled(entry: nat): nat {
    if Bit(entry, ACCESSED) then entry - ACCESSED else entry
  }

  /** `address | 7`: a present, writable, user entry. */
  function Link(address: nat): nat {
    address - address % 8 + 7
  }

  /** The rights one entry grants; the walk intersects them over the four levels. */
  datatype Rights = Rights(writable: bool, user: bool, executable: bool) {
    function And(other: Rights): Rights {
      Rights(writable && other.writable, user && other.user, executable && other.executable)
    }
  }

  const ALL_RIGHTS: Rights := Rights(true, true, true)

  function Grants(entry: nat): Rights {
    Rights(Bit(entry, WRITABLE), Bit(entry, USER), !Bit(entry, NX))
  }

  // ---------------------------------------------------------------- the hardware walk

  datatype Translation =
    | Fault
    | Large(entry: nat)
    | Page(frame: nat, rights: Rights)

  function Fetch(mem: Memory, table: nat, index: nat): nat {
    if table in mem && index < |mem[table]| then mem[table][index] else 0
  }

  /** The four table indices encoded in a linear address, top level first. */
  function Path(va: LinearAddress): seq<nat> {
    [va / 0x80_0000_0000, va / 0x4000_0000 % 512, va / 0x20_0000 % 512, va / 0x1000 % 512]
  }

  function Walk(mem: Memory, cr3: nat, va: LinearAddress): Translation {
    WalkFrom(mem, Frame(cr3), ALL_RIGHTS, Path(va))
  }

  /** The walk below the table in one frame; bit 7 selects a large page at the two middle levels. */
  function WalkFrom(mem: Memory, frame: nat, rights: Rights, path: seq<nat>): Translation
    requires 1 <= |path| <= 4
    decreases |path|
  {
    var entry := Fetch(mem, frame * 0x1000, path[0]);
    if !Present(entry) then Fault
    else if |path| == 1 then Page(Frame(entry), rights.And(Grants(entry)))
    else if |path| < 4 && Bit(entry, LARGE) then Large(entry)
    else WalkFrom(mem, Frame(entry), rights.And(Grants(entry)), path[1..])
  }

  // ---------------------------------------------------------------- roots

  /** Address of the k-th page of a root stored at `address`. */
  function PageAddress(address: nat, k: nat): nat {
    address + 0x1000 * k
  }

  /** Page aligned, and all eleven pages inside the 52-bit physical address space. */
  ghost predicate Placed(address: nat) {
    address % 0x1000 == 0 && address + 0x1000 * ROOT_PAGES <= 0x10_0000_0000_0000
  }

  /** The contents of one complete root. */
  datatype Root = Root(pml4: seq<nat>, pdpt: seq<nat>, pd: seq<nat>, pt: seq<nat>) {
    ghost predicate Shaped() {
      |pml4| == |pdpt| == |pd| == 512 && |pt| == LEAVES
    }

    ghost function PageContents(k: nat): seq<nat>
      requires Shaped() && k < ROOT_PAGES
    {
      if k == 0 then pml4 else if k == 1 then pdpt else if k == 2 then pd
      else pt[(k - 3) * 512..(k - 2) * 512]
    }

    /** `mem` holds the eleven pages from `address` on; every other page is arbitrary. */
    ghost predicate StoredAt(mem: Memory, address: nat)
      requires Shaped()
    {
      forall k: nat :: k < ROOT_PAGES ==>
        PageAddress(address, k) in mem && mem[PageAddress(address, k)] == PageContents(k)
    }

    /** The hierarchy above the leaves of a root at `address`, up to the Accessed bits. */
    ghost predicate Linked(address: nat)
      requires Shaped()
    {
      && Settled(pml4[0]) == Link(PageAddress(address, 1))
      && Settled(pdpt[0]) == Link(PageAddress(address, 2))
      && (forall i :: 1 <= i < 512 ==> pml4[i] == 0)
      && (forall i :: 1 <= i < 512 ==> pdpt[i] == 0)
      && (forall i :: 0 <= i < PT_PAGES ==> Settled(pd[i]) == Link(PageAddress(address, 3 + i)))
      && (forall i :: PT_PAGES <= i < 512 ==> Settled(pd[i]) == 0)
    }

    /** The same in numbers: every linking entry is its table's address plus 7 or plus 27 (hexadecimal), the
        other page-directory entries are 0 or 20, everything else is 0. */
    ghost predicate Words(address: nat)
      requires Shaped()
    {
      && Linking(pml4[0], address + 0x1000) && Linking(pdpt[0], address + 0x2000)
      && (forall i :: 1 <= i < 512 ==> pml4[i] == 0)
      && (forall i :: 1 <= i < 512 ==> pdpt[i] == 0)
      && (forall i :: 0 <= i < 8 ==> Linking(pd[i], address + 0x3000 + 0x1000 * i))
      && (forall i :: 8 <= i < 512 ==> pd[i] == 0 || pd[i] == 0x20)
    }

    /** As the builder leaves it: no entry has been used by the processor yet. */
    ghost predicate Fresh(address: nat)
      requires Shaped()
    {
      && pml4[0] == address + 0x1007 && pdpt[0] == address + 0x2007
      && (forall i :: 1 <= i < 512 ==> pml4[i] == 0)
      && (forall i :: 1 <= i < 512 ==> pdpt[i] == 0)
      && (forall i :: 0 <= i < 8 ==> pd[i] == address + 0x3007 + 0x1000 * i)
      && (forall i :: 8 <= i < 512 ==> pd[i] == 0)
    }

    /** A linked root, resident in memory at a usable address. */
    ghost predicate Resident(mem: Memory, address: nat) {
      Placed(address) && Shaped() && Linked(address) && StoredAt(mem, address)
    }
  }

  /** An entry that links to `table`: present, writable, user, with or without Accessed, and nothing else. */
  predicate Linking(entry: nat, table: nat) {
    entry == table + 7 || entry == table + 0x27
  }

  lemma SettledExactly(entry: nat, table: nat)
    requires table % 0x1000 == 0
    ensures Settled(entry) == Link(table) <==> Linking(entry, table)
    ensures Settled(entry) == 0 <==> entry == 0 || entry == 0x20
  {
    hide Bit;
    var q := table / 0x1000;
    assert Link(table) == table + 7;
    BitAt(table + 7, ACCESSED, q * 0x40, 0, 7);
    BitAt(table + 0x27, ACCESSED, q * 0x40, 1, 7);
    BitAt(0, ACCESSED, 0, 0, 0);
    BitAt(0x20, ACCESSED, 0, 1, 0);
  }

  lemma LinkedExactly(root: Root, address: nat)
    requires root.Shaped() && address % 0x1000 == 0
    ensures root.Linked(address) <==> root.Words(address)
  {
    hide Settled, Link, Linking;
    SettledExactly(root.pml4[0], address + 0x1000);
    SettledExactly(root.pdpt[0], address + 0x2000);
    forall i: nat | i < 512
      ensures Settled(root.pd[i]) == Link(PageAddress(address, 3 + i)) <==>
              Linking(root.pd[i], address + 0x3000 + 0x1000 * i)
      ensures Settled(root.pd[i]) == 0 <==> root.pd[i] == 0 || root.pd[i] == 0x20
    {
      SettledExactly(root.pd[i], address + 0x3000 + 0x1000 * i);
    }
  }

  lemma FreshLinked(root: Root, address: nat)
    requires root.Shaped() && address % 0x1000 == 0 && root.Fresh(address)
    ensures root.Linked(address)
  {
    LinkedExactly(root, address);
  }

  /** Between the two the processor has set Accessed in some entries that it can have used. */
  ghost predicate Used(before: Root, after: Root) {
    && before.Shaped() && after.Shaped() && before.pt == after.pt
    && MayUse(before.pml4[0], after.pml4[0]) && before.pml4[1..] == after.pml4[1..]
    && MayUse(before.pdpt[0], after.pdpt[0]) && before.pdpt[1..] == after.pdpt[1..]
    && forall i :: 0 <= i < 512 ==> MayUse(before.pd[i], after.pd[i])
  }

  predicate MayUse(before: nat, after: nat) {
    after == before || (before / 0x20 % 2 == 0 && after == before + 0x20)
  }

  /** Use by the processor makes no difference to the links. */
  lemma UsedStaysLinked(before: Root, after: Root, address: nat)
    requires Used(before, after)
    ensures before.Linked(address) <==> after.Linked(address)
  {
    hide Settled, MayUse, Link;
    UsedSettles(before.pml4[0], after.pml4[0]);
    UsedSettles(before.pdpt[0], after.pdpt[0]);
    forall i | 1 <= i < 512 ensures before.pml4[i] == after.pml4[i] && before.pdpt[i] == after.pdpt[i] {
      assert before.pml4[1..][i - 1] == after.pml4[1..][i - 1];
      assert before.pdpt[1..][i - 1] == after.pdpt[1..][i - 1];
    }
    forall i | 0 <= i < 512 ensures Settled(before.pd[i]) == Settled(after.pd[i]) {
      UsedSettles(before.pd[i], after.pd[i]);
    }
  }

  lemma UsedSettles(before: nat, after: nat)
    requires MayUse(before, after)
    ensures Settled(before) == Settled(after)
  {
    if after != before {
      Divides(after, 0x20, before / 0x20 + 1, before % 0x20);
    }
  }

  /** What one leaf grants when every ancestor grants everything. */
  function LeafTranslation(leaf: nat): Translation {
    if !Present(leaf) then Fault else Page(Frame(leaf), Grants(leaf))
  }

  // ---------------------------------------------------------------- every walk is one leaf lookup

  /** A present table entry that grants everything and points at `frame`. */
  ghost predicate Leads(entry: nat, frame: nat) {
    Frame(entry) == frame && Present(entry) && !Bit(entry, LARGE) && Grants(entry) == ALL_RIGHTS
  }

  lemma TableEntry(entry: nat, frame: nat)
    requires frame < 0x100_0000_0000 && Settled(entry) == Link(frame * 0x1000)
    ensures Leads(entry, frame)
  {
    assert Link(frame * 0x1000) == frame * 0x1000 + 7;
    if Bit(entry, ACCESSED) {
      EntryFields(frame, 0x27);
    } else {
      EntryFields(frame, 7);
    }
  }

  lemma EntryFields(frame: nat, low: nat)
    requires frame < 0x100_0000_0000 && (low == 7 || low == 0x27)
    ensures Leads(frame * 0x1000 + low, frame)
  {
    hide Bit;
    var entry := frame * 0x1000 + low;
    Divides(entry, 0x1000, frame, low);
    Divides(frame, 0x100_0000_0000, 0, frame);
    Divides(entry, 2, frame * 0x800 + low / 2, 1);
    BitAt(entry, WRITABLE, frame * 0x400 + low / 4, 1, 1);
    BitAt(entry, USER, frame * 0x200 + low / 8, 1, 3);
    BitAt(entry, LARGE, frame * 0x10, 0, low);
    BitAt(entry, NX, 0, 0, entry);
  }

  lemma AbsentEntry(entry: nat)
    requires Settled(entry) == 0
    ensures !Present(entry)
  {
  }

  lemma PathIndices(va: LinearAddress)
    ensures forall i :: 0 <= i < 4 ==> Path(va)[i] < 512
    ensures va < 0x100_0000 <==> Path(va)[0] == 0 && Path(va)[1] == 0 && Path(va)[2] < PT_PAGES
    ensures va < 0x100_0000 ==> va / 0x1000 == Path(va)[2] * 512 + Path(va)[3]
  {
  }

  /** One level: an entry that grants everything leaves only the walk below it. */
  lemma Descend(mem: Memory, frame: nat, contents: seq<nat>, path: seq<nat>, next: nat)
    requires frame * 0x1000 in mem && mem[frame * 0x1000] == contents
    requires 2 <= |path| <= 4 && path[0] < |contents| && Leads(contents[path[0]], next)
    ensures WalkFrom(mem, frame, ALL_RIGHTS, path) == WalkFrom(mem, next, ALL_RIGHTS, path[1..])
  {
  }

  lemma Stop(mem: Memory, frame: nat, contents: seq<nat>, path: seq<nat>)
    requires frame * 0x1000 in mem && mem[frame * 0x1000] == contents
    requires 1 <= |path| <= 4 && path[0] < |contents|
    ensures !Present(contents[path[0]]) ==> WalkFrom(mem, frame, ALL_RIGHTS, path) == Fault
    ensures |path| == 1 ==> WalkFrom(mem, frame, ALL_RIGHTS, path) == LeafTranslation(contents[path[0]])
  {
  }

  /** The page directory and the page tables below it. */
  lemma WalkDirectory(mem: Memory, root: Root, address: nat, i2: nat, i1: nat)
    requires root.Resident(mem, address) && i2 < 512 && i1 < 512
    ensures WalkFrom(mem, address / 0x1000 + 2, ALL_RIGHTS, [i2, i1]) ==
            if i2 < PT_PAGES then LeafTranslation(root.pt[i2 * 512 + i1]) else Fault
  {
    var path, frame := [i2, i1], address / 0x1000;
    assert PageAddress(address, 2) == (frame + 2) * 0x1000;
    if i2 < PT_PAGES {
      assert PageAddress(address, 3 + i2) == (frame + 3 + i2) * 0x1000;
      TableEntry(root.pd[i2], frame + 3 + i2);
      Descend(mem, frame + 2, root.PageContents(2), path, frame + 3 + i2);
      assert path[1..] == [i1];
      Stop(mem, frame + 3 + i2, root.PageContents(3 + i2), [i1]);
    } else {
      AbsentEntry(root.pd[i2]);
      Stop(mem, frame + 2, root.PageContents(2), path);
    }
  }

  /** The page-directory-pointer table: only its first entry is present. */
  lemma WalkPointers(mem: Memory, root: Root, address: nat, i3: nat, i2: nat, i1: nat)
    requires root.Resident(mem, address) && i3 < 512 && i2 < 512 && i1 < 512
    ensures WalkFrom(mem, address / 0x1000 + 1, ALL_RIGHTS, [i3, i2, i1]) ==
            if i3 == 0 && i2 < PT_PAGES then LeafTranslation(root.pt[i2 * 512 + i1]) else Fault
  {
    var path, frame := [i3, i2, i1], address / 0x1000;
    assert PageAddress(address, 1) == (frame + 1) * 0x1000;
    if i3 == 0 {
      assert PageAddress(address, 2) == (frame + 2) * 0x1000;
      TableEntry(root.pdpt[0], frame + 2);
      Descend(mem, frame + 1, root.PageContents(1), path, frame + 2);
      assert path[1..] == [i2, i1];
      WalkDirectory(mem, root, address, i2, i1);
    } else {
      Stop(mem, frame + 1, root.PageContents(1), path);
    }
  }

  lemma WalkTop(mem: Memory, root: Root, address: nat, i4: nat, i3: nat, i2: nat, i1: nat)
    requires root.Resident(mem, address) && i4 < 512 && i3 < 512 && i2 < 512 && i1 < 512
    ensures WalkFrom(mem, address / 0x1000, ALL_RIGHTS, [i4, i3, i2, i1]) ==
            if i4 == 0 && i3 == 0 && i2 < PT_PAGES then LeafTranslation(root.pt[i2 * 512 + i1]) else Fault
  {
    var path, frame := [i4, i3, i2, i1], address / 0x1000;
    assert PageAddress(address, 0) == frame * 0x1000;
    if i4 == 0 {
      assert PageAddress(address, 1) == (frame + 1) * 0x1000;
      TableEntry(root.pml4[0], frame + 1);
      Descend(mem, frame, root.PageContents(0), path, frame + 1);
      assert path[1..] == [i3, i2, i1];
      WalkPointers(mem, root, address, i3, i2, i1);
    } else {
      Stop(mem, frame, root.PageContents(0), path);
    }
  }

  /** From every linear address, the walk of a resident root is a lookup of one leaf; nothing
      is reachable at or above 16 MiB. */
  lemma WalkReadsOneLeaf(mem: Memory, root: Root, address: nat, va: LinearAddress)
    requires root.Resident(mem, address)
    ensures Walk(mem, address, va) ==
            if va < 0x100_0000 then LeafTranslation(root.pt[va / 0x1000]) else Fault
  {
    hide WalkFrom, LeafTranslation;
    PathIndices(va);
    WalkTop(mem, root, address, Path(va)[0], Path(va)[1], Path(va)[2], Path(va)[3]);
  }
}
