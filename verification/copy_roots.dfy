/** Construction of the closed root and the copy root from one decoded source root. */
module CopyRoots {
  import opened Arithmetic
  import opened Paging

  const MAX_PROTECTED: nat := 16
  const MAX_ALIASES: nat := 2
  const ROOT_BYTES: nat := 11 * 4096
  const RESULT_BYTES: nat := 32
  const ALIAS_BYTES: nat := 24

  /** One requested alias: `page` is a leaf index, `writable` must be 0 or 1. */
  datatype Alias = Alias(page: nat, frame: nat, writable: nat)

  datatype Counts = Counts(protectedCount: nat, removed: nat, retained: nat, aliases: nat)

  datatype Status = Ok | BadStorage | BadSource | BadProtected | BadAlias

  // ---------------------------------------------------------------- what the two roots are

  predicate Removed(leaf: nat, protected: seq<nat>) {
    Present(leaf) && Frame(leaf) in protected
  }

  function ClosedLeaf(leaf: nat, protected: seq<nat>): nat {
    if Removed(leaf, protected) then 0 else leaf
  }

  function AliasLeaf(alias: Alias): nat {
    alias.frame * 0x1000 + PRESENT + NX + (if alias.writable != 0 then WRITABLE else 0)
  }

  ghost predicate ClosedLeaves(source: seq<nat>, closed: seq<nat>, protected: seq<nat>) {
    && |closed| == |source|
    && forall p :: 0 <= p < |source| ==> closed[p] == ClosedLeaf(source[p], protected)
  }

  ghost predicate CopyLeaves(closed: seq<nat>, copy: seq<nat>, aliases: seq<Alias>) {
    && |copy| == |closed|
    && (forall p :: 0 <= p < |closed| && !AliasPage(aliases, p) ==> copy[p] == closed[p])
    && (forall i :: 0 <= i < |aliases| && aliases[i].page < |copy| ==>
          copy[aliases[i].page] == AliasLeaf(aliases[i]))
  }

  /** What a successful build leaves in the two output roots, stored at `closedAt` and `copyAt`. */
  ghost predicate Built(source: Root, closed: Root, closedAt: nat, copy: Root, copyAt: nat,
                        protected: seq<nat>, aliases: seq<Alias>)
  {
    && source.Shaped() && closed.Shaped() && copy.Shaped()
    && closed.Fresh(closedAt) && copy.Fresh(copyAt) && closedAt % 0x1000 == 0 && copyAt % 0x1000 == 0
    && ClosedLeaves(source.pt, closed.pt, protected)
    && CopyLeaves(closed.pt, copy.pt, aliases)
  }

  ghost predicate AliasPage(aliases: seq<Alias>, page: int) {
    exists i :: 0 <= i < |aliases| && aliases[i].page == page
  }

  ghost predicate ProtectedOk(protected: seq<nat>) {
    && 1 <= |protected| <= MAX_PROTECTED
    && (forall i :: 0 <= i < |protected| ==> protected[i] < 0x100_0000_0000)
    && (forall i, j :: 0 <= j < i < |protected| ==> protected[i] != protected[j])
  }

  ghost predicate AliasOk(source: seq<nat>, protected: seq<nat>, alias: Alias) {
    && alias.page < |source| && alias.writable <= 1
    && source[alias.page] == 0 && alias.frame in protected
  }

  ghost predicate AliasesOk(source: seq<nat>, protected: seq<nat>, aliases: seq<Alias>) {
    && (forall i :: 0 <= i < |aliases| ==> AliasOk(source, protected, aliases[i]))
    && (forall i, j :: 0 <= j < i < |aliases| ==>
          aliases[i].page != aliases[j].page && aliases[i].frame != aliases[j].frame)
  }

  /** The source's leaves determine both roots; what the processor has marked in it does not matter. */
  lemma BuiltUnique(source: Root, closed: Root, copy: Root, source': Root, closed': Root, copy': Root, closedAt: nat,
                    copyAt: nat, protected: seq<nat>, aliases: seq<Alias>)
    requires Built(source, closed, closedAt, copy, copyAt, protected, aliases)
    requires Built(source', closed', closedAt, copy', copyAt, protected, aliases)
    requires source.pt == source'.pt
    ensures closed == closed' && copy == copy'
  {
    hide ClosedLeaf, AliasLeaf;
    FreshUnique(closed, closed', closedAt);
    FreshUnique(copy, copy', copyAt);
    assert closed.pt == closed'.pt;
    forall p | 0 <= p < LEAVES ensures copy.pt[p] == copy'.pt[p] {
      if AliasPage(aliases, p) {
        var i :| 0 <= i < |aliases| && aliases[i].page == p;
      }
    }
    assert copy.pt == copy'.pt;
  }

  lemma FreshUnique(a: Root, b: Root, at: nat)
    requires a.Shaped() && b.Shaped() && a.Fresh(at) && b.Fresh(at)
    ensures a.pml4 == b.pml4 && a.pdpt == b.pdpt && a.pd == b.pd
  {
  }

  // ---------------------------------------------------------------- isolation through the walk

  /** From every linear address the closed root reaches no protected frame, and where the source
      root reaches an unprotected frame the closed root reaches the same frame with the same
      rights. */
  lemma ClosedRootIsolates(mem: Memory, source: Root, sourceAt: nat, closed: Root, closedAt: nat,
                           protected: seq<nat>, va: LinearAddress)
    requires source.Resident(mem, sourceAt) && closed.Resident(mem, closedAt)
    requires ClosedLeaves(source.pt, closed.pt, protected)
    ensures
      var before, after := Walk(mem, sourceAt, va), Walk(mem, closedAt, va);
      && !after.Large?
      && (after.Page? ==> after.frame !in protected)
      && after == if before.Page? && before.frame in protected then Fault else before
  {
    WalkReadsOneLeaf(mem, source, sourceAt, va);
    WalkReadsOneLeaf(mem, closed, closedAt, va);
    if va < 0x100_0000 {
      ClosedLeafTranslation(source.pt[va / 0x1000], protected);
    }
  }

  lemma ClosedLeafTranslation(leaf: nat, protected: seq<nat>)
    ensures
      var before := LeafTranslation(leaf);
      LeafTranslation(ClosedLeaf(leaf, protected)) ==
        if before.Page? && before.frame in protected then Fault else before
  {
  }

  /** The copy root translates every address exactly as the closed root does, except that each
      alias page maps its alias frame, supervisor and no-execute, writable iff requested. */
  lemma CopyRootAddsOnlyAliases(mem: Memory, closed: Root, closedAt: nat, copy: Root, copyAt: nat,
                                protected: seq<nat>, aliases: seq<Alias>, va: LinearAddress)
    requires closed.Resident(mem, closedAt) && copy.Resident(mem, copyAt)
    requires CopyLeaves(closed.pt, copy.pt, aliases)
    requires ProtectedOk(protected)
    requires forall i :: 0 <= i < |aliases| ==> aliases[i].page < LEAVES && aliases[i].frame in protected
    ensures !AliasPage(aliases, va / 0x1000) ==> Walk(mem, copyAt, va) == Walk(mem, closedAt, va)
    ensures forall i :: 0 <= i < |aliases| && aliases[i].page == va / 0x1000 ==>
              Walk(mem, copyAt, va) == Page(aliases[i].frame, Rights(aliases[i].writable != 0, false, false))
  {
    WalkReadsOneLeaf(mem, closed, closedAt, va);
    WalkReadsOneLeaf(mem, copy, copyAt, va);
    forall i | 0 <= i < |aliases| && aliases[i].page == va / 0x1000
      ensures Walk(mem, copyAt, va) == Page(aliases[i].frame, Rights(aliases[i].writable != 0, false, false))
    {
      AliasLeafTranslation(aliases[i]);
    }
  }

  /** What one address may reach through the three roots: what the source reaches, the closed root reaches
      too unless it is protected, and the copy root adds its aliases. */
  ghost predicate Isolated(before: Translation, after: Translation, through: Translation, protected: seq<nat>,
                           aliases: seq<Alias>, page: int)
  {
    && after == (if before.Page? && before.frame in protected then Fault else before)
    && (if AliasPage(aliases, page)
        then exists i :: 0 <= i < |aliases| && aliases[i].page == page && before == Fault
                         && through == Page(aliases[i].frame, Rights(aliases[i].writable != 0, false, false))
        else through == after)
  }

  /** The whole promise of a successful build, at every linear address. */
  lemma BuiltRootsIsolate(mem: Memory, source: Root, sourceAt: nat, closed: Root, closedAt: nat, copy: Root,
                          copyAt: nat, protected: seq<nat>, aliases: seq<Alias>, va: LinearAddress)
    requires Built(source, closed, closedAt, copy, copyAt, protected, aliases) && source.Linked(sourceAt)
    requires ProtectedOk(protected) && AliasesOk(source.pt, protected, aliases)
    requires Placed(sourceAt) && Placed(closedAt) && Placed(copyAt)
    requires source.StoredAt(mem, sourceAt) && closed.StoredAt(mem, closedAt) && copy.StoredAt(mem, copyAt)
    ensures Isolated(Walk(mem, sourceAt, va), Walk(mem, closedAt, va), Walk(mem, copyAt, va), protected, aliases,
                     va / 0x1000)
  {
    forall i | 0 <= i < |aliases| ensures aliases[i].page < LEAVES && aliases[i].frame in protected {
      assert AliasOk(source.pt, protected, aliases[i]);
    }
    FreshLinked(closed, closedAt);
    FreshLinked(copy, copyAt);
    ClosedRootIsolates(mem, source, sourceAt, closed, closedAt, protected, va);
    CopyRootAddsOnlyAliases(mem, closed, closedAt, copy, copyAt, protected, aliases, va);
    if AliasPage(aliases, va / 0x1000) {
      var i :| 0 <= i < |aliases| && aliases[i].page == va / 0x1000;
      assert AliasOk(source.pt, protected, aliases[i]);
      WalkReadsOneLeaf(mem, source, sourceAt, va);
    }
  }

  /** Three roots and where they are stored. */
  datatype Layout = Layout(source: Root, sourceAt: nat, closed: Root, closedAt: nat, copy: Root, copyAt: nat) {
    ghost predicate Shaped() {
      source.Shaped() && closed.Shaped() && copy.Shaped()
    }

    ghost predicate Placeable() {
      Placed(sourceAt) && Placed(closedAt) && Placed(copyAt)
    }

    ghost predicate Separate() {
      Apart(sourceAt, closedAt) && Apart(sourceAt, copyAt) && Apart(closedAt, copyAt)
    }

    ghost predicate StoredIn(mem: Memory)
      requires Shaped()
    {
      source.StoredAt(mem, sourceAt) && closed.StoredAt(mem, closedAt) && copy.StoredAt(mem, copyAt)
    }
  }

  predicate Apart(a: nat, b: nat) {
    a + ROOT_BYTES <= b || b + ROOT_BYTES <= a
  }

  predicate PageAligned(address: nat, a: nat) {
    (a - address) % 0x1000 == 0
  }

  ghost function Pages(root: Root, address: nat): Memory
    requires root.Shaped()
  {
    map a: nat | address <= a < address + ROOT_BYTES && PageAligned(address, a) ::
      root.PageContents((a - address) / 0x1000)
  }

  lemma PagesAt(root: Root, address: nat)
    requires root.Shaped()
    ensures root.StoredAt(Pages(root, address), address)
  {
    forall k: nat | k < ROOT_PAGES
      ensures PageAddress(address, k) in Pages(root, address)
              && Pages(root, address)[PageAddress(address, k)] == root.PageContents(k)
    {
      Divides(PageAddress(address, k) - address, 0x1000, k, 0);
    }
  }

  lemma PagesApart(root: Root, address: nat, other: Root, otherAt: nat)
    requires root.Shaped() && other.Shaped() && Apart(address, otherAt)
    ensures Pages(root, address).Keys !! Pages(other, otherAt).Keys
  {
  }

  lemma StoredIncluded(root: Root, address: nat, part: Memory, mem: Memory)
    requires root.Shaped() && root.StoredAt(part, address)
    requires forall a :: a in part ==> a in mem && mem[a] == part[a]
    ensures root.StoredAt(mem, address)
  {
  }

  /** Disjoint roots fit into one memory together. */
  lemma MemoryExists(l: Layout) returns (mem: Memory)
    requires l.Shaped() && l.Separate()
    ensures l.StoredIn(mem)
  {
    hide Pages;
    var a, b, c := Pages(l.source, l.sourceAt), Pages(l.closed, l.closedAt), Pages(l.copy, l.copyAt);
    mem := a + b + c;
    PagesApart(l.source, l.sourceAt, l.closed, l.closedAt);
    PagesApart(l.source, l.sourceAt, l.copy, l.copyAt);
    PagesApart(l.closed, l.closedAt, l.copy, l.copyAt);
    PagesAt(l.source, l.sourceAt);
    PagesAt(l.closed, l.closedAt);
    PagesAt(l.copy, l.copyAt);
    StoredIncluded(l.source, l.sourceAt, a, mem);
    StoredIncluded(l.closed, l.closedAt, b, mem);
    StoredIncluded(l.copy, l.copyAt, c, mem);
  }

  /** Some memory holds the three roots, and every memory that does isolates them at every address. */
  ghost predicate Isolating(l: Layout, protected: seq<nat>, aliases: seq<Alias>) {
    && l.Shaped() && (exists mem :: l.StoredIn(mem))
    && forall mem, va: LinearAddress :: l.StoredIn(mem) ==>
         Isolated(Walk(mem, l.sourceAt, va), Walk(mem, l.closedAt, va), Walk(mem, l.copyAt, va), protected, aliases,
                  va / 0x1000)
  }

  lemma BuiltIsolating(l: Layout, protected: seq<nat>, aliases: seq<Alias>)
    requires Built(l.source, l.closed, l.closedAt, l.copy, l.copyAt, protected, aliases)
    requires l.source.Linked(l.sourceAt) && l.Placeable() && l.Separate()
    requires ProtectedOk(protected) && AliasesOk(l.source.pt, protected, aliases)
    ensures Isolating(l, protected, aliases)
  {
    hide Walk, Isolated, Placed, Apart, ProtectedOk, AliasesOk, ClosedLeaves, CopyLeaves;
    var some := MemoryExists(l);
    forall mem, va: LinearAddress | l.StoredIn(mem)
      ensures Isolated(Walk(mem, l.sourceAt, va), Walk(mem, l.closedAt, va), Walk(mem, l.copyAt, va), protected,
                       aliases, va / 0x1000)
    {
      BuiltRootsIsolate(mem, l.source, l.sourceAt, l.closed, l.closedAt, l.copy, l.copyAt, protected, aliases, va);
    }
  }

  lemma AliasLeafTranslation(alias: Alias)
    requires alias.frame < 0x100_0000_0000
    ensures LeafTranslation(AliasLeaf(alias)) ==
            Page(alias.frame, Rights(alias.writable != 0, false, false))
  {
    AliasFields(alias.frame, if alias.writable != 0 then WRITABLE else 0);
  }

  lemma AliasFields(frame: nat, extra: nat)
    requires frame < 0x100_0000_0000 && (extra == 0 || extra == WRITABLE)
    ensures LeafTranslation(frame * 0x1000 + PRESENT + NX + extra) ==
            Page(frame, Rights(extra != 0, false, false))
  {
    hide Bit;
    var leaf := frame * 0x1000 + PRESENT + NX + extra;
    Divides(leaf, 0x1000, frame + 0x8_0000_0000_0000, 1 + extra);
    Divides(frame + 0x8_0000_0000_0000, 0x100_0000_0000, 0x800, frame);
    Divides(leaf, 2, frame * 0x800 + 0x4000_0000_0000_0000 + extra / 2, 1);
    BitAt(leaf, WRITABLE, frame * 0x400 + 0x2000_0000_0000_0000, extra / 2, 1);
    BitAt(leaf, USER, frame * 0x200 + 0x1000_0000_0000_0000, 0, 1 + extra);
    BitAt(leaf, NX, 0, 1, frame * 0x1000 + 1 + extra);
  }

  // ---------------------------------------------------------------- conservation of leaves

  ghost function PresentPages(pt: seq<nat>): set<int> {
    set p | 0 <= p < |pt| && Present(pt[p])
  }

  ghost function RemovedPages(pt: seq<nat>, protected: seq<nat>): set<int> {
    set p | 0 <= p < |pt| && Removed(pt[p], protected)
  }

  ghost function AliasPages(aliases: seq<Alias>): set<int> {
    set i | 0 <= i < |aliases| :: aliases[i].page
  }

  /** Every present source leaf is either removed or retained, never both. */
  lemma LeavesConserved(source: seq<nat>, closed: seq<nat>, protected: seq<nat>)
    requires ClosedLeaves(source, closed, protected)
    ensures RemovedPages(source, protected) !! PresentPages(closed)
    ensures RemovedPages(source, protected) + PresentPages(closed) == PresentPages(source)
    ensures |RemovedPages(source, protected)| + |PresentPages(closed)| == |PresentPages(source)|
  {
    var removed, retained := RemovedPages(source, protected), PresentPages(closed);
    assert removed + retained == PresentPages(source);
  }

  lemma {:induction false} AliasPagesCount(aliases: seq<Alias>)
    requires forall i, j :: 0 <= j < i < |aliases| ==> aliases[i].page != aliases[j].page
    ensures |AliasPages(aliases)| == |aliases|
  {
    if aliases != [] {
      var n := |aliases| - 1;
      AliasPagesCount(aliases[..n]);
      assert AliasPages(aliases) == AliasPages(aliases[..n]) + {aliases[n].page};
    }
  }

  /** The copy root has exactly the retained leaves plus one per alias. */
  lemma CopyLeavesCounted(source: seq<nat>, closed: seq<nat>, copy: seq<nat>,
                          protected: seq<nat>, aliases: seq<Alias>)
    requires ClosedLeaves(source, closed, protected) && CopyLeaves(closed, copy, aliases)
    requires AliasesOk(source, protected, aliases)
    ensures PresentPages(copy) == PresentPages(closed) + AliasPages(aliases)
    ensures |PresentPages(copy)| == |PresentPages(closed)| + |aliases|
  {
    forall p | 0 <= p < |copy|
      ensures p in PresentPages(copy) <==> p in PresentPages(closed) || p in AliasPages(aliases)
      ensures p in AliasPages(aliases) ==> p !in PresentPages(closed)
    {
      if AliasPage(aliases, p) {
        var i :| 0 <= i < |aliases| && aliases[i].page == p;
        assert AliasOk(source, protected, aliases[i]);
        AliasPresent(aliases[i]);
      }
    }
    assert forall p :: p in AliasPages(aliases) ==> 0 <= p < |copy| by {
      forall i | 0 <= i < |aliases| ensures aliases[i].page < |copy| {
        assert AliasOk(source, protected, aliases[i]);
      }
    }
    assert PresentPages(copy) == PresentPages(closed) + AliasPages(aliases);
    AliasPagesCount(aliases);
  }

  lemma AliasPresent(alias: Alias)
    ensures Present(AliasLeaf(alias))
  {
  }
}
