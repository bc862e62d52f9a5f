/** The imperative builder: storage checks, validation, and the loops that fill both roots. */
module CopyRootBuilder {
  import opened Paging
  import opened CopyRoots

  /** One root in memory: the arrays are the structure's members, stored from `address` on. */
  class RootPages {
    const address: nat
    const pml4: array<nat>
    const pdpt: array<nat>
    const pd: array<nat>
    const pt: array<nat>

    ghost predicate Valid() {
      && pml4.Length == pdpt.Length == pd.Length == 512 && pt.Length == LEAVES
      && pml4 != pdpt && pml4 != pd && pdpt != pd
    }

    ghost function Arrays(): set<array<nat>> {
      {pml4, pdpt, pd, pt}
    }

    ghost function View(): (root: Root)
      requires Valid()
      reads pml4, pdpt, pd, pt
      ensures root.Shaped()
    {
      Root(pml4[..], pdpt[..], pd[..], pt[..])
    }
  }

  class BuildResult {
    const at: nat
    var counts: Counts

    constructor (at: nat)
      ensures this.at == at
    {
      this.at := at;
      counts := Counts(0, 0, 0, 0);
    }
  }

  /** The address of a result record, zero for a null pointer. */
  function AddressOf(result: BuildResult?): nat {
    if result == null then 0 else result.at
  }

  /** Distinct roots own distinct arrays. */
  ghost predicate Separate(a: RootPages?, b: RootPages?) {
    a != null && b != null && a != b ==> a.Arrays() !! b.Arrays()
  }

  ghost function Owned(root: RootPages?): set<object> {
    if root == null then {} else root.Arrays()
  }

  // ---------------------------------------------------------------- storage ranges

  predicate RangesDisjoint(left: nat, leftBytes: nat, right: nat, rightBytes: nat) {
    || leftBytes == 0 || rightBytes == 0
    || (if left <= right then right - left >= leftBytes else left - right >= rightBytes)
  }

  predicate Covers(start: nat, bytes: nat, address: nat) {
    start <= address < start + bytes
  }

  /** The address comparison decides exactly whether two byte ranges share no byte. */
  lemma RangesDisjointExact(left: nat, leftBytes: nat, right: nat, rightBytes: nat)
    ensures RangesDisjoint(left, leftBytes, right, rightBytes) <==>
            forall a: nat :: !(Covers(left, leftBytes, a) && Covers(right, rightBytes, a))
  {
    var a := if left <= right then right else left;
    assert !RangesDisjoint(left, leftBytes, right, rightBytes) ==>
        Covers(left, leftBytes, a) && Covers(right, rightBytes, a);
  }

  predicate RootsUsable(source: RootPages?, closed: RootPages?, copy: RootPages?, resultAt: nat) {
    && source != null && closed != null && copy != null && resultAt != 0
    && source.address % 4096 == 0 && closed.address % 4096 == 0 && copy.address % 4096 == 0
    && RangesDisjoint(source.address, ROOT_BYTES, closed.address, ROOT_BYTES)
    && RangesDisjoint(source.address, ROOT_BYTES, copy.address, ROOT_BYTES)
    && RangesDisjoint(closed.address, ROOT_BYTES, copy.address, ROOT_BYTES)
    && RangesDisjoint(source.address, ROOT_BYTES, resultAt, RESULT_BYTES)
    && RangesDisjoint(closed.address, ROOT_BYTES, resultAt, RESULT_BYTES)
    && RangesDisjoint(copy.address, ROOT_BYTES, resultAt, RESULT_BYTES)
  }

  /** A read-only input at `at` overlaps no output. */
  predicate InputDisjoint(closed: RootPages, copy: RootPages, resultAt: nat, at: nat, bytes: nat) {
    && RangesDisjoint(closed.address, ROOT_BYTES, at, bytes)
    && RangesDisjoint(copy.address, ROOT_BYTES, at, bytes)
    && RangesDisjoint(resultAt, RESULT_BYTES, at, bytes)
  }

  // ---------------------------------------------------------------- validation loops

  method IsProtected(frame: nat, protected: seq<nat>) returns (found: bool)
    ensures found <==> frame in protected
  {
    for i := 0 to |protected|
      invariant frame !in protected[..i]
    {
      if protected[i] == frame { return true; }
    }
    return false;
  }

  method ZeroAfterFirst(words: array<nat>) returns (ok: bool)
    requires words.Length == 512
    ensures ok <==> forall i :: 1 <= i < 512 ==> words[..][i] == 0
  {
    for i := 1 to 512
      invariant forall j :: 1 <= j < i ==> words[j] == 0
    {
      if words[i] != 0 {
        assert words[..][i] != 0;
        return false;
      }
    }
    return true;
  }

  method DirectoryLinked(pd: array<nat>, address: nat) returns (ok: bool)
    requires pd.Length == 512
    ensures ok <==>
      && (forall i :: 0 <= i < PT_PAGES ==> Settled(pd[..][i]) == Link(PageAddress(address, 3 + i)))
      && (forall i :: PT_PAGES <= i < 512 ==> Settled(pd[..][i]) == 0)
  {
    for i := 0 to 512
      invariant forall j :: 0 <= j < i && j < PT_PAGES ==> Settled(pd[j]) == Link(PageAddress(address, 3 + j))
      invariant forall j :: PT_PAGES <= j < i ==> Settled(pd[j]) == 0
    {
      var expected := if i < PT_PAGES then Link(PageAddress(address, 3 + i)) else 0;
      if Settled(pd[i]) != expected {
        assert pd[..][i] == pd[i];
        return false;
      }
    }
    return true;
  }

  method SourceAncestors(root: RootPages) returns (ok: bool)
    requires root.Valid()
    ensures ok <==> root.View().Linked(root.address)
    ensures root.address % 0x1000 == 0 ==> (ok <==> root.View().Words(root.address))
  {
    if root.address % 0x1000 == 0 { LinkedExactly(root.View(), root.address); }
    if Settled(root.pml4[0]) != Link(PageAddress(root.address, 1))
      || Settled(root.pdpt[0]) != Link(PageAddress(root.address, 2)) { return false; }
    ok := ZeroAfterFirst(root.pml4);
    if !ok { return; }
    ok := ZeroAfterFirst(root.pdpt);
    if !ok { return; }
    ok := DirectoryLinked(root.pd, root.address);
  }

  method CheckProtected(protected: seq<nat>) returns (ok: bool)
    ensures ok <==> ProtectedOk(protected)
  {
    if |protected| == 0 || |protected| > MAX_PROTECTED { return false; }
    for i := 0 to |protected|
      invariant forall k :: 0 <= k < i ==> protected[k] < 0x100_0000_0000
      invariant forall k, j :: 0 <= j < k < i ==> protected[k] != protected[j]
    {
      if protected[i] >= 0x100_0000_0000 { return false; }
      for j := 0 to i
        invariant forall k :: 0 <= k < j ==> protected[i] != protected[k]
      {
        if protected[i] == protected[j] { return false; }
      }
    }
    return true;
  }

  method CheckAliases(source: RootPages, protected: seq<nat>, aliases: seq<Alias>) returns (ok: bool)
    requires source.Valid()
    ensures ok <==> AliasesOk(source.pt[..], protected, aliases)
  {
    for i := 0 to |aliases|
      invariant forall k :: 0 <= k < i ==> AliasOk(source.pt[..], protected, aliases[k])
      invariant forall k, j :: 0 <= j < k < i ==>
                  aliases[k].page != aliases[j].page && aliases[k].frame != aliases[j].frame
    {
      var a := aliases[i];
      var found := IsProtected(a.frame, protected);
      if a.page >= LEAVES || a.writable > 1 || source.pt[a.page] != 0 || !found {
        assert !AliasOk(source.pt[..], protected, aliases[i]);
        return false;
      }
      for j := 0 to i
        invariant forall k :: 0 <= k < j ==> a.page != aliases[k].page && a.frame != aliases[k].frame
      {
        if a.page == aliases[j].page || a.frame == aliases[j].frame { return false; }
      }
    }
    return true;
  }

  // ---------------------------------------------------------------- filling

  method LinkHierarchy(root: RootPages)
    requires root.Valid() && root.address % 0x1000 == 0
    modifies root.pml4, root.pdpt, root.pd
    ensures root.View().Fresh(root.address)
  {
    for i := 0 to 512
      invariant forall j :: 0 <= j < i ==> root.pml4[j] == 0
      invariant forall j :: 0 <= j < i ==> root.pdpt[j] == 0
      invariant forall j :: 0 <= j < i ==> root.pd[j] == 0
    {
      root.pml4[i] := 0;
      root.pdpt[i] := 0;
      root.pd[i] := 0;
    }
    root.pml4[0] := Link(PageAddress(root.address, 1));
    root.pdpt[0] := Link(PageAddress(root.address, 2));
    for i := 0 to PT_PAGES
      invariant forall j :: 0 <= j < i ==> root.pd[j] == Link(PageAddress(root.address, 3 + j))
      invariant forall j :: i <= j < 512 ==> root.pd[j] == 0
      invariant root.pml4[0] == Link(PageAddress(root.address, 1))
      invariant root.pdpt[0] == Link(PageAddress(root.address, 2))
      invariant forall j :: 1 <= j < 512 ==> root.pml4[j] == 0
      invariant forall j :: 1 <= j < 512 ==> root.pdpt[j] == 0
    {
      root.pd[i] := Link(PageAddress(root.address, 3 + i));
    }
    forall k: nat | k < ROOT_PAGES ensures Link(PageAddress(root.address, k)) == PageAddress(root.address, k) + 7 {
      assert PageAddress(root.address, k) % 0x1000 == 0;
    }
  }

  predicate Retained(leaf: nat, protected: seq<nat>) {
    Present(leaf) && !Removed(leaf, protected)
  }

  /** Present leaves that survive. */
  ghost function RetainedPages(pt: seq<nat>, protected: seq<nat>): set<int> {
    set p | 0 <= p < |pt| && Retained(pt[p], protected)
  }

  lemma RemovedStep(pt: seq<nat>, protected: seq<nat>, n: nat)
    requires n < |pt|
    ensures |RemovedPages(pt[..n + 1], protected)| ==
            |RemovedPages(pt[..n], protected)| + if Removed(pt[n], protected) then 1 else 0
  {
    var before, after := RemovedPages(pt[..n], protected), RemovedPages(pt[..n + 1], protected);
    assert after == if Removed(pt[n], protected) then before + {n} else before;
  }

  lemma RetainedStep(pt: seq<nat>, protected: seq<nat>, n: nat)
    requires n < |pt|
    ensures |RetainedPages(pt[..n + 1], protected)| ==
            |RetainedPages(pt[..n], protected)| + if Retained(pt[n], protected) then 1 else 0
  {
    var before, after := RetainedPages(pt[..n], protected), RetainedPages(pt[..n + 1], protected);
    assert after == if Retained(pt[n], protected) then before + {n} else before;
  }

  /** The running counters over the first n leaves. */
  ghost function Tally(pt: seq<nat>, protected: seq<nat>, n: nat): (nat, nat)
    requires n <= |pt|
  {
    if n == 0 then (0, 0)
    else
      var (removed, retained) := Tally(pt, protected, n - 1);
      if Removed(pt[n - 1], protected) then (removed + 1, retained)
      else if Present(pt[n - 1]) then (removed, retained + 1)
      else (removed, retained)
  }

  lemma {:induction false} TallyCounts(pt: seq<nat>, protected: seq<nat>, n: nat)
    requires n <= |pt|
    ensures Tally(pt, protected, n) ==
            (|RemovedPages(pt[..n], protected)|, |RetainedPages(pt[..n], protected)|)
  {
    if n == 0 {
      assert RemovedPages(pt[..0], protected) == {} && RetainedPages(pt[..0], protected) == {};
    } else {
      TallyCounts(pt, protected, n - 1);
      RemovedStep(pt, protected, n - 1);
      RetainedStep(pt, protected, n - 1);
    }
  }

  lemma TallyTotals(source: seq<nat>, closed: seq<nat>, protected: seq<nat>)
    requires ClosedLeaves(source, closed, protected)
    ensures Tally(source, protected, |source|) == (|RemovedPages(source, protected)|, |PresentPages(closed)|)
  {
    TallyCounts(source, protected, |source|);
    assert source[..|source|] == source;
    assert RetainedPages(source, protected) == PresentPages(closed);
  }

  method FillLeaves(source: RootPages, closed: RootPages, copy: RootPages, protected: seq<nat>)
    returns (removed: nat, retained: nat)
    requires source.Valid() && closed.Valid() && copy.Valid()
    requires source.pt != closed.pt && source.pt != copy.pt && closed.pt != copy.pt
    modifies closed.pt, copy.pt
    ensures ClosedLeaves(source.pt[..], closed.pt[..], protected) && copy.pt[..] == closed.pt[..]
    ensures removed == |RemovedPages(source.pt[..], protected)|
    ensures retained == |PresentPages(closed.pt[..])|
  {
    removed, retained := 0, 0;
    ghost var leaves := source.pt[..];
    for page := 0 to LEAVES
      invariant forall p :: 0 <= p < page ==> closed.pt[p] == ClosedLeaf(leaves[p], protected)
      invariant forall p :: 0 <= p < page ==> copy.pt[p] == closed.pt[p]
      invariant (removed, retained) == Tally(leaves, protected, page)
    {
      var leaf := source.pt[page];
      var remove := IsProtected(Frame(leaf), protected);
      remove := Present(leaf) && remove;
      closed.pt[page] := if remove then 0 else leaf;
      copy.pt[page] := if remove then 0 else leaf;
      if remove {
        removed := removed + 1;
      } else if Present(leaf) {
        retained := retained + 1;
      }
    }
    TallyTotals(leaves, closed.pt[..], protected);
  }

  method InstallAliases(copy: RootPages, aliases: seq<Alias>)
    requires copy.Valid() && forall i :: 0 <= i < |aliases| ==> aliases[i].page < LEAVES
    requires forall i, j :: 0 <= j < i < |aliases| ==> aliases[i].page != aliases[j].page
    modifies copy.pt
    ensures CopyLeaves(old(copy.pt[..]), copy.pt[..], aliases)
  {
    for i := 0 to |aliases|
      invariant forall p :: 0 <= p < LEAVES && !AliasPage(aliases[..i], p) ==> copy.pt[p] == old(copy.pt[p])
      invariant forall k :: 0 <= k < i ==> copy.pt[aliases[k].page] == AliasLeaf(aliases[k])
    {
      copy.pt[aliases[i].page] := AliasLeaf(aliases[i]);
      forall p | 0 <= p < LEAVES && !AliasPage(aliases[..i + 1], p) ensures copy.pt[p] == old(copy.pt[p]) {
        assert aliases[..i + 1][i].page != p;
        assert !AliasPage(aliases[..i], p) by {
          forall k | 0 <= k < i ensures aliases[..i][k].page != p { assert aliases[..i + 1][k].page != p; }
        }
      }
    }
    assert aliases[..|aliases|] == aliases;
  }

  // ---------------------------------------------------------------- the builder

  /** The first failing check, in the order the checks are made. */
  ghost function Verdict(source: RootPages?, closed: RootPages?, copy: RootPages?,
                         protectedAt: nat, protected: seq<nat>, aliasesAt: nat, aliases: seq<Alias>,
                         resultAt: nat): Status
    requires source != null ==> source.Valid()
    reads Owned(source)
  {
    if protectedAt == 0 || aliasesAt == 0 || !RootsUsable(source, closed, copy, resultAt) then BadStorage
    else if !source.View().Linked(source.address) then BadSource
    else if !ProtectedOk(protected) then BadProtected
    else if |aliases| == 0 || |aliases| > MAX_ALIASES then BadAlias
    else if !InputDisjoint(closed, copy, resultAt, protectedAt, 8 * |protected|)
         || !InputDisjoint(closed, copy, resultAt, aliasesAt, ALIAS_BYTES * |aliases|) then BadStorage
    else if !AliasesOk(source.pt[..], protected, aliases) then BadAlias
    else Ok
  }

  /** Some byte belongs to both ranges. */
  ghost predicate Overlap(left: nat, leftBytes: nat, right: nat, rightBytes: nat) {
    exists a: nat :: Covers(left, leftBytes, a) && Covers(right, rightBytes, a)
  }

  lemma DisjointExactly(left: nat, leftBytes: nat, right: nat, rightBytes: nat)
    ensures RangesDisjoint(left, leftBytes, right, rightBytes) <==> !Overlap(left, leftBytes, right, rightBytes)
  {
    hide RangesDisjoint, Covers;
    RangesDisjointExact(left, leftBytes, right, rightBytes);
  }

  /** Page-aligned roots of eleven pages each and a record of four 64-bit words, no two of which share a byte. */
  ghost predicate OutputsApart(source: RootPages, closed: RootPages, copy: RootPages, resultAt: nat) {
    && source.address % 4096 == 0 && closed.address % 4096 == 0 && copy.address % 4096 == 0 && resultAt != 0
    && !Overlap(source.address, 45056, closed.address, 45056) && !Overlap(source.address, 45056, copy.address, 45056)
    && !Overlap(closed.address, 45056, copy.address, 45056) && !Overlap(source.address, 45056, resultAt, 32)
    && !Overlap(closed.address, 45056, resultAt, 32) && !Overlap(copy.address, 45056, resultAt, 32)
  }

  /** No output shares a byte with an input of this size. */
  ghost predicate InputApart(closed: RootPages, copy: RootPages, resultAt: nat, at: nat, bytes: nat) {
    && !Overlap(closed.address, 45056, at, bytes) && !Overlap(copy.address, 45056, at, bytes)
    && !Overlap(resultAt, 32, at, bytes)
  }

  ghost predicate FramesSound(protected: seq<nat>) {
    && 1 <= |protected| <= 16 && (forall i :: 0 <= i < |protected| ==> protected[i] < 0x100_0000_0000)
    && forall i, j :: 0 <= i < |protected| && 0 <= j < |protected| && protected[i] == protected[j] ==> i == j
  }

  /** Each alias fills a free leaf with a protected frame; no two share a leaf or a frame. */
  ghost predicate AliasesSound(leaves: seq<nat>, protected: seq<nat>, aliases: seq<Alias>)
    requires |leaves| == 4096
  {
    && (forall i :: 0 <= i < |aliases| ==>
          && aliases[i].page < 4096 && leaves[aliases[i].page] == 0 && aliases[i].frame in protected
          && (aliases[i].writable == 0 || aliases[i].writable == 1))
    && forall i, j :: 0 <= i < j < |aliases| ==>
         aliases[i].page != aliases[j].page && aliases[i].frame != aliases[j].frame
  }

  lemma OutputsExactly(source: RootPages, closed: RootPages, copy: RootPages, resultAt: nat)
    ensures RootsUsable(source, closed, copy, resultAt) <==> OutputsApart(source, closed, copy, resultAt)
  {
    hide RangesDisjoint, Overlap;
    DisjointExactly(source.address, 45056, closed.address, 45056);
    DisjointExactly(source.address, 45056, copy.address, 45056);
    DisjointExactly(closed.address, 45056, copy.address, 45056);
    DisjointExactly(source.address, 45056, resultAt, 32);
    DisjointExactly(closed.address, 45056, resultAt, 32);
    DisjointExactly(copy.address, 45056, resultAt, 32);
  }

  lemma InputExactly(closed: RootPages, copy: RootPages, resultAt: nat, at: nat, bytes: nat)
    ensures InputDisjoint(closed, copy, resultAt, at, bytes) <==> InputApart(closed, copy, resultAt, at, bytes)
  {
    hide RangesDisjoint, Overlap;
    DisjointExactly(closed.address, 45056, at, bytes);
    DisjointExactly(copy.address, 45056, at, bytes);
    DisjointExactly(resultAt, 32, at, bytes);
  }

  lemma InputsSound(leaves: seq<nat>, protected: seq<nat>, aliases: seq<Alias>)
    requires |leaves| == 4096
    ensures ProtectedOk(protected) <==> FramesSound(protected)
    ensures AliasesOk(leaves, protected, aliases) <==> AliasesSound(leaves, protected, aliases)
  {
    if AliasesSound(leaves, protected, aliases) {
      forall i | 0 <= i < |aliases| ensures AliasOk(leaves, protected, aliases[i]) { }
    }
    if AliasesOk(leaves, protected, aliases) {
      forall i | 0 <= i < |aliases|
        ensures aliases[i].page < 4096 && leaves[aliases[i].page] == 0 && aliases[i].frame in protected
                && (aliases[i].writable == 0 || aliases[i].writable == 1)
      {
        assert AliasOk(leaves, protected, aliases[i]);
      }
    }
  }

  /** The verdict in bytes and numbers: the first of these demands that fails decides. */
  lemma VerdictExactly(source: RootPages, closed: RootPages, copy: RootPages, protectedAt: nat, protected: seq<nat>,
                       aliasesAt: nat, aliases: seq<Alias>, resultAt: nat)
    requires source.Valid() && protectedAt != 0 && aliasesAt != 0
    ensures
      Verdict(source, closed, copy, protectedAt, protected, aliasesAt, aliases, resultAt) ==
        if !OutputsApart(source, closed, copy, resultAt) then BadStorage
        else if !source.View().Words(source.address) then BadSource
        else if !FramesSound(protected) then BadProtected
        else if |aliases| != 1 && |aliases| != 2 then BadAlias
        else if !InputApart(closed, copy, resultAt, protectedAt, 8 * |protected|)
                || !InputApart(closed, copy, resultAt, aliasesAt, 24 * |aliases|) then BadStorage
        else if !AliasesSound(source.pt[..], protected, aliases) then BadAlias
        else Ok
  {
    hide RootsUsable, InputDisjoint, ProtectedOk, AliasesOk, FramesSound, AliasesSound, InputApart;
    OutputsExactly(source, closed, copy, resultAt);
    if OutputsApart(source, closed, copy, resultAt) {
      LinkedExactly(source.View(), source.address);
      InputExactly(closed, copy, resultAt, protectedAt, 8 * |protected|);
      InputExactly(closed, copy, resultAt, aliasesAt, 24 * |aliases|);
      InputsSound(source.pt[..], protected, aliases);
    }
  }

  /** Accessed bits that the processor has set in the source do not change the verdict; nor, since the roots
      depend on the source's leaves only, what is built. */
  lemma UseIgnored(before: RootPages, after: RootPages, closed: RootPages?, copy: RootPages?, protectedAt: nat,
                   protected: seq<nat>, aliasesAt: nat, aliases: seq<Alias>, resultAt: nat)
    requires before.Valid() && after.Valid() && before.address == after.address
    requires Used(before.View(), after.View())
    ensures Verdict(before, closed, copy, protectedAt, protected, aliasesAt, aliases, resultAt) ==
            Verdict(after, closed, copy, protectedAt, protected, aliasesAt, aliases, resultAt)
  {
    hide ProtectedOk, AliasesOk, RangesDisjoint;
    UsedStaysLinked(before.View(), after.View(), before.address);
  }

  method Validate(source: RootPages?, closed: RootPages?, copy: RootPages?,
                  protectedAt: nat, protected: seq<nat>, aliasesAt: nat, aliases: seq<Alias>,
                  resultAt: nat) returns (status: Status)
    requires source != null ==> source.Valid()
    ensures status == Verdict(source, closed, copy, protectedAt, protected, aliasesAt, aliases, resultAt)
    ensures status == Ok ==> source != null && closed != null && copy != null && resultAt != 0
                             && source != closed && source != copy && closed != copy
  {
    if protectedAt == 0 || aliasesAt == 0 || !RootsUsable(source, closed, copy, resultAt) { return BadStorage; }
    var linked := SourceAncestors(source);
    if !linked { return BadSource; }
    var ok := CheckProtected(protected);
    if !ok { return BadProtected; }
    if |aliases| == 0 || |aliases| > MAX_ALIASES { return BadAlias; }
    if !InputDisjoint(closed, copy, resultAt, protectedAt, 8 * |protected|)
      || !InputDisjoint(closed, copy, resultAt, aliasesAt, ALIAS_BYTES * |aliases|) { return BadStorage; }
    ok := CheckAliases(source, protected, aliases);
    status := if ok then Ok else BadAlias;
  }

  method Fill(source: RootPages, closed: RootPages, copy: RootPages, protected: seq<nat>, aliases: seq<Alias>)
    returns (removed: nat, retained: nat)
    requires source.Valid() && closed.Valid() && copy.Valid()
    requires source.Arrays() !! closed.Arrays() && source.Arrays() !! copy.Arrays() && closed.Arrays() !! copy.Arrays()
    requires closed.address % 4096 == 0 && copy.address % 4096 == 0
    requires AliasesOk(source.pt[..], protected, aliases)
    modifies closed.Arrays(), copy.Arrays()
    ensures Built(source.View(), closed.View(), closed.address, copy.View(), copy.address, protected, aliases)
    ensures removed == |RemovedPages(source.pt[..], protected)|
    ensures retained == |PresentPages(closed.pt[..])|
  {
    LinkHierarchy(closed);
    ghost var closedTables := (closed.pml4[..], closed.pdpt[..], closed.pd[..]);
    LinkHierarchy(copy);
    ghost var copyTables := (copy.pml4[..], copy.pdpt[..], copy.pd[..]);
    removed, retained := FillLeaves(source, closed, copy, protected);
    assert forall i :: 0 <= i < |aliases| ==> AliasOk(source.pt[..], protected, aliases[i]);
    InstallAliases(copy, aliases);
    assert closedTables == (closed.pml4[..], closed.pdpt[..], closed.pd[..]);
    assert copyTables == (copy.pml4[..], copy.pdpt[..], copy.pd[..]);
  }

  ghost function LayoutOf(source: RootPages, closed: RootPages, copy: RootPages): Layout
    requires source.Valid() && closed.Valid() && copy.Valid()
    reads source.Arrays(), closed.Arrays(), copy.Arrays()
  {
    Layout(source.View(), source.address, closed.View(), closed.address, copy.View(), copy.address)
  }

  /** From the verdict to the walk: roots filled after a positive verdict isolate, because the checked ranges
      are disjoint, the source is linked and the frames and aliases are as demanded. */
  lemma VerdictIsolates(source: RootPages, closed: RootPages, copy: RootPages, protectedAt: nat, protected: seq<nat>,
                        aliasesAt: nat, aliases: seq<Alias>, resultAt: nat)
    requires source.Valid() && closed.Valid() && copy.Valid()
    requires Verdict(source, closed, copy, protectedAt, protected, aliasesAt, aliases, resultAt) == Ok
    requires Built(source.View(), closed.View(), closed.address, copy.View(), copy.address, protected, aliases)
    ensures LayoutOf(source, closed, copy).Placeable() ==>
              Isolating(LayoutOf(source, closed, copy), protected, aliases)
  {
    hide Built, Isolating, ProtectedOk, AliasesOk;
    if LayoutOf(source, closed, copy).Placeable() {
      BuiltIsolating(LayoutOf(source, closed, copy), protected, aliases);
    }
  }

  /** The whole build. When the three roots lie in the physical address space, success means isolation
      in every memory that holds them, and there is one. */
  method BuildCopyRoots(source: RootPages?, closed: RootPages?, copy: RootPages?,
                        protectedAt: nat, protected: seq<nat>, aliasesAt: nat, aliases: seq<Alias>,
                        result: BuildResult?) returns (status: Status)
    requires source != null ==> source.Valid()
    requires closed != null ==> closed.Valid()
    requires copy != null ==> copy.Valid()
    requires result != null ==> result.at != 0
    requires Separate(source, closed) && Separate(source, copy) && Separate(closed, copy)
    modifies Owned(closed), Owned(copy), if result == null then {} else {result}
    ensures status == old(Verdict(source, closed, copy, protectedAt, protected, aliasesAt, aliases, AddressOf(result)))
    ensures status != Ok ==>
              unchanged(Owned(closed)) && unchanged(Owned(copy)) && (result != null ==> unchanged(result))
    ensures status == Ok ==>
      && source != null && closed != null && copy != null && source != closed && source != copy && closed != copy
      && source.View() == old(source.View())
      && Built(source.View(), closed.View(), closed.address, copy.View(), copy.address, protected, aliases)
      && result.counts == Counts(|protected|, |RemovedPages(source.pt[..], protected)|,
                                 |PresentPages(closed.pt[..])|, |aliases|)
    ensures status == Ok && LayoutOf(source, closed, copy).Placeable() ==>
              Isolating(LayoutOf(source, closed, copy), protected, aliases)
  {
    hide Isolating, Built, ProtectedOk, AliasesOk, InputDisjoint, PresentPages, RemovedPages;
    status := Validate(source, closed, copy, protectedAt, protected, aliasesAt, aliases, AddressOf(result));
    if status != Ok { return; }
    var removed, retained := Fill(source, closed, copy, protected, aliases);
    result.counts := Counts(|protected|, removed, retained, |aliases|);
    VerdictIsolates(source, closed, copy, protectedAt, protected, aliasesAt, aliases, result.at);
  }
}
