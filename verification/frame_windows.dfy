/** A port holder's copy window: two roots built from one source, then re-scanned leaf by leaf. */
module FrameWindows {
  import opened Paging
  import opened CopyRoots
  import opened CopyRootBuilder

  /** `base` and `limit` bound one or two whole pages; `slot` is the first alias slot. All three
      are 64-bit unsigned integers. */
  datatype Window = Window(fetch: RootPages?, send: RootPages?, base: nat, limit: nat, slot: nat) {
    function Pages(): nat {
      (limit - base) % 0x1_0000_0000_0000_0000 / 4096
    }

    predicate GeometryOk() {
      && base % 4096 == 0 && base < limit && limit <= 0x100_0000
      && (limit - base == 4096 || limit - base == 8192)
      && slot != 0 && slot <= LEAVES && slot + Pages() <= LEAVES
    }

    /** The window's i-th frame, as a page-table word. */
    function FrameAt(i: nat): nat
      requires base <= 0x100_0000 && i < LEAVES
    {
      base / 4096 + i
    }

    function AliasAt(i: nat, writable: nat): Alias
      requires base <= 0x100_0000 && i < LEAVES
    {
      Alias(slot + i, FrameAt(i), writable)
    }
  }

  function WindowAliases(w: Window, writable: nat): (r: seq<Alias>)
    requires w.GeometryOk()
  {
    seq(w.Pages(), i requires 0 <= i < w.Pages() => w.AliasAt(i, writable))
  }

  /** The window covers n whole pages below 16 MiB, and its n slots lie behind the first leaf. */
  ghost predicate Spans(w: Window, n: nat) {
    && (n == 1 || n == 2) && w.base % 0x1000 == 0 && w.limit == w.base + 0x1000 * n && w.limit <= 0x100_0000
    && 1 <= w.slot && w.slot + n <= 4096
  }

  lemma GeometryExactly(w: Window)
    ensures w.GeometryOk() <==> exists n: nat :: Spans(w, n)
  {
    assert w.GeometryOk() ==> Spans(w, w.Pages());
  }

  /** The aliases requested for it: slot by slot its own frames, with the right to write as asked for. */
  lemma WindowMeaning(w: Window, n: nat, writable: nat)
    requires Spans(w, n)
    ensures w.GeometryOk() && w.Pages() == n && |WindowAliases(w, writable)| == n
    ensures forall i :: 0 <= i < n ==>
      var a := WindowAliases(w, writable)[i];
      a.page == w.slot + i && 0x1000 * a.frame == w.base + 0x1000 * i && a.writable == writable
  {
  }

  /** The scan's specification: `root` equals `closed` outside the alias slots, maps exactly the
      window's frames there, and `closed` maps no protected frame. */
  ghost predicate Exact(root: Root, rootAt: nat, closed: Root, closedAt: nat,
                        protected: seq<nat>, w: Window, writable: nat)
    requires w.GeometryOk()
  {
    && root.Shaped() && closed.Shaped()
    && root.Linked(rootAt) && closed.Linked(closedAt)
    && ExactLeaves(root.pt, closed.pt, protected, w, writable)
  }

  ghost predicate ExactLeaves(root: seq<nat>, closed: seq<nat>, protected: seq<nat>, w: Window, writable: nat)
    requires w.GeometryOk()
  {
    && |root| == |closed| == LEAVES
    && (forall p :: 0 <= p < LEAVES ==> !Removed(closed[p], protected))
    && (forall p :: 0 <= p < LEAVES ==> root[p] == ExpectedLeaf(closed, w, writable, p))
  }

  function ExpectedLeaf(closed: seq<nat>, w: Window, writable: nat, p: nat): nat
    requires w.GeometryOk() && p < |closed|
  {
    if w.slot <= p < w.slot + w.Pages() then AliasLeaf(w.AliasAt(p - w.slot, writable)) else closed[p]
  }

  method LeavesExact(root: RootPages, closed: RootPages, protected: seq<nat>, w: Window, writable: nat)
    returns (ok: bool)
    requires root.Valid() && closed.Valid() && w.GeometryOk()
    ensures ok <==> ExactLeaves(root.pt[..], closed.pt[..], protected, w, writable)
  {
    ghost var rootLeaves, closedLeaves := root.pt[..], closed.pt[..];
    for page := 0 to LEAVES
      invariant forall p :: 0 <= p < page ==> !Removed(closedLeaves[p], protected)
      invariant forall p :: 0 <= p < page ==> rootLeaves[p] == ExpectedLeaf(closedLeaves, w, writable, p)
    {
      var closedLeaf := closed.pt[page];
      var found := IsProtected(Frame(closedLeaf), protected);
      if Present(closedLeaf) && found {
        assert Removed(closedLeaves[page], protected);
        return false;
      }
      var leaf := root.pt[page];
      var expected := closedLeaf;
      if w.slot <= page < w.slot + w.Pages() {
        expected := AliasLeaf(w.AliasAt(page - w.slot, writable));
      }
      if leaf != expected {
        assert rootLeaves[page] != ExpectedLeaf(closedLeaves, w, writable, page);
        return false;
      }
    }
    return true;
  }

  method RootExact(root: RootPages, closed: RootPages, protected: seq<nat>, w: Window, writable: nat)
    returns (ok: bool)
    requires root.Valid() && closed.Valid() && w.GeometryOk()
    ensures ok <==> Exact(root.View(), root.address, closed.View(), closed.address, protected, w, writable)
  {
    ok := SourceAncestors(root);
    if !ok { return; }
    ok := SourceAncestors(closed);
    if !ok { return; }
    ok := LeavesExact(root, closed, protected, w, writable);
  }

  /** A build with the window's aliases always passes the scan. */
  lemma BuiltIsExact(source: Root, closed: Root, closedAt: nat, copy: Root, copyAt: nat,
                     protected: seq<nat>, w: Window, writable: nat)
    requires w.GeometryOk()
    requires Built(source, closed, closedAt, copy, copyAt, protected, WindowAliases(w, writable))
    ensures Exact(copy, copyAt, closed, closedAt, protected, w, writable)
  {
    FreshLinked(closed, closedAt);
    FreshLinked(copy, copyAt);
    var aliases := WindowAliases(w, writable);
    forall p | 0 <= p < LEAVES
      ensures !Removed(closed.pt[p], protected)
      ensures copy.pt[p] == ExpectedLeaf(closed.pt, w, writable, p)
    {
      ClosedNotRemoved(source.pt[p], protected);
      if w.slot <= p < w.slot + w.Pages() {
        assert aliases[p - w.slot].page == p;
      } else {
        assert !AliasPage(aliases, p);
      }
    }
  }

  lemma ClosedNotRemoved(leaf: nat, protected: seq<nat>)
    ensures !Removed(ClosedLeaf(leaf, protected), protected)
  {
  }

  /** Every translation of a scanned root, in terms of the closed leaves. */
  lemma ExactWalk(mem: Memory, root: Root, at: nat, closed: seq<nat>, protected: seq<nat>,
                  w: Window, writable: nat, va: LinearAddress)
    requires w.GeometryOk() && root.Resident(mem, at) && ExactLeaves(root.pt, closed, protected, w, writable)
    requires ProtectedOk(protected) && forall i :: 0 <= i < w.Pages() ==> w.FrameAt(i) in protected
    ensures
      var page, seen := va / 0x1000, Walk(mem, at, va);
      if w.slot <= page < w.slot + w.Pages()
      then seen == Page(w.FrameAt(page - w.slot), Rights(writable != 0, false, false))
      else if page < LEAVES then seen == LeafTranslation(closed[page])
      else seen == Fault
  {
    WalkReadsOneLeaf(mem, root, at, va);
    var page := va / 0x1000;
    if page < LEAVES {
      assert root.pt[page] == ExpectedLeaf(closed, w, writable, page);
      if w.slot <= page < w.slot + w.Pages() {
        AliasLeafTranslation(w.AliasAt(page - w.slot, writable));
      }
    }
  }

  /** The two window roots grant the same translations everywhere, except that only the fetch
      root may write through the alias slots. */
  lemma WindowRootsDifferOnlyInWriting(mem: Memory, fetch: Root, fetchAt: nat, send: Root, sendAt: nat,
                                       closed: seq<nat>, protected: seq<nat>, w: Window, va: LinearAddress)
    requires w.GeometryOk() && fetch.Resident(mem, fetchAt) && send.Resident(mem, sendAt)
    requires ExactLeaves(fetch.pt, closed, protected, w, 1) && ExactLeaves(send.pt, closed, protected, w, 0)
    requires ProtectedOk(protected) && forall i :: 0 <= i < w.Pages() ==> w.FrameAt(i) in protected
    ensures
      var page, read, write := va / 0x1000, Walk(mem, sendAt, va), Walk(mem, fetchAt, va);
      if w.slot <= page < w.slot + w.Pages() then
        && read == Page(w.FrameAt(page - w.slot), Rights(false, false, false))
        && write == Page(w.FrameAt(page - w.slot), Rights(true, false, false))
      else
        && read == write && (read.Page? ==> read.frame !in protected)
  {
    ExactWalk(mem, fetch, fetchAt, closed, protected, w, 1, va);
    ExactWalk(mem, send, sendAt, closed, protected, w, 0, va);
    var page := va / 0x1000;
    if page < LEAVES {
      assert !Removed(closed[page], protected);
    }
  }

  /** One root cannot serve as both: the alias leaves differ in the writable bit. */
  lemma NotBothExact(root: seq<nat>, closed: seq<nat>, protected: seq<nat>, w: Window)
    requires w.GeometryOk() && ExactLeaves(root, closed, protected, w, 0)
    ensures !ExactLeaves(root, closed, protected, w, 1)
  {
    assert root[w.slot] == ExpectedLeaf(closed, w, 0, w.slot);
    assert ExpectedLeaf(closed, w, 1, w.slot) != ExpectedLeaf(closed, w, 0, w.slot);
  }

  // ---------------------------------------------------------------- building both roots

  datatype WindowStatus = WindowOk | Geometry | BuildFailed | Rebuild | Scan

  /** The counts of the first build, kept across windows. */
  class BuildRecord {
    var first: Counts
    var built: bool
  }

  lemma RetainedIsClosedPresent(source: seq<nat>, closed: seq<nat>, protected: seq<nat>)
    requires ClosedLeaves(source, closed, protected)
    ensures RetainedPages(source, protected) == PresentPages(closed)
  {
  }

  /** A scanned window root and the closed root it was built with. */
  ghost predicate WindowRoot(source: RootPages, closed: RootPages, root: RootPages,
                             protected: seq<nat>, w: Window, writable: nat)
    requires w.GeometryOk() && source.Valid() && closed.Valid() && root.Valid()
    reads source.Arrays(), closed.Arrays(), root.Arrays()
  {
    && ClosedLeaves(source.pt[..], closed.pt[..], protected)
    && Exact(root.View(), root.address, closed.View(), closed.address, protected, w, writable)
  }

  ghost function SourceCounts(source: seq<nat>, protected: seq<nat>, pages: nat): Counts {
    Counts(|protected|, |RemovedPages(source, protected)|, |RetainedPages(source, protected)|, pages)
  }

  method BuildOne(source: RootPages?, closed: RootPages?, root: RootPages?, protectedAt: nat, protected: seq<nat>,
                  w: Window, writable: nat, aliasesAt: nat, resultAt: nat) returns (outcome: Status, counts: Counts)
    requires w.GeometryOk() && resultAt != 0
    requires source != null ==> source.Valid()
    requires closed != null ==> closed.Valid()
    requires root != null ==> root.Valid()
    requires Separate(source, closed) && Separate(source, root) && Separate(closed, root)
    modifies Owned(closed), Owned(root)
    ensures outcome == old(Verdict(source, closed, root, protectedAt, protected, aliasesAt,
                                   WindowAliases(w, writable), resultAt))
    ensures outcome == Ok ==>
      && source != null && closed != null && root != null && source != closed && source != root
      && source.View() == old(source.View())
      && WindowRoot(source, closed, root, protected, w, writable)
      && counts == SourceCounts(source.pt[..], protected, w.Pages())
  {
    hide Isolating, Exact, ProtectedOk, AliasesOk, RemovedPages, RetainedPages, PresentPages;
    var aliases := WindowAliases(w, writable);
    var result := new BuildResult(resultAt);
    outcome := BuildCopyRoots(source, closed, root, protectedAt, protected, aliasesAt, aliases, result);
    counts := result.counts;
    if outcome == Ok {
      BuiltIsExact(source.View(), closed.View(), closed.address, root.View(), root.address, protected, w, writable);
      RetainedIsClosedPresent(source.pt[..], closed.pt[..], protected);
    }
  }

  /** The comparison with the first build, then the scan. */
  method CheckOne(root: RootPages, closed: RootPages, protected: seq<nat>, w: Window, writable: nat,
                  counts: Counts, record: BuildRecord) returns (status: WindowStatus)
    requires root.Valid() && closed.Valid() && w.GeometryOk()
    modifies record
    ensures status ==
      if old(record.built) && old(record.first).(aliases := 0) != counts.(aliases := 0) then Rebuild
      else if counts.aliases != w.Pages()
           || !Exact(root.View(), root.address, closed.View(), closed.address, protected, w, writable) then Scan
      else WindowOk
    ensures record.built && record.first == if old(record.built) then old(record.first) else counts
  {
    if record.built {
      if counts.protectedCount != record.first.protectedCount
        || counts.removed != record.first.removed || counts.retained != record.first.retained {
        return Rebuild;
      }
    } else {
      record.first := counts;
      record.built := true;
    }
    var exact := RootExact(root, closed, protected, w, writable);
    status := if counts.aliases != w.Pages() || !exact then Scan else WindowOk;
  }

  /** The record is unset, or holds the counts of this source and inventory. */
  ghost predicate Consistent(record: BuildRecord, source: RootPages?, protected: seq<nat>)
    requires source != null ==> source.Valid()
    reads record, Owned(source)
  {
    record.built && source != null ==>
      record.first.(aliases := 0) == SourceCounts(source.pt[..], protected, 0)
  }

  /** One iteration of the build loop. */
  method Iteration(source: RootPages?, closed: RootPages?, root: RootPages?, protectedAt: nat, protected: seq<nat>,
                   w: Window, writable: nat, aliasesAt: nat, resultAt: nat, record: BuildRecord)
    returns (status: WindowStatus)
    requires w.GeometryOk() && resultAt != 0
    requires source != null ==> source.Valid()
    requires closed != null ==> closed.Valid()
    requires root != null ==> root.Valid()
    requires Separate(source, closed) && Separate(source, root) && Separate(closed, root)
    modifies Owned(closed), Owned(root), record
    ensures status == BuildFailed <==>
              old(Verdict(source, closed, root, protectedAt, protected, aliasesAt, WindowAliases(w, writable),
                          resultAt)) != Ok
    ensures status != BuildFailed ==>
      && source != null && closed != null && root != null
      && unchanged(Owned(source))
      && WindowRoot(source, closed, root, protected, w, writable)
      && (old(Consistent(record, source, protected)) ==>
            status == WindowOk && record.built && Consistent(record, source, protected))
  {
    hide Verdict, Exact, ClosedLeaves, RemovedPages, RetainedPages;
    var outcome, counts := BuildOne(source, closed, root, protectedAt, protected, w, writable, aliasesAt, resultAt);
    if outcome != Ok { return BuildFailed; }
    status := CheckOne(root, closed, protected, w, writable, counts, record);
  }

  /** Building the send root leaves the fetch root intact exactly when it is a different root. */
  lemma FetchRootKept(source: RootPages, closed: RootPages, closedBefore: Root, fetched: Root,
                      protected: seq<nat>, w: Window)
    requires w.GeometryOk() && w.fetch != null && w.send != null
    requires source.Valid() && closed.Valid() && w.fetch.Valid() && w.send.Valid()
    requires ClosedLeaves(source.pt[..], closedBefore.pt, protected)
    requires Exact(fetched, w.fetch.address, closedBefore, closed.address, protected, w, 1)
    requires w.fetch != w.send ==> w.fetch.View() == fetched
    requires WindowRoot(source, closed, w.send, protected, w, 0)
    ensures WindowRoot(source, closed, w.fetch, protected, w, 1) <==> w.fetch != w.send
  {
    assert closed.pt[..] == closedBefore.pt;
    if w.fetch == w.send {
      NotBothExact(w.fetch.pt[..], closed.pt[..], protected, w);
    }
  }

  /** Both roots of one window. When the record is unset or comes from the same source and
      inventory, the rebuild and scan failures cannot happen. */
  method WindowBuild(source: RootPages?, closed: RootPages?, protectedAt: nat, protected: seq<nat>,
                     w: Window, aliasesAt: nat, resultAt: nat, record: BuildRecord)
    returns (status: WindowStatus)
    requires resultAt != 0
    requires source != null ==> source.Valid()
    requires closed != null ==> closed.Valid()
    requires w.fetch != null ==> w.fetch.Valid()
    requires w.send != null ==> w.send.Valid()
    requires Separate(source, closed) && Separate(source, w.fetch) && Separate(source, w.send)
    requires Separate(closed, w.fetch) && Separate(closed, w.send) && Separate(w.fetch, w.send)
    modifies Owned(closed), Owned(w.fetch), Owned(w.send), record
    ensures !w.GeometryOk() ==> status == Geometry
    ensures w.GeometryOk() && old(Consistent(record, source, protected)) ==>
      status ==
        if old(Verdict(source, closed, w.fetch, protectedAt, protected, aliasesAt, WindowAliases(w, 1), resultAt)) == Ok
           && old(Verdict(source, closed, w.send, protectedAt, protected, aliasesAt, WindowAliases(w, 0),
                          resultAt)) == Ok
        then WindowOk else BuildFailed
    ensures status == WindowOk ==>
      && w.GeometryOk() && source != null && closed != null && w.fetch != null && w.send != null
      && source.View() == old(source.View())
      && WindowRoot(source, closed, w.send, protected, w, 0)
      && (WindowRoot(source, closed, w.fetch, protected, w, 1) <==> w.fetch != w.send)
      && (old(Consistent(record, source, protected)) ==> record.built && Consistent(record, source, protected))
  {
    hide Exact, ClosedLeaves, SourceCounts, ProtectedOk, AliasesOk, Consistent;
    if !w.GeometryOk() { return Geometry; }
    status := Iteration(source, closed, w.fetch, protectedAt, protected, w, 1, aliasesAt, resultAt, record);
    if status != WindowOk { return; }
    ghost var closedBefore, fetched := closed.View(), w.fetch.View();
    status := Iteration(source, closed, w.send, protectedAt, protected, w, 0, aliasesAt, resultAt, record);
    if status != WindowOk { return; }
    FetchRootKept(source, closed, closedBefore, fetched, protected, w);
  }
}
