/** Two parsers of the Multiboot2 information block (section 3.6 of the Multiboot2 specification):
    the boot console's and the capture tool's. */
module Multiboot {
  import opened Platforms

  type Byte = b: int | 0 <= b < 256

  const MAX_TOTAL: nat := 65536
  const FRAMEBUFFER: nat := 8

  datatype Geometry = Geometry(address: nat, pitch: nat, width: nat, height: nat, bits: nat, kind: nat)

  datatype Tag = Tag(offset: nat, kind: nat, size: nat)

  datatype Report = Report(valid: bool, tags: seq<Tag>)

  function U32(raw: seq<Byte>, o: nat): nat
    requires o + 4 <= |raw|
  {
    raw[o] as int + 0x100 * raw[o + 1] as int + 0x1_0000 * raw[o + 2] as int + 0x100_0000 * raw[o + 3] as int
  }

  /** The size rounded up to a multiple of eight. */
  function Advance(size: nat): (r: nat)
    ensures size <= r < size + 8 && r % 8 == 0
  {
    (size + 7) / 8 * 8
  }

  function GeometryAt(raw: seq<Byte>, o: nat): Geometry
    requires o + 32 <= |raw|
  {
    Geometry(U32(raw, o + 8) + 0x1_0000_0000 * U32(raw, o + 12), U32(raw, o + 16), U32(raw, o + 20),
             U32(raw, o + 24), raw[o + 28], raw[o + 29])
  }

  function TagAt(raw: seq<Byte>, o: nat): Tag
    requires o + 8 <= |raw| && o + U32(raw, o + 4) <= |raw|
  {
    Tag(o, U32(raw, o), U32(raw, o + 4))
  }

  // ---------------------------------------------------------------- the tag chain

  /** The tags from `offset` on, as far as they are well formed, and whether the chain ends with a
      terminator exactly at `total`. */
  function Chain(raw: seq<Byte>, total: nat, offset: nat): Report
    requires total <= |raw|
    decreases total - offset
  {
    if offset + 8 > total then Report(false, [])
    else
      var size := U32(raw, offset + 4);
      if size < 8 || size > total - offset || Advance(size) > total - offset then Report(false, [])
      else
        var tag := TagAt(raw, offset);
        if tag.kind == 0 then Report(size == 8 && offset + Advance(size) == total, [tag])
        else
          var rest := Chain(raw, total, offset + Advance(size));
          Report(rest.valid, [tag] + rest.tags)
  }

  /** The first tag of the chain, and the chain behind it. */
  lemma ChainHead(raw: seq<Byte>, total: nat, offset: nat)
    requires offset + 8 <= total <= |raw|
    ensures
      var kind, size := U32(raw, offset), U32(raw, offset + 4);
      var tag, end := Tag(offset, kind, size), offset + Advance(size);
      if size < 8 || end > total then Chain(raw, total, offset) == Report(false, [])
      else if kind == 0 then Chain(raw, total, offset) == Report(size == 8 && end == total, [tag])
      else Chain(raw, total, offset) ==
           Report(Chain(raw, total, end).valid, [tag] + Chain(raw, total, end).tags)
  {
    hide U32, Advance;
  }

  lemma ChainCut(raw: seq<Byte>, total: nat, offset: nat)
    requires total <= |raw| && offset + 8 > total
    ensures Chain(raw, total, offset) == Report(false, [])
  {
  }

  /** A report in two parts: the tags already met, and the rest of the chain. */
  ghost predicate Split(all: Report, before: seq<Tag>, rest: Report) {
    all == Report(rest.valid, before + rest.tags)
  }

  lemma SplitNext(all: Report, before: seq<Tag>, rest: Report, tag: Tag, next: Report)
    requires Split(all, before, rest) && rest == Report(next.valid, [tag] + next.tags)
    ensures Split(all, before + [tag], next)
  {
    assert before + ([tag] + next.tags) == (before + [tag]) + next.tags;
  }

  lemma SplitEnds(all: Report, before: seq<Tag>, rest: Report)
    requires Split(all, before, rest)
    ensures rest.tags == [] ==> all == Report(rest.valid, before)
    ensures all.valid == rest.valid && all.tags == before + rest.tags
  {
  }

  lemma SplitStart(all: Report)
    ensures Split(all, [], all)
  {
  }

  /** The same chain, stated without a traversal: consecutive 8-byte aligned tags from offset 8 to
      one terminator that ends at `total`. */
  ghost predicate IsChain(raw: seq<Byte>, total: nat, start: nat, tags: seq<Tag>)
    requires total <= |raw|
  {
    && tags != [] && tags[0].offset == start
    && (forall i :: 0 <= i < |tags| ==> IsTag(raw, total, tags[i]))
    && (forall i :: 0 <= i < |tags| - 1 ==>
          tags[i].kind != 0 && tags[i + 1].offset == tags[i].offset + Advance(tags[i].size))
    && tags[|tags| - 1].kind == 0 && tags[|tags| - 1].size == 8
    && tags[|tags| - 1].offset + 8 == total
  }

  ghost predicate IsTag(raw: seq<Byte>, total: nat, tag: Tag)
    requires total <= |raw|
  {
    && tag.offset + 8 <= total && 8 <= tag.size && tag.offset + Advance(tag.size) <= total
    && tag.size == U32(raw, tag.offset + 4) && tag == TagAt(raw, tag.offset)
  }

  lemma {:induction false} ChainSound(raw: seq<Byte>, total: nat, start: nat)
    requires total <= |raw| && Chain(raw, total, start).valid
    ensures IsChain(raw, total, start, Chain(raw, total, start).tags)
    decreases total - start
  {
    hide U32, Advance;
    var tag := TagAt(raw, start);
    if tag.kind != 0 {
      var next := start + Advance(tag.size);
      ChainSound(raw, total, next);
      ChainCons(raw, total, tag, Chain(raw, total, next).tags);
    }
  }

  lemma ChainCons(raw: seq<Byte>, total: nat, tag: Tag, rest: seq<Tag>)
    requires total <= |raw| && IsTag(raw, total, tag) && tag.kind != 0
    requires IsChain(raw, total, tag.offset + Advance(tag.size), rest)
    ensures IsChain(raw, total, tag.offset, [tag] + rest)
  {
    hide IsTag, Advance;
    var tags := [tag] + rest;
    forall i | 0 <= i < |tags| ensures IsTag(raw, total, tags[i]) {
      if i > 0 { assert tags[i] == rest[i - 1]; }
    }
    forall i | 0 <= i < |tags| - 1
      ensures tags[i].kind != 0 && tags[i + 1].offset == tags[i].offset + Advance(tags[i].size)
    {
      if i > 0 { assert tags[i] == rest[i - 1] && tags[i + 1] == rest[i]; }
    }
  }

  lemma {:induction false} ChainComplete(raw: seq<Byte>, total: nat, start: nat, tags: seq<Tag>)
    requires total <= |raw| && IsChain(raw, total, start, tags)
    ensures Chain(raw, total, start) == Report(true, tags)
    decreases |tags|
  {
    assert IsTag(raw, total, tags[0]);
    if |tags| > 1 {
      ChainComplete(raw, total, start + Advance(tags[0].size), tags[1..]);
      assert tags == [tags[0]] + tags[1..];
    }
  }

  /** A chain that starts aligned and ends in a terminator forces an aligned total. */
  lemma {:induction false} ChainAligned(raw: seq<Byte>, total: nat, start: nat)
    requires total <= |raw| && start % 8 == 0 && Chain(raw, total, start).valid
    ensures total % 8 == 0
    decreases total - start
  {
    hide U32, Advance;
    var tag := TagAt(raw, start);
    if tag.kind != 0 {
      ChainAligned(raw, total, start + Advance(tag.size));
    }
  }

  /** In an aligned block the rounded size never passes the end when the size does not. */
  lemma AdvanceCheckImplied(total: nat, offset: nat, size: nat)
    requires total % 8 == 0 && offset % 8 == 0 && offset + size <= total
    ensures offset + Advance(size) <= total
  {
  }

  // ---------------------------------------------------------------- the capture tool

  /** Little-endian number of n bytes, the way a format string unpacks it. */
  function Unpack(raw: seq<Byte>, o: nat, n: nat): nat
    requires o + n <= |raw|
    decreases n
  {
    if n == 0 then 0 else raw[o] as int + 0x100 * Unpack(raw, o + 1, n - 1)
  }

  lemma UnpackWord(raw: seq<Byte>, o: nat)
    requires o + 4 <= |raw|
    ensures Unpack(raw, o, 4) == U32(raw, o)
  {
    assert Unpack(raw, o + 3, 1) == raw[o + 3];
    assert Unpack(raw, o + 2, 2) == raw[o + 2] as int + 0x100 * Unpack(raw, o + 3, 1);
    assert Unpack(raw, o + 1, 3) == raw[o + 1] as int + 0x100 * Unpack(raw, o + 2, 2);
  }

  lemma UnpackLong(raw: seq<Byte>, o: nat)
    requires o + 8 <= |raw|
    ensures Unpack(raw, o, 8) == U32(raw, o) + 0x1_0000_0000 * U32(raw, o + 4)
  {
    UnpackWord(raw, o + 4);
    assert Unpack(raw, o + 3, 5) == raw[o + 3] as int + 0x100 * Unpack(raw, o + 4, 4);
    assert Unpack(raw, o + 2, 6) == raw[o + 2] as int + 0x100 * Unpack(raw, o + 3, 5);
    assert Unpack(raw, o + 1, 7) == raw[o + 1] as int + 0x100 * Unpack(raw, o + 2, 6);
  }

  /** One 64-bit number, three 32-bit ones and two bytes from offset o on. */
  function UnpackGeometry(raw: seq<Byte>, o: nat): Geometry
    requires o + 22 <= |raw|
  {
    Geometry(Unpack(raw, o, 8), Unpack(raw, o + 8, 4), Unpack(raw, o + 12, 4), Unpack(raw, o + 16, 4),
             Unpack(raw, o + 20, 1), Unpack(raw, o + 21, 1))
  }

  /** The two readings of a framebuffer tag are the same geometry. */
  lemma SameGeometry(raw: seq<Byte>, o: nat)
    requires o + 32 <= |raw|
    ensures UnpackGeometry(raw, o + 8) == GeometryAt(raw, o)
  {
    UnpackLong(raw, o + 8);
    UnpackWord(raw, o + 16);
    UnpackWord(raw, o + 20);
    UnpackWord(raw, o + 24);
    assert Unpack(raw, o + 28, 1) == raw[o + 28] && Unpack(raw, o + 29, 1) == raw[o + 29];
  }

  /** A tag as the capture tool reports it, with the fields it unpacks. */
  datatype Described = Described(tag: Tag, framebuffer: Option<Geometry>, memoryMap: Option<(nat, nat)>)

  datatype Description = Description(valid: bool, tags: seq<Described>)

  function Detail(raw: seq<Byte>, tag: Tag): Described {
    var inside := tag.offset + tag.size <= |raw|;
    Described(tag,
              if tag.kind == 8 && tag.size >= 32 && inside
              then Some(UnpackGeometry(raw, tag.offset + 8)) else None,
              if tag.kind == 6 && tag.size >= 16 && inside
              then Some((Unpack(raw, tag.offset + 8, 4), Unpack(raw, tag.offset + 12, 4))) else None)
  }

  function Details(raw: seq<Byte>, tags: seq<Tag>): (r: seq<Described>)
    ensures |r| == |tags|
  {
    seq(|tags|, i requires 0 <= i < |tags| => Detail(raw, tags[i]))
  }

  function Describe(raw: seq<Byte>): Report {
    if |raw| < 16 || U32(raw, 0) != |raw| || U32(raw, 4) != 0 then Report(false, [])
    else Chain(raw, |raw|, 8)
  }

  /** The report: the tags of the chain in order, each with its unpacked fields. */
  method DescribeTags(raw: seq<Byte>) returns (report: Description)
    ensures report == Description(Describe(raw).valid, Details(raw, Describe(raw).tags))
  {
    hide Details, Detail, Unpack, U32, Advance, Chain, Split;
    report := Description(false, []);
    NoDetails(raw);
    if |raw| < 16 { return; }
    UnpackWord(raw, 0);
    UnpackWord(raw, 4);
    if Unpack(raw, 0, 4) != |raw| || Unpack(raw, 4, 4) != 0 { return; }
    var offset := 8;
    ghost var rest, before: seq<Tag> := Chain(raw, |raw|, 8), [];
    SplitStart(rest);
    while offset + 8 <= |raw|
      invariant !report.valid && report.tags == Details(raw, before)
      invariant rest == Chain(raw, |raw|, offset) && Split(Describe(raw), before, rest)
      decreases |raw| - offset
    {
      UnpackWord(raw, offset);
      UnpackWord(raw, offset + 4);
      ChainHead(raw, |raw|, offset);
      SplitEnds(Describe(raw), before, rest);
      var kind, size := Unpack(raw, offset, 4), Unpack(raw, offset + 4, 4);
      if size < 8 || size > |raw| - offset { return; }
      var advance := Advance(size);
      if advance > |raw| - offset { return; }
      var tag := Tag(offset, kind, size);
      var described := DescribeTag(raw, tag);
      DetailsNext(raw, before, tag);
      if kind == 0 {
        return Description(size == 8 && offset + advance == |raw|, report.tags + [described]);
      }
      ghost var next := Chain(raw, |raw|, offset + advance);
      SplitNext(Describe(raw), before, rest, tag, next);
      report, before, rest := Description(false, report.tags + [described]), before + [tag], next;
      offset := offset + advance;
    }
    ChainCut(raw, |raw|, offset);
    SplitEnds(Describe(raw), before, rest);
  }

  lemma DetailsNext(raw: seq<Byte>, tags: seq<Tag>, tag: Tag)
    ensures Details(raw, tags + [tag]) == Details(raw, tags) + [Detail(raw, tag)]
  {
  }

  lemma NoDetails(raw: seq<Byte>)
    ensures Details(raw, []) == []
  {
  }

  /** The fields of one tag, unpacked when it is large enough to have them. */
  method DescribeTag(raw: seq<Byte>, tag: Tag) returns (d: Described)
    requires tag.offset + tag.size <= |raw|
    ensures d == Detail(raw, tag)
  {
    d := Described(tag, None, None);
    if tag.kind == FRAMEBUFFER && tag.size >= 32 {
      d := d.(framebuffer := Some(UnpackGeometry(raw, tag.offset + 8)));
    }
    if tag.kind == 6 && tag.size >= 16 {
      d := d.(memoryMap := Some((Unpack(raw, tag.offset + 8, 4), Unpack(raw, tag.offset + 12, 4))));
    }
  }

  // ---------------------------------------------------------------- the boot console

  /** Tag i is the only framebuffer tag, and large enough to hold a geometry. */
  ghost predicate SoleFramebuffer(tags: seq<Tag>, i: int) {
    && 0 <= i < |tags| && tags[i].kind == 8 && tags[i].size >= 32
    && forall j :: 0 <= j < |tags| && tags[j].kind == 8 ==> j == i
  }

  /** Exactly one framebuffer tag, and the generated surface check accepts its geometry. */
  ghost predicate Usable(raw: seq<Byte>, tags: seq<Tag>, surface: Geometry -> bool) {
    exists i :: SoleFramebuffer(tags, i) && Shows(raw, tags[i], surface)
  }

  predicate Shows(raw: seq<Byte>, tag: Tag, surface: Geometry -> bool) {
    tag.offset + 32 <= |raw| && surface(GeometryAt(raw, tag.offset))
  }

  /** What the boot parser accepts. */
  ghost predicate Accepts(info: seq<Byte>, surface: Geometry -> bool) {
    && |info| >= 16
    && var total := U32(info, 0);
    && 16 <= total <= |info| && total <= 65536 && total % 8 == 0 && U32(info, 4) == 0
    && Chain(info, total, 8).valid && Usable(info, Chain(info, total, 8).tags, surface)
  }

  /** The framebuffer tag the parser has met among the tags `before`, if any. */
  ghost predicate Collected(before: seq<Tag>, seen: bool, at: nat) {
    if seen then exists i :: SoleFramebuffer(before, i) && before[i].offset == at
    else forall j :: 0 <= j < |before| ==> before[j].kind != FRAMEBUFFER
  }

  lemma CollectedNext(before: seq<Tag>, seen: bool, at: nat, tag: Tag)
    requires Collected(before, seen, at)
    requires tag.kind == FRAMEBUFFER ==> !seen && tag.size >= 32
    ensures if tag.kind == FRAMEBUFFER then Collected(before + [tag], true, tag.offset)
            else Collected(before + [tag], seen, at)
  {
    if tag.kind == FRAMEBUFFER {
      assert SoleFramebuffer(before + [tag], |before|);
    } else if seen {
      var i :| SoleFramebuffer(before, i) && before[i].offset == at;
      assert SoleFramebuffer(before + [tag], i);
    }
  }

  /** A second framebuffer tag, or one too small, makes every continuation unusable. */
  lemma CollectedRejects(raw: seq<Byte>, before: seq<Tag>, seen: bool, at: nat, tag: Tag, rest: seq<Tag>,
                         surface: Geometry -> bool)
    requires Collected(before, seen, at) && tag.kind == FRAMEBUFFER && (seen || tag.size < 32)
    ensures !Usable(raw, before + ([tag] + rest), surface)
  {
    var tags := before + ([tag] + rest);
    assert tags[|before|] == tag;
    if seen {
      var i :| SoleFramebuffer(before, i) && before[i].offset == at;
      assert tags[i] == before[i];
    }
  }

  lemma CollectedUsable(raw: seq<Byte>, tags: seq<Tag>, seen: bool, at: nat, surface: Geometry -> bool)
    requires Collected(tags, seen, at) && (seen ==> at + 32 <= |raw|)
    ensures Usable(raw, tags, surface) <==> seen && surface(GeometryAt(raw, at))
  {
    if seen {
      var i :| SoleFramebuffer(tags, i) && tags[i].offset == at;
      assert Shows(raw, tags[i], surface) == surface(GeometryAt(raw, at));
    }
  }

  lemma NothingCollected()
    ensures Collected([], false, 0)
  {
  }

  /** The traversal of the chain, from the first tag on. */
  method ParseTags(info: seq<Byte>, total: nat, surface: Geometry -> bool)
    returns (ok: bool, out: Geometry, ghost at: nat)
    requires 16 <= total <= |info|
    ensures ok <==> Chain(info, total, 8).valid && Usable(info, Chain(info, total, 8).tags, surface)
    ensures ok ==> Collected(Chain(info, total, 8).tags, true, at) && at + 32 <= |info| && out == GeometryAt(info, at)
  {
    hide Collected, GeometryAt, Usable, U32, Advance, Chain, Split;
    NothingCollected();
    out := Geometry(0, 0, 0, 0, 0, 0);
    ok, at := false, 0;
    var offset, seen := 8, false;
    ghost var all, before: seq<Tag>, rest := Chain(info, total, 8), [], Chain(info, total, 8);
    SplitStart(all);
    while offset <= total - 8
      invariant Collected(before, seen, at)
      invariant seen ==> at + 32 <= |info| && out == GeometryAt(info, at)
      invariant rest == Chain(info, total, offset) && Split(all, before, rest)
      decreases total - offset
    {
      ChainHead(info, total, offset);
      SplitEnds(all, before, rest);
      var kind, size := U32(info, offset), U32(info, offset + 4);
      if size < 8 || size > total - offset { return; }
      var advance := Advance(size);
      if advance > total - offset { return; }
      ghost var tag := Tag(offset, kind, size);
      if kind == 0 {
        CollectedNext(before, seen, at, tag);
        CollectedUsable(info, before + [tag], seen, at, surface);
        if size != 8 || offset + advance != total || !seen { return; }
        ok := surface(out);
        return;
      }
      ghost var next := Chain(info, total, offset + advance);
      if kind == FRAMEBUFFER && (seen || size < 32) {
        CollectedRejects(info, before, seen, at, tag, next.tags, surface);
        return;
      }
      CollectedNext(before, seen, at, tag);
      if kind == FRAMEBUFFER {
        seen, at, out := true, offset, GeometryAt(info, offset);
      }
      SplitNext(all, before, rest, tag, next);
      before, rest := before + [tag], next;
      offset := offset + advance;
    }
    ChainCut(info, total, offset);
    SplitEnds(all, before, rest);
  }

  method ParseBootText(info: seq<Byte>, surface: Geometry -> bool) returns (ok: bool, out: Geometry)
    ensures ok <==> Accepts(info, surface)
    ensures ok ==> exists i :: SoleFramebuffer(Chain(info, U32(info, 0), 8).tags, i)
                     && ReadFrom(info, Chain(info, U32(info, 0), 8).tags[i], out)
  {
    out := Geometry(0, 0, 0, 0, 0, 0);
    if |info| < 16 { return false, out; }
    var total := U32(info, 0);
    if total < 16 || total > |info| || total > MAX_TOTAL || total % 8 != 0 || U32(info, 4) != 0 {
      return false, out;
    }
    ghost var at;
    ok, out, at := ParseTags(info, total, surface);
    if ok {
      ghost var tags := Chain(info, total, 8).tags;
      ghost var i :| SoleFramebuffer(tags, i) && tags[i].offset == at;
      assert ReadFrom(info, tags[i], out);
    }
  }

  predicate ReadFrom(raw: seq<Byte>, tag: Tag, g: Geometry) {
    tag.offset + 32 <= |raw| && g == GeometryAt(raw, tag.offset)
  }

  /** The report's only framebuffer tag, and the geometry stored with it. */
  ghost predicate SoleGeometry(tags: seq<Described>, i: int, g: Geometry) {
    && 0 <= i < |tags| && tags[i].tag.kind == 8 && tags[i].framebuffer == Some(g)
    && forall j :: 0 <= j < |tags| && tags[j].tag.kind == 8 ==> j == i
  }

  lemma SoleInBoth(raw: seq<Byte>, tags: seq<Tag>, i: int, g: Geometry)
    requires forall k :: 0 <= k < |tags| ==> tags[k].offset + tags[k].size <= |raw|
    ensures SoleGeometry(Details(raw, tags), i, g) <==> SoleFramebuffer(tags, i) && ReadFrom(raw, tags[i], g)
  {
    var all := Details(raw, tags);
    forall k | 0 <= k < |tags| ensures all[k].tag == tags[k] { }
    if 0 <= i < |tags| && tags[i].kind == FRAMEBUFFER && tags[i].size >= 32 {
      SameGeometry(raw, tags[i].offset);
    }
  }

  lemma {:induction false} ChainInside(raw: seq<Byte>, total: nat, start: nat)
    requires total <= |raw|
    ensures forall k :: 0 <= k < |Chain(raw, total, start).tags| ==>
      Chain(raw, total, start).tags[k].offset + Chain(raw, total, start).tags[k].size <= |raw|
    decreases total - start
  {
    if start + 8 <= total {
      var size := U32(raw, start + 4);
      if 8 <= size <= total - start && Advance(size) <= total - start && U32(raw, start) != 0 {
        ChainInside(raw, total, start + Advance(size));
      }
    }
  }

  /** On a block whose length is its declared total, the boot parser accepts exactly when the capture
      tool reports a valid chain whose only framebuffer tag carries a geometry, the block is not too
      long, and the surface check passes on the reported geometry. */
  lemma ParsersAgree(raw: seq<Byte>, surface: Geometry -> bool)
    requires |raw| >= 16 && U32(raw, 0) == |raw|
    ensures
      var report := Details(raw, Describe(raw).tags);
      Accepts(raw, surface) <==>
        Describe(raw).valid && |raw| <= 65536 && exists i, g :: SoleGeometry(report, i, g) && surface(g)
  {
    hide Detail, GeometryAt;
    var tags := Describe(raw).tags;
    ChainInside(raw, |raw|, 8);
    if Describe(raw).valid {
      ChainAligned(raw, |raw|, 8);
      if Usable(raw, tags, surface) {
        var i :| SoleFramebuffer(tags, i) && Shows(raw, tags[i], surface);
        SoleInBoth(raw, tags, i, GeometryAt(raw, tags[i].offset));
      }
      if i, g :| SoleGeometry(Details(raw, tags), i, g) && surface(g) {
        SoleInBoth(raw, tags, i, g);
        assert Shows(raw, tags[i], surface);
      }
    }
  }

  /** Both parsers on one block whose length is its declared total: they agree on acceptance, and the
      geometry the boot parser returns is the one in the report's only framebuffer tag. */
  method CompareParsers(raw: seq<Byte>, surface: Geometry -> bool)
    returns (ok: bool, out: Geometry, report: Description)
    requires |raw| >= 16 && U32(raw, 0) == |raw|
    ensures ok <==> report.valid && |raw| <= 65536 && exists i, g :: SoleGeometry(report.tags, i, g) && surface(g)
    ensures ok ==> exists i :: SoleGeometry(report.tags, i, out)
  {
    hide Details, Accepts, Usable, ReadFrom;
    ok, out := ParseBootText(raw, surface);
    report := DescribeTags(raw);
    ParsersAgree(raw, surface);
    if ok {
      AcceptedDescribed(raw, surface);
      ChainInside(raw, |raw|, 8);
      ghost var i :| SoleFramebuffer(Describe(raw).tags, i) && ReadFrom(raw, Describe(raw).tags[i], out);
      SoleInBoth(raw, Describe(raw).tags, i, out);
    }
  }

  lemma AcceptedDescribed(raw: seq<Byte>, surface: Geometry -> bool)
    requires Accepts(raw, surface) && U32(raw, 0) == |raw|
    ensures Describe(raw) == Chain(raw, |raw|, 8)
  {
  }
}
