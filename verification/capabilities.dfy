/** The conventional PCI capability list (section 6.7 of PCI Local Bus 3.0): the walk over a device
    that may answer differently on every read, and the capture decoder's rules for its result. */
module Capabilities {
  import opened Platforms

  const CAPACITY: nat := 48

  /** An enumerated configuration header: its address and its sixteen dwords. */
  datatype HeaderRecord = HeaderRecord(bdf: Bdf, words: seq<Word>)
  type Header = h: HeaderRecord | |h.words| == 16
    witness HeaderRecord(Bdf(0, 0, 0), [0, 0, 0, 0, 0, 0, 0, 0, 0, 0, 0, 0, 0, 0, 0, 0])

  datatype Cap = Cap(offset: nat, raw: Word)

  datatype CapStatus = CapOk | Argument | ReadFailed | HeaderChanged | Pointer | Cycle | Absent
  datatype CapResult = CapResult(status: CapStatus, offset: nat)

  // ---------------------------------------------------------------- fields

  function Low8(word: Word): nat {
    word % 0x100
  }

  /** The link to the next capability. */
  function Link(raw: Word): nat {
    raw / 0x100 % 0x100
  }

  /** Header type without the multifunction bit. */
  function Layout(h: Header): nat {
    h.words[3] / 0x1_0000 % 0x80
  }

  /** Status bit 4: the function has a capability list. */
  predicate HasList(status: Word) {
    Bit(status, 0x10_0000)
  }

  /** The first link of the list, zero when the Status register announces none. */
  function Head(h: Header): nat {
    if HasList(h.words[1]) then Low8(h.words[13]) else 0
  }

  /** The 48 aligned offsets from 0x40 to 0xfc. */
  predicate Slot(offset: nat) {
    64 <= offset <= 252 && offset % 4 == 0
  }

  predicate ArgumentsOk(h: Header) {
    h.bdf.device <= 31 && h.bdf.fn <= 7 && Layout(h) <= 1 && Low16(h.words[0]) != 0xffff
  }

  // ---------------------------------------------------------------- the four identity checks

  const CHECKED: seq<nat> := [0, 4, 12, 52]

  /** Identity, list indicator, header type and list head, compared under their masks. */
  predicate CheckPasses(h: Header, i: nat, value: Word)
    requires i < 4
  {
    if i == 0 then value == h.words[0]
    else if i == 1 then HasList(value) == HasList(h.words[1])
    else if i == 2 then value / 0x1_0000 % 0x100 == h.words[3] / 0x1_0000 % 0x100
    else Low8(value) == Low8(h.words[13])
  }

  // ---------------------------------------------------------------- well-formed lists

  /** The offset at which entry i must sit, given the entries before it. */
  function Expected(head: nat, list: seq<Cap>, i: nat): nat
    requires i <= |list|
  {
    if i == 0 then head else Link(list[i - 1].raw)
  }

  /** Entry i sits where the entry before it points. */
  ghost predicate LinkedAt(head: nat, list: seq<Cap>, i: nat)
    requires i < |list|
  {
    list[i].offset == Expected(head, list, i)
  }

  /** A prefix of a list: linked, in range, without repetition or absent identifiers. */
  ghost predicate Linked(head: nat, list: seq<Cap>) {
    && (forall i :: 0 <= i < |list| ==> LinkedAt(head, list, i))
    && (forall i :: 0 <= i < |list| ==> Slot(list[i].offset) && Low8(list[i].raw) != 255)
    && (forall i, j :: 0 <= i < j < |list| ==> list[i].offset != list[j].offset)
  }

  /** A complete list: the last link is zero. */
  ghost predicate Terminated(head: nat, list: seq<Cap>) {
    Linked(head, list) && Expected(head, list, |list|) == 0
  }

  // ---------------------------------------------------------------- at most 48 entries

  ghost predicate DistinctSlots(offsets: seq<nat>) {
    && (forall i :: 0 <= i < |offsets| ==> Slot(offsets[i]))
    && (forall i, j :: 0 <= i < j < |offsets| ==> offsets[i] != offsets[j])
  }

  lemma SubsetSize<T>(a: set<T>, b: set<T>)
    requires a <= b
    ensures |a| <= |b|
  {
    assert b == a + (b - a);
  }

  ghost function Members(offsets: seq<nat>): set<nat> {
    set i | 0 <= i < |offsets| :: offsets[i]
  }

  lemma {:induction false} MemberCount(offsets: seq<nat>)
    requires forall i, j :: 0 <= i < j < |offsets| ==> offsets[i] != offsets[j]
    ensures |Members(offsets)| == |offsets|
  {
    if offsets != [] {
      var n := |offsets| - 1;
      MemberCount(offsets[..n]);
      assert Members(offsets) == Members(offsets[..n]) + {offsets[n]};
    }
  }

  ghost function FirstSlots(n: nat): set<nat> {
    set k | 0 <= k < n :: 64 + 4 * k
  }

  lemma {:induction false} FirstSlotsSize(n: nat)
    ensures |FirstSlots(n)| <= n
  {
    if n == 0 {
      assert FirstSlots(n) == {};
    } else {
      FirstSlotsSize(n - 1);
      assert FirstSlots(n) == FirstSlots(n - 1) + {64 + 4 * (n - 1)};
    }
  }

  /** Pigeonhole: distinct slots never exceed the capacity. */
  lemma Pigeonhole(offsets: seq<nat>)
    requires DistinctSlots(offsets)
    ensures |offsets| <= CAPACITY
  {
    MemberCount(offsets);
    forall i | 0 <= i < |offsets| ensures offsets[i] in FirstSlots(CAPACITY) {
      assert offsets[i] == 64 + 4 * ((offsets[i] - 64) / 4);
    }
    SubsetSize(Members(offsets), FirstSlots(CAPACITY));
    FirstSlotsSize(CAPACITY);
  }

  ghost function Offsets(list: seq<Cap>): seq<nat> {
    seq(|list|, i requires 0 <= i < |list| => list[i].offset)
  }

  // ---------------------------------------------------------------- the visited bitmap

  /** The 64-bit visited word, bit by bit. */
  type Bitmap = b: seq<bool> | |b| == 64 witness seq(64, i => false)

  predicate Marked(seen: Bitmap, offset: nat)
    requires Slot(offset)
  {
    seen[(offset - 64) / 4]
  }

  function Mark(seen: Bitmap, offset: nat): Bitmap
    requires Slot(offset)
  {
    seen[(offset - 64) / 4 := true]
  }

  /** The bitmap marks exactly the slots in `offsets`. */
  ghost predicate BitmapOf(seen: Bitmap, offsets: seq<nat>) {
    forall o: nat | Slot(o) :: Marked(seen, o) <==> o in offsets
  }

  lemma BitmapNext(seen: Bitmap, offset: nat, offsets: seq<nat>)
    requires Slot(offset) && BitmapOf(seen, offsets)
    ensures BitmapOf(Mark(seen, offset), offsets + [offset])
  {
  }

  lemma BitmapReads(seen: Bitmap, offset: nat, offsets: seq<nat>)
    requires Slot(offset) && BitmapOf(seen, offsets)
    ensures Marked(seen, offset) <==> offset in offsets
  {
  }

  // ---------------------------------------------------------------- the collector

  /** Four passed identity checks. */
  ghost predicate IdentityLog(events: seq<Event>, h: Header) {
    |events| == 4 && forall i :: 0 <= i < 4 ==> IdentityRead(events[i], h, i)
  }

  ghost predicate IdentityRead(e: Event, h: Header, i: nat)
    requires i < 4
  {
    e.Read? && e.port == Config(h.bdf, CHECKED[i]) && e.answer.Some? && CheckPasses(h, i, e.answer.value)
  }

  /** One successful read per entry, in order. */
  ghost function ListLog(bdf: Bdf, list: seq<Cap>): seq<Event> {
    seq(|list|, i requires 0 <= i < |list| => Read(Config(bdf, list[i].offset), Some(list[i].raw)))
  }

  /** A complete successful collection. */
  ghost predicate CollectionLog(events: seq<Event>, h: Header, list: seq<Cap>) {
    && |events| == 4 + |list| && IdentityLog(events[..4], h) && events[4..] == ListLog(h.bdf, list)
    && Terminated(Head(h), list)
  }

  /** Why a traversal stopped: `walked` is the valid part of the list it had followed. */
  ghost predicate Explains(r: CapResult, h: Header, events: seq<Event>, walked: seq<Cap>) {
    match r.status
    case CapOk => false
    case Argument => !ArgumentsOk(h) && events == [] && r.offset == 0
    case HeaderChanged =>
      exists i: nat :: IdentityUpTo(events, h, i, r.offset) && events[i].answer.Some?
                       && !CheckPasses(h, i, events[i].answer.value)
    case Pointer => Stopped(h, events, walked, r.offset) && r.offset != 0 && !Slot(r.offset)
    case Cycle => Stopped(h, events, walked, r.offset) && r.offset in Offsets(walked)
    case ReadFailed =>
      || (exists i: nat :: IdentityUpTo(events, h, i, r.offset) && events[i].answer.None?)
      || (&& events != [] && Stopped(h, events[..|events| - 1], walked, r.offset) && Slot(r.offset)
          && events[|events| - 1] == Read(Config(h.bdf, r.offset), None))
    case Absent =>
      && events != [] && Stopped(h, events[..|events| - 1], walked, r.offset) && Slot(r.offset)
      && events[|events| - 1].Read? && events[|events| - 1].port == Config(h.bdf, r.offset)
      && events[|events| - 1].answer.Some? && Low8(events[|events| - 1].answer.value) == 255
  }

  /** Check i is the last read, of its own register, and every earlier check passed. */
  ghost predicate IdentityUpTo(events: seq<Event>, h: Header, i: nat, offset: nat) {
    && i < 4 && |events| == i + 1 && (forall k :: 0 <= k < i ==> IdentityRead(events[k], h, k))
    && offset == CHECKED[i] && events[i].Read? && events[i].port == Config(h.bdf, CHECKED[i])
  }

  ghost predicate Stopped(h: Header, events: seq<Event>, walked: seq<Cap>, offset: nat) {
    && Linked(Head(h), walked) && offset == Expected(Head(h), walked, |walked|)
    && |events| == 4 + |walked| && IdentityLog(events[..4], h) && events[4..] == ListLog(h.bdf, walked)
  }

  /** `list` is what the platform's memory holds for the function `h`. */
  ghost predicate Describes(p: Platform, h: Header, list: seq<Cap>)
    reads p`words
  {
    && (forall i :: 0 <= i < 4 ==> CheckPasses(h, i, p.Peek(Config(h.bdf, CHECKED[i]))))
    && Terminated(Head(h), list)
    && (forall i :: 0 <= i < |list| ==> p.Peek(Config(h.bdf, list[i].offset)) == list[i].raw)
  }

  method CheckIdentity(p: Platform, h: Header) returns (r: CapResult, ghost events: seq<Event>)
    requires ArgumentsOk(h)
    modifies p`log
    ensures p.log == old(p.log) + events && OnlyReads(events) && |events| <= 4
    ensures r.status == CapOk ==> IdentityLog(events, h)
    ensures r.status != CapOk ==> Explains(r, h, events, []) && (r.status == ReadFailed || r.status == HeaderChanged)
    ensures p.faithful && (forall i :: 0 <= i < 4 ==> CheckPasses(h, i, p.Peek(Config(h.bdf, CHECKED[i])))) ==>
              r.status == CapOk
  {
    r := CapResult(CapOk, 0);
    events := [];
    for i := 0 to 4
      invariant r.status == CapOk
      invariant p.log == old(p.log) + events && OnlyReads(events) && |events| == i
      invariant forall k :: 0 <= k < i ==> IdentityRead(events[k], h, k)
    {
      var ok, value := p.ReadDword(Config(h.bdf, CHECKED[i]));
      events := events + [Read(Config(h.bdf, CHECKED[i]), if ok then Some(value) else None)];
      assert IdentityUpTo(events, h, i, CHECKED[i]);
      if !ok { return CapResult(ReadFailed, CHECKED[i]), events; }
      if !CheckPasses(h, i, value) { return CapResult(HeaderChanged, CHECKED[i]), events; }
    }
  }

  lemma LinkedNext(head: nat, list: seq<Cap>, cap: Cap)
    requires Linked(head, list) && cap.offset == Expected(head, list, |list|)
    requires Slot(cap.offset) && Low8(cap.raw) != 255 && cap.offset !in Offsets(list)
    ensures Linked(head, list + [cap]) && Expected(head, list + [cap], |list| + 1) == Link(cap.raw)
    ensures Offsets(list + [cap]) == Offsets(list) + [cap.offset]
  {
    var longer := list + [cap];
    forall i | 0 <= i < |longer| ensures LinkedAt(head, longer, i) {
      assert i < |list| ==> LinkedAt(head, list, i);
    }
    forall i | 0 <= i < |list| ensures list[i].offset != cap.offset {
      assert Offsets(list)[i] == list[i].offset;
    }
  }

  lemma LinkedFits(head: nat, list: seq<Cap>, spare: seq<nat>)
    requires Linked(head, list) && DistinctSlots(spare)
    requires forall i, j :: 0 <= i < |list| && 0 <= j < |spare| ==> list[i].offset != spare[j]
    ensures |list| + |spare| <= CAPACITY
  {
    Pigeonhole(Offsets(list) + spare);
  }

  lemma NotMet(list: seq<Cap>, offset: nat)
    requires offset !in Offsets(list)
    ensures forall i :: 0 <= i < |list| ==> list[i].offset != offset
  {
    forall i | 0 <= i < |list| ensures list[i].offset != offset {
      assert Offsets(list)[i] == list[i].offset;
    }
  }

  /** How the traversal of a list that starts at `head` ends. */
  ghost predicate WalkEnd(bdf: Bdf, head: nat, r: CapResult, walked: seq<Cap>, events: seq<Event>) {
    && Linked(head, walked) && |walked| <= CAPACITY
    && var link, log := Expected(head, walked, |walked|), ListLog(bdf, walked);
    match r.status
    case CapOk => link == 0 && r.offset == 0 && events == log
    case Pointer => r.offset == link && link != 0 && !Slot(link) && events == log
    case Cycle => r.offset == link && link in Offsets(walked) && Slot(link) && events == log
    case ReadFailed =>
      r.offset == link && |walked| < CAPACITY && Slot(link) && events == log + [Read(Config(bdf, link), None)]
    case Absent =>
      && r.offset == link && |walked| < CAPACITY && Slot(link) && |events| == |log| + 1 && events[..|log|] == log
      && events[|log|].Read? && events[|log|].port == Config(bdf, link) && events[|log|].answer.Some?
      && Low8(events[|log|].answer.value) == 255
    case _ => false
  }

  lemma ListLogNext(bdf: Bdf, list: seq<Cap>, cap: Cap)
    ensures ListLog(bdf, list + [cap]) == ListLog(bdf, list) + [Read(Config(bdf, cap.offset), Some(cap.raw))]
  {
  }

  lemma WalkStart(head: nat, bdf: Bdf, seen: Bitmap)
    requires forall i :: 0 <= i < 64 ==> !seen[i]
    ensures Linked(head, []) && Offsets([]) == [] && ListLog(bdf, []) == [] && BitmapOf(seen, [])
  {
  }

  /** The bounded walk, for any answers: distinct aligned offsets, at most 48 list reads, and the
      capacity guard is never what stops it. */
  method WalkList(p: Platform, h: Header) returns (r: CapResult, staged: seq<Cap>, ghost events: seq<Event>)
    modifies p`log
    ensures p.log == old(p.log) + events && OnlyReads(events) && |events| <= CAPACITY
    ensures WalkEnd(h.bdf, Head(h), r, staged, events)
    ensures p.faithful ==> Truthful(p.words, events)
  {
    hide Linked, Offsets, ListLog, BitmapOf;
    ghost var head := Head(h);
    events, staged := [], [];
    var seen: Bitmap := seq(64, i => false);
    var offset := Head(h);
    WalkStart(head, h.bdf, seen);
    while offset != 0
      invariant Linked(head, staged) && offset == Expected(head, staged, |staged|)
      invariant BitmapOf(seen, Offsets(staged))
      invariant p.log == old(p.log) + events && events == ListLog(h.bdf, staged) && OnlyReads(events)
      invariant |events| == |staged|
      invariant p.faithful ==> Truthful(p.words, events)
      decreases CAPACITY - |staged|
    {
      LinkedFits(head, staged, []);
      if offset < 64 || offset % 4 != 0 { return CapResult(Pointer, offset), staged, events; }
      BitmapReads(seen, offset, Offsets(staged));
      if Marked(seen, offset) { return CapResult(Cycle, offset), staged, events; }
      NotMet(staged, offset);
      LinkedFits(head, staged, [offset]);
      if |staged| == CAPACITY { return CapResult(Pointer, offset), staged, events; }
      BitmapNext(seen, offset, Offsets(staged));
      seen := Mark(seen, offset);
      var ok, raw := p.ReadDword(Config(h.bdf, offset));
      events := events + [Read(Config(h.bdf, offset), if ok then Some(raw) else None)];
      if !ok { return CapResult(ReadFailed, offset), staged, events; }
      if Low8(raw) == 255 { return CapResult(Absent, offset), staged, events; }
      LinkedNext(head, staged, Cap(offset, raw));
      ListLogNext(h.bdf, staged, Cap(offset, raw));
      staged := staged + [Cap(offset, raw)];
      offset := Link(raw);
    }
    LinkedFits(head, staged, []);
    r := CapResult(CapOk, 0);
  }

  /** On truthful answers from memory that holds a complete list, the walk returns that list. */
  lemma WalkFindsList(p: Platform, h: Header, r: CapResult, staged: seq<Cap>, events: seq<Event>, expected: seq<Cap>)
    requires WalkEnd(h.bdf, Head(h), r, staged, events) && Truthful(p.words, events) && Describes(p, h, expected)
    ensures r.status == CapOk && staged == expected
  {
    assert |events| > |staged| ==> events[|staged|].answer == Some(p.Peek(events[|staged|].port));
    assert expected[..|expected|] == expected && staged[..|staged|] == staged;
    var n := CommonPrefix(p.words, h.bdf, Head(h), staged, events, expected);
    PrefixContinues(p, h, expected, n);
  }

  /** After a proper prefix of the list in memory, the link leads to a fresh readable slot. */
  lemma PrefixContinues(p: Platform, h: Header, expected: seq<Cap>, n: nat)
    requires Describes(p, h, expected) && n <= |expected|
    ensures
      var link := Expected(Head(h), expected[..n], n);
      if n == |expected| then link == 0
      else Slot(link) && link !in Offsets(expected[..n]) && Low8(p.Peek(Config(h.bdf, link))) != 255
  {
    assert Expected(Head(h), expected[..n], n) == Expected(Head(h), expected, n);
    if n < |expected| {
      assert LinkedAt(Head(h), expected, n);
    }
  }

  /** How far the walk and the list in memory agree: to the end of one of them. */
  lemma CommonPrefix(words: map<Port, Word>, bdf: Bdf, head: nat, staged: seq<Cap>, events: seq<Event>,
                     expected: seq<Cap>)
    returns (n: nat)
    requires Linked(head, staged) && Linked(head, expected) && Truthful(words, events)
    requires |events| >= |staged| && events[..|staged|] == ListLog(bdf, staged)
    requires forall i :: 0 <= i < |expected| ==> Lookup(words, Config(bdf, expected[i].offset)) == expected[i].raw
    ensures n <= |staged| && n <= |expected| && staged[..n] == expected[..n]
    ensures n == |staged| || n == |expected|
    ensures n < |staged| ==> LinkedAt(head, staged, n)
  {
    n := 0;
    while n < |staged| && n < |expected|
      invariant n <= |staged| && n <= |expected| && staged[..n] == expected[..n]
    {
      assert LinkedAt(head, staged, n) && LinkedAt(head, expected, n);
      assert events[n] == ListLog(bdf, staged)[n];
      assert staged[n] == expected[n];
      n := n + 1;
    }
  }

  method Collect(p: Platform, h: Header, ghost expected: seq<Cap>)
    returns (r: CapResult, list: seq<Cap>, ghost events: seq<Event>, ghost walked: seq<Cap>)
    modifies p`log
    ensures p.log == old(p.log) + events && OnlyReads(events) && |events| <= 4 + CAPACITY
    ensures r.status == CapOk ==> ArgumentsOk(h) && r.offset == 0 && CollectionLog(events, h, list)
    ensures r.status != CapOk ==> list == [] && Explains(r, h, events, walked)
    ensures p.faithful && ArgumentsOk(h) && Describes(p, h, expected) ==> r.status == CapOk && list == expected
  {
    hide Linked, ArgumentsOk;
    if !ArgumentsOk(h) { return CapResult(Argument, 0), [], [], []; }
    ghost var identity, rest;
    r, identity := CheckIdentity(p, h);
    if r.status != CapOk { return r, [], identity, []; }
    r, list, rest := WalkList(p, h);
    if p.faithful && Describes(p, h, expected) {
      WalkFindsList(p, h, r, list, rest, expected);
    }
    events, walked := identity + rest, list;
    assert events[..4] == identity && events[4..] == rest;
    if r.status != CapOk {
      if r.status == ReadFailed || r.status == Absent {
        assert events[..|events| - 1][..4] == identity && events[..|events| - 1][4..] == rest[..|rest| - 1];
      }
      list := [];
    }
  }
}
