/** The capture tool's rules for one function's capability record, and their agreement with the
    collector in both directions. */
module CapabilityDecoder {
  import opened Platforms
  import opened Capabilities

  /** One list entry as printed: unbounded decimal numbers. */
  datatype Entry = Entry(address: nat, value: nat)

  function StatusCode(status: CapStatus): nat {
    match status
    case CapOk => 0
    case Argument => 1
    case ReadFailed => 2
    case HeaderChanged => 3
    case Pointer => 4
    case Cycle => 5
    case Absent => 6
  }

  /** The printed form of a published list. */
  function Printed(list: seq<Cap>): (r: seq<Entry>)
    ensures |r| == |list|
  {
    seq(|list|, i requires 0 <= i < |list| => Entry(list[i].offset, list[i].raw))
  }

  /** The failure offsets the decoder believes for each status. */
  predicate FailureOk(status: nat, offset: nat) {
    && status != 1
    && (status == 3 ==> offset in CHECKED)
    && (status == 2 ==> offset in CHECKED || Slot(offset))
    && (status == 4 ==> !(offset == 0 || (offset >= 64 && offset % 4 == 0)))
    && (status == 5 || status == 6 ==> Slot(offset))
  }

  /** The same, offset by offset: a failed read or a changed header names one of the four checked words, a
      failed read, cycle or absent entry one of the 48 slots, and a bad pointer anything else but zero. */
  lemma FailureExactly(status: nat, offset: nat)
    requires 1 <= status <= 6 && offset <= 255
    ensures
      var checked := offset == 0 || offset == 4 || offset == 12 || offset == 52;
      var slot := exists k :: 16 <= k < 64 && offset == 4 * k;
      FailureOk(status, offset) <==>
        if status == 1 then false else if status == 2 then checked || slot else if status == 3 then checked
        else if status == 4 then offset != 0 && !slot else slot
  {
    assert offset % 4 == 0 ==> offset == 4 * (offset / 4);
  }

  /** What the decoder accepts: a failure with a possible offset and no entries, or a complete list. */
  ghost predicate Accepted(h: Header, status: nat, offset: nat, entries: seq<Entry>) {
    && status <= 6 && |entries| <= CAPACITY && offset <= 255
    && if status != 0 then entries == [] && FailureOk(status, offset)
       else offset == 0 && exists list :: entries == Printed(list) && Terminated(Head(h), list)
  }

  lemma PrintedNext(list: seq<Cap>, cap: Cap)
    ensures Printed(list + [cap]) == Printed(list) + [Entry(cap.offset, cap.raw)]
  {
  }

  lemma PrintedInjective(a: seq<Cap>, b: seq<Cap>)
    requires Printed(a) == Printed(b)
    ensures a == b
  {
    forall i | 0 <= i < |a| ensures a[i] == b[i] {
      assert Printed(a)[i] == Printed(b)[i];
    }
  }

  /** A list whose first entries are `prefix` has its next entry where the prefix points. */
  lemma NextEntry(head: nat, list: seq<Cap>, prefix: seq<Cap>)
    requires Terminated(head, list) && prefix <= list && |prefix| < |list|
    ensures
      var cap := list[|prefix|];
      && cap.offset == Expected(head, prefix, |prefix|) && Slot(cap.offset)
      && cap.offset !in Offsets(prefix) && Low8(cap.raw) != 255
  {
    assert LinkedAt(head, list, |prefix|);
    forall i | 0 <= i < |prefix| ensures Offsets(prefix)[i] != list[|prefix|].offset {
      assert prefix[i] == list[i];
    }
  }

  /** The decoder's check of one entry against the expected link and the offsets already seen. */
  predicate EntryOk(entry: Entry, expected: nat, seen: seq<nat>) {
    && entry.address == expected && 64 <= entry.address <= 252 && entry.address % 4 == 0
    && entry.address !in seen && entry.value <= ALL_ONES && entry.value % 0x100 != 255
  }

  method DecodeFunction(h: Header, status: nat, offset: nat, entries: seq<Entry>) returns (ok: bool)
    ensures ok <==> Accepted(h, status, offset, entries)
  {
    if status > 6 || |entries| > CAPACITY || offset > 255 { return false; }
    if status != 0 { return |entries| == 0 && FailureOk(status, offset); }
    if offset != 0 { return false; }
    var expected := Head(h);
    var seen: seq<nat> := [];
    var list: seq<Cap> := [];
    for slot := 0 to |entries|
      invariant Linked(Head(h), list) && Printed(list) == entries[..slot] && seen == Offsets(list)
      invariant expected == Expected(Head(h), list, |list|)
    {
      var address, value := entries[slot].address, entries[slot].value;
      forall full: seq<Cap> | entries == Printed(full) && Terminated(Head(h), full)
        ensures EntryOk(entries[slot], expected, seen)
      {
        PrintedPrefix(full, list, slot);
        NextEntry(Head(h), full, list);
        assert Printed(full)[slot] == Entry(full[slot].offset, full[slot].raw);
      }
      if !EntryOk(entries[slot], expected, seen) { return false; }
      LinkedNext(Head(h), list, Cap(address, value));
      PrintedNext(list, Cap(address, value));
      list, seen := list + [Cap(address, value)], seen + [address];
      expected := Link(value);
    }
    assert entries[..|entries|] == entries;
    ok := expected == 0;
    if !ok {
      forall full: seq<Cap> | entries == Printed(full) ensures full == list { PrintedInjective(full, list); }
    }
  }

  lemma PrintedPrefix(full: seq<Cap>, list: seq<Cap>, n: nat)
    requires n <= |full| && Printed(list) == Printed(full)[..n]
    ensures list == full[..n]
  {
    forall i | 0 <= i < n ensures list[i] == full[i] {
      assert Printed(list)[i] == Printed(full)[i];
    }
  }

  /** Every outcome of the collector on valid arguments passes the decoder. */
  lemma CollectorPasses(h: Header, r: CapResult, list: seq<Cap>, events: seq<Event>, walked: seq<Cap>)
    requires ArgumentsOk(h)
    requires if r.status == CapOk then r.offset == 0 && CollectionLog(events, h, list)
             else list == [] && Explains(r, h, events, walked)
    ensures Accepted(h, StatusCode(r.status), r.offset, Printed(list))
  {
    if r.status == CapOk {
      LinkedFits(Head(h), list, []);
    } else if r.status == Cycle {
      var i :| 0 <= i < |walked| && Offsets(walked)[i] == r.offset;
      assert Slot(walked[i].offset);
    }
  }

  /** Memory that holds a list: the header words, and each entry at its offset. */
  function MemoryOf(h: Header, list: seq<Cap>): map<Port, Word> {
    if list == [] then map i | 0 <= i < 16 :: Config(h.bdf, 4 * i) := h.words[i]
    else
      var n := |list| - 1;
      MemoryOf(h, list[..n])[Config(h.bdf, list[n].offset) := list[n].raw]
  }

  lemma {:induction false} MemoryHolds(h: Header, list: seq<Cap>)
    requires forall i :: 0 <= i < |list| ==> Slot(list[i].offset)
    requires forall i, j :: 0 <= i < j < |list| ==> list[i].offset != list[j].offset
    ensures forall i :: 0 <= i < 16 ==>
      Config(h.bdf, 4 * i) in MemoryOf(h, list) && MemoryOf(h, list)[Config(h.bdf, 4 * i)] == h.words[i]
    ensures forall i :: 0 <= i < |list| ==>
      && Config(h.bdf, list[i].offset) in MemoryOf(h, list)
      && MemoryOf(h, list)[Config(h.bdf, list[i].offset)] == list[i].raw
  {
    if list != [] {
      var n := |list| - 1;
      MemoryHolds(h, list[..n]);
      forall i | 0 <= i < n
        ensures Config(h.bdf, list[i].offset) in MemoryOf(h, list)
        ensures MemoryOf(h, list)[Config(h.bdf, list[i].offset)] == list[i].raw
      {
        assert list[..n][i] == list[i];
      }
    }
  }

  /** Every list the decoder accepts is what a faithful platform holding it describes, and so what
      the collector returns there. */
  lemma AcceptedIsDescribed(p: Platform, h: Header, list: seq<Cap>)
    requires Accepted(h, 0, 0, Printed(list)) && p.words == MemoryOf(h, list)
    ensures Describes(p, h, list)
  {
    var other :| Printed(list) == Printed(other) && Terminated(Head(h), other);
    PrintedInjective(list, other);
    MemoryHolds(h, list);
    forall i | 0 <= i < 4 ensures CheckPasses(h, i, p.Peek(Config(h.bdf, CHECKED[i]))) {
      assert CHECKED[i] == 4 * (CHECKED[i] / 4);
    }
  }

  /** The other direction in full: for every list the decoder accepts on valid arguments there is a
      platform on which the collector returns exactly that list. */
  method CollectAccepted(h: Header, list: seq<Cap>) returns (p: Platform, r: CapResult, out: seq<Cap>)
    requires ArgumentsOk(h) && Accepted(h, 0, 0, Printed(list))
    ensures fresh(p) && r == CapResult(CapOk, 0) && out == list
  {
    hide Accepted, MemoryOf, CollectionLog, ArgumentsOk;
    p := new Platform(true, MemoryOf(h, list), Gone);
    AcceptedIsDescribed(p, h, list);
    ghost var events, walked;
    r, out, events, walked := Collect(p, h, list);
  }
}
