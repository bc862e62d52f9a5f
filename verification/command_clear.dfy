/** Clearing every function's Command register in the stable three-way order: downstream endpoints,
    bus-zero endpoints, bridges. */
module CommandClear {
  import opened Platforms
  import opened Capabilities

  const STEPS: nat := 15
  const SLOT: nat := 25

  // ---------------------------------------------------------------- the order

  function Category(h: Header): (c: nat)
    ensures c < 3
  {
    if Layout(h) == 1 then 2 else if h.bdf.bus != 0 then 0 else 1
  }

  /** The positions below n of the given category, ascending. */
  ghost function Picks(headers: seq<Header>, group: nat, n: nat): seq<nat>
    requires n <= |headers|
  {
    if n == 0 then []
    else Picks(headers, group, n - 1) + if Category(headers[n - 1]) == group then [n - 1] else []
  }

  /** All of the groups before this one. */
  ghost function Before(headers: seq<Header>, group: nat): seq<nat> {
    var n := |headers|;
    if group == 0 then []
    else if group == 1 then Picks(headers, 0, n)
    else if group == 2 then Picks(headers, 0, n) + Picks(headers, 1, n)
    else Picks(headers, 0, n) + Picks(headers, 1, n) + Picks(headers, 2, n)
  }

  ghost function Schedule(headers: seq<Header>): seq<nat> {
    Before(headers, 3)
  }

  lemma {:induction false} PicksContent(headers: seq<Header>, group: nat, n: nat)
    requires n <= |headers|
    ensures forall k :: k in Picks(headers, group, n) <==> 0 <= k < n && Category(headers[k]) == group
    ensures forall i, j :: 0 <= i < j < |Picks(headers, group, n)| ==>
      Picks(headers, group, n)[i] < Picks(headers, group, n)[j]
  {
    if n > 0 {
      PicksContent(headers, group, n - 1);
      var shorter := Picks(headers, group, n - 1);
      forall i | 0 <= i < |shorter| ensures shorter[i] < n - 1 {
        assert shorter[i] in shorter;
      }
    }
  }

  lemma {:induction false} PicksTotal(headers: seq<Header>, n: nat)
    requires n <= |headers|
    ensures |Picks(headers, 0, n)| + |Picks(headers, 1, n)| + |Picks(headers, 2, n)| == n
  {
    if n > 0 {
      PicksTotal(headers, n - 1);
    }
  }

  lemma {:induction false} PicksGrow(headers: seq<Header>, group: nat, n: nat, m: nat)
    requires n <= m <= |headers|
    ensures |Picks(headers, group, n)| <= |Picks(headers, group, m)|
    ensures Picks(headers, group, m)[..|Picks(headers, group, n)|] == Picks(headers, group, n)
  {
    if n < m {
      PicksGrow(headers, group, n, m - 1);
    }
  }

  predicate IsBridge(h: Header) {
    Layout(h) == 1
  }

  /** An endpoint behind a bridge. */
  predicate Downstream(h: Header) {
    !IsBridge(h) && h.bdf.bus != 0
  }

  /** Position a may be served before position b: never a bridge before an endpoint, never a bus-zero
      endpoint before a downstream one, and within one kind the smaller position first. */
  predicate Precedes(headers: seq<Header>, a: nat, b: nat)
    requires a < |headers| && b < |headers|
  {
    && (IsBridge(headers[a]) ==> IsBridge(headers[b]))
    && (Downstream(headers[b]) ==> Downstream(headers[a]))
    && (IsBridge(headers[a]) == IsBridge(headers[b]) && Downstream(headers[a]) == Downstream(headers[b]) ==> a < b)
  }

  /** Entries i and j of a schedule are in that order. */
  ghost predicate InOrder(headers: seq<Header>, s: seq<nat>, i: nat, j: nat)
    requires i < |s| && j < |s|
  {
    s[i] < |headers| && s[j] < |headers| && Precedes(headers, s[i], s[j])
  }

  /** The schedule lists every position exactly once, in that order. */
  lemma ScheduleIsStablePartition(headers: seq<Header>)
    ensures |Schedule(headers)| == |headers|
    ensures forall k :: k in Schedule(headers) <==> 0 <= k < |headers|
    ensures forall i, j :: 0 <= i < j < |Schedule(headers)| ==> InOrder(headers, Schedule(headers), i, j)
  {
    var n, s := |headers|, Schedule(headers);
    var a, b, c := Picks(headers, 0, n), Picks(headers, 1, n), Picks(headers, 2, n);
    PicksTotal(headers, n);
    PicksContent(headers, 0, n);
    PicksContent(headers, 1, n);
    PicksContent(headers, 2, n);
    Joined(headers, a, b, c, s);
  }

  lemma Joined(headers: seq<Header>, a: seq<nat>, b: seq<nat>, c: seq<nat>, s: seq<nat>)
    requires s == a + b + c
    requires forall k :: k in a <==> 0 <= k < |headers| && Category(headers[k]) == 0
    requires forall k :: k in b <==> 0 <= k < |headers| && Category(headers[k]) == 1
    requires forall k :: k in c <==> 0 <= k < |headers| && Category(headers[k]) == 2
    requires forall i, j :: 0 <= i < j < |a| ==> a[i] < a[j]
    requires forall i, j :: 0 <= i < j < |b| ==> b[i] < b[j]
    requires forall i, j :: 0 <= i < j < |c| ==> c[i] < c[j]
    ensures forall k :: k in s <==> 0 <= k < |headers|
    ensures forall i, j :: 0 <= i < j < |s| ==> InOrder(headers, s, i, j)
  {
    forall i, j | 0 <= i < j < |s| ensures InOrder(headers, s, i, j) {
      assert s[i] in a || s[i] in b || s[i] in c;
      assert s[j] in a || s[j] in b || s[j] in c;
      assert i < |a| ==> s[i] == a[i] && s[i] in a;
      assert |a| <= i < |a| + |b| ==> s[i] == b[i - |a|] && s[i] in b;
      assert i >= |a| + |b| ==> s[i] == c[i - |a| - |b|] && s[i] in c;
      assert j < |a| ==> s[j] == a[j] && s[j] in a;
      assert |a| <= j < |a| + |b| ==> s[j] == b[j - |a|] && s[j] in b;
      assert j >= |a| + |b| ==> s[j] == c[j - |a| - |b|] && s[j] in c;
    }
    forall k | 0 <= k < |headers| ensures k in s {
      CategoryRange(headers[k]);
      assert k in a || k in b || k in c;
    }
  }

  lemma CategoryRange(h: Header)
    ensures Category(h) == 0 || Category(h) == 1 || Category(h) == 2
  {
  }

  /** What the loops have served when they reach position i of the given group. */
  ghost function SoFar(headers: seq<Header>, group: nat, i: nat): seq<nat>
    requires i <= |headers|
  {
    Before(headers, group) + Picks(headers, group, i)
  }

  lemma PicksReach(headers: seq<Header>, group: nat, i: nat)
    requires i < |headers| && Category(headers[i]) == group
    ensures
      var o, all := Picks(headers, group, i), Picks(headers, group, |headers|);
      |o| < |all| && all[..|o|] == o && all[|o|] == i
  {
    PicksGrow(headers, group, i + 1, |headers|);
    var o, all := Picks(headers, group, i), Picks(headers, group, |headers|);
    assert all[..|o| + 1] == o + [i];
    assert all[|o|] == all[..|o| + 1][|o|];
    assert all[..|o|] == all[..|o| + 1][..|o|];
  }

  /** It is a prefix of the schedule, which goes on with i when i belongs to the group. */
  lemma SoFarIsPrefix(headers: seq<Header>, group: nat, i: nat)
    requires group < 3 && i < |headers| && Category(headers[i]) == group
    ensures
      var o, s := SoFar(headers, group, i), Schedule(headers);
      |o| < |s| == |headers| && s[..|o|] == o && s[|o|] == i
  {
    PicksReach(headers, group, i);
    PicksTotal(headers, |headers|);
    hide Picks, Category;
    var n := |headers|;
    var tail :=
      if group == 0 then Picks(headers, 1, n) + Picks(headers, 2, n)
      else if group == 1 then Picks(headers, 2, n)
      else [];
    assert Schedule(headers) == Before(headers, group) + Picks(headers, group, n) + tail;
    PrefixOf(Before(headers, group), Picks(headers, group, n), tail, Schedule(headers), Picks(headers, group, i), i);
  }

  lemma PrefixOf(head: seq<nat>, all: seq<nat>, tail: seq<nat>, s: seq<nat>, o: seq<nat>, i: nat)
    requires s == head + all + tail && |o| < |all| && all[..|o|] == o && all[|o|] == i
    ensures |head + o| < |s| && s[..|head + o|] == head + o && s[|head + o|] == i
  {
  }

  // ---------------------------------------------------------------- one function

  /** A function that was served, with the sixteen words read back. */
  datatype Served = Served(h: Header, values: seq<Word>)

  /** Command reads back as zero, every other word as enumerated. */
  predicate ReadbackOk(h: Header, word: nat, value: Word)
    requires word < 16
  {
    if word == 1 then Low16(value) == 0 else value == h.words[word]
  }

  ghost predicate Good(s: Served) {
    && |s.values| == 16 && s.values[1] % 0x1_0000 == 0
    && forall w :: 0 <= w < 16 && w != 1 ==> s.values[w] == s.h.words[w]
  }

  function CommandPort(h: Header): Port {
    Config(h.bdf, 4)
  }

  /** One store, then the sixteen header words. */
  ghost function StepLog(s: Served): seq<Event> {
    [Write(CommandPort(s.h), 0, true)] + ReadLog(s)
  }

  ghost function ReadLog(s: Served): seq<Event> {
    seq(|s.values|, w requires 0 <= w < |s.values| => Read(Config(s.h.bdf, 4 * w), Some(s.values[w])))
  }

  /** The 25-word trace slot: the store, the function again, and what was read back. */
  function SlotOf(s: Served): seq<nat> {
    var b := s.h.bdf;
    [b.bus, b.device, b.fn, 4, 2, 0, b.bus, b.device, b.fn] + s.values
  }

  datatype ClearStatus = ClearOk | InventoryRejected | WriteFailed | ReadBackFailed | ReadbackNonzero | RegisterChanged

  class Trace {
    var count: nat
    const words: array<nat>

    ghost predicate Valid()
      reads this`count
    {
      words.Length == STEPS * SLOT && count <= STEPS
    }

    constructor ()
      ensures Valid() && fresh(words) && count == 0
    {
      count := 0;
      words := new nat[STEPS * SLOT](i => 0);
    }
  }

  /** Memory whose words other than Command are as enumerated. */
  ghost predicate HoldsHeader(memory: map<Port, Word>, h: Header) {
    forall w :: 0 <= w < 16 && w != 1 ==> Lookup(memory, Config(h.bdf, 4 * w)) == h.words[w]
  }

  ghost predicate Cleared(memory: map<Port, Word>, h: Header) {
    Low16(Lookup(memory, CommandPort(h))) == 0
  }

  /** Clearing one Command register disturbs no header and no cleared Command. */
  lemma ClearKeeps(memory: map<Port, Word>, memory': map<Port, Word>, h: Header, g: Header)
    requires memory' == memory[CommandPort(h) := WithLow16(Lookup(memory, CommandPort(h)), 0)]
    ensures HoldsHeader(memory, g) ==> HoldsHeader(memory', g)
    ensures Cleared(memory', h) && (Cleared(memory, g) ==> Cleared(memory', g))
  {
  }

  ghost function FailedRead(status: ClearStatus, h: Header, offset: nat): seq<Event> {
    if status == ReadBackFailed then [Read(Config(h.bdf, offset), None)] else []
  }

  /** How a readback ends: the words read and the first one that was refused. */
  ghost predicate ReadbackEnd(status: ClearStatus, h: Header, values: seq<Word>, offset: nat, events: seq<Event>) {
    && |values| <= 16
    && events == ReadLog(Served(h, values)) + FailedRead(status, h, offset)
    && (forall w :: 0 <= w < |values| - 1 ==> ReadbackOk(h, w, values[w]))
    && match status
       case ClearOk => Good(Served(h, values)) && offset == 60
       case ReadBackFailed =>
         && |values| < 16 && offset == 4 * |values|
         && (values != [] ==> ReadbackOk(h, |values| - 1, values[|values| - 1]))
       case ReadbackNonzero => |values| == 2 && offset == 4 && !ReadbackOk(h, 1, values[1])
       case RegisterChanged =>
         && |values| >= 1 && |values| != 2 && offset == 4 * (|values| - 1)
         && !ReadbackOk(h, |values| - 1, values[|values| - 1])
       case _ => false
  }

  /** Reads the header back into the slot. */
  method ReadBack(p: Platform, h: Header, trace: Trace, base: nat, ghost ready: bool)
    returns (status: ClearStatus, offset: nat, values: seq<Word>, ghost events: seq<Event>)
    requires trace.Valid() && base + SLOT <= trace.words.Length
    requires ready ==> p.faithful && HoldsHeader(p.words, h) && Cleared(p.words, h)
    modifies p`log, trace.words
    ensures p.log == old(p.log) + events
    ensures ReadbackEnd(status, h, values, offset, events)
    ensures forall k :: 0 <= k < base + 9 ==> trace.words[k] == old(trace.words[k])
    ensures forall k :: 0 <= k < |values| ==> trace.words[base + 9 + k] == values[k]
    ensures ready ==> status == ClearOk
  {
    values, offset, events := [], 60, [];
    assert ReadLog(Served(h, [])) == [];
    for word := 0 to 16
      invariant |values| == word && p.log == old(p.log) + events && events == ReadLog(Served(h, values))
      invariant forall w :: 0 <= w < word ==> ReadbackOk(h, w, values[w])
      invariant forall k :: 0 <= k < base + 9 ==> trace.words[k] == old(trace.words[k])
      invariant forall k :: 0 <= k < word ==> trace.words[base + 9 + k] == values[k]
      invariant word == 16 ==> offset == 60
    {
      hide ReadLog;
      offset := 4 * word;
      var ok, value := p.ReadDword(Config(h.bdf, offset));
      if !ok {
        events := events + [Read(Config(h.bdf, offset), None)];
        return ReadBackFailed, offset, values, events;
      }
      ReadLogNext(h, values, value);
      events := events + [Read(Config(h.bdf, offset), Some(value))];
      values := values + [value];
      trace.words[base + 9 + word] := value;
      if !ReadbackOk(h, word, value) {
        return if word == 1 then ReadbackNonzero else RegisterChanged, offset, values, events;
      }
    }
    status := ClearOk;
  }

  lemma ReadLogNext(h: Header, values: seq<Word>, value: Word)
    ensures ReadLog(Served(h, values + [value])) ==
            ReadLog(Served(h, values)) + [Read(Config(h.bdf, 4 * |values|), Some(value))]
  {
  }

  /** The store, then the readback. */
  ghost predicate StepEnd(status: ClearStatus, h: Header, values: seq<Word>, offset: nat, events: seq<Event>) {
    && events != [] && events[0] == Write(CommandPort(h), 0, status != WriteFailed)
    && if status == WriteFailed then |events| == 1 && values == [] && offset == 4
       else ReadbackEnd(status, h, values, offset, events[1..])
  }

  method FillSlot(trace: Trace, base: nat, h: Header)
    requires trace.Valid() && base + SLOT <= trace.words.Length
    modifies trace.words
    ensures forall k :: 0 <= k < base ==> trace.words[k] == old(trace.words[k])
    ensures trace.words[base..base + 9] == SlotOf(Served(h, []))
  {
    var b := h.bdf;
    trace.words[base], trace.words[base + 1], trace.words[base + 2] := b.bus, b.device, b.fn;
    trace.words[base + 3], trace.words[base + 4], trace.words[base + 5] := 4, 2, 0;
    trace.words[base + 6], trace.words[base + 7], trace.words[base + 8] := b.bus, b.device, b.fn;
  }

  method ClearFunction(p: Platform, h: Header, trace: Trace, base: nat, ghost ready: bool)
    returns (status: ClearStatus, offset: nat, values: seq<Word>, ghost events: seq<Event>)
    requires trace.Valid() && base + SLOT <= trace.words.Length
    requires ready ==> p.faithful && HoldsHeader(p.words, h)
    modifies p`log, p`words, trace.words
    ensures p.log == old(p.log) + events
    ensures StepEnd(status, h, values, offset, events) && status != InventoryRejected
    ensures trace.words[..base] == old(trace.words[..base])
    ensures status == ClearOk ==> trace.words[base..base + SLOT] == SlotOf(Served(h, values))
    ensures ready ==>
      status == ClearOk && p.words == old(p.words)[CommandPort(h) := WithLow16(Lookup(old(p.words), CommandPort(h)), 0)]
  {
    hide HoldsHeader, Cleared, ReadLog;
    ghost var memory, rest := p.words, [];
    FillSlot(trace, base, h);
    ghost var head := trace.words[..base + 9];
    assert head[base..] == SlotOf(Served(h, []));
    offset, values := 4, [];
    var ok := p.WriteWord(CommandPort(h), 0);
    events := [Write(CommandPort(h), 0, ok)];
    if !ok { status := WriteFailed; return; }
    if ready { ClearKeeps(memory, p.words, h, h); }
    status, offset, values, rest := ReadBack(p, h, trace, base, ready);
    events := events + rest;
    assert events[1..] == rest;
    SlotFilled(trace.words[..], head, base, h, values, status == ClearOk);
  }

  lemma SlotFilled(words: seq<nat>, head: seq<nat>, base: nat, h: Header, values: seq<Word>, full: bool)
    requires base + SLOT <= |words| && |head| == base + 9 && head[base..] == SlotOf(Served(h, [])) && |values| <= 16
    requires forall k :: 0 <= k < base + 9 ==> words[k] == head[k]
    requires forall k :: 0 <= k < |values| ==> words[base + 9 + k] == values[k]
    ensures full && |values| == 16 ==> words[base..base + SLOT] == SlotOf(Served(h, values))
    ensures words[..base] == head[..base]
  {
    if full && |values| == 16 {
      var slot, fixed := SlotOf(Served(h, values)), head[base..];
      forall k | 0 <= k < SLOT ensures words[base + k] == slot[k] {
        if k < 9 {
          assert words[base + k] == fixed[k];
        } else {
          assert words[base + 9 + (k - 9)] == values[k - 9];
        }
      }
    }
  }

  // ---------------------------------------------------------------- the whole sequence

  ghost function LogOf(done: seq<Served>): seq<Event> {
    if done == [] then [] else LogOf(done[..|done| - 1]) + StepLog(done[|done| - 1])
  }

  ghost function SlotsOf(done: seq<Served>): seq<nat> {
    if done == [] then [] else SlotsOf(done[..|done| - 1]) + SlotOf(done[|done| - 1])
  }

  ghost function StoresOf(done: seq<Served>): seq<Event> {
    seq(|done|, i requires 0 <= i < |done| => Write(CommandPort(done[i].h), 0, true))
  }

  ghost predicate ServedAt(done: seq<Served>, headers: seq<Header>, order: seq<nat>, i: nat)
    requires i < |done| && i < |order|
  {
    order[i] < |headers| && done[i].h == headers[order[i]] && Good(done[i])
  }

  /** Exactly the functions of `order` were served, in that order. */
  ghost predicate Follows(done: seq<Served>, headers: seq<Header>, order: seq<nat>) {
    |done| == |order| && forall i :: 0 <= i < |done| ==> ServedAt(done, headers, order, i)
  }

  lemma FollowsNext(done: seq<Served>, headers: seq<Header>, order: seq<nat>, s: Served, i: nat)
    requires Follows(done, headers, order) && i < |headers| && s.h == headers[i] && Good(s)
    ensures Follows(done + [s], headers, order + [i])
    ensures LogOf(done + [s]) == LogOf(done) + StepLog(s) && SlotsOf(done + [s]) == SlotsOf(done) + SlotOf(s)
  {
    var longer, order' := done + [s], order + [i];
    forall k | 0 <= k < |longer| ensures ServedAt(longer, headers, order', k) {
      assert k < |done| ==> ServedAt(done, headers, order, k);
    }
    assert longer[..|done|] == done;
  }

  /** Every completed step is one store and sixteen reads. */
  lemma {:induction false} LogCounts(done: seq<Served>)
    requires forall i :: 0 <= i < |done| ==> Good(done[i])
    ensures Writes(LogOf(done)) == StoresOf(done) && Reads(LogOf(done)) == 16 * |done| && Delays(LogOf(done)) == 0
  {
    if done != [] {
      var n := |done| - 1;
      LogCounts(done[..n]);
      StepCounts(done[n]);
      TraceAppend(LogOf(done[..n]), StepLog(done[n]));
      assert StoresOf(done) == StoresOf(done[..n]) + [Write(CommandPort(done[n].h), 0, true)];
    }
  }

  lemma StepCounts(s: Served)
    requires |s.values| == 16
    ensures Writes(StepLog(s)) == [Write(CommandPort(s.h), 0, true)] && Reads(StepLog(s)) == 16
    ensures Delays(StepLog(s)) == 0
  {
    var e := Write(CommandPort(s.h), 0, true);
    assert [] + [e] == [e];
    AppendEffect([], e);
    AppendReads([e], ReadLog(s));
  }

  datatype ClearResult = ClearResult(status: ClearStatus, step: nat, stores: nat, readings: nat, bdf: Bdf, offset: nat,
                                     admission: nat)

  /** The state of the run when the loops reach position i of a group. */
  ghost predicate Clearing(r: ClearResult, done: seq<Served>, headers: seq<Header>, order: seq<nat>, words: seq<nat>,
                           events: seq<Event>)
  {
    && Follows(done, headers, order) && events == LogOf(done) && |words| == STEPS * SLOT && |done| <= STEPS
    && words[..SLOT * |done|] == SlotsOf(done)
    && r.status == ClearOk && r.step == r.stores == |done| && r.readings == 16 * |done| && r.admission == 1
  }

  ghost predicate MemoryReady(memory: map<Port, Word>, headers: seq<Header>, done: seq<Served>) {
    && (forall i :: 0 <= i < |headers| ==> HoldsHeader(memory, headers[i]))
    && (forall i :: 0 <= i < |done| ==> Cleared(memory, done[i].h))
  }

  lemma MemoryNext(memory: map<Port, Word>, memory': map<Port, Word>, headers: seq<Header>, done: seq<Served>,
                   s: Served)
    requires MemoryReady(memory, headers, done)
    requires memory' == memory[CommandPort(s.h) := WithLow16(Lookup(memory, CommandPort(s.h)), 0)]
    ensures MemoryReady(memory', headers, done + [s])
  {
    hide HoldsHeader, Cleared;
    forall i | 0 <= i < |headers| ensures HoldsHeader(memory', headers[i]) {
      ClearKeeps(memory, memory', s.h, headers[i]);
    }
    forall i | 0 <= i < |done + [s]| ensures Cleared(memory', (done + [s])[i].h) {
      ClearKeeps(memory, memory', s.h, (done + [s])[i].h);
    }
  }

  /** A run that stopped in the middle: the completed steps, then the function it stopped at. */
  ghost predicate Stopped(r: ClearResult, done: seq<Served>, headers: seq<Header>, values: seq<Word>, tail: seq<Event>)
  {
    var s := Schedule(headers);
    && |done| == r.step < |s| == |headers| && Follows(done, headers, s[..r.step])
    && s[r.step] < |headers| && r.bdf == headers[s[r.step]].bdf
    && StepEnd(r.status, headers[s[r.step]], values, r.offset, tail)
    && r.stores == r.step + (if r.status == WriteFailed then 0 else 1) && r.readings == 16 * r.step + |values|
    && r.status !in {ClearOk, InventoryRejected} && r.admission == 1
  }

  /** One function of the sequence. */
  method Serve(p: Platform, headers: seq<Header>, i: nat, trace: Trace, before: ClearResult, ghost done: seq<Served>,
               ghost log: seq<Event>, ghost ready: bool)
    returns (r: ClearResult, ghost done': seq<Served>, ghost values: seq<Word>, ghost events: seq<Event>)
    requires trace.Valid() && |headers| == STEPS && i < |headers|
    requires Clearing(before, done, headers, SoFar(headers, Category(headers[i]), i), trace.words[..], log)
    requires ready ==> p.faithful && MemoryReady(p.words, headers, done)
    modifies p`log, p`words, trace.words
    ensures p.log == old(p.log) + events
    ensures r.status == ClearOk ==>
      Clearing(r, done', headers, SoFar(headers, Category(headers[i]), i) + [i], trace.words[..], log + events)
    ensures r.status != ClearOk ==> done' == done && Stopped(r, done, headers, values, events)
    ensures ready ==> r.status == ClearOk && MemoryReady(p.words, headers, done')
  {
    hide Category, Schedule, SoFar, Follows, MemoryReady, StepEnd, LogOf, SlotsOf;
    ghost var order := SoFar(headers, Category(headers[i]), i);
    SoFarIsPrefix2(headers, i);
    LengthsAgree(done, headers, order);
    var h := headers[i];
    ghost var memory, words := p.words, trace.words[..];
    if ready { HeldAt(memory, headers, done, i); }
    var status, offset, seen;
    status, offset, seen, events := ClearFunction(p, h, trace, SLOT * before.step, ready);
    values, done' := seen, done;
    r := ClearResult(status, before.step, before.stores + (if status == WriteFailed then 0 else 1),
                     before.readings + |seen|, h.bdf, offset, 1);
    if status == ClearOk {
      ghost var s := Served(h, seen);
      StepComplete(h, seen, offset, events);
      FollowsNext(done, headers, order, s, i);
      done' := done + [s];
      r := r.(step := before.step + 1);
      if ready { MemoryNext(memory, p.words, headers, done, s); }
      SlotsNext(words, trace.words[..], done, s);
    }
  }

  lemma SoFarIsPrefix2(headers: seq<Header>, i: nat)
    requires i < |headers|
    ensures
      var o, s := SoFar(headers, Category(headers[i]), i), Schedule(headers);
      |o| < |s| == |headers| && s[..|o|] == o && s[|o|] == i
  {
    CategoryRange(headers[i]);
    SoFarIsPrefix(headers, Category(headers[i]), i);
  }

  lemma LengthsAgree(done: seq<Served>, headers: seq<Header>, order: seq<nat>)
    requires Follows(done, headers, order)
    ensures |done| == |order|
  {
  }

  lemma HeldAt(memory: map<Port, Word>, headers: seq<Header>, done: seq<Served>, i: nat)
    requires MemoryReady(memory, headers, done) && i < |headers|
    ensures HoldsHeader(memory, headers[i])
  {
  }

  lemma StepComplete(h: Header, values: seq<Word>, offset: nat, events: seq<Event>)
    requires StepEnd(ClearOk, h, values, offset, events)
    ensures Good(Served(h, values)) && events == StepLog(Served(h, values)) && |values| == 16
  {
    assert events == [events[0]] + events[1..];
  }

  lemma SlotsNext(before: seq<nat>, after: seq<nat>, done: seq<Served>, s: Served)
    requires |before| == |after| == STEPS * SLOT && |done| < STEPS && before[..SLOT * |done|] == SlotsOf(done)
    requires after[..SLOT * |done|] == before[..SLOT * |done|]
    requires after[SLOT * |done|..SLOT * |done| + SLOT] == SlotOf(s)
    ensures after[..SLOT * |done + [s]|] == SlotsOf(done) + SlotOf(s)
  {
    assert after[..SLOT * |done| + SLOT] == after[..SLOT * |done|] + after[SLOT * |done|..SLOT * |done| + SLOT];
  }

  lemma SoFarSteps(headers: seq<Header>, group: nat, i: nat)
    requires i < |headers| && group < 3
    ensures Category(headers[i]) == group ==> SoFar(headers, group, i + 1) == SoFar(headers, group, i) + [i]
    ensures Category(headers[i]) != group ==> SoFar(headers, group, i + 1) == SoFar(headers, group, i)
    ensures SoFar(headers, group + 1, 0) == SoFar(headers, group, |headers|) && SoFar(headers, 0, 0) == []
    ensures SoFar(headers, 3, 0) == Schedule(headers)
  {
  }

  lemma NothingDone(headers: seq<Header>, r: ClearResult, words: seq<nat>)
    requires |words| == STEPS * SLOT && r == ClearResult(ClearOk, 0, 0, 0, Bdf(0, 0, 0), 0, 1)
    ensures Clearing(r, [], headers, [], words, [])
  {
  }

  /** The result of every run. */
  ghost predicate ClearRun(r: ClearResult, count: nat, words: seq<nat>, events: seq<Event>, headers: seq<Header>,
                           admit: seq<Header> -> nat, done: seq<Served>, values: seq<Word>, tail: seq<Event>)
  {
    match r.status
    case InventoryRejected =>
      && events == [] && count == 0 && r.step == r.stores == r.readings == 0
      && (|headers| != 15 || admit(headers) != 1)
    case ClearOk =>
      && |headers| == STEPS && admit(headers) == 1 && Follows(done, headers, Schedule(headers)) && events == LogOf(done)
      && words == SlotsOf(done) && count == STEPS && r == ClearResult(ClearOk, 15, 15, 240, Bdf(0, 0, 0), 0, 1)
    case _ =>
      && |headers| == STEPS && admit(headers) == 1 && count == 0
      && Stopped(r, done, headers, values, tail) && events == LogOf(done) + tail
  }

  /** All functions, group by group; on faithful memory that still holds the inventory it succeeds and
      leaves every Command register zero. */
  method ExecuteCommandClear(p: Platform, headers: seq<Header>, admit: seq<Header> -> nat, trace: Trace,
                             ghost ready: bool)
    returns (r: ClearResult, ghost events: seq<Event>, ghost done: seq<Served>, ghost values: seq<Word>,
             ghost tail: seq<Event>)
    requires trace.Valid()
    requires ready ==> p.faithful && MemoryReady(p.words, headers, []) && |headers| == STEPS && admit(headers) == 1
    modifies p`log, p`words, trace`count, trace.words
    ensures p.log == old(p.log) + events && trace.Valid()
    ensures ClearRun(r, trace.count, trace.words[..], events, headers, admit, done, values, tail)
    ensures ready ==> r.status == ClearOk && MemoryReady(p.words, headers, done)
  {
    hide Category, SoFar, Follows, MemoryReady, StepEnd, LogOf, SlotsOf, Schedule;
    trace.count := 0;
    events, done, values, tail := [], [], [], [];
    r := ClearResult(ClearOk, 0, 0, 0, Bdf(0, 0, 0), 0, 0);
    if |headers| != STEPS { r := r.(status := InventoryRejected); return; }
    r := r.(admission := admit(headers));
    if r.admission != 1 { r := r.(status := InventoryRejected); return; }
    NothingDone(headers, r, trace.words[..]);
    SoFarSteps(headers, 0, 0);
    for group := 0 to 3
      invariant p.log == old(p.log) + events && trace.Valid() && trace.count == 0
      invariant Clearing(r, done, headers, SoFar(headers, group, 0), trace.words[..], events)
      invariant ready ==> MemoryReady(p.words, headers, done)
    {
      for i := 0 to |headers|
        invariant p.log == old(p.log) + events && trace.Valid() && trace.count == 0
        invariant Clearing(r, done, headers, SoFar(headers, group, i), trace.words[..], events)
        invariant ready ==> MemoryReady(p.words, headers, done)
      {
        SoFarSteps(headers, group, i);
        if Category(headers[i]) != group { continue; }
        ghost var sofar, e := events, [];
        r, done, values, e := Serve(p, headers, i, trace, r, done, events, ready);
        Regroup(old(p.log), sofar, e);
        events := sofar + e;
        if r.status != ClearOk { tail := e; return; }
      }
      SoFarSteps(headers, group, 0);
    }
    SoFarSteps(headers, 0, 0);
    AllDone(r, done, headers, trace.words[..], events);
    trace.count := r.step;
    r := r.(bdf := Bdf(0, 0, 0), offset := 0);
  }

  lemma AllDone(r: ClearResult, done: seq<Served>, headers: seq<Header>, words: seq<nat>, events: seq<Event>)
    requires |headers| == STEPS && Clearing(r, done, headers, Schedule(headers), words, events)
    ensures |done| == STEPS && words == SlotsOf(done)
  {
    hide LogOf, SlotsOf, Schedule;
    ScheduleIsStablePartition(headers);
    assert words[..SLOT * STEPS] == words;
  }

  /** The stores of a successful run: one per function, in schedule order, 240 reads, no delay. */
  lemma SuccessfulRun(r: ClearResult, count: nat, words: seq<nat>, events: seq<Event>, headers: seq<Header>,
                      admit: seq<Header> -> nat, done: seq<Served>, values: seq<Word>, tail: seq<Event>)
    requires ClearRun(r, count, words, events, headers, admit, done, values, tail) && r.status == ClearOk
    ensures |Schedule(headers)| == 15 && |Writes(events)| == 15 && Reads(events) == 240 && Delays(events) == 0
    ensures forall k :: 0 <= k < 15 ==>
      Schedule(headers)[k] < 15 && Writes(events)[k] == Write(Config(headers[Schedule(headers)[k]].bdf, 4), 0, true)
  {
    hide Schedule, LogOf, SlotsOf, Writes, Reads, Delays;
    ScheduleIsStablePartition(headers);
    forall i | 0 <= i < |done| ensures Good(done[i]) {
      assert ServedAt(done, headers, Schedule(headers), i);
    }
    LogCounts(done);
    forall k | 0 <= k < 15
      ensures Schedule(headers)[k] < 15
      ensures Writes(events)[k] == Write(Config(headers[Schedule(headers)[k]].bdf, 4), 0, true)
    {
      assert ServedAt(done, headers, Schedule(headers), k);
    }
  }
}
