/** Bracketed observations: one capability's registers are read between two complete collections of
    the same list. */
module Observation {
  import opened Platforms
  import opened Capabilities

  const EXPRESS_ID: nat := 0x10
  const POWER_ID: nat := 1

  // ---------------------------------------------------------------- shared loops

  method SameList(a: seq<Cap>, b: seq<Cap>) returns (same: bool)
    ensures same <==> a == b
  {
    if |a| != |b| { return false; }
    for i := 0 to |a|
      invariant a[..i] == b[..i]
    {
      if a[i].offset != b[i].offset || a[i].raw != b[i].raw { return false; }
    }
    return true;
  }

  datatype Choice = Missing | Several | One(index: nat)

  /** The only entry with identifier `id`. */
  ghost predicate Sole(list: seq<Cap>, id: nat, k: nat) {
    k < |list| && forall i :: 0 <= i < |list| ==> (Low8(list[i].raw) == id <==> i == k)
  }

  lemma SoleUnique(list: seq<Cap>, id: nat, a: nat, b: nat)
    requires Sole(list, id, a) && Sole(list, id, b)
    ensures a == b
  {
    assert Low8(list[a].raw) == id;
  }

  ghost predicate Chosen(list: seq<Cap>, id: nat, c: Choice) {
    match c
    case Missing => forall i :: 0 <= i < |list| ==> Low8(list[i].raw) != id
    case Several => exists i, j :: 0 <= i < j < |list| && Low8(list[i].raw) == id && Low8(list[j].raw) == id
    case One(k) => Sole(list, id, k)
  }

  method Select(list: seq<Cap>, id: nat) returns (c: Choice)
    ensures Chosen(list, id, c)
  {
    c := Missing;
    for i := 0 to |list|
      invariant !c.Several? && Chosen(list[..i], id, c)
    {
      if Low8(list[i].raw) != id { continue; }
      if c.One? {
        assert Low8(list[..i][c.index].raw) == id;
        return Several;
      }
      c := One(i);
    }
    assert list[..|list|] == list;
  }

  ghost predicate Free(list: seq<Cap>, offset: nat) {
    forall i :: 0 <= i < |list| ==> list[i].offset != offset
  }

  method NoneAt(list: seq<Cap>, first: nat, second: nat) returns (free: bool)
    ensures free <==> Free(list, first) && Free(list, second)
  {
    for i := 0 to |list|
      invariant forall k :: 0 <= k < i ==> list[k].offset != first && list[k].offset != second
    {
      if list[i].offset == first || list[i].offset == second { return false; }
    }
    return true;
  }

  // ---------------------------------------------------------------- PCI Express

  datatype ExpressStatus =
    | ExpressOk | NotPresent | BadArgument | CollectionFailed | ListChanged | Shape | PayloadFailed
    | PayloadAbsent | FinalFailed

  datatype Express = Express(status: ExpressStatus, offset: nat, capabilities: Word, control: Word)

  function Failed(status: ExpressStatus): Express {
    Express(status, 0, 0, 0)
  }

  /** Version 1 or 2, no extension bits, an endpoint without slot or a root port, matching the header
      layout, and room for two registers. */
  predicate ExpressShape(h: Header, cap: Cap) {
    var flags := High16(cap.raw);
    var version, kind := flags % 16, flags / 16 % 16;
    && (version == 1 || version == 2) && flags < 0x4000 && cap.offset <= 244
    && ((Layout(h) == 0 && (kind == 0 || kind == 1) && flags / 0x100 % 2 == 0) || (Layout(h) == 1 && kind == 4))
  }

  ghost predicate ExpressUsable(h: Header, list: seq<Cap>, k: nat) {
    && Sole(list, EXPRESS_ID, k) && ExpressShape(h, list[k])
    && Free(list, list[k].offset + 4) && Free(list, list[k].offset + 8)
  }

  /** The two collections around the payload reads. */
  datatype Bracket = Bracket(opening: seq<Event>, closing: seq<Event>)

  /** The result and the complete log of a successful observation of entry k; what each other
      status says about the list. */
  ghost predicate ExpressRun(events: seq<Event>, h: Header, list: seq<Cap>, out: Express, k: nat, b: Bracket) {
    match out.status
    case ExpressOk =>
      && ArgumentsOk(h) && ExpressUsable(h, list, k) && out.offset == list[k].offset
      && CollectionLog(b.opening, h, list) && CollectionLog(b.closing, h, list)
      && events == b.opening + [Read(Config(h.bdf, out.offset + 4), Some(out.capabilities))]
                   + [Read(Config(h.bdf, out.offset + 8), Some(out.control))] + b.closing
      && out.capabilities != ALL_ONES && out.control != ALL_ONES && |events| <= 102
    case BadArgument => out == Failed(BadArgument) && |list| > CAPACITY && events == []
    case _ => out == Failed(out.status) && |list| <= CAPACITY && ExpressStops(out.status, events, h, list, k, b)
  }

  /** Why an observation stopped, and after which reads. */
  ghost predicate ExpressStops(status: ExpressStatus, events: seq<Event>, h: Header, list: seq<Cap>, k: nat,
                               b: Bracket)
  {
    match status
    case CollectionFailed => Uncollected(events, h)
    case ListChanged => CollectedOther(events, h, list)
    case NotPresent => CollectionLog(events, h, list) && Chosen(list, EXPRESS_ID, Missing)
    case Shape => CollectionLog(events, h, list) && forall i: nat :: !ExpressUsable(h, list, i)
    case PayloadFailed =>
      AfterOpening(events, h, list, k, b) && PayloadEnds(events[|b.opening|..], h.bdf, list[k].offset, None)
    case PayloadAbsent =>
      AfterOpening(events, h, list, k, b) && PayloadEnds(events[|b.opening|..], h.bdf, list[k].offset, Some(ALL_ONES))
    case FinalFailed =>
      && AfterOpening(events, h, list, k, b) && |events| >= |b.opening| + 2
      && PayloadRead(events[|b.opening|..], h.bdf, list[k].offset)
      && (Uncollected(events[|b.opening| + 2..], h) || CollectedOther(events[|b.opening| + 2..], h, list))
    case _ => false
  }

  /** The traversal failed. */
  ghost predicate Uncollected(events: seq<Event>, h: Header) {
    exists r: CapResult, walked :: r.status != CapOk && Explains(r, h, events, walked)
  }

  /** A complete collection, of another list. */
  ghost predicate CollectedOther(events: seq<Event>, h: Header, list: seq<Cap>) {
    exists other :: CollectionLog(events, h, other) && other != list
  }

  ghost predicate AfterOpening(events: seq<Event>, h: Header, list: seq<Cap>, k: nat, b: Bracket) {
    ExpressUsable(h, list, k) && CollectionLog(b.opening, h, list) && b.opening <= events
  }

  /** The last payload read answered `last`. */
  ghost predicate PayloadEnds(tail: seq<Event>, bdf: Bdf, offset: nat, last: Option<Word>) {
    || tail == [Read(Config(bdf, offset + 4), last)]
    || (&& |tail| == 2 && tail[0].Read? && tail[0].port == Config(bdf, offset + 4)
        && tail[0].answer.Some? && tail[0].answer.value != ALL_ONES && tail[1] == Read(Config(bdf, offset + 8), last))
  }

  /** Both payload registers answered. */
  ghost predicate PayloadRead(tail: seq<Event>, bdf: Bdf, offset: nat) {
    && |tail| >= 2 && tail[0].Read? && tail[0].port == Config(bdf, offset + 4) && tail[0].answer.Some?
    && tail[1].Read? && tail[1].port == Config(bdf, offset + 8) && tail[1].answer.Some?
    && tail[0].answer.value != ALL_ONES && tail[1].answer.value != ALL_ONES
  }

  /** Faithful memory on which the observation of entry k must succeed. */
  ghost predicate ExpressReady(p: Platform, h: Header, list: seq<Cap>, k: nat)
    reads p`words
  {
    && ArgumentsOk(h) && |list| <= CAPACITY && Describes(p, h, list) && ExpressUsable(h, list, k)
    && p.Peek(Config(h.bdf, list[k].offset + 4)) != ALL_ONES
    && p.Peek(Config(h.bdf, list[k].offset + 8)) != ALL_ONES
  }

  /** A fresh collection, unchanged since `previous`. */
  method Recollect(p: Platform, h: Header, previous: seq<Cap>)
    returns (collected: bool, same: bool, ghost events: seq<Event>)
    modifies p`log
    ensures p.log == old(p.log) + events && OnlyReads(events) && |events| <= 4 + CAPACITY
    ensures collected && same ==> ArgumentsOk(h) && CollectionLog(events, h, previous)
    ensures if !collected then Uncollected(events, h) else same || CollectedOther(events, h, previous)
    ensures p.faithful && ArgumentsOk(h) && Describes(p, h, previous) ==> collected && same
  {
    ghost var walked;
    var r, list;
    r, list, events, walked := Collect(p, h, previous);
    collected := r.status == CapOk;
    same := SameList(list, previous);
  }

  /** The one usable PCI Express capability of an unchanged list. */
  method LocateExpress(h: Header, list: seq<Cap>) returns (status: ExpressStatus, k: nat)
    ensures status == ExpressOk ==> ExpressUsable(h, list, k) && forall i: nat :: Sole(list, EXPRESS_ID, i) ==> i == k
    ensures status == NotPresent <==> Chosen(list, EXPRESS_ID, Missing)
    ensures status == Shape ==> forall i: nat :: !ExpressUsable(h, list, i)
    ensures status == ExpressOk || status == NotPresent || status == Shape
  {
    k := 0;
    var choice := Select(list, EXPRESS_ID);
    if choice.Several? { return Shape, 0; }
    if choice.Missing? { return NotPresent, 0; }
    k := choice.index;
    forall i: nat | Sole(list, EXPRESS_ID, i) ensures i == k { SoleUnique(list, EXPRESS_ID, i, k); }
    if !ExpressShape(h, list[k]) { return Shape, k; }
    var free := NoneAt(list, list[k].offset + 4, list[k].offset + 8);
    status := if free then ExpressOk else Shape;
  }

  method ReadRegister(p: Platform, port: Port) returns (ok: bool, value: Word, ghost events: seq<Event>)
    modifies p`log
    ensures p.log == old(p.log) + events && events == [Read(port, if ok then Some(value) else None)]
    ensures p.faithful ==> ok && value == p.Peek(port)
  {
    ok, value := p.ReadDword(port);
    events := [Read(port, if ok then Some(value) else None)];
  }

  /** The two payload registers, then the closing collection. */
  method ReadExpress(p: Platform, h: Header, list: seq<Cap>, offset: nat)
    returns (out: Express, ghost events: seq<Event>, ghost closing: seq<Event>)
    modifies p`log
    ensures p.log == old(p.log) + events && OnlyReads(events) && |events| <= 2 + 4 + CAPACITY
    ensures out.status == ExpressOk ==> ExpressTail(events, h, list, offset, out, closing)
    ensures out.status != ExpressOk ==> out == Failed(out.status) && PayloadStops(out.status, events, h, list, offset)
    ensures out.status in {ExpressOk, PayloadFailed, PayloadAbsent, FinalFailed}
    ensures p.faithful && ArgumentsOk(h) && Describes(p, h, list)
            && p.Peek(Config(h.bdf, offset + 4)) != ALL_ONES && p.Peek(Config(h.bdf, offset + 8)) != ALL_ONES ==>
      out == Express(ExpressOk, offset, p.Peek(Config(h.bdf, offset + 4)), p.Peek(Config(h.bdf, offset + 8)))
  {
    hide CollectionLog, Uncollected, CollectedOther, Describes, ArgumentsOk;
    ghost var more;
    var ok, first, second;
    closing := [];
    ok, first, events := ReadRegister(p, Config(h.bdf, offset + 4));
    if !ok { return Failed(PayloadFailed), events, []; }
    if first == ALL_ONES { return Failed(PayloadAbsent), events, []; }
    ok, second, more := ReadRegister(p, Config(h.bdf, offset + 8));
    events := events + more;
    if !ok { return Failed(PayloadFailed), events, []; }
    if second == ALL_ONES { return Failed(PayloadAbsent), events, []; }
    var collected, same;
    ghost var payload := events;
    collected, same, closing := Recollect(p, h, list);
    events := payload + closing;
    assert events[2..] == closing;
    if !collected || !same { return Failed(FinalFailed), events, closing; }
    out := Express(ExpressOk, offset, first, second);
  }

  ghost predicate PayloadStops(status: ExpressStatus, tail: seq<Event>, h: Header, list: seq<Cap>, offset: nat) {
    match status
    case PayloadFailed => PayloadEnds(tail, h.bdf, offset, None)
    case PayloadAbsent => PayloadEnds(tail, h.bdf, offset, Some(ALL_ONES))
    case FinalFailed =>
      PayloadRead(tail, h.bdf, offset) && (Uncollected(tail[2..], h) || CollectedOther(tail[2..], h, list))
    case _ => false
  }

  ghost predicate ExpressTail(events: seq<Event>, h: Header, list: seq<Cap>, offset: nat, out: Express,
                              closing: seq<Event>)
  {
    && out == Express(ExpressOk, offset, out.capabilities, out.control)
    && CollectionLog(closing, h, list)
    && events == [Read(Config(h.bdf, offset + 4), Some(out.capabilities))]
                 + [Read(Config(h.bdf, offset + 8), Some(out.control))] + closing
    && out.capabilities != ALL_ONES && out.control != ALL_ONES
  }

  lemma JoinExpress(head: seq<Event>, tail: seq<Event>, h: Header, list: seq<Cap>, out: Express, k: nat,
                    closing: seq<Event>)
    requires ExpressUsable(h, list, k) && CollectionLog(head, h, list)
    requires ExpressTail(tail, h, list, list[k].offset, out, closing)
    requires ArgumentsOk(h)
    ensures ExpressRun(head + tail, h, list, out, k, Bracket(head, closing))
  {
    LinkedFits(Head(h), list, [list[k].offset + 4, list[k].offset + 8]);
  }

  lemma JoinStopped(status: ExpressStatus, head: seq<Event>, tail: seq<Event>, h: Header, list: seq<Cap>, k: nat,
                    closing: seq<Event>)
    requires ExpressUsable(h, list, k) && CollectionLog(head, h, list)
    requires PayloadStops(status, tail, h, list, list[k].offset)
    ensures ExpressStops(status, head + tail, h, list, k, Bracket(head, closing))
  {
    hide CollectionLog, Sole, Free, ExpressShape, PayloadEnds, Uncollected, CollectedOther;
    assert (head + tail)[|head|..] == tail;
    if status == FinalFailed {
      assert (head + tail)[|head| + 2..] == tail[2..];
    }
  }

  /** The opening collection, compared with the previous list, and the choice of the capability. */
  method OpenExpress(p: Platform, h: Header, previous: seq<Cap>)
    returns (status: ExpressStatus, index: nat, ghost events: seq<Event>)
    requires |previous| <= CAPACITY
    modifies p`log
    ensures p.log == old(p.log) + events && OnlyReads(events) && |events| <= 4 + CAPACITY
    ensures status == ExpressOk ==>
      && ArgumentsOk(h) && CollectionLog(events, h, previous) && ExpressUsable(h, previous, index) && index < |previous|
      && forall i: nat :: Sole(previous, EXPRESS_ID, i) ==> i == index
    ensures status == Shape || status == NotPresent ==> forall i: nat :: !ExpressUsable(h, previous, i)
    ensures status in {ExpressOk, NotPresent, Shape, CollectionFailed, ListChanged}
    ensures status != ExpressOk ==> ExpressStops(status, events, h, previous, 0, Bracket([], []))
    ensures p.faithful && ArgumentsOk(h) && Describes(p, h, previous) ==>
      status != CollectionFailed && status != ListChanged
  {
    index := 0;
    var collected, same;
    collected, same, events := Recollect(p, h, previous);
    if !collected { return CollectionFailed, 0, events; }
    if !same { return ListChanged, 0, events; }
    status, index := LocateExpress(h, previous);
  }

  /** At most 106 reads on any platform, at most 102 on success: the two payload registers are slots
      no capability may occupy. */
  method ObserveExpress(p: Platform, h: Header, previous: seq<Cap>, ghost want: nat)
    returns (out: Express, ghost events: seq<Event>, ghost k: nat, ghost b: Bracket)
    modifies p`log
    ensures p.log == old(p.log) + events && OnlyReads(events) && |events| <= 106
    ensures ExpressRun(events, h, previous, out, k, b)
    ensures p.faithful && ExpressReady(p, h, previous, want) ==>
      out == Express(ExpressOk, previous[want].offset, p.Peek(Config(h.bdf, previous[want].offset + 4)),
                     p.Peek(Config(h.bdf, previous[want].offset + 8)))
  {
    hide CollectionLog, Sole, Chosen, Free, Describes, ExpressShape, ExpressStops, PayloadStops;
    events, k, b := [], 0, Bracket([], []);
    if |previous| > CAPACITY { return Failed(BadArgument), [], 0, b; }
    var status, index;
    status, index, events := OpenExpress(p, h, previous);
    if status != ExpressOk { return Failed(status), events, 0, b; }
    ghost var tail, closing;
    out, tail, closing := ReadExpress(p, h, previous, previous[index].offset);
    if out.status == ExpressOk {
      JoinExpress(events, tail, h, previous, out, index, closing);
    } else {
      JoinStopped(out.status, events, tail, h, previous, index, closing);
    }
    k, b := index, Bracket(events, closing);
    events := events + tail;
  }

  // ---------------------------------------------------------------- PCI power management

  datatype PowerStatus =
    | PowerOk | NoPower | PowerArgument | PowerCollection | PowerList | PowerShape | PowerFailed
    | PowerAbsent | PowerFinal

  datatype Power = Power(status: PowerStatus, offset: nat, capabilities: Word, control: Word)

  function PowerFailure(status: PowerStatus): Power {
    Power(status, 0, 0, 0)
  }

  /** Version 1 to 3, with room for the control register. */
  predicate PowerForm(cap: Cap) {
    1 <= High16(cap.raw) % 8 <= 3 && cap.offset <= 0xf8
  }

  ghost predicate PowerUsable(list: seq<Cap>, k: nat) {
    Sole(list, POWER_ID, k) && PowerForm(list[k]) && Free(list, list[k].offset + 4)
  }

  ghost predicate PowerRun(events: seq<Event>, h: Header, list: seq<Cap>, out: Power, k: nat, b: Bracket) {
    match out.status
    case PowerOk =>
      && ArgumentsOk(h) && PowerUsable(list, k) && out.offset == list[k].offset
      && out.capabilities == High16(list[k].raw)
      && CollectionLog(b.opening, h, list) && CollectionLog(b.closing, h, list)
      && events == b.opening + [Read(Config(h.bdf, out.offset + 4), Some(out.control))] + b.closing
      && out.control != ALL_ONES
    case PowerArgument => out == PowerFailure(PowerArgument) && |list| > CAPACITY && events == []
    case _ => out == PowerFailure(out.status) && |list| <= CAPACITY && PowerStops(out.status, events, h, list, k, b)
  }

  ghost predicate PowerStops(status: PowerStatus, events: seq<Event>, h: Header, list: seq<Cap>, k: nat, b: Bracket) {
    match status
    case PowerCollection => Uncollected(events, h)
    case PowerList => CollectedOther(events, h, list)
    case NoPower => CollectionLog(events, h, list) && Chosen(list, POWER_ID, Missing)
    case PowerShape => CollectionLog(events, h, list) && forall i: nat :: !PowerUsable(list, i)
    case _ =>
      && PowerUsable(list, k) && CollectionLog(b.opening, h, list) && b.opening <= events
      && ControlStops(status, events[|b.opening|..], h, list, list[k].offset)
  }

  /** Why the payload read or the closing collection stopped the observation. */
  ghost predicate ControlStops(status: PowerStatus, tail: seq<Event>, h: Header, list: seq<Cap>, offset: nat) {
    match status
    case PowerFailed => tail == [Read(Config(h.bdf, offset + 4), None)]
    case PowerAbsent => tail == [Read(Config(h.bdf, offset + 4), Some(ALL_ONES))]
    case PowerFinal =>
      && tail != [] && tail[0].Read? && tail[0].port == Config(h.bdf, offset + 4) && tail[0].answer.Some?
      && tail[0].answer.value != ALL_ONES && (Uncollected(tail[1..], h) || CollectedOther(tail[1..], h, list))
    case _ => false
  }

  ghost predicate PowerReady(p: Platform, h: Header, list: seq<Cap>, k: nat)
    reads p`words
  {
    && ArgumentsOk(h) && |list| <= CAPACITY && Describes(p, h, list) && PowerUsable(list, k)
    && p.Peek(Config(h.bdf, list[k].offset + 4)) != ALL_ONES
  }

  method LocatePower(list: seq<Cap>) returns (status: PowerStatus, k: nat)
    ensures status == PowerOk ==> PowerUsable(list, k) && forall i: nat :: Sole(list, POWER_ID, i) ==> i == k
    ensures status == NoPower <==> Chosen(list, POWER_ID, Missing)
    ensures status == PowerShape ==> forall i: nat :: !PowerUsable(list, i)
    ensures status == PowerOk || status == NoPower || status == PowerShape
  {
    k := 0;
    var choice := Select(list, POWER_ID);
    if choice.Several? { return PowerShape, 0; }
    if choice.Missing? { return NoPower, 0; }
    k := choice.index;
    forall i: nat | Sole(list, POWER_ID, i) ensures i == k { SoleUnique(list, POWER_ID, i, k); }
    if !PowerForm(list[k]) { return PowerShape, k; }
    var free := NoneAt(list, list[k].offset + 4, list[k].offset + 4);
    status := if free then PowerOk else PowerShape;
  }

  method ReadPower(p: Platform, h: Header, list: seq<Cap>, offset: nat, capabilities: Word)
    returns (out: Power, ghost events: seq<Event>, ghost closing: seq<Event>)
    modifies p`log
    ensures p.log == old(p.log) + events && OnlyReads(events) && |events| <= 1 + 4 + CAPACITY
    ensures out.status == PowerOk ==> PowerTail(events, h, list, offset, capabilities, out, closing)
    ensures out.status != PowerOk ==>
      out == PowerFailure(out.status) && ControlStops(out.status, events, h, list, offset)
    ensures out.status in {PowerOk, PowerFailed, PowerAbsent, PowerFinal}
    ensures p.faithful && ArgumentsOk(h) && Describes(p, h, list) && p.Peek(Config(h.bdf, offset + 4)) != ALL_ONES ==>
      out == Power(PowerOk, offset, capabilities, p.Peek(Config(h.bdf, offset + 4)))
  {
    hide CollectionLog, Uncollected, CollectedOther, Describes, ArgumentsOk;
    var ok, value;
    closing := [];
    ok, value, events := ReadRegister(p, Config(h.bdf, offset + 4));
    if !ok { return PowerFailure(PowerFailed), events, []; }
    if value == ALL_ONES { return PowerFailure(PowerAbsent), events, []; }
    var collected, same;
    ghost var payload := events;
    collected, same, closing := Recollect(p, h, list);
    events := payload + closing;
    assert events[1..] == closing;
    if !collected || !same { return PowerFailure(PowerFinal), events, closing; }
    out := Power(PowerOk, offset, capabilities, value);
  }

  ghost predicate PowerTail(events: seq<Event>, h: Header, list: seq<Cap>, offset: nat, capabilities: Word,
                            out: Power, closing: seq<Event>)
  {
    && out == Power(PowerOk, offset, capabilities, out.control) && CollectionLog(closing, h, list)
    && events == [Read(Config(h.bdf, offset + 4), Some(out.control))] + closing && out.control != ALL_ONES
  }

  lemma JoinPower(head: seq<Event>, tail: seq<Event>, h: Header, list: seq<Cap>, out: Power, k: nat,
                  closing: seq<Event>)
    requires PowerUsable(list, k) && CollectionLog(head, h, list)
    requires PowerTail(tail, h, list, list[k].offset, High16(list[k].raw), out, closing)
    requires ArgumentsOk(h)
    ensures PowerRun(head + tail, h, list, out, k, Bracket(head, closing))
  {
  }

  lemma JoinUnread(status: PowerStatus, head: seq<Event>, tail: seq<Event>, h: Header, list: seq<Cap>, k: nat,
                   closing: seq<Event>)
    requires PowerUsable(list, k) && CollectionLog(head, h, list) && ControlStops(status, tail, h, list, list[k].offset)
    ensures PowerStops(status, head + tail, h, list, k, Bracket(head, closing))
  {
    hide CollectionLog, Sole, Free, PowerForm, Uncollected, CollectedOther;
    assert (head + tail)[|head|..] == tail;
  }

  method OpenPower(p: Platform, h: Header, previous: seq<Cap>)
    returns (status: PowerStatus, index: nat, ghost events: seq<Event>)
    requires |previous| <= CAPACITY
    modifies p`log
    ensures p.log == old(p.log) + events && OnlyReads(events) && |events| <= 4 + CAPACITY
    ensures status == PowerOk ==>
      && ArgumentsOk(h) && CollectionLog(events, h, previous) && PowerUsable(previous, index) && index < |previous|
      && forall i: nat :: Sole(previous, POWER_ID, i) ==> i == index
    ensures status == PowerShape || status == NoPower ==> forall i: nat :: !PowerUsable(previous, i)
    ensures status in {PowerOk, NoPower, PowerShape, PowerCollection, PowerList}
    ensures status != PowerOk ==> PowerStops(status, events, h, previous, 0, Bracket([], []))
    ensures p.faithful && ArgumentsOk(h) && Describes(p, h, previous) ==>
      status != PowerCollection && status != PowerList
  {
    index := 0;
    var collected, same;
    collected, same, events := Recollect(p, h, previous);
    if !collected { return PowerCollection, 0, events; }
    if !same { return PowerList, 0, events; }
    status, index := LocatePower(previous);
  }

  method ObservePower(p: Platform, h: Header, previous: seq<Cap>, ghost want: nat)
    returns (out: Power, ghost events: seq<Event>, ghost k: nat, ghost b: Bracket)
    modifies p`log
    ensures p.log == old(p.log) + events && OnlyReads(events) && |events| <= 105
    ensures PowerRun(events, h, previous, out, k, b)
    ensures p.faithful && PowerReady(p, h, previous, want) ==>
      out == Power(PowerOk, previous[want].offset, High16(previous[want].raw),
                   p.Peek(Config(h.bdf, previous[want].offset + 4)))
  {
    hide CollectionLog, Sole, Chosen, Free, Describes, PowerForm, PowerStops, ControlStops;
    events, k, b := [], 0, Bracket([], []);
    if |previous| > CAPACITY { return PowerFailure(PowerArgument), [], 0, b; }
    var status, index;
    status, index, events := OpenPower(p, h, previous);
    if status != PowerOk { return PowerFailure(status), events, 0, b; }
    ghost var tail, closing;
    out, tail, closing := ReadPower(p, h, previous, previous[index].offset, High16(previous[index].raw));
    if out.status == PowerOk {
      JoinPower(events, tail, h, previous, out, index, closing);
    } else {
      JoinUnread(out.status, events, tail, h, previous, index, closing);
    }
    k, b := index, Bracket(events, closing);
    events := events + tail;
  }
}
