/** The outside world of the boot code: configuration and memory-mapped reads, single writes and
    timed delays, each of which may fail or answer anything. */
module Platforms {
  datatype Option<T> = None | Some(value: T)

  /** A 32-bit register value. Masks are written as arithmetic on their fields. */
  type Word = w: int | 0 <= w < 0x1_0000_0000

  /** The bit of weight `weight`, a power of two. */
  predicate Bit(word: Word, weight: nat)
    requires weight > 0
  {
    word / weight % 2 == 1
  }

  /** The word with that bit cleared. */
  function Clear(word: Word, weight: nat): (r: Word)
    requires weight > 0
    ensures r <= word
  {
    if Bit(word, weight) then ClearFits(word, weight); word - weight else word
  }

  lemma ClearFits(word: Word, weight: nat)
    requires weight > 0 && Bit(word, weight)
    ensures weight <= word
  {
  }

  function Low16(word: Word): Word {
    word % 0x1_0000
  }

  function High16(word: Word): Word {
    word / 0x1_0000
  }

  /** The word with its low half replaced. */
  function WithLow16(word: Word, low: Word): Word
    requires low < 0x1_0000
  {
    word - word % 0x1_0000 + low
  }

  const ALL_ONES: Word := 0xffff_ffff

  /** Bus, device and function number. */
  datatype Bdf = Bdf(bus: nat, device: nat, fn: nat)

  datatype Port =
    | Config(bdf: Bdf, offset: nat)
    | Mmio(mmio: nat)
    | Extended(extended: nat)
    | Mechanism1(address: nat)

  datatype Event =
    | Read(port: Port, answer: Option<Word>)
    | Write(port: Port, value: Word, ok: bool)
    | Delay(ms: nat, ok: bool)

  /** One read of a register whose low half has this value. */
  ghost predicate LowRead(e: Event, port: Port, low: Word) {
    e.Read? && e.port == port && e.answer.Some? && Low16(e.answer.value) == low
  }

  /** Such a read that failed or showed something else. */
  ghost predicate LowLost(e: Event, port: Port, low: Word) {
    e.Read? && e.port == port && (e.answer.None? || Low16(e.answer.value) != low)
  }

  ghost predicate OnlyReads(events: seq<Event>) {
    forall i :: 0 <= i < |events| ==> events[i].Read?
  }

  /** The values successfully read from one port, in order. */
  ghost function Answers(events: seq<Event>, port: Port): seq<Word> {
    if events == [] then []
    else
      var n := |events| - 1;
      var last := events[n];
      Answers(events[..n], port) +
        if last.Read? && last.port == port && last.answer.Some? then [last.answer.value] else []
  }

  /** The number of reads, and of delays. */
  ghost function Reads(events: seq<Event>): nat {
    if events == [] then 0 else Reads(events[..|events| - 1]) + if events[|events| - 1].Read? then 1 else 0
  }

  ghost function Delays(events: seq<Event>): nat {
    if events == [] then 0 else Delays(events[..|events| - 1]) + if events[|events| - 1].Delay? then 1 else 0
  }

  /** The writes, in order. */
  ghost function Writes(events: seq<Event>): seq<Event> {
    if events == [] then []
    else Writes(events[..|events| - 1]) + if events[|events| - 1].Write? then [events[|events| - 1]] else []
  }

  lemma {:induction false} TraceAppend(a: seq<Event>, b: seq<Event>)
    ensures Writes(a + b) == Writes(a) + Writes(b)
    ensures Delays(a + b) == Delays(a) + Delays(b)
    ensures Reads(a + b) == Reads(a) + Reads(b)
  {
    if b == [] {
      assert a + b == a;
    } else {
      var n := |b| - 1;
      TraceAppend(a, b[..n]);
      assert (a + b)[..|a + b| - 1] == a + b[..n];
    }
  }

  lemma {:induction false} AnswersAppend(a: seq<Event>, b: seq<Event>, port: Port)
    ensures Answers(a + b, port) == Answers(a, port) + Answers(b, port)
  {
    if b == [] {
      assert a + b == a;
    } else {
      var n := |b| - 1;
      AnswersAppend(a, b[..n], port);
      assert (a + b)[..|a + b| - 1] == a + b[..n];
    }
  }

  lemma AnswerOf(e: Event, port: Port)
    ensures Answers([e], port) == if e.Read? && e.port == port && e.answer.Some? then [e.answer.value] else []
  {
    assert [e][..0] == [];
  }

  lemma {:induction false} OnlyReadsTrace(a: seq<Event>)
    requires OnlyReads(a)
    ensures Writes(a) == [] && Delays(a) == 0 && Reads(a) == |a|
  {
    if a != [] {
      OnlyReadsTrace(a[..|a| - 1]);
    }
  }

  lemma AppendReads(a: seq<Event>, b: seq<Event>)
    requires OnlyReads(b)
    ensures Writes(a + b) == Writes(a) && Delays(a + b) == Delays(a) && Reads(a + b) == Reads(a) + |b|
  {
    TraceAppend(a, b);
    OnlyReadsTrace(b);
  }

  lemma Regroup(a: seq<Event>, b: seq<Event>, c: seq<Event>)
    ensures a + b + c == a + (b + c)
  {
  }

  /** Appending one write or delay. */
  lemma AppendEffect(a: seq<Event>, e: Event)
    requires !e.Read?
    ensures Writes(a + [e]) == Writes(a) + (if e.Write? then [e] else [])
    ensures Delays(a + [e]) == Delays(a) + (if e.Delay? then 1 else 0) && Reads(a + [e]) == Reads(a)
    ensures forall port :: Answers(a + [e], port) == Answers(a, port)
  {
    assert (a + [e])[..|a|] == a;
  }

  lemma EmptyTrace()
    ensures Writes([]) == [] && Delays([]) == 0 && Reads([]) == 0 && OnlyReads([])
  {
  }

  lemma OneDelay(ms: nat, ok: bool)
    ensures Writes([Delay(ms, ok)]) == [] && Delays([Delay(ms, ok)]) == 1
  {
    assert [Delay(ms, ok)] == [] + [Delay(ms, ok)];
    AppendEffect([], Delay(ms, ok));
  }

  lemma {:induction false} NotAsked(a: seq<Event>, port: Port)
    requires forall i :: 0 <= i < |a| ==> !(a[i].Read? && a[i].port == port)
    ensures Answers(a, port) == []
  {
    if a != [] {
      NotAsked(a[..|a| - 1], port);
    }
  }

  /** What a memory holds at a port; an absent register reads as all ones. */
  function Lookup(words: map<Port, Word>, port: Port): Word {
    if port in words then words[port] else ALL_ONES
  }

  /** The memory after the 16-bit stores of a log. */
  ghost function Replay(words: map<Port, Word>, events: seq<Event>): map<Port, Word> {
    if events == [] then words
    else
      var before, last := Replay(words, events[..|events| - 1]), events[|events| - 1];
      if last.Write? && last.value < 0x1_0000
      then before[last.port := WithLow16(Lookup(before, last.port), last.value)]
      else before
  }

  lemma {:induction false} ReplayAppend(words: map<Port, Word>, a: seq<Event>, b: seq<Event>)
    ensures Replay(words, a + b) == Replay(Replay(words, a), b)
  {
    if b == [] {
      assert a + b == a;
    } else {
      var n := |b| - 1;
      ReplayAppend(words, a, b[..n]);
      assert (a + b)[..|a + b| - 1] == a + b[..n];
    }
  }

  /** Without a store the memory stays as it was. */
  lemma {:induction false} ReplaySilent(words: map<Port, Word>, events: seq<Event>)
    requires Writes(events) == []
    ensures Replay(words, events) == words
  {
    if events != [] {
      ReplaySilent(words, events[..|events| - 1]);
    }
  }

  lemma ReplayStore(words: map<Port, Word>, port: Port, value: Word, ok: bool)
    requires value < 0x1_0000
    ensures Replay(words, [Write(port, value, ok)]) == words[port := WithLow16(Lookup(words, port), value)]
  {
    assert [Write(port, value, ok)][..0] == [];
  }

  /** One store and then nothing but reads and delays. */
  lemma ReplayStoreThen(words: map<Port, Word>, port: Port, value: Word, ok: bool, rest: seq<Event>)
    requires value < 0x1_0000 && Writes(rest) == []
    ensures Replay(words, [Write(port, value, ok)] + rest) == words[port := WithLow16(Lookup(words, port), value)]
  {
    ReplayAppend(words, [Write(port, value, ok)], rest);
    ReplayStore(words, port, value, ok);
    ReplaySilent(words[port := WithLow16(Lookup(words, port), value)], rest);
  }

  /** Nothing stored, then one store, then nothing stored. */
  lemma ReplayOneStore(words: map<Port, Word>, head: seq<Event>, port: Port, value: Word, ok: bool, rest: seq<Event>)
    requires value < 0x1_0000 && Writes(head) == [] && Writes(rest) == []
    ensures Replay(words, head + [Write(port, value, ok)] + rest) ==
            words[port := WithLow16(Lookup(words, port), value)]
  {
    hide Writes;
    Regroup(head, [Write(port, value, ok)], rest);
    ReplayAppend(words, head, [Write(port, value, ok)] + rest);
    ReplaySilent(words, head);
    ReplayStoreThen(words, port, value, ok, rest);
  }

  /** One store anywhere in the log. */
  lemma {:induction false} ReplaySole(words: map<Port, Word>, events: seq<Event>, port: Port, value: Word, ok: bool)
    requires value < 0x1_0000 && Writes(events) == [Write(port, value, ok)]
    ensures Replay(words, events) == words[port := WithLow16(Lookup(words, port), value)]
  {
    var m := |events| - 1;
    if events[m].Write? {
      var all := Writes(events[..m]) + [events[m]];
      assert Writes(events) == all && all[|all| - 1] == events[m];
      ReplaySilent(words, events[..m]);
    } else {
      ReplaySole(words, events[..m], port, value, ok);
    }
  }

  lemma {:induction false} WritesOfPrefix(events: seq<Event>, n: nat)
    requires n <= |events|
    ensures Writes(events[..n]) <= Writes(events)
  {
    if n == |events| {
      assert events[..n] == events;
    } else {
      var m := |events| - 1;
      WritesOfPrefix(events[..m], n);
      assert events[..m][..n] == events[..n];
    }
  }

  predicate StoreTo(e: Event, port: Port) {
    e.Write? && e.port == port
  }

  lemma LowReplaced(word: Word, low: Word)
    requires low < 0x1_0000
    ensures Low16(WithLow16(word, low)) == low
  {
  }

  /** A register whose every store is `value` holds it once one of them has been issued. */
  lemma {:induction false} ReplayConstant(words: map<Port, Word>, events: seq<Event>, port: Port, value: Word)
    requires value < 0x1_0000
    requires forall e :: e in Writes(events) && StoreTo(e, port) ==> e.value == value
    ensures (exists e :: e in Writes(events) && StoreTo(e, port)) ==>
      Low16(Lookup(Replay(words, events), port)) == value
  {
    hide Low16, WithLow16;
    if events != [] {
      var m := |events| - 1;
      LowReplaced(Lookup(Replay(words, events[..m]), port), value);
      ReplayConstant(words, events[..m], port, value);
      assert StoreTo(events[m], port) ==> events[m] in Writes(events);
    }
  }

  /** Only reads, and every answer is what the memory holds. */
  ghost predicate Truthful(words: map<Port, Word>, events: seq<Event>) {
    forall i :: 0 <= i < |events| ==> events[i].Read? && events[i].answer == Some(Lookup(words, events[i].port))
  }

  lemma NothingTold(words: map<Port, Word>)
    ensures Truthful(words, [])
  {
  }

  lemma TruthfulParts(words: map<Port, Word>, a: seq<Event>, b: seq<Event>)
    ensures Truthful(words, a + b) <==> Truthful(words, a) && Truthful(words, b)
  {
    if Truthful(words, a + b) {
      forall i | 0 <= i < |a| ensures a[i] == (a + b)[i] { }
      forall i | 0 <= i < |b| ensures b[i] == (a + b)[|a| + i] { }
    }
  }

  /** A word with one of its bytes replaced. */
  function WithByte(word: Word, lane: nat, value: Word): Word
    requires lane < 4 && value < 0x100
  {
    if lane == 0 then word - word % 0x100 + value
    else if lane == 1 then word - word % 0x1_0000 + value * 0x100 + word % 0x100
    else if lane == 2 then word - word % 0x100_0000 + value * 0x1_0000 + word % 0x1_0000
    else value * 0x100_0000 + word % 0x100_0000
  }

  /** Firmware that still holds a register's bit of weight `weight`: it clears the bit during the last
      of `delays` further delays, and the registers in `also` change with it. */
  datatype Firmware = Gone | Holding(port: Port, weight: nat, delays: nat, also: map<Port, Word>)

  function AfterDelay(firmware: Firmware, words: map<Port, Word>): (r: (Firmware, map<Port, Word>)) {
    match firmware
    case Gone => (firmware, words)
    case Holding(port, weight, delays, also) =>
      if delays > 1 then (Holding(port, weight, delays - 1, also), words)
      else if weight == 0 then (firmware, words)
      else (Gone, words[port := Clear(Lookup(words, port), weight)] + also)
  }

  /** One platform. A faithful platform answers every read from `words`, performs every write and
      never fails; any other platform answers as it likes. */
  class Platform {
    const faithful: bool
    var words: map<Port, Word>
    var firmware: Firmware
    ghost var log: seq<Event>

    constructor (faithful: bool, words: map<Port, Word>, firmware: Firmware)
      ensures this.faithful == faithful && this.words == words && this.firmware == firmware && log == []
    {
      this.faithful, this.words, this.firmware := faithful, words, firmware;
      log := [];
    }

    function Peek(port: Port): Word
      reads this`words
    {
      Lookup(words, port)
    }

    method ReadDword(port: Port) returns (ok: bool, value: Word)
      modifies this`log
      ensures log == old(log) + [Read(port, if ok then Some(value) else None)]
      ensures faithful ==> ok && value == Peek(port)
    {
      if faithful {
        ok, value := true, Peek(port);
      } else {
        ok, value := *, *;
      }
      log := log + [Read(port, if ok then Some(value) else None)];
    }

    /** A 16-bit store to the low half of an aligned configuration register. */
    method WriteWord(port: Port, value: Word) returns (ok: bool)
      requires value < 0x1_0000
      modifies this`log, this`words
      ensures log == old(log) + [Write(port, value, ok)]
      ensures faithful ==> ok && words == old(words)[port := WithLow16(old(Peek(port)), value)]
    {
      if faithful {
        ok, words := true, words[port := WithLow16(Peek(port), value)];
      } else {
        ok := *;
      }
      log := log + [Write(port, value, ok)];
    }

    /** A byte store into the configuration register that contains it. */
    method WriteByte(port: Port, value: Word) returns (ok: bool)
      requires port.Config? && value < 0x100
      modifies this`log, this`words
      ensures log == old(log) + [Write(port, value, ok)]
      ensures faithful ==>
        var base := Config(port.bdf, port.offset - port.offset % 4);
        ok && words == old(words)[base := WithByte(old(Peek(base)), port.offset % 4, value)]
    {
      if faithful {
        var base := Config(port.bdf, port.offset - port.offset % 4);
        ok, words := true, words[base := WithByte(Peek(base), port.offset % 4, value)];
      } else {
        ok := *;
      }
      log := log + [Write(port, value, ok)];
    }

    method WriteDword(port: Port, value: Word) returns (ok: bool)
      modifies this`log, this`words
      ensures log == old(log) + [Write(port, value, ok)]
      ensures faithful ==> ok && words == old(words)[port := value]
    {
      if faithful {
        ok, words := true, words[port := value];
      } else {
        ok := *;
      }
      log := log + [Write(port, value, ok)];
    }

    method Wait(ms: nat) returns (ok: bool)
      modifies this`log
      ensures log == old(log) + [Delay(ms, ok)]
      ensures faithful ==> ok
    {
      if faithful {
        ok := true;
      } else {
        ok := *;
      }
      log := log + [Delay(ms, ok)];
    }

    /** A delay during which firmware may let go of a register. */
    method WaitFirmware(ms: nat) returns (ok: bool)
      modifies this`log, this`words, this`firmware
      ensures log == old(log) + [Delay(ms, ok)]
      ensures faithful ==> ok && (firmware, words) == AfterDelay(old(firmware), old(words))
    {
      if faithful {
        var after := AfterDelay(firmware, words);
        ok, firmware, words := true, after.0, after.1;
      } else {
        ok := *;
      }
      log := log + [Delay(ms, ok)];
    }
  }
}
