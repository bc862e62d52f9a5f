/** Enumeration of one configuration segment: four nested loops against a plain filter of its 65536
    functions. */
module Enumeration {
  import opened Platforms
  import opened Capabilities
  import opened ConfigAccess

  const SNAPSHOT_CAPACITY: nat := 16
  const FUNCTIONS: nat := 65536

  // ---------------------------------------------------------------- the filter

  /** A vendor identifier of all ones means that no function answers. */
  predicate Answering(identity: Word) {
    Low16(identity) != 0xffff
  }

  function HeaderOf(space: Space, bdf: Bdf): Header {
    HeaderRecord(bdf, seq(16, i requires 0 <= i < 16 => space(bdf, 4 * i)))
  }

  /** The headers of the present functions among the first n. */
  ghost function Found(space: Space, n: nat): seq<Header> {
    if n == 0 then []
    else Found(space, n - 1) + if Answering(space(BdfAt(n - 1), 0)) then [HeaderOf(space, BdfAt(n - 1))] else []
  }

  lemma {:induction false} FoundGrows(space: Space, n: nat, m: nat)
    requires n <= m
    ensures |Found(space, n)| <= |Found(space, m)| && Found(space, m)[..|Found(space, n)|] == Found(space, n)
  {
    if n < m {
      FoundGrows(space, n, m - 1);
    }
  }

  /** Exactly the present functions, each with its sixteen words. */
  lemma {:induction false} FoundExactly(space: Space, n: nat, h: Header)
    ensures h in Found(space, n) <==>
      exists k :: 0 <= k < n && Answering(space(BdfAt(k), 0)) && h == HeaderOf(space, BdfAt(k))
  {
    if n > 0 {
      FoundExactly(space, n - 1, h);
      if h in Found(space, n) && h !in Found(space, n - 1) {
        assert h == HeaderOf(space, BdfAt(n - 1));
      }
    }
  }

  ghost predicate Ordered(list: seq<Header>, n: nat) {
    && (forall i :: 0 <= i < |list| ==> Index(list[i].bdf) < n && list[i].bdf.device <= 31 && list[i].bdf.fn <= 7)
    && (forall i :: 0 <= i < |list| ==> Answering(list[i].words[0]))
    && forall i, j :: 0 <= i < j < |list| ==> Index(list[i].bdf) < Index(list[j].bdf)
  }

  lemma OrderedNext(list: seq<Header>, n: nat, h: Header)
    requires Ordered(list, n) && h.bdf == BdfAt(n) && Answering(h.words[0])
    ensures Ordered(list + [h], n + 1)
  {
    PositionOf(n);
  }

  lemma PositionOf(n: nat)
    ensures Index(BdfAt(n)) == n && (n < FUNCTIONS ==> BdfAt(n).bus <= 255)
  {
    assert n / 8 == n / 256 * 32 + n / 8 % 32;
  }

  /** The filter keeps bus, device, function order. */
  lemma {:induction false} FoundOrdered(space: Space, n: nat)
    ensures Ordered(Found(space, n), n)
  {
    if n > 0 {
      FoundOrdered(space, n - 1);
      if Answering(space(BdfAt(n - 1), 0)) {
        OrderedNext(Found(space, n - 1), n - 1, HeaderOf(space, BdfAt(n - 1)));
      }
    }
  }

  // ---------------------------------------------------------------- the scan

  datatype ScanStatus = ScanOk | ScanReadFailed | ScanFull
  datatype ScanResult = ScanResult(status: ScanStatus, bdf: Bdf, offset: nat)

  const NO_HEADER: Header := HeaderRecord(Bdf(0, 0, 0), [0, 0, 0, 0, 0, 0, 0, 0, 0, 0, 0, 0, 0, 0, 0, 0])

  class Snapshot {
    var count: nat
    const headers: array<Header>

    ghost predicate Valid()
      reads this`count
    {
      headers.Length == SNAPSHOT_CAPACITY && count <= SNAPSHOT_CAPACITY
    }

    ghost function Published(): seq<Header>
      requires Valid()
      reads this`count, headers
    {
      headers[..count]
    }

    constructor ()
      ensures Valid() && fresh(headers) && count == 0
    {
      count := 0;
      headers := new Header[SNAPSHOT_CAPACITY](i => NO_HEADER);
    }
  }

  // ---------------------------------------------------------------- the log

  /** Where word `offset / 4` of a function is read. */
  ghost function ReadPort(via: Access, bdf: Bdf, offset: nat): Port {
    if InSegment(bdf, offset) && Usable(via) then PortOf(via, bdf, offset) else Extended(0)
  }

  /** Successful reads of the first words of one function, in order. */
  ghost function WordLog(via: Access, bdf: Bdf, words: seq<Word>): seq<Event> {
    seq(|words|, w requires 0 <= w < |words| => Read(ReadPort(via, bdf, 4 * w), Some(words[w])))
  }

  lemma WordLogNext(via: Access, bdf: Bdf, words: seq<Word>, value: Word)
    ensures WordLog(via, bdf, words + [value]) ==
            WordLog(via, bdf, words) + [Read(ReadPort(via, bdf, 4 * |words|), Some(value))]
  {
  }

  /** What one function answered: its identity alone, or all sixteen words. */
  ghost predicate Complete(words: seq<Word>) {
    words != [] && |words| == if Answering(words[0]) then 16 else 1
  }

  /** The log of a scan: function after function, each with what it answered. */
  ghost function ScanLog(via: Access, answers: seq<seq<Word>>): seq<Event> {
    if answers == [] then []
    else
      var n := |answers| - 1;
      ScanLog(via, answers[..n]) + WordLog(via, BdfAt(n), answers[n])
  }

  /** The headers in those answers. */
  ghost function Headers(answers: seq<seq<Word>>): seq<Header>
    requires forall i :: 0 <= i < |answers| ==> Complete(answers[i])
  {
    if answers == [] then []
    else
      var n := |answers| - 1;
      assert Complete(answers[n]);
      Headers(answers[..n]) + if Answering(answers[n][0]) then [HeaderRecord(BdfAt(n), answers[n])] else []
  }

  /** Whatever is answered: one read for each function and fifteen more for each header, and the headers
      in scan order. */
  lemma {:induction false} LogMeasured(via: Access, answers: seq<seq<Word>>)
    requires forall i :: 0 <= i < |answers| ==> Complete(answers[i])
    ensures OnlyReads(ScanLog(via, answers))
    ensures |ScanLog(via, answers)| == |answers| + 15 * |Headers(answers)|
    ensures Ordered(Headers(answers), |answers|)
  {
    if answers != [] {
      var n := |answers| - 1;
      LogMeasured(via, answers[..n]);
      if Answering(answers[n][0]) {
        OrderedNext(Headers(answers[..n]), n, HeaderRecord(BdfAt(n), answers[n]));
      }
    }
  }

  // ---------------------------------------------------------------- one function

  /** The words after the identity. */
  method ReadHeader(p: Platform, via: Access, bdf: Bdf, identity: Word, ghost space: Space, ghost ready: bool)
    returns (ok: bool, words: seq<Word>, offset: nat, ghost events: seq<Event>)
    requires InSegment(bdf, 0) && Usable(via)
    requires ready ==> p.faithful && Presents(p, via, space) && identity == space(bdf, 0)
    modifies p`log
    ensures p.log == old(p.log) + events && OnlyReads(events) && 1 <= |words| <= 16 && words[0] == identity
    ensures
      var log := [Read(ReadPort(via, bdf, 0), Some(identity))] + events;
      if ok then |words| == 16 && log == WordLog(via, bdf, words)
      else
        && |words| < 16 && offset == 4 * |words|
        && log == WordLog(via, bdf, words) + [Read(ReadPort(via, bdf, offset), None)]
    ensures ready ==> ok && words == HeaderOf(space, bdf).words
  {
    hide WordLog, OnlyReads, Presents, PortOf;
    words, events, offset, ok := [identity], [], 0, true;
    ghost var e, first := [], [Read(ReadPort(via, bdf, 0), Some(identity))];
    WordLogNext(via, bdf, [], identity);
    NoWords(via, bdf);
    EmptyTrace();
    assert [] + [identity] == [identity] && first + [] == first == [] + first;
    for word := 1 to 16
      invariant |words| == word && words[0] == identity && ok
      invariant p.log == old(p.log) + events && OnlyReads(events)
      invariant first + events == WordLog(via, bdf, words)
      invariant ready ==> forall i :: 0 <= i < word ==> words[i] == space(bdf, 4 * i)
    {
      var value;
      offset := 4 * word;
      ok, value, e := ReadVia(p, via, bdf, offset, space, ready);
      Regroup(first, events, e);
      JoinReads(events, e);
      events := events + e;
      if !ok { return; }
      WordLogNext(via, bdf, words, value);
      words := words + [value];
    }
  }

  lemma NoWords(via: Access, bdf: Bdf)
    ensures WordLog(via, bdf, []) == []
  {
  }

  /** Why the scan goes no further at this function, and what it read there: an identity and words up to
      the read that failed, or an identity that answers when the snapshot is full. */
  ghost predicate FunctionStops(status: ScanStatus, via: Access, bdf: Bdf, offset: nat, words: seq<Word>,
                                events: seq<Event>)
  {
    match status
    case ScanOk => false
    case ScanReadFailed =>
      && offset == 4 * |words| < 64 && (words != [] ==> Answering(words[0]))
      && if Usable(via) then events == WordLog(via, bdf, words) + [Read(ReadPort(via, bdf, offset), None)]
         else events == [] && words == []
    case ScanFull =>
      Usable(via) && offset == 0 && |words| == 1 && Answering(words[0]) && events == WordLog(via, bdf, words)
  }

  /** One function: its identity, and when it answers the rest of its header into the next free slot. */
  method Probe(p: Platform, via: Access, bdf: Bdf, snapshot: Snapshot, count: nat, ghost space: Space,
               ghost ready: bool)
    returns (status: ScanStatus, offset: nat, count': nat, ghost words: seq<Word>, ghost events: seq<Event>)
    requires InSegment(bdf, 0) && snapshot.Valid() && count <= SNAPSHOT_CAPACITY
    requires ready ==> p.faithful && Presents(p, via, space)
    modifies p`log, snapshot.headers
    ensures p.log == old(p.log) + events && OnlyReads(events)
    ensures snapshot.headers[..count] == old(snapshot.headers[..count])
    ensures status == ScanOk ==>
      && Complete(words) && events == WordLog(via, bdf, words) && Usable(via)
      && if Answering(words[0])
         then count < SNAPSHOT_CAPACITY && count' == count + 1 && snapshot.headers[count] == HeaderRecord(bdf, words)
         else count' == count
    ensures status != ScanOk ==> FunctionStops(status, via, bdf, offset, words, events)
    ensures status == ScanFull ==> count == SNAPSHOT_CAPACITY
    ensures ready ==> status != ScanReadFailed && words != [] && words[0] == space(bdf, 0)
    ensures ready && status == ScanOk && Answering(words[0]) ==> words == HeaderOf(space, bdf).words
  {
    hide OnlyReads, Presents, WordLog, Answering;
    var ok, identity, header;
    ghost var more;
    offset, count', words := 0, count, [];
    NoWords(via, bdf);
    ok, identity, events := ReadVia(p, via, bdf, 0, space, ready);
    if !ok { status := ScanReadFailed; return; }
    WordLogNext(via, bdf, [], identity);
    words := [] + [identity];
    status := ScanOk;
    if !Answering(identity) { return; }
    if count == SNAPSHOT_CAPACITY { status := ScanFull; return; }
    ok, header, offset, more := ReadHeader(p, via, bdf, identity, space, ready);
    JoinReads(events, more);
    events, words := events + more, header;
    if !ok { status := ScanReadFailed; return; }
    snapshot.headers[count] := HeaderRecord(bdf, header);
    count' := count + 1;
  }

  lemma JoinReads(a: seq<Event>, b: seq<Event>)
    requires OnlyReads(a) && OnlyReads(b)
    ensures OnlyReads(a + b)
  {
  }

  // ---------------------------------------------------------------- the whole segment

  /** The state of the scan: every function so far has answered, the log is exactly those reads, and the
      snapshot's slots hold exactly the headers among the answers. */
  ghost predicate Scanned(list: seq<Header>, answers: seq<seq<Word>>, events: seq<Event>, via: Access, space: Space,
                          ready: bool)
  {
    && (forall i :: 0 <= i < |answers| ==> Complete(answers[i]))
    && events == ScanLog(via, answers) && list == Headers(answers)
    && (ready ==> list == Found(space, |answers|))
  }

  lemma ScanStart(via: Access, space: Space, ready: bool)
    ensures Scanned([], [], [], via, space, ready)
  {
  }

  lemma ScanNext(list: seq<Header>, answers: seq<seq<Word>>, events: seq<Event>, via: Access, space: Space, ready: bool,
                 words: seq<Word>)
    requires Scanned(list, answers, events, via, space, ready) && Complete(words)
    requires ready ==> words[0] == space(BdfAt(|answers|), 0)
    requires ready && Answering(words[0]) ==> words == HeaderOf(space, BdfAt(|answers|)).words
    ensures
      var found := if Answering(words[0]) then [HeaderRecord(BdfAt(|answers|), words)] else [];
      Scanned(list + found, answers + [words], events + WordLog(via, BdfAt(|answers|), words), via, space, ready)
  {
    hide Answering, BdfAt;
    var longer := answers + [words];
    assert longer[..|answers|] == answers;
    forall i | 0 <= i < |longer| ensures Complete(longer[i]) {
      if i < |answers| { assert longer[i] == answers[i]; }
    }
  }

  /** Why a scan stopped early, at which function: everything before it answered, and is in the log. */
  ghost predicate ScanStopped(r: ScanResult, answers: seq<seq<Word>>, events: seq<Event>, via: Access, space: Space,
                              ready: bool)
  {
    && InSegment(r.bdf, 0) && |answers| == Index(r.bdf)
    && (exists words, last :: events == ScanLog(via, answers) + last
                              && FunctionStops(r.status, via, r.bdf, r.offset, words, last)
                              && (ready ==> words != [] && words[0] == space(r.bdf, 0)))
    && (forall i :: 0 <= i < |answers| ==> Complete(answers[i]))
    && (r.status == ScanFull ==> |Headers(answers)| == 16)
    && (ready ==> r.status == ScanFull && Headers(answers) == Found(space, Index(r.bdf)))
  }

  /** One function of the scan, with the bookkeeping of the loops around it. */
  method ScanFunction(p: Platform, via: Access, bdf: Bdf, snapshot: Snapshot, count: nat, ghost list: seq<Header>,
                      ghost answers: seq<seq<Word>>, ghost log: seq<Event>, ghost space: Space, ghost ready: bool)
    returns (r: ScanResult, count': nat, ghost list': seq<Header>, ghost answers': seq<seq<Word>>,
             ghost events: seq<Event>)
    requires InSegment(bdf, 0) && snapshot.Valid() && |list| == count <= SNAPSHOT_CAPACITY
    requires |answers| == Index(bdf) && Scanned(list, answers, log, via, space, ready)
    requires snapshot.headers[..count] == list
    requires ready ==> p.faithful && Presents(p, via, space)
    modifies p`log, snapshot.headers
    ensures p.log == old(p.log) + events && OnlyReads(events)
    ensures r.status == ScanOk ==>
      && |list'| == count' <= SNAPSHOT_CAPACITY && snapshot.headers[..count'] == list' && Usable(via)
      && |answers'| == |answers| + 1 && Scanned(list', answers', log + events, via, space, ready)
    ensures r.status != ScanOk ==> answers' == answers && ScanStopped(r, answers, log + events, via, space, ready)
    ensures !Usable(via) ==> r == ScanResult(ScanReadFailed, bdf, 0) && events == []
  {
    hide Presents, Found, Ordered, WordLog, ScanLog, Answering, BdfAt, Index, OnlyReads;
    var status, offset;
    ghost var words;
    status, offset, count', words, events := Probe(p, via, bdf, snapshot, count, space, ready);
    r, list', answers' := ScanResult(status, bdf, offset), list, answers;
    IndexRoundTrip(bdf);
    if status == ScanOk {
      ScanNext(list, answers, log, via, space, ready, words);
      list', answers' := snapshot.headers[..count'], answers + [words];
      assert list' == list + if Answering(words[0]) then [HeaderRecord(bdf, words)] else [];
    }
  }

  /** The whole segment. On success the log is, function after function in index order, what each
      answered, and the snapshot holds exactly the headers among these answers: 65536 identity reads and
      15 more per header, in strictly increasing order. On failure everything before the function at
      fault was read, and the snapshot stays unpublished. On a platform that shows `space` the scan fails
      exactly when more than sixteen functions are present, and otherwise publishes exactly those. */
  method EnumerateSegment(p: Platform, via: Access, snapshot: Snapshot, ghost space: Space, ghost ready: bool)
    returns (r: ScanResult, ghost answers: seq<seq<Word>>, ghost events: seq<Event>)
    requires snapshot.Valid()
    requires ready ==> p.faithful && Presents(p, via, space)
    modifies p`log, snapshot`count, snapshot.headers
    ensures p.log == old(p.log) + events && OnlyReads(events) && snapshot.Valid()
    ensures forall i :: 0 <= i < |answers| ==> Complete(answers[i])
    ensures r.status == ScanOk ==>
      && r == ScanResult(ScanOk, Bdf(0, 0, 0), 0) && |answers| == 65536
      && events == ScanLog(via, answers) && snapshot.Published() == Headers(answers)
      && Ordered(snapshot.Published(), 65536) && |events| == 65536 + 15 * snapshot.count
    ensures r.status != ScanOk ==> snapshot.count == 0 && ScanStopped(r, answers, events, via, space, ready)
    ensures !Usable(via) ==> r.status == ScanReadFailed
    ensures ready ==> (r.status == ScanOk <==> |Found(space, 65536)| <= 16)
    ensures ready && r.status == ScanOk ==> snapshot.Published() == Found(space, 65536)
  {
    hide Presents, Found, Ordered, OnlyReads, Usable, Scanned, ScanLog, Headers, Complete, ScanStopped;
    snapshot.count := 0;
    var count: nat := 0;
    ghost var list: seq<Header>, e := [], [];
    events, answers := [], [];
    ScanStart(via, space, ready);
    for bus := 0 to 256
      invariant Progress(p.log, old(p.log), snapshot, count, list, answers, bus * 256, events, space, ready, via)
    {
      for device := 0 to 32
        invariant Progress(p.log, old(p.log), snapshot, count, list, answers, bus * 256 + device * 8, events, space,
                           ready, via)
      {
        for fn := 0 to 8
          invariant Progress(p.log, old(p.log), snapshot, count, list, answers, bus * 256 + device * 8 + fn, events,
                             space, ready, via)
        {
          ghost var sofar, was := events, list;
          r, count, list, answers, e :=
            ScanFunction(p, via, Bdf(bus, device, fn), snapshot, count, list, answers, events, space, ready);
          Regroup(old(p.log), sofar, e);
          events := sofar + e;
          if r.status != ScanOk {
            ScanSoFar(was, answers, sofar, via, space, ready);
            JoinReads(sofar, e);
            StoppedMeansFull(r, answers, events, via, space, ready);
            return;
          }
        }
      }
    }
    ScanSoFar(list, answers, events, via, space, ready);
    snapshot.count := count;
    r := ScanResult(ScanOk, Bdf(0, 0, 0), 0);
  }

  lemma ScanSoFar(list: seq<Header>, answers: seq<seq<Word>>, events: seq<Event>, via: Access, space: Space,
                  ready: bool)
    requires Scanned(list, answers, events, via, space, ready)
    ensures forall i :: 0 <= i < |answers| ==> Complete(answers[i])
    ensures events == ScanLog(via, answers) && list == Headers(answers) && OnlyReads(events)
    ensures |events| == |answers| + 15 * |list| && Ordered(list, |answers|)
    ensures ready ==> list == Found(space, |answers|)
  {
    LogMeasured(via, answers);
  }

  ghost predicate Progress(log: seq<Event>, before: seq<Event>, snapshot: Snapshot, count: nat, list: seq<Header>,
                           answers: seq<seq<Word>>, n: nat, events: seq<Event>, space: Space, ready: bool, via: Access)
    reads snapshot`count, snapshot.headers
  {
    && (Usable(via) || n == 0) && |answers| == n
    && log == before + events && snapshot.Valid() && snapshot.count == 0
    && |list| == count <= SNAPSHOT_CAPACITY && snapshot.headers[..count] == list
    && Scanned(list, answers, events, via, space, ready)
  }

  lemma StoppedMeansFull(r: ScanResult, answers: seq<seq<Word>>, events: seq<Event>, via: Access, space: Space,
                         ready: bool)
    requires ScanStopped(r, answers, events, via, space, ready)
    ensures forall i :: 0 <= i < |answers| ==> Complete(answers[i])
    ensures r.status != ScanOk && (ready ==> |Found(space, 65536)| > 16)
  {
    hide Complete, WordLog, ScanLog, Headers, Answering, BdfAt, HeaderOf;
    IndexRoundTrip(r.bdf);
    if ready {
      FoundGrows(space, Index(r.bdf) + 1, FUNCTIONS);
    }
  }

  lemma FoundStep(space: Space, n: nat, m: nat)
    requires n < m && Answering(space(BdfAt(n), 0))
    ensures |Found(space, n)| < |Found(space, m)|
  {
    FoundGrows(space, n + 1, m);
  }

  /** A full snapshot is noticed at one function only, the seventeenth present one. */
  lemma SameStop(r: ScanResult, a: seq<seq<Word>>, events: seq<Event>, via: Access, s: ScanResult, b: seq<seq<Word>>,
                 events': seq<Event>, via': Access, space: Space)
    requires ScanStopped(r, a, events, via, space, true) && ScanStopped(s, b, events', via', space, true)
    ensures r == s
  {
    hide Found, BdfAt, Complete, Headers, ScanLog, WordLog;
    IndexRoundTrip(r.bdf);
    IndexRoundTrip(s.bdf);
    if Index(r.bdf) < Index(s.bdf) {
      FoundStep(space, Index(r.bdf), Index(s.bdf));
    } else if Index(s.bdf) < Index(r.bdf) {
      FoundStep(space, Index(s.bdf), Index(r.bdf));
    }
  }

  /** Two scans of one space publish the same snapshot, whichever way each reaches it. */
  method ScanBothWays(p: Platform, q: Platform, allocation: Allocation, a: Snapshot, b: Snapshot, ghost space: Space)
    returns (viaEcam: ScanResult, viaCf8: ScanResult)
    requires a != b && a.Valid() && b.Valid() && a.headers != b.headers && Captured(allocation)
    requires p.faithful && Presents(p, Ecam(allocation), space) && q.faithful && Presents(q, Cf8, space)
    modifies p`log, q`log, a`count, a.headers, b`count, b.headers
    ensures a.Valid() && b.Valid()
    ensures viaEcam == viaCf8 && a.Published() == b.Published()
    ensures viaEcam.status == ScanOk <==> |Found(space, 65536)| <= 16
  {
    hide Found, Presents, Ordered, OnlyReads, ScanStopped, ScanLog, Headers, Complete;
    ghost var first, second, a', b';
    viaEcam, a', first := EnumerateSegment(p, Ecam(allocation), a, space, true);
    viaCf8, b', second := EnumerateSegment(q, Cf8, b, space, true);
    if viaEcam.status != ScanOk && viaCf8.status != ScanOk {
      SameStop(viaEcam, a', first, Ecam(allocation), viaCf8, b', second, Cf8, space);
    }
  }
}
