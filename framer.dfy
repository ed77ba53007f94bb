/** The per-connection framer of the sensor server: received text is
    appended to a buffer, every complete "#...#" span is cut out of it and
    parsed, and a reading (tagged with the peer's address) or a parse-failure
    log entry is queued for each span, in stream order. */
module Framer {
  import opened Text
  import opened SensorRecord

  /** Bytes requested per receive. */
  const BUFFER_SIZE: nat := 1024
  /** Pending text with an opening '#' but no closing one is cut back to
      that '#' once it is longer than this. */
  const MAX_PENDING: nat := 2 * BUFFER_SIZE

  /** The client address a connection was accepted from. */
  datatype Peer = Peer(host: string, port: int)

  /** The kinds of log entry the connection handler queues. */
  datatype LogEntry =
    | Connected
    | ParseFailed(record: string)
    | BufferOverlong
    | Disconnected
    | Closing

  /** What the handler puts on the shared queue: a reading tagged with its peer, or a log entry. */
  datatype Event = Reading(reading: SensorReading, peer: Peer) | Log(peer: Peer, entry: LogEntry)

  // ---------------------------------------------------------------------
  // The framing specification

  /** The complete records found in a text, in order, and the text left over. */
  datatype Framing = Framing(records: seq<string>, rest: string)

  /** One more character of the stream. A '#' arriving while the leftover
      already holds a '#' closes a record, which runs from that first '#'
      to this one; the text before it is dropped and nothing is left over.
      Any other character joins the leftover. */
  function Feed(f: Framing, c: char): Framing
  {
    var start := Find(f.rest, DELIMITER, 0);
    if c == DELIMITER && start >= 0 then Framing(f.records + [f.rest[start..] + [c]], "")
    else Framing(f.records, f.rest + [c])
  }

  /** Feeds a text character by character. */
  function FeedAll(f: Framing, s: string): Framing
    decreases |s|
  {
    if s == [] then f else FeedAll(Feed(f, s[0]), s[1..])
  }

  /** The framing of a whole stream. */
  function Frame(s: string): Framing
  {
    FeedAll(Framing([], ""), s)
  }

  /** A record as the framer cuts it: '#', text without '#', '#'. */
  predicate IsRecordText(r: string)
  {
    |r| >= 2 && r[0] == DELIMITER && r[|r| - 1] == DELIMITER && DELIMITER !in r[1..|r| - 1]
  }

  /** tail is what remains of full once a '#'-free prefix is dropped. */
  predicate PendingTail(tail: string, full: string)
  {
    IsSuffix(tail, full) && DELIMITER !in full[..|full| - |tail|]
  }

  /** Feeding a concatenation is feeding its parts in turn: how the stream
      is cut into chunks does not matter. */
  lemma {:induction false} FeedAllAppend(f: Framing, x: string, y: string)
    ensures FeedAll(f, x + y) == FeedAll(FeedAll(f, x), y)
    decreases |x|
  {
    if x == [] {
      assert x + y == y;
    } else {
      assert (x + y)[0] == x[0] && (x + y)[1..] == x[1..] + y;
      FeedAllAppend(Feed(f, x[0]), x[1..], y);
    }
  }

  /** Records already found stay first, and what follows depends on the leftover only. */
  lemma {:induction false} FeedAllRecords(records: seq<string>, rest: string, s: string)
    ensures var g := FeedAll(Framing([], rest), s);
      FeedAll(Framing(records, rest), s) == Framing(records + g.records, g.rest)
    decreases |s|
  {
    if s != [] {
      var f := Feed(Framing([], rest), s[0]);
      assert Feed(Framing(records, rest), s[0]) == Framing(records + f.records, f.rest);
      FeedAllRecords(records + f.records, f.rest, s[1..]);
      FeedAllRecords(f.records, f.rest, s[1..]);
      var h := FeedAll(Framing([], f.rest), s[1..]);
      assert records + f.records + h.records == records + (f.records + h.records);
    }
  }

  /** '#'-free text only lengthens the leftover. */
  lemma {:induction false} FeedAllFree(f: Framing, u: string)
    requires DELIMITER !in u
    ensures FeedAll(f, u) == Framing(f.records, f.rest + u)
    decreases |u|
  {
    if u != [] {
      FeedAllFree(Feed(f, u[0]), u[1..]);
      assert f.rest + [u[0]] + u[1..] == f.rest + u;
    }
  }

  /** A record's worth of text, '#', '#'-free text, '#', fed with nothing
      pending: the record is found and nothing is left over. */
  lemma {:induction false} FeedRecord(records: seq<string>, r: string)
    requires IsRecordText(r)
    ensures FeedAll(Framing(records, ""), r) == Framing(records + [r], "")
  {
    var m := r[1..|r| - 1];
    assert r == [DELIMITER] + m + [DELIMITER];
    FeedAllAppend(Framing(records, ""), [DELIMITER] + m, [DELIMITER]);
    FeedAllAppend(Framing(records, ""), [DELIMITER], m);
    assert Feed(Framing(records, ""), DELIMITER) == Framing(records, [DELIMITER]);
    FeedAllFree(Framing(records, [DELIMITER]), m);
    var p := [DELIMITER] + m;
    assert Find(p, DELIMITER, 0) == 0;
    assert p[0..] + [DELIMITER] == r;
  }

  /** '#'-free text, one '#' and '#'-free text, fed with nothing pending, is all left over. */
  lemma {:induction false} FeedOneDelimiter(records: seq<string>, d: string, u: string)
    requires DELIMITER !in d && DELIMITER !in u
    ensures FeedAll(Framing(records, ""), d + [DELIMITER] + u) == Framing(records, d + [DELIMITER] + u)
  {
    FeedAllAppend(Framing(records, ""), d + [DELIMITER], u);
    FeedAllAppend(Framing(records, ""), d, [DELIMITER]);
    FeedAllFree(Framing(records, ""), d);
    assert "" + d == d;
    assert Feed(Framing(records, d), DELIMITER) == Framing(records, d + [DELIMITER]);
    FeedAllFree(Framing(records, d + [DELIMITER]), u);
  }

  /** Text with at most one '#', fed with nothing pending, is all left over. */
  lemma {:induction false} FeedPending(records: seq<string>, s: string)
    requires Find(s, DELIMITER, 0) < 0 || Find(s, DELIMITER, Find(s, DELIMITER, 0) + 1) < 0
    ensures FeedAll(Framing(records, ""), s) == Framing(records, s)
  {
    var start := Find(s, DELIMITER, 0);
    if start < 0 {
      FindNoneAbsent(s, DELIMITER);
      FeedAllFree(Framing(records, ""), s);
      assert "" + s == s;
    } else {
      FindOnly(s, DELIMITER);
      FeedOneDelimiter(records, s[..start], s[start + 1..]);
    }
  }

  /** The framing of a text without a complete record: no record, all of it left over. */
  lemma FrameNoRecord(s: string)
    requires Find(s, DELIMITER, 0) < 0 || Find(s, DELIMITER, Find(s, DELIMITER, 0) + 1) < 0
    ensures Frame(s) == Framing([], s)
  {
    FeedPending([], s);
  }

  /** Up to the closing '#' of the first record, nothing is cut. */
  lemma {:induction false} CutPending(s: string)
    requires Find(s, DELIMITER, 0) >= 0 && Find(s, DELIMITER, Find(s, DELIMITER, 0) + 1) >= 0
    ensures Frame(s[..Find(s, DELIMITER, Find(s, DELIMITER, 0) + 1)])
         == Framing([], s[..Find(s, DELIMITER, Find(s, DELIMITER, 0) + 1)])
  {
    var start := Find(s, DELIMITER, 0);
    var end := Find(s, DELIMITER, start + 1);
    FindInTake(s, DELIMITER, 0, end);
    FindInTake(s, DELIMITER, start + 1, end);
    FeedPending([], s[..end]);
  }

  /** The closing '#' of the first record, arriving with everything before it pending, cuts that record. */
  lemma {:induction false} CutClose(s: string)
    requires Find(s, DELIMITER, 0) >= 0 && Find(s, DELIMITER, Find(s, DELIMITER, 0) + 1) >= 0
    ensures var start := Find(s, DELIMITER, 0);
      var end := Find(s, DELIMITER, start + 1);
      Feed(Framing([], s[..end]), DELIMITER) == Framing([s[start..end + 1]], "")
  {
    var start := Find(s, DELIMITER, 0);
    var end := Find(s, DELIMITER, start + 1);
    FindInTake(s, DELIMITER, 0, end);
    assert s[..end][start..] + [DELIMITER] == s[start..end + 1];
  }

  /** Fed up to and including the closing '#' of its first record, a text yields that record and no leftover. */
  lemma {:induction false} CutRecord(s: string)
    requires Find(s, DELIMITER, 0) >= 0 && Find(s, DELIMITER, Find(s, DELIMITER, 0) + 1) >= 0
    ensures var start := Find(s, DELIMITER, 0);
      var end := Find(s, DELIMITER, start + 1);
      Frame(s[..end + 1]) == Framing([s[start..end + 1]], "")
  {
    var start := Find(s, DELIMITER, 0);
    var end := Find(s, DELIMITER, start + 1);
    var p := s[..end];
    assert s[..end + 1] == p + [DELIMITER];
    FeedAllAppend(Framing([], ""), p, [DELIMITER]);
    CutPending(s);
    CutClose(s);
    assert [DELIMITER][1..] == [];
  }

  /** The framing of a text with a complete record: the span from the first
      '#' to the next is the first record, and the framing goes on after it.
      This is the step the receive loop takes with str.find. */
  lemma {:induction false} FrameCut(s: string)
    requires Find(s, DELIMITER, 0) >= 0 && Find(s, DELIMITER, Find(s, DELIMITER, 0) + 1) >= 0
    ensures var start := Find(s, DELIMITER, 0);
      var end := Find(s, DELIMITER, start + 1);
      var tail := Frame(s[end + 1..]);
      Frame(s) == Framing([s[start..end + 1]] + tail.records, tail.rest)
  {
    var start := Find(s, DELIMITER, 0);
    var end := Find(s, DELIMITER, start + 1);
    var t := s[end + 1..];
    assert s == s[..end + 1] + t;
    FeedAllAppend(Framing([], ""), s[..end + 1], t);
    CutRecord(s);
    FeedAllRecords([s[start..end + 1]], "", t);
  }

  /** The framer's invariant: every record is '#', '#'-free text, '#', and
      the leftover holds at most one '#'. */
  predicate WellFramed(f: Framing)
  {
    && Count(f.rest, DELIMITER) <= 1
    && forall i :: 0 <= i < |f.records| ==> IsRecordText(f.records[i])
  }

  /** The text from the only '#' of p on, closed by '#', is a record. */
  lemma {:induction false} ClosedRecord(p: string)
    requires Find(p, DELIMITER, 0) >= 0 && Count(p, DELIMITER) <= 1
    ensures IsRecordText(p[Find(p, DELIMITER, 0)..] + [DELIMITER])
  {
    var start := Find(p, DELIMITER, 0);
    var r := p[start..] + [DELIMITER];
    assert p[0..] == p;
    FindCount(p, DELIMITER, 0);
    CountAbsent(p[start + 1..], DELIMITER);
    assert r[1..|r| - 1] == p[start + 1..];
  }

  /** One character keeps the invariant; a closed record takes two '#' out of the leftover. */
  lemma {:induction false} FeedKeeps(f: Framing, c: char)
    requires WellFramed(f)
    ensures WellFramed(Feed(f, c))
    ensures 2 * |Feed(f, c).records| + Count(Feed(f, c).rest, DELIMITER)
         == 2 * |f.records| + Count(f.rest, DELIMITER) + (if c == DELIMITER then 1 else 0)
  {
    var start := Find(f.rest, DELIMITER, 0);
    CountAppend(f.rest, [c], DELIMITER);
    assert Count([c], DELIMITER) == (if c == DELIMITER then 1 else 0);
    if c == DELIMITER && start >= 0 {
      ClosedRecord(f.rest);
      assert f.rest[0..] == f.rest;
      FindCount(f.rest, DELIMITER, 0);
    } else if c == DELIMITER {
      FindNoneCount(f.rest, DELIMITER, 0);
      assert f.rest[0..] == f.rest;
    }
  }

  /** The leftover after one character is a suffix of the old leftover and that character. */
  lemma {:induction false} FeedSuffix(f: Framing, c: char)
    ensures IsSuffix(Feed(f, c).rest, f.rest + [c])
  {
    var g := Feed(f, c);
    assert (f.rest + [c])[|f.rest + [c]| - |g.rest|..] == g.rest;
  }

  lemma {:induction false} SuffixChain(r: string, g: string, p: string, c: char, t: string)
    requires IsSuffix(g, p + [c]) && IsSuffix(r, g + t)
    ensures IsSuffix(r, p + ([c] + t))
  {
    SuffixAppend(g, p + [c], t);
    assert p + [c] + t == p + ([c] + t);
    SuffixTransitive(r, g + t, p + ([c] + t));
  }

  /** Feeding a text keeps the invariant and accounts for each of its '#'. */
  lemma {:induction false} FeedAllKeeps(f: Framing, s: string)
    requires WellFramed(f)
    ensures WellFramed(FeedAll(f, s))
    ensures 2 * |FeedAll(f, s).records| + Count(FeedAll(f, s).rest, DELIMITER)
         == 2 * |f.records| + Count(f.rest, DELIMITER) + Count(s, DELIMITER)
    decreases |s|
  {
    if s != [] {
      FeedKeeps(f, s[0]);
      FeedAllKeeps(Feed(f, s[0]), s[1..]);
      assert s == [s[0]] + s[1..];
      CountAppend([s[0]], s[1..], DELIMITER);
    }
  }

  /** What feeding a text leaves over is a suffix of what was pending followed by the text. */
  lemma {:induction false} FeedAllSuffix(f: Framing, s: string)
    ensures IsSuffix(FeedAll(f, s).rest, f.rest + s)
    decreases |s|
  {
    if s == [] {
      assert f.rest + s == f.rest;
      assert f.rest[0..] == f.rest;
    } else {
      var g := Feed(f, s[0]);
      FeedSuffix(f, s[0]);
      FeedAllSuffix(g, s[1..]);
      SuffixChain(FeedAll(g, s[1..]).rest, g.rest, f.rest, s[0], s[1..]);
      assert [s[0]] + s[1..] == s;
    }
  }

  /** Every record the framer cuts starts and ends with '#' and has no '#'
      inside; what is left over is a suffix of the text holding at most one
      '#'; and every '#' of the text lies in a record or in what is left. */
  lemma FrameWellFormed(s: string)
    ensures forall i :: 0 <= i < |Frame(s).records| ==> IsRecordText(Frame(s).records[i])
    ensures IsSuffix(Frame(s).rest, s) && Count(Frame(s).rest, DELIMITER) <= 1
    ensures Count(s, DELIMITER) == 2 * |Frame(s).records| + Count(Frame(s).rest, DELIMITER)
  {
    FeedAllKeeps(Framing([], ""), s);
    FeedAllSuffix(Framing([], ""), s);
    assert "" + s == s;
  }

  /** The framer takes back apart any concatenation of records, leaving nothing over. */
  lemma {:induction false} FrameOfRecords(rs: seq<string>)
    requires forall i :: 0 <= i < |rs| ==> IsRecordText(rs[i])
    ensures Frame(Concat(rs)) == Framing(rs, "")
    decreases |rs|
  {
    if rs != [] {
      var init, r := rs[..|rs| - 1], rs[|rs| - 1];
      FrameOfRecords(init);
      FeedAllAppend(Framing([], ""), Concat(init), r);
      FeedRecord(init, r);
      assert rs == init + [r];
    }
  }

  /** g trails f: the same records, and g's leftover is f's less a '#'-free prefix. */
  predicate Trails(g: Framing, f: Framing)
  {
    g.records == f.records && PendingTail(g.rest, f.rest)
  }

  lemma {:induction false} FeedTrails(g: Framing, f: Framing, c: char)
    requires Trails(g, f)
    ensures Trails(Feed(g, c), Feed(f, c))
  {
    var d := f.rest[..|f.rest| - |g.rest|];
    assert f.rest == d + g.rest;
    FindAfterFreePrefix(d, g.rest, DELIMITER);
    var k := Find(g.rest, DELIMITER, 0);
    if c == DELIMITER && k >= 0 {
      assert f.rest[|d| + k..] == g.rest[k..];
      assert "" == ""[..0];
    } else {
      assert f.rest + [c] == d + (g.rest + [c]);
      assert (f.rest + [c])[..|d|] == d;
    }
  }

  /** Dropping '#'-free text from the leftover changes no record found later,
      and the leftover keeps trailing. */
  lemma {:induction false} FeedAllTrails(g: Framing, f: Framing, s: string)
    requires Trails(g, f)
    ensures Trails(FeedAll(g, s), FeedAll(f, s))
    decreases |s|
  {
    if s != [] {
      FeedTrails(g, f, s[0]);
      FeedAllTrails(Feed(g, s[0]), Feed(f, s[0]), s[1..]);
    }
  }

  lemma {:induction false} PendingTailTransitive(a: string, b: string, c: string)
    requires PendingTail(a, b) && PendingTail(b, c)
    ensures PendingTail(a, c)
  {
    var db, dc := b[..|b| - |a|], c[..|c| - |b|];
    assert c == dc + b && b == db + a;
    assert c[..|c| - |a|] == dc + db;
  }

  lemma {:induction false} PendingTailCount(tail: string, full: string)
    requires PendingTail(tail, full)
    ensures Count(tail, DELIMITER) == Count(full, DELIMITER)
  {
    var d := full[..|full| - |tail|];
    assert full == d + tail;
    CountAppend(d, tail, DELIMITER);
    CountAbsent(d, DELIMITER);
  }

  /** Text with at most one '#' holds no complete record. */
  lemma {:induction false} FewDelimitersNoRecord(s: string)
    requires Count(s, DELIMITER) <= 1
    ensures Frame(s) == Framing([], s)
  {
    var start := Find(s, DELIMITER, 0);
    if start >= 0 && Find(s, DELIMITER, start + 1) >= 0 {
      assert s[0..] == s;
      FindCount(s, DELIMITER, 0);
      FindCount(s, DELIMITER, start + 1);
      assert false;
    }
    FrameNoRecord(s);
  }

  /** One more chunk on a stream whose leftover, less a '#'-free prefix, is
      buffer: the stream's new records are those of buffer followed by the
      chunk, and their leftovers still trail. */
  lemma {:induction false} StreamStep(stream: string, buffer: string, chunk: string)
    requires PendingTail(buffer, Frame(stream).rest)
    requires Count(buffer, DELIMITER) <= 1
    ensures Frame(stream + chunk).records == Frame(stream).records + Frame(buffer + chunk).records
    ensures PendingTail(Frame(buffer + chunk).rest, Frame(stream + chunk).rest)
  {
    var fs := Frame(stream);
    FeedAllAppend(Framing([], ""), stream, chunk);
    FeedAllRecords(fs.records, fs.rest, chunk);
    FeedAllAppend(Framing([], ""), buffer, chunk);
    FewDelimitersNoRecord(buffer);
    FeedAllTrails(Framing([], buffer), Framing([], fs.rest), chunk);
  }

  // ---------------------------------------------------------------------
  // Cutting back an overlong unterminated record

  /** The leftover has an opening '#' and has grown past MAX_PENDING. */
  predicate Overlong(rest: string)
  {
    Find(rest, DELIMITER, 0) >= 0 && |rest| > MAX_PENDING
  }

  /** Keeps the leftover from its opening '#' on when it is overlong. */
  function Truncate(rest: string): string
  {
    if Overlong(rest) then rest[Find(rest, DELIMITER, 0)..] else rest
  }

  /** Cutting back drops only '#'-free text, and what it keeps starts at the '#'. */
  lemma {:induction false} TruncateDropsOnlyFiller(rest: string)
    ensures PendingTail(Truncate(rest), rest)
    ensures Overlong(rest) ==> |Truncate(rest)| >= 1 && Truncate(rest)[0] == DELIMITER
    ensures !Overlong(rest) ==> Truncate(rest) == rest
  {
    if Overlong(rest) {
      var start := Find(rest, DELIMITER, 0);
      FindGapFree(rest, DELIMITER, 0);
      assert rest[0..start] == rest[..|rest| - |Truncate(rest)|];
    } else {
      assert rest[0..] == rest && rest[..0] == [];
    }
  }

  /** Cutting back twice is cutting back once. */
  lemma TruncateIdempotent(rest: string)
    ensures Truncate(Truncate(rest)) == Truncate(rest)
  {
    var t := Truncate(rest);
    TruncateDropsOnlyFiller(rest);
    if Overlong(t) {
      assert t[0..] == t;
    }
  }

  /** A leftover that starts at its '#' is never cut back. */
  lemma TruncateFromDelimiter(t: string)
    requires |t| >= 1 && t[0] == DELIMITER
    ensures Truncate(t) == t
  {
  }

  /** Once an overlong leftover is cut back, text without '#' appended to it
      is never cut again, however long the leftover grows: the length cap
      acts only once per unterminated record. */
  lemma TruncateGrowth(rest: string, u: string)
    requires Overlong(rest) && DELIMITER !in u
    ensures Truncate(Truncate(rest) + u) == Truncate(rest) + u
  {
    TruncateDropsOnlyFiller(rest);
    TruncateFromDelimiter(Truncate(rest) + u);
  }

  /** A buffer without '#' frames to no record, is not overlong, and is kept whole. */
  lemma NoDelimiterUntouched(buffer: string)
    requires DELIMITER !in buffer
    ensures Frame(buffer) == Framing([], buffer)
    ensures !Overlong(buffer) && Truncate(buffer) == buffer
  {
    FrameNoRecord(buffer);
  }

  // ---------------------------------------------------------------------
  // Queue events

  /** The event queued for one record: its reading, or a parse-failure log entry. */
  function RecordEvent(record: string, peer: Peer): (e: Event)
    ensures e.Reading? <==> ParseSensorData(record).Some?
    ensures e.Reading? ==> e.reading == ParseSensorData(record).value && e.peer == peer
    ensures e.Reading? ==> e.reading.rawString == record
    ensures e.Log? ==> e == Log(peer, ParseFailed(record))
  {
    match ParseSensorData(record)
    case Some(r) => Reading(r, peer)
    case None => Log(peer, ParseFailed(record))
  }

  /** The queueing step for one record, as a function of the record. */
  function QueueFor(peer: Peer): string -> Event
  {
    record => RecordEvent(record, peer)
  }

  /** f applied to every element, in order. */
  function MapSeq<A, B>(s: seq<A>, f: A -> B): seq<B>
  {
    seq(|s|, i requires 0 <= i < |s| => f(s[i]))
  }

  lemma MapSeqAppend<A, B>(a: seq<A>, b: seq<A>, f: A -> B)
    ensures MapSeq(a + b, f) == MapSeq(a, f) + MapSeq(b, f)
  {
    var joined, split := MapSeq(a + b, f), MapSeq(a, f) + MapSeq(b, f);
    forall i | 0 <= i < |joined|
      ensures joined[i] == split[i]
    {
      if i < |a| {
        assert (a + b)[i] == a[i];
      } else {
        assert (a + b)[i] == b[i - |a|];
      }
    }
  }

  /** The events queued for the records: one each, in order. */
  function RecordEvents(records: seq<string>, peer: Peer): seq<Event>
  {
    MapSeq(records, QueueFor(peer))
  }

  /** The events of two runs of records are those of the first run, then those of the second. */
  lemma RecordEventsAppend(a: seq<string>, b: seq<string>, peer: Peer)
    ensures RecordEvents(a + b, peer) == RecordEvents(a, peer) + RecordEvents(b, peer)
  {
    MapSeqAppend(a, b, QueueFor(peer));
  }

  /** One record queues its own event. */
  lemma RecordEventsOne(record: string, peer: Peer)
    ensures RecordEvents([record], peer) == [RecordEvent(record, peer)]
  {
    assert RecordEvents([record], peer)[0] == QueueFor(peer)(record);
  }

  predicate IsWarning(e: Event)
  {
    e.Log? && e.entry == BufferOverlong
  }

  /** The events other than the overlong-buffer warnings. */
  function WithoutWarnings(events: seq<Event>): seq<Event>
    decreases |events|
  {
    if events == [] then []
    else (if IsWarning(events[0]) then [] else [events[0]]) + WithoutWarnings(events[1..])
  }

  lemma {:induction false} WithoutWarningsAppend(a: seq<Event>, b: seq<Event>)
    ensures WithoutWarnings(a + b) == WithoutWarnings(a) + WithoutWarnings(b)
    decreases |a|
  {
    if a == [] {
      assert a + b == b;
    } else {
      assert (a + b)[1..] == a[1..] + b;
      WithoutWarningsAppend(a[1..], b);
    }
  }

  /** Dropping the warnings from events that hold none changes nothing. */
  lemma {:induction false} WithoutWarningsNone(events: seq<Event>)
    requires forall i :: 0 <= i < |events| ==> !IsWarning(events[i])
    ensures WithoutWarnings(events) == events
    decreases |events|
  {
    if events != [] {
      WithoutWarningsNone(events[1..]);
      assert events == [events[0]] + events[1..];
    }
  }

  /** Record events are never warnings. */
  lemma RecordEventsUnwarned(records: seq<string>, peer: Peer)
    ensures WithoutWarnings(RecordEvents(records, peer)) == RecordEvents(records, peer)
  {
    var events := RecordEvents(records, peer);
    assert forall i :: 0 <= i < |events| ==> events[i] == RecordEvent(records[i], peer);
    WithoutWarningsNone(events);
  }


  // ---------------------------------------------------------------------
  // The framing loop and the receive loop

  /** One turn of the framing loop: cutting the next record off the unread
      text moves it to the records already handled. */
  lemma {:induction false} DrainCut(buffer: string, rest: string, done: seq<string>)
    requires Find(rest, DELIMITER, 0) >= 0 && Find(rest, DELIMITER, Find(rest, DELIMITER, 0) + 1) >= 0
    requires Frame(buffer) == Framing(done + Frame(rest).records, Frame(rest).rest)
    ensures var start := Find(rest, DELIMITER, 0);
      var end := Find(rest, DELIMITER, start + 1);
      var tail := Frame(rest[end + 1..]);
      Frame(buffer) == Framing(done + [rest[start..end + 1]] + tail.records, tail.rest)
  {
    var start := Find(rest, DELIMITER, 0);
    var end := Find(rest, DELIMITER, start + 1);
    var tail := Frame(rest[end + 1..]);
    FrameCut(rest);
    assert done + ([rest[start..end + 1]] + tail.records) == done + [rest[start..end + 1]] + tail.records;
  }

  /** Where the inner framing loop stops, with the buffer framed into the
      records cut so far and a leftover without a complete record: what it
      keeps, and the events it queued, are those its contract promises. */
  lemma DrainExit(buffer: string, done: seq<string>, pending: string, kept: string,
                  events: seq<Event>, peer: Peer)
    requires Frame(buffer) == Framing(done, pending)
    requires kept == Truncate(pending)
    requires events == RecordEvents(done, peer) + (if Overlong(pending) then [Log(peer, BufferOverlong)] else [])
    ensures kept == Truncate(Frame(buffer).rest)
    ensures events == RecordEvents(Frame(buffer).records, peer)
                      + (if Overlong(Frame(buffer).rest) then [Log(peer, BufferOverlong)] else [])
    ensures Count(kept, DELIMITER) <= 1
  {
    FrameWellFormed(buffer);
    TruncateDropsOnlyFiller(pending);
    PendingTailCount(kept, pending);
  }

  /** Parses one record cut from the buffer and makes the event queued for it. */
  method ParseRecord(message: string, peer: Peer) returns (e: Event)
    ensures [e] == RecordEvents([message], peer)
  {
    var parsed := ParseSensorData(message);
    if parsed.Some? {
      e := Reading(parsed.value, peer);
    } else {
      e := Log(peer, ParseFailed(message));
    }
    RecordEventsOne(message, peer);
  }

  /** The inner framing loop run on the buffer after a chunk was appended:
      cuts out and parses every complete record, queueing one event each,
      and returns what the buffer keeps. The result is the framing of the
      buffer, with the leftover cut back (and a warning queued) when it is
      overlong. */
  method DrainBuffer(buffer: string, peer: Peer) returns (rest: string, events: seq<Event>)
    ensures rest == Truncate(Frame(buffer).rest)
    ensures events == RecordEvents(Frame(buffer).records, peer)
                      + (if Overlong(Frame(buffer).rest) then [Log(peer, BufferOverlong)] else [])
    ensures Count(rest, DELIMITER) <= 1
  {
    rest, events := buffer, [];
    ghost var done: seq<string> := [];
    ghost var pending := buffer;
    while true
      invariant Frame(buffer) == Framing(done + Frame(rest).records, Frame(rest).rest)
      invariant events == RecordEvents(done, peer)
      decreases |rest|
    {
      var start := Find(rest, DELIMITER, 0);
      if start == -1 {
        FrameNoRecord(rest);
        pending := rest;
        assert !Overlong(pending);
        break;
      }
      var end := Find(rest, DELIMITER, start + 1);
      if end == -1 {
        FrameNoRecord(rest);
        pending := rest;
        if |rest| > MAX_PENDING {
          events := events + [Log(peer, BufferOverlong)];
          rest := rest[start..];
        }
        break;
      }
      var message := rest[start..end + 1];
      var e := ParseRecord(message, peer);
      DrainCut(buffer, rest, done);
      RecordEventsAppend(done, [message], peer);
      events := events + [e];
      done := done + [message];
      rest := rest[end + 1..];
    }
    assert done + [] == done;
    DrainExit(buffer, done, pending, rest, events, peer);
  }

  /** The queue after one more drain: the warnings aside, the records'
      events so far followed by the new records' events. */
  lemma QueueDrained(before: seq<Event>, drained: seq<Event>, done: seq<string>, received: seq<string>,
                     overlong: bool, peer: Peer)
    requires WithoutWarnings(before) == RecordEvents(done, peer)
    requires drained == RecordEvents(received, peer) + (if overlong then [Log(peer, BufferOverlong)] else [])
    ensures WithoutWarnings(before + drained) == RecordEvents(done + received, peer)
  {
    var warning := if overlong then [Log(peer, BufferOverlong)] else [];
    assert WithoutWarnings(warning) == [];
    WithoutWarningsAppend(before, drained);
    WithoutWarningsAppend(RecordEvents(received, peer), warning);
    RecordEventsUnwarned(received, peer);
    RecordEventsAppend(done, received, peer);
  }

  /** One turn of the receive loop: a chunk appended to the buffer and the
      buffer drained. The events queued so far, warnings aside, stay those
      of the records of the stream received so far, and the buffer stays
      the stream's leftover less some '#'-free text in front. */
  lemma {:induction false} ReceiveStep(stream: string, buffer: string, chunk: string, rest: string,
                                       drained: seq<Event>, before: seq<Event>, peer: Peer)
    requires PendingTail(buffer, Frame(stream).rest) && Count(buffer, DELIMITER) <= 1
    requires WithoutWarnings(before) == RecordEvents(Frame(stream).records, peer)
    requires rest == Truncate(Frame(buffer + chunk).rest)
    requires drained == RecordEvents(Frame(buffer + chunk).records, peer)
                        + (if Overlong(Frame(buffer + chunk).rest) then [Log(peer, BufferOverlong)] else [])
    ensures WithoutWarnings(before + drained) == RecordEvents(Frame(stream + chunk).records, peer)
    ensures PendingTail(rest, Frame(stream + chunk).rest)
  {
    var received := Frame(buffer + chunk);
    StreamStep(stream, buffer, chunk);
    TruncateDropsOnlyFiller(received.rest);
    PendingTailTransitive(rest, received.rest, Frame(stream + chunk).rest);
    QueueDrained(before, drained, Frame(stream).records, received.records, Overlong(received.rest), peer);
  }

  /** A stream's leftover, stripped of '#'-free text in front, accounts
      with the framed records for every '#' of the stream. */
  lemma DelimitersAccounted(stream: string, buffer: string)
    requires PendingTail(buffer, Frame(stream).rest)
    ensures Count(stream, DELIMITER) == 2 * |Frame(stream).records| + Count(buffer, DELIMITER)
  {
    FrameWellFormed(stream);
    PendingTailCount(buffer, Frame(stream).rest);
  }

  /** The receive loop: each chunk is appended to the buffer, which is then
      drained. The events queued, warnings aside, are those of the records
      framed from the whole stream, in order, whatever the chunk boundaries;
      the buffer left is the stream's leftover less, at most, some '#'-free
      text in front, and holds at most one '#'. */
  method ReceiveAll(chunks: seq<string>, peer: Peer) returns (queued: seq<Event>, buffer: string)
    ensures WithoutWarnings(queued) == RecordEvents(Frame(Concat(chunks)).records, peer)
    ensures PendingTail(buffer, Frame(Concat(chunks)).rest)
    ensures Count(buffer, DELIMITER) <= 1
  {
    queued := [];
    buffer := "";
    ghost var stream := "";
    for i := 0 to |chunks|
      invariant stream == Concat(chunks[..i])
      invariant WithoutWarnings(queued) == RecordEvents(Frame(stream).records, peer)
      invariant PendingTail(buffer, Frame(stream).rest)
      invariant Count(buffer, DELIMITER) <= 1
    {
      var rest, drained := DrainBuffer(buffer + chunks[i], peer);
      ReceiveStep(stream, buffer, chunks[i], rest, drained, queued, peer);
      queued := queued + drained;
      buffer := rest;
      assert chunks[..i + 1][..i] == chunks[..i];
      stream := stream + chunks[i];
    }
    assert chunks[..|chunks|] == chunks;
  }

  /** One connection from accept to close, for a peer that sends the given
      chunks (already decoded to text) and then closes its end. Returns the
      queued events and the text still buffered at the close: the
      connection is announced, the readings and parse failures of the
      records framed from the whole stream follow in order, and the
      disconnection and closing notices end the log. Every '#' of the
      stream lies in a framed record or in the buffer. */
  method HandleConnection(chunks: seq<string>, peer: Peer) returns (events: seq<Event>, buffer: string)
    ensures |events| >= 3 && events[0] == Log(peer, Connected)
    ensures events[|events| - 2] == Log(peer, Disconnected) && events[|events| - 1] == Log(peer, Closing)
    ensures WithoutWarnings(events[1..|events| - 2]) == RecordEvents(Frame(Concat(chunks)).records, peer)
    ensures PendingTail(buffer, Frame(Concat(chunks)).rest)
    ensures Count(buffer, DELIMITER) <= 1
    ensures Count(Concat(chunks), DELIMITER) == 2 * |Frame(Concat(chunks)).records| + Count(buffer, DELIMITER)
  {
    var queued;
    queued, buffer := ReceiveAll(chunks, peer);
    events := [Log(peer, Connected)] + queued + [Log(peer, Disconnected), Log(peer, Closing)];
    assert events[1..|events| - 2] == queued;
    DelimitersAccounted(Concat(chunks), buffer);
  }
}
