/** The chunked scanner as a function: which text a read schedule delivers, and what the
    line automaton makes of it. */
module Scanning {
  import opened Bytes
  import opened Lines
  import opened Records
  import opened Continuation
  import opened Environment
  import opened Engine
  import opened Pipeline

  // ---------------------------------------------------------------- delivery

  /** Position after the last LF, 0 when there is none. */
  function EndOfLines(f: bytes): (n: nat)
    ensures n <= |f| && (n > 0 ==> f[n - 1] == LF)
    ensures forall k :: n <= k < |f| ==> f[k] != LF
  {
    if f == [] || f[|f| - 1] == LF then |f| else EndOfLines(f[..|f| - 1])
  }

  lemma EndOfLinesUnique(f: bytes, n: nat)
    requires n <= |f| && (n > 0 ==> f[n - 1] == LF) && forall k :: n <= k < |f| ==> f[k] != LF
    ensures EndOfLines(f) == n
  {}

  /** The text handed to the line loop, and whether LINE_TOO_LONG ended the run. */
  datatype Delivery = Delivery(text: bytes, tooLong: bool)

  /** What is still to be delivered when tail is in the work buffer and chunks are unread. */
  function Deliver(tail: bytes, chunks: seq<bytes>, work: nat): Delivery
    decreases |chunks|
  {
    if chunks == [] then Delivery(tail, false)
    else if |tail| + |chunks[0]| > work then Delivery([], true)
    else
      var filled := tail + chunks[0];
      var limit := EndOfLines(filled);
      if limit == 0 then
        if |filled| == work then Delivery([], true) else Deliver(filled, chunks[1..], work)
      else
        var d := Deliver(filled[limit..], chunks[1..], work);
        Delivery(filled[..limit] + d.text, d.tooLong)
  }

  predicate Chunks(chunks: seq<bytes>, read: nat) {
    forall i :: 0 <= i < |chunks| ==> 0 < |chunks[i]| <= read
  }

  /** One file cut by a read schedule; past the end of the schedule reads are full. */
  function Chop(data: bytes, schedule: seq<nat>, read: nat): (chunks: seq<bytes>)
    requires read > 0
    ensures Chunks(chunks, read)
    ensures Concat(chunks) == data
    decreases |data|
  {
    if data == [] then []
    else
      var ask := if schedule == [] || schedule[0] == 0 || schedule[0] > read then read else schedule[0];
      var n := if ask > |data| then |data| else ask;
      [data[..n]] + Chop(data[n..], if schedule == [] then [] else schedule[1..], read)
  }

  /** Every list of chunks is the cut of its own text by the schedule of its lengths. */
  lemma {:induction false} EveryScheduleIsChop(chunks: seq<bytes>, read: nat)
    requires read > 0 && Chunks(chunks, read)
    ensures Chop(Concat(chunks), Sizes(chunks), read) == chunks
    decreases |chunks|
  {
    if chunks != [] {
      var rest := chunks[1..];
      assert Sizes(chunks)[0] == |chunks[0]| && Sizes(chunks)[1..] == Sizes(rest);
      assert Concat(chunks)[..|chunks[0]|] == chunks[0] && Concat(chunks)[|chunks[0]|..] == Concat(rest);
      EveryScheduleIsChop(rest, read);
    }
  }

  function Sizes(chunks: seq<bytes>): (r: seq<nat>)
    ensures |r| == |chunks|
  {
    seq(|chunks|, i requires 0 <= i < |chunks| => |chunks[i]|)
  }

  // ---------------------------------------------------------------- delivery and lines

  predicate LinesAtMost(text: bytes, n: nat) { forall i :: 0 <= i < |Split(text)| ==> |Split(text)[i]| <= n }

  /** The whole text splits into the complete lines of filled and the lines of what follows. */
  lemma CutAtLimit(filled: bytes, rest: bytes)
    ensures var n := EndOfLines(filled);
            Closed(filled[..n]) && filled + rest == filled[..n] + (filled[n..] + rest) &&
            Split(filled + rest) == Split(filled[..n]) + Split(filled[n..] + rest)
  {
    var n := EndOfLines(filled);
    assert filled + rest == filled[..n] + (filled[n..] + rest);
    SplitAppend(filled[..n], filled[n..] + rest);
  }

  /** A text that starts with LF-free bytes has them in its first line. */
  lemma FirstLineStarts(head: bytes, rest: bytes)
    requires head != [] && forall k :: 0 <= k < |head| ==> head[k] != LF
    ensures Split(head + rest) != [] && |Split(head + rest)[0]| >= |head|
  {
    var all := head + rest;
    assert forall k :: 0 <= k < |head| ==> all[k] == head[k];
    assert Find(all, LF) >= |head|;
  }

  lemma {:induction false} DeliverText(tail: bytes, chunks: seq<bytes>, work: nat)
    ensures var d := Deliver(tail, chunks, work);
            var whole := tail + Concat(chunks);
            if d.tooLong then Closed(d.text) && d.text <= whole else d.text == whole
    decreases |chunks|
  {
    if chunks == [] {
      assert tail + [] == tail;
    } else if |tail| + |chunks[0]| <= work {
      var filled, rest := tail + chunks[0], Concat(chunks[1..]);
      var limit := EndOfLines(filled);
      assert tail + Concat(chunks) == filled + rest;
      if limit == 0 {
        if |filled| < work { DeliverText(filled, chunks[1..], work); }
      } else {
        var d := Deliver(filled[limit..], chunks[1..], work);
        DeliverText(filled[limit..], chunks[1..], work);
        hide EndOfLines, Deliver, Concat;
        PrefixShift(filled, limit, rest, d.text);
      }
    }
  }

  lemma PrefixShift(filled: bytes, limit: nat, rest: bytes, text: bytes)
    requires 0 < limit <= |filled| && filled[limit - 1] == LF && text <= filled[limit..] + rest
    ensures filled[..limit] + text <= filled + rest
    ensures Closed(text) ==> Closed(filled[..limit] + text)
    ensures text == filled[limit..] + rest ==> filled[..limit] + text == filled + rest
  {
    assert filled + rest == filled[..limit] + (filled[limit..] + rest);
  }

  /** Delivered lines are always a prefix of the lines of the whole-file split, cut after a
      terminator; without the report they are all of them. */
  lemma DeliverIsPrefix(tail: bytes, chunks: seq<bytes>, work: nat)
    ensures var d := Deliver(tail, chunks, work);
            var whole := tail + Concat(chunks);
            d.text <= whole && Split(d.text) <= Split(whole) && (!d.tooLong ==> d.text == whole)
  {
    DeliverText(tail, chunks, work);
    var d, whole := Deliver(tail, chunks, work), tail + Concat(chunks);
    if d.tooLong {
      assert whole == d.text + whole[|d.text|..];
      SplitAppend(d.text, whole[|d.text|..]);
    }
  }

  lemma LaterLines(whole: bytes, first: seq<bytes>, after: bytes, n: nat)
    requires LinesAtMost(whole, n) && Split(whole) == first + Split(after)
    ensures LinesAtMost(after, n)
  {
    forall i | 0 <= i < |Split(after)| ensures |Split(after)[i]| <= n {
      assert Split(whole)[|first| + i] == Split(after)[i];
    }
  }

  lemma PendingBound(tail: bytes, rest: bytes, n: nat)
    requires LinesAtMost(tail + rest, n) && forall k :: 0 <= k < |tail| ==> tail[k] != LF
    ensures |tail| <= n
  {
    if tail != [] { FirstLineStarts(tail, rest); }
  }

  /** In a text of short lines the held bytes leave room for one more read. */
  lemma ReadFits(tail: bytes, chunks: seq<bytes>, read: nat, work: nat)
    requires 0 < read <= work && chunks != [] && Chunks(chunks, read)
    requires forall k :: 0 <= k < |tail| ==> tail[k] != LF
    requires LinesAtMost(tail + Concat(chunks), work - read)
    ensures |tail| + |chunks[0]| <= work && Chunks(chunks[1..], read)
    ensures EndOfLines(tail + chunks[0]) == 0 ==> |tail| + |chunks[0]| < work
  {
    hide LinesAtMost, Concat;
    PendingBound(tail, Concat(chunks), work - read);
    assert 0 < |chunks[0]| <= read;
    var filled := tail + chunks[0];
    ConcatCons(tail, chunks);
    if EndOfLines(filled) == 0 { PendingBound(filled, Concat(chunks[1..]), work - read); }
  }

  /** The rest of a text of short lines behind its complete lines. */
  lemma RestIsShort(tail: bytes, chunks: seq<bytes>, n: nat, filled: bytes, limit: nat)
    requires chunks != [] && LinesAtMost(tail + Concat(chunks), n)
    requires filled == tail + chunks[0] && limit == EndOfLines(filled)
    ensures tail + Concat(chunks) == filled[..limit] + (filled[limit..] + Concat(chunks[1..]))
    ensures LinesAtMost(filled[limit..] + Concat(chunks[1..]), n)
  {
    hide LinesAtMost, Concat, EndOfLines;
    var rest := Concat(chunks[1..]);
    ConcatCons(tail, chunks);
    CutAtLimit(filled, rest);
    LaterLines(filled + rest, Split(filled[..limit]), filled[limit..] + rest, n);
  }

  /** Chunking is invisible: lines of at most work - read bytes are all delivered, whatever
      the read sizes. */
  lemma {:induction false} ShortLinesDelivered(tail: bytes, chunks: seq<bytes>, read: nat, work: nat)
    requires 0 < read <= work && Chunks(chunks, read)
    requires forall k :: 0 <= k < |tail| ==> tail[k] != LF
    requires LinesAtMost(tail + Concat(chunks), work - read)
    ensures Deliver(tail, chunks, work) == Delivery(tail + Concat(chunks), false)
    decreases |chunks|
  {
    if chunks == [] {
      assert tail + [] == tail;
    } else {
      hide LinesAtMost, Chunks, EndOfLines, Deliver, Concat;
      var filled := tail + chunks[0];
      var limit := EndOfLines(filled);
      ReadFits(tail, chunks, read, work);
      RestIsShort(tail, chunks, work - read, filled, limit);
      DeliverStep(tail, chunks, work, filled, limit);
      if limit == 0 { assert filled[limit..] == filled && filled[..limit] == []; }
      ShortLinesDelivered(filled[limit..], chunks[1..], read, work);
    }
  }

  /** A line of work bytes or more is always reported, and neither it nor any later line is
      delivered. */
  lemma {:induction false} LongLineStops(tail: bytes, chunks: seq<bytes>, work: nat, i: nat)
    requires 0 < work && |tail| < work && forall k :: 0 <= k < |tail| ==> tail[k] != LF
    requires i < |Split(tail + Concat(chunks))| && |Split(tail + Concat(chunks))[i]| >= work
    ensures var d := Deliver(tail, chunks, work);
            d.tooLong && |Split(d.text)| <= i
    decreases |chunks|
  {
    var whole := tail + Concat(chunks);
    if chunks == [] {
      assert whole == tail;
      if tail != [] { FindUnique(tail, LF, |tail|); }
      assert false;
    } else if |tail| + |chunks[0]| <= work {
      var filled, rest := tail + chunks[0], Concat(chunks[1..]);
      var limit := EndOfLines(filled);
      assert whole == filled + rest;
      if limit == 0 {
        if |filled| < work { LongLineStops(filled, chunks[1..], work, i); }
      } else {
        CutAtLimit(filled, rest);
        var first := Split(filled[..limit]);
        SplitLengths(filled[..limit]);
        assert i >= |first|;
        assert Split(whole)[i] == Split(filled[limit..] + rest)[i - |first|];
        LongLineStops(filled[limit..], chunks[1..], work, i - |first|);
        SplitAppend(filled[..limit], Deliver(filled[limit..], chunks[1..], work).text);
      }
    }
  }

  /** Terminated lines are shorter than the text. */
  lemma {:induction false} SplitLengths(text: bytes)
    requires text != [] && Closed(text)
    ensures forall i :: 0 <= i < |Split(text)| ==> |Split(text)[i]| < |text|
    decreases |text|
  {
    var p := Find(text, LF);
    assert text[|text| - 1] == LF;
    var rest := text[p + 1..];
    SplitAt(text, p);
    if rest != [] { SplitLengths(rest); }
  }

  /** Reading byte by byte the report is exact: some line has work bytes or more. */
  lemma BytewiseExact(chunks: seq<bytes>, work: nat)
    requires 1 <= work && Chunks(chunks, 1)
    ensures Deliver([], chunks, work).tooLong <==> HasLong(Concat(chunks), work)
  {
    var text := Concat(chunks);
    assert [] + text == text;
    if i :| 0 <= i < |Split(text)| && |Split(text)[i]| >= work {
      LongLineStops([], chunks, work, i);
    } else {
      assert LinesAtMost(text, work - 1);
      ShortLinesDelivered([], chunks, 1, work);
    }
  }

  function Singles(s: bytes): (chunks: seq<bytes>)
    ensures Chunks(chunks, 1) && Concat(chunks) == s
  {
    if s == [] then [] else [[s[0]]] + Singles(s[1..])
  }

  lemma {:induction false} ConcatAppend(a: seq<bytes>, b: seq<bytes>)
    ensures Concat(a + b) == Concat(a) + Concat(b)
  {
    if a == [] {
      assert a + b == b;
    } else {
      assert (a + b)[1..] == a[1..] + b;
      ConcatAppend(a[1..], b);
    }
  }

  lemma EndOfLinesAppend(a: bytes, b: bytes)
    ensures EndOfLines(a + b) == if EndOfLines(b) > 0 then |a| + EndOfLines(b) else EndOfLines(a)
  {
    EndOfLinesUnique(a + b, if EndOfLines(b) > 0 then |a| + EndOfLines(b) else EndOfLines(a));
  }

  // ---------------------------------------------------------------- which files can be reported

  predicate HasLong(p: bytes, work: nat) {
    exists i :: 0 <= i < |Split(p)| && |Split(p)[i]| >= work
  }

  /** The unfinished line before offset b and one full read behind it exceed the work buffer. */
  predicate Overflows(p: bytes, read: nat, work: nat, b: nat) {
    b < |p| && b - EndOfLines(p[..b]) + (if read < |p| - b then read else |p| - b) > work
  }

  /** The condition on the file alone under which some read schedule reports LINE_TOO_LONG. */
  predicate MayReport(p: bytes, read: nat, work: nat) {
    HasLong(p, work) || exists b :: 0 <= b < |p| && Overflows(p, read, work, b)
  }

  /** Reading on behind the chunks a: either they were reported already, or what is held is
      the unfinished line. */
  lemma {:induction false} DeliverOn(tail: bytes, a: seq<bytes>, b: seq<bytes>, work: nat)
    requires forall k :: 0 <= k < |tail| ==> tail[k] != LF
    ensures var whole := tail + Concat(a);
            Deliver(tail, a + b, work).tooLong ==
            (Deliver(tail, a, work).tooLong || Deliver(whole[EndOfLines(whole)..], b, work).tooLong)
    decreases |a|
  {
    if a == [] {
      assert a + b == b && tail + [] == tail;
      EndOfLinesUnique(tail, 0);
      assert tail[0..] == tail;
    } else if |tail| + |a[0]| <= work {
      var filled, rest := tail + a[0], Concat(a[1..]);
      var limit := EndOfLines(filled);
      ConcatCons(tail, a);
      assert (a + b)[0] == a[0] && (a + b)[1..] == a[1..] + b;
      DeliverStep(tail, a, work, filled, limit);
      DeliverStep(tail, a + b, work, filled, limit);
      if !(limit == 0 && |filled| == work) {
        var after := filled[limit..];
        DeliverOn(after, a[1..], b, work);
        SameHeld(filled, limit, rest);
        if limit == 0 { assert after == filled; }
      }
    }
  }

  /** Dropping complete lines does not change what is held at the end. */
  lemma SameHeld(filled: bytes, limit: nat, rest: bytes)
    requires limit == EndOfLines(filled)
    ensures var whole, after := filled + rest, filled[limit..] + rest;
            whole[EndOfLines(whole)..] == after[EndOfLines(after)..]
  {
    var whole, after := filled + rest, filled[limit..] + rest;
    assert whole == filled[..limit] + after;
    EndOfLinesAppend(filled[..limit], after);
    if EndOfLines(after) == 0 { EndOfLinesUnique(filled[..limit], limit); }
  }

  /** The unfinished line held when i chunks have been read. */
  function Held(chunks: seq<bytes>, i: nat): bytes
    requires i <= |chunks|
  {
    var before := Concat(chunks[..i]);
    before[EndOfLines(before)..]
  }

  /** The unfinished line and the next chunk exceed the work buffer. */
  predicate Crosses(chunks: seq<bytes>, work: nat, i: nat) {
    i < |chunks| && |Held(chunks, i)| + |chunks[i]| > work
  }

  lemma HeldNext(chunks: seq<bytes>, i: nat)
    requires i < |chunks|
    ensures var filled := Held(chunks, i) + chunks[i];
            Held(chunks, i + 1) == filled[EndOfLines(filled)..]
    ensures Concat(chunks[..i + 1]) == Concat(chunks[..i]) + chunks[i]
  {
    var before, c := Concat(chunks[..i]), chunks[i];
    assert chunks[..i + 1] == chunks[..i] + [c];
    ConcatAppend(chunks[..i], [c]);
    assert [c][1..] == [] && Concat([c]) == c;
    SameHeld(before, EndOfLines(before), c);
  }

  lemma ConcatAround(chunks: seq<bytes>, i: nat)
    requires i < |chunks|
    ensures Concat(chunks) == Concat(chunks[..i]) + chunks[i] + Concat(chunks[i + 1..])
  {
    hide Concat, Held, EndOfLines;
    HeldNext(chunks, i);
    assert chunks == chunks[..i + 1] + chunks[i + 1..];
    ConcatAppend(chunks[..i + 1], chunks[i + 1..]);
  }

  /** The file as complete lines, the unfinished line with one more chunk, and the rest. */
  lemma AroundHeld(chunks: seq<bytes>, i: nat)
    requires i < |chunks|
    ensures var before := Concat(chunks[..i]);
            Concat(chunks) == before[..EndOfLines(before)] + (Held(chunks, i) + chunks[i] + Concat(chunks[i + 1..]))
  {
    hide Concat;
    var before := Concat(chunks[..i]);
    ConcatAround(chunks, i);
    ThreeParts(before, EndOfLines(before), chunks[i], Concat(chunks[i + 1..]));
  }

  lemma ThreeParts(before: bytes, n: nat, c: bytes, rest: bytes)
    requires n <= |before|
    ensures before + c + rest == before[..n] + (before[n..] + c + rest)
  {}

  /** A full buffer without LF behind complete lines is a long line. */
  lemma FullCause(done: bytes, filled: bytes, rest: bytes, work: nat)
    requires Closed(done) && |filled| >= work > 0 && forall k :: 0 <= k < |filled| ==> filled[k] != LF
    ensures HasLong(done + (filled + rest), work)
  {
    FirstLineStarts(filled, rest);
    SplitAppend(done, filled + rest);
    var p, i := done + (filled + rest), |Split(done)|;
    assert Split(p)[i] == Split(filled + rest)[0];
  }

  lemma HeldInLine(chunks: seq<bytes>, i: nat, work: nat)
    requires i < |chunks| && 0 < work <= |Held(chunks, i) + chunks[i]|
    requires EndOfLines(Held(chunks, i) + chunks[i]) == 0
    ensures HasLong(Concat(chunks), work)
  {
    var before := Concat(chunks[..i]);
    AroundHeld(chunks, i);
    EndOfLinesClosed(before);
    hide Concat, Held, HasLong, Closed;
    FullCause(before[..EndOfLines(before)], Held(chunks, i) + chunks[i], Concat(chunks[i + 1..]), work);
  }

  /** A report after i chunks has a cause there or in a long line. */
  lemma {:induction false} ReportHasCause(chunks: seq<bytes>, i: nat, work: nat)
    requires 0 < work && i <= |chunks| && Deliver(Held(chunks, i), chunks[i..], work).tooLong
    ensures HasLong(Concat(chunks), work) || exists k :: 0 <= k < |chunks| && Crosses(chunks, work, k)
    decreases |chunks| - i
  {
    if i < |chunks| && !Crosses(chunks, work, i) {
      var held := Held(chunks, i);
      var filled := held + chunks[i];
      var limit := EndOfLines(filled);
      assert chunks[i..][0] == chunks[i] && chunks[i..][1..] == chunks[i + 1..];
      HeldNext(chunks, i);
      hide HasLong, EndOfLines, Held;
      if limit == 0 && |filled| == work {
        HeldInLine(chunks, i, work);
      } else {
        DeliverStep(held, chunks[i..], work, filled, limit);
        if limit == 0 { assert filled[limit..] == filled; }
        hide Deliver;
        ReportHasCause(chunks, i + 1, work);
      }
    }
  }

  lemma LongStops(chunks: seq<bytes>, work: nat)
    requires 0 < work && HasLong(Concat(chunks), work)
    ensures Deliver([], chunks, work).tooLong
  {
    assert [] + Concat(chunks) == Concat(chunks);
    var i :| 0 <= i < |Split(Concat(chunks))| && |Split(Concat(chunks))[i]| >= work;
    LongLineStops([], chunks, work, i);
  }

  lemma CrossStops(chunks: seq<bytes>, work: nat, i: nat)
    requires Crosses(chunks, work, i)
    ensures Deliver([], chunks, work).tooLong
  {
    var before, after := chunks[..i], chunks[i..];
    assert [] + Concat(before) == Concat(before) && chunks == before + after;
    assert after[0] == chunks[i];
    assert Deliver(Held(chunks, i), after, work).tooLong;
    hide Deliver, Concat, EndOfLines;
    DeliverOn([], before, after, work);
  }

  lemma NothingHeld(chunks: seq<bytes>)
    ensures chunks[0..] == chunks && Held(chunks, 0) == []
  {}

  /** For every way of reading, the report is exact: a line of work bytes, or a read that does
      not fit behind the unfinished line. */
  lemma TooLongIff(chunks: seq<bytes>, work: nat)
    requires 0 < work
    ensures Deliver([], chunks, work).tooLong <==>
            HasLong(Concat(chunks), work) || exists i :: 0 <= i < |chunks| && Crosses(chunks, work, i)
  {
    hide Deliver, Concat, EndOfLines, HasLong, Crosses, Held;
    NothingHeld(chunks);
    if Deliver([], chunks, work).tooLong { ReportHasCause(chunks, 0, work); }
    if HasLong(Concat(chunks), work) { LongStops(chunks, work); }
    if i :| 0 <= i < |chunks| && Crosses(chunks, work, i) { CrossStops(chunks, work, i); }
  }

  /** Chunk i is refused: it does not fit, or fills the buffer without a newline. */
  predicate RefusedAt(chunks: seq<bytes>, work: nat, i: nat)
    requires i < |chunks|
  {
    var filled := Held(chunks, i) + chunks[i];
    |filled| > work || (|filled| == work && EndOfLines(filled) == 0)
  }

  /** The complete lines read before chunk i. */
  function LinesBefore(chunks: seq<bytes>, i: nat): bytes
    requires i <= |chunks|
  {
    var before := Concat(chunks[..i]);
    before[..EndOfLines(before)]
  }

  lemma LinesBeforeNext(chunks: seq<bytes>, i: nat)
    requires i < |chunks|
    ensures var filled := Held(chunks, i) + chunks[i];
            LinesBefore(chunks, i + 1) == LinesBefore(chunks, i) + filled[..EndOfLines(filled)]
  {
    var before, c := Concat(chunks[..i]), chunks[i];
    HeldNext(chunks, i);
    var n, filled := EndOfLines(before), before[EndOfLines(before)..] + c;
    assert before + c == before[..n] + filled;
    EndOfLinesAppend(before[..n], filled);
    if EndOfLines(filled) == 0 { EndOfLinesUnique(before[..n], n); }
    hide Concat, EndOfLines;
  }

  lemma RefusedStops(tail: bytes, chunks: seq<bytes>, work: nat)
    ensures Deliver(tail, chunks, work).tooLong ==> chunks != []
    ensures chunks != [] ==>
              var filled := tail + chunks[0];
              |filled| > work || (|filled| == work && EndOfLines(filled) == 0) ==>
                Deliver(tail, chunks, work) == Delivery([], true)
  {
    hide EndOfLines;
  }

  lemma {:induction false} StopsFrom(chunks: seq<bytes>, work: nat, i: nat) returns (k: nat)
    requires i <= |chunks| && Deliver(Held(chunks, i), chunks[i..], work).tooLong
    ensures i <= k < |chunks| && RefusedAt(chunks, work, k) && forall j :: i <= j < k ==> !RefusedAt(chunks, work, j)
    ensures LinesBefore(chunks, i) + Deliver(Held(chunks, i), chunks[i..], work).text == LinesBefore(chunks, k)
    decreases |chunks| - i
  {
    hide Held, EndOfLines, LinesBefore, Concat, Deliver;
    var held, rest := Held(chunks, i), chunks[i..];
    RefusedStops(held, rest, work);
    assert rest[0] == chunks[i] && rest[1..] == chunks[i + 1..];
    var filled := held + chunks[i];
    var limit := EndOfLines(filled);
    if RefusedAt(chunks, work, i) {
      assert LinesBefore(chunks, i) + [] == LinesBefore(chunks, i);
      return i;
    }
    HeldNext(chunks, i);
    LinesBeforeNext(chunks, i);
    DeliverStep(held, rest, work, filled, limit);
    if limit == 0 { assert filled[limit..] == filled && filled[..limit] == []; }
    k := StopsFrom(chunks, work, i + 1);
    AppendAssoc(LinesBefore(chunks, i), filled[..limit], Deliver(Held(chunks, i + 1), rest[1..], work).text);
  }

  /** A reported file: the lines delivered are exactly the complete lines read before the first
      chunk that is refused. */
  lemma StopPoint(chunks: seq<bytes>, work: nat) returns (k: nat)
    requires Deliver([], chunks, work).tooLong
    ensures k < |chunks| && RefusedAt(chunks, work, k) && forall j :: 0 <= j < k ==> !RefusedAt(chunks, work, j)
    ensures Deliver([], chunks, work).text == LinesBefore(chunks, k)
  {
    NothingHeld(chunks);
    assert LinesBefore(chunks, 0) == [];
    hide Deliver, Held, LinesBefore;
    k := StopsFrom(chunks, work, 0);
    assert [] + Deliver([], chunks, work).text == Deliver([], chunks, work).text;
  }

  lemma EndOfLinesClosed(filled: bytes)
    ensures Closed(filled[..EndOfLines(filled)])
    ensures var tail := filled[EndOfLines(filled)..]; forall k :: 0 <= k < |tail| ==> tail[k] != LF
  {}

  /** A read that does not fit is no longer than the one Overflows speaks of. */
  lemma CrossOverflows(chunks: seq<bytes>, read: nat, work: nat, i: nat)
    requires Chunks(chunks, read) && Crosses(chunks, work, i)
    ensures Overflows(Concat(chunks), read, work, |Concat(chunks[..i])|)
  {
    var before := Concat(chunks[..i]);
    assert chunks == chunks[..i] + chunks[i..];
    ConcatAppend(chunks[..i], chunks[i..]);
    assert |Concat(chunks[i..])| >= |chunks[i]| && 0 < |chunks[i]| <= read;
    assert Concat(chunks)[..|before|] == before;
  }

  /** A schedule that reports: byte by byte up to b, then one full read. */
  lemma OverflowReports(p: bytes, read: nat, work: nat, b: nat) returns (chunks: seq<bytes>)
    requires 0 < read <= work && Overflows(p, read, work, b)
    ensures Chunks(chunks, read) && Concat(chunks) == p && Deliver([], chunks, work).tooLong
  {
    var n := if read < |p| - b then read else |p| - b;
    var before, full, rest := p[..b], p[b..b + n], p[b + n..];
    assert p == before + (full + rest);
    var first, tail := Singles(before), [full] + Singles(rest);
    assert tail[1..] == Singles(rest) && Concat(tail) == full + rest;
    chunks := first + tail;
    ChunksAppend(first, tail, read);
    ConcatAppend(first, tail);
    assert chunks[..|first|] == first && chunks[|first|] == full;
    hide EndOfLines, Deliver, Concat, Singles;
    assert Crosses(chunks, work, |first|);
    TooLongIff(chunks, work);
  }

  lemma ChunksAppend(a: seq<bytes>, b: seq<bytes>, read: nat)
    requires Chunks(a, read) && Chunks(b, read)
    ensures Chunks(a + b, read)
  {}

  lemma LongReports(p: bytes, work: nat)
    requires 0 < work && HasLong(p, work)
    ensures Deliver([], Singles(p), work).tooLong
  {
    BytewiseExact(Singles(p), work);
  }

  /** Some schedule of reads of at most read bytes reports LINE_TOO_LONG if and only if the file
      has a line of work bytes, or an offset at which the unfinished line and a full read do
      not fit together. */
  lemma ReportedIff(p: bytes, read: nat, work: nat)
    requires 0 < read <= work
    ensures (exists chunks :: Chunks(chunks, read) && Concat(chunks) == p && Deliver([], chunks, work).tooLong)
            <==> MayReport(p, read, work)
  {
    if chunks :| Chunks(chunks, read) && Concat(chunks) == p && Deliver([], chunks, work).tooLong {
      TooLongIff(chunks, work);
      if i :| 0 <= i < |chunks| && Crosses(chunks, work, i) { CrossOverflows(chunks, read, work, i); }
    }
    if HasLong(p, work) {
      LongReports(p, work);
      assert Chunks(Singles(p), read);
    } else if b :| 0 <= b < |p| && Overflows(p, read, work, b) {
      var chunks := OverflowReports(p, read, work, b);
    }
  }

  /** Every schedule reports if and only if some line has work bytes. */
  lemma AlwaysReportedIff(p: bytes, read: nat, work: nat)
    requires 0 < read <= work
    ensures (forall chunks :: Chunks(chunks, read) && Concat(chunks) == p ==> Deliver([], chunks, work).tooLong)
            <==> HasLong(p, work)
  {
    assert [] + p == p;
    if HasLong(p, work) {
      var i :| 0 <= i < |Split(p)| && |Split(p)[i]| >= work;
      forall chunks | Chunks(chunks, read) && Concat(chunks) == p ensures Deliver([], chunks, work).tooLong {
        LongLineStops([], chunks, work, i);
      }
    } else {
      BytewiseExact(Singles(p), work);
      assert Chunks(Singles(p), read);
    }
  }

  /** So the schedule decides on exactly the files between the two conditions. */
  lemma ScheduleDecides(p: bytes, read: nat, work: nat)
    requires 0 < read <= work
    ensures (exists chunks :: Chunks(chunks, read) && Concat(chunks) == p && Deliver([], chunks, work).tooLong) &&
            (exists chunks :: Chunks(chunks, read) && Concat(chunks) == p && !Deliver([], chunks, work).tooLong)
            <==> MayReport(p, read, work) && !HasLong(p, work)
  {
    ReportedIff(p, read, work);
    AlwaysReportedIff(p, read, work);
  }

  /** Without the condition every schedule delivers the whole file. */
  lemma DeliveredUnlessMayReport(p: bytes, chunks: seq<bytes>, read: nat, work: nat)
    requires 0 < read <= work && !MayReport(p, read, work) && Chunks(chunks, read) && Concat(chunks) == p
    ensures Deliver([], chunks, work) == Delivery(p, false)
  {
    ReportedIff(p, read, work);
    DeliverText([], chunks, work);
    assert [] + p == p;
  }

  /** Files of short lines are never reported. */
  lemma ShortLinesNeverReported(p: bytes, read: nat, work: nat)
    requires 0 < read <= work && LinesAtMost(p, work - read)
    ensures !MayReport(p, read, work)
  {
    ReportedIff(p, read, work);
    assert [] + p == p;
    forall chunks | Chunks(chunks, read) && Concat(chunks) == p ensures !Deliver([], chunks, work).tooLong {
      ShortLinesDelivered([], chunks, read, work);
    }
  }

  // ---------------------------------------------------------------- one schedule, and full reads

  /** The file p is reported when it is read by this schedule. */
  predicate Stopped(p: bytes, schedule: seq<nat>, read: nat, work: nat)
    requires read > 0
  {
    var chunks := Chop(p, schedule, read);
    HasLong(p, work) || exists i :: 0 <= i < |chunks| && Crosses(chunks, work, i)
  }

  lemma StoppedIff(p: bytes, schedule: seq<nat>, read: nat, work: nat)
    requires 0 < read <= work
    ensures var d := Deliver([], Chop(p, schedule, read), work);
            (d.tooLong <==> Stopped(p, schedule, read, work)) && (!d.tooLong ==> d.text == p)
  {
    var chunks := Chop(p, schedule, read);
    TooLongIff(chunks, work);
    DeliverText([], chunks, work);
    assert [] + p == p;
  }

  /** Full read number k does not fit behind the unfinished line. */
  predicate ReadOverflows(p: bytes, read: nat, work: nat, k: nat) { Overflows(p, read, work, k * read) }

  /** The condition on the file under which full reads report LINE_TOO_LONG. */
  predicate FullReport(p: bytes, read: nat, work: nat) {
    HasLong(p, work) || exists k :: 0 <= k < |p| && ReadOverflows(p, read, work, k)
  }

  lemma FullStep(p: bytes, read: nat)
    requires read > 0 && p != []
    ensures var n := if read < |p| then read else |p|;
            Chop(p, [], read) == [p[..n]] + Chop(p[n..], [], read)
  {}

  /** Chunk k of full reads is what lies behind the first b bytes. */
  predicate ChunkAt(p: bytes, read: nat, k: nat, b: nat)
    requires read > 0
  {
    var chunks := Chop(p, [], read);
    (k < |chunks| <==> b < |p|) &&
    (k < |chunks| ==>
       Concat(chunks[..k]) == p[..b] && |chunks[k]| == if read < |p| - b then read else |p| - b)
  }

  lemma ChunkBehind(p: bytes, read: nat, k: nat, b: nat)
    requires read > 0 && read < |p| && ChunkAt(p[read..], read, k, b)
    ensures ChunkAt(p, read, k + 1, b + read)
  {
    FullStep(p, read);
    hide Chop, Concat;
    var chunks, tail := Chop(p, [], read), Chop(p[read..], [], read);
    if k < |tail| {
      TakeCons(p[..read], tail, k);
      ConcatOne(p[..read], tail[..k]);
      TakeTwo(p, read, b);
    }
  }

  lemma TakeCons(c: bytes, tail: seq<bytes>, k: nat)
    requires k < |tail|
    ensures ([c] + tail)[..k + 1] == [c] + tail[..k] && ([c] + tail)[k + 1] == tail[k]
  {}

  lemma TakeTwo(p: bytes, read: nat, b: nat)
    requires read + b <= |p|
    ensures p[..read] + p[read..][..b] == p[..b + read]
  {}

  lemma FirstChunk(p: bytes, read: nat)
    requires read > 0
    ensures ChunkAt(p, read, 0, 0)
  {
    if p != [] { FullStep(p, read); }
  }

  lemma NoChunk(p: bytes, read: nat, k: nat, b: nat)
    requires read > 0 && k > 0 && |p| <= read <= b
    ensures ChunkAt(p, read, k, b)
  {
    if p != [] {
      FullStep(p, read);
      assert p[|p|..] == [];
    }
  }

  /** The chunks of full reads start at the multiples of read. */
  lemma {:induction false} FullChunk(p: bytes, read: nat, k: nat)
    requires read > 0
    ensures ChunkAt(p, read, k, k * read)
    decreases k
  {
    hide ChunkAt;
    if k == 0 {
      FirstChunk(p, read);
    } else {
      assert k * read == (k - 1) * read + read;
      AtMostTimes(k - 1, read);
      if read < |p| {
        FullChunk(p[read..], read, k - 1);
        ChunkBehind(p, read, k - 1, (k - 1) * read);
      } else {
        NoChunk(p, read, k, k * read);
      }
    }
  }

  lemma ConcatOne(c: bytes, chunks: seq<bytes>)
    ensures Concat([c] + chunks) == c + Concat(chunks)
  {
    assert ([c] + chunks)[1..] == chunks;
  }

  /** Reads of exactly read bytes to the end, as from a file in memory: the report is exact. */
  lemma FullReadsIff(p: bytes, read: nat, work: nat)
    requires 0 < read <= work
    ensures Deliver([], Chop(p, [], read), work).tooLong <==> FullReport(p, read, work)
  {
    var chunks := Chop(p, [], read);
    StoppedIff(p, [], read, work);
    hide HasLong, Chop, Concat, EndOfLines;
    if i :| 0 <= i < |chunks| && Crosses(chunks, work, i) {
      FullChunk(p, read, i);
      AtMostTimes(i, read);
      assert ReadOverflows(p, read, work, i);
    }
    if k :| 0 <= k < |p| && ReadOverflows(p, read, work, k) {
      FullChunk(p, read, k);
      assert Crosses(chunks, work, k);
    }
  }

  lemma AtMostTimes(k: nat, read: nat)
    requires read > 0
    ensures k <= k * read
  {
    if k > 0 {
      AtMostTimes(k - 1, read);
      assert k * read == (k - 1) * read + read;
    }
  }

  /** What no schedule reports is not reported by any one. */
  lemma StoppedMayReport(p: bytes, schedule: seq<nat>, read: nat, work: nat)
    requires 0 < read <= work && Stopped(p, schedule, read, work)
    ensures MayReport(p, read, work)
  {
    StoppedIff(p, schedule, read, work);
    ReportedIff(p, read, work);
    assert Chunks(Chop(p, schedule, read), read);
  }

  lemma ShortLinesFullyRead(p: bytes, read: nat, work: nat)
    requires 0 < read <= work && LinesAtMost(p, work - read)
    ensures !FullReport(p, read, work)
  {
    hide MayReport, FullReport, Stopped, LinesAtMost, Deliver, Chop;
    ShortLinesNeverReported(p, read, work);
    FullReadsIff(p, read, work);
    StoppedIff(p, [], read, work);
    if Stopped(p, [], read, work) { StoppedMayReport(p, [], read, work); }
  }

  function Fill(n: nat): bytes { seq(n, _ => 65) }

  /** A file some schedule reports and full reads do not, at the sizes of the source: the line of
      62000 bytes ends inside the read that fills the buffer. */
  lemma FullReadsDeliverMore()
    ensures var p := Fill(62000) + [LF] + Fill(5000);
            MayReport(p, READ_BUF, WORK_BUF) && !FullReport(p, READ_BUF, WORK_BUF)
  {
    var a, b := Fill(62000), Fill(5000);
    var p := a + [LF] + b;
    SplitFirst(a, b);
    FindUnique(b, LF, |b|);
    assert Split(b) == [b];
    forall n | 0 <= n <= |p| ensures EndOfLines(p[..n]) == if n <= 62000 then 0 else 62001 {
      EndOfLinesUnique(p[..n], if n <= 62000 then 0 else 62001);
    }
    hide EndOfLines, Fill;
    assert Overflows(p, READ_BUF, WORK_BUF, 61999);
    assert forall k: nat :: !ReadOverflows(p, READ_BUF, WORK_BUF, k);
  }

  // ---------------------------------------------------------------- the line automaton

  /** State between two physical lines: engine, join buffer contents, line number. */
  datatype Scan = Scan(st: State, hold: bytes, no: nat)

  predicate Continues(cfg: Config) { cfg.join && !cfg.native }

  /** Continuation accepted: the segment is refused, held, or completes the logical line. */
  function HoldLine(cfg: Config, capacity: nat, st: State, hold: bytes, line: bytes, no: nat,
                    terminated: bool): Scan {
    var joined := hold + line;
    if |joined| > capacity then Scan(Report(st, LineTooLong, 0), [], no)
    else if Odd(joined) && terminated then Scan(st, joined[..|joined| - 1], no)
    else Scan(Handle(cfg, st, Classify(cfg, CFront, joined), no), [], no)
  }

  /** One physical line; terminated says that its LF was seen. */
  function ScanLine(cfg: Config, strip: bool, capacity: nat, sc: Scan, raw: bytes, terminated: bool): Scan {
    var no := sc.no + 1;
    var line := if strip then TrimCr(raw) else raw;
    if Continues(cfg) then HoldLine(cfg, capacity, sc.st, sc.hold, line, no, terminated)
    else Scan(Handle(cfg, sc.st, Classify(cfg, CFront, line), no), sc.hold, no)
  }

  function ScanText(cfg: Config, strip: bool, capacity: nat, sc: Scan, text: bytes): Scan
    decreases |text|
  {
    if text == [] then sc
    else
      var p := Find(text, LF);
      if p == |text| then ScanLine(cfg, strip, capacity, sc, text, false)
      else ScanText(cfg, strip, capacity, ScanLine(cfg, strip, capacity, sc, text[..p], true), text[p + 1..])
  }

  lemma ScanTextStep(cfg: Config, strip: bool, capacity: nat, sc: Scan, line: bytes, rest: bytes)
    requires LF !in line
    ensures ScanText(cfg, strip, capacity, sc, line + [LF] + rest) ==
            ScanText(cfg, strip, capacity, ScanLine(cfg, strip, capacity, sc, line, true), rest)
  {
    var text := line + [LF] + rest;
    FindUnique(text, LF, |line|);
    assert text[..|line|] == line && text[|line| + 1..] == rest;
  }

  lemma {:induction false} ScanTextAppend(cfg: Config, strip: bool, capacity: nat, sc: Scan, a: bytes, b: bytes)
    requires Closed(a)
    ensures ScanText(cfg, strip, capacity, sc, a + b) ==
            ScanText(cfg, strip, capacity, ScanText(cfg, strip, capacity, sc, a), b)
    decreases |a|
  {
    if a == [] {
      assert a + b == b;
    } else {
      var p := Find(a, LF);
      assert a[|a| - 1] == LF;
      var line, rest := a[..p], a[p + 1..];
      assert a == line + [LF] + rest && a + b == line + [LF] + (rest + b);
      assert LF !in line && Closed(rest);
      hide ScanLine, ScanText, Closed;
      ScanTextStep(cfg, strip, capacity, sc, line, rest);
      ScanTextStep(cfg, strip, capacity, sc, line, rest + b);
      ScanTextAppend(cfg, strip, capacity, ScanLine(cfg, strip, capacity, sc, line, true), rest, b);
    }
  }

  function TrimAll(strip: bool, lines: seq<bytes>): (r: seq<bytes>)
    ensures |r| == |lines|
  {
    seq(|lines|, i requires 0 <= i < |lines| => if strip then TrimCr(lines[i]) else lines[i])
  }

  lemma TrimAllNone(strip: bool)
    ensures TrimAll(strip, []) == []
  {}

  lemma TrimAllCons(strip: bool, line: bytes, rest: seq<bytes>)
    ensures TrimAll(strip, [line] + rest) == [if strip then TrimCr(line) else line] + TrimAll(strip, rest)
  {}

  /** The events the automaton produces from a state, given the physical lines left. */
  function LineEvents(cfg: Config, hold: bytes, lines: seq<bytes>, closed: bool, no: nat, capacity: nat): seq<Event> {
    if Continues(cfg) then CFrom(hold, lines, closed, no, capacity) else Number(lines, no + 1)
  }

  /** One line of the automaton is one step of the joiner followed by the record step. */
  lemma ScanLineIsRun(cfg: Config, strip: bool, capacity: nat, sc: Scan, raw: bytes, rest: seq<bytes>, closed: bool)
    ensures var line := if strip then TrimCr(raw) else raw;
            var after := ScanLine(cfg, strip, capacity, sc, raw, closed || rest != []);
            Run(cfg, CFront, sc.st, LineEvents(cfg, sc.hold, [line] + rest, closed, sc.no, capacity)) ==
            Run(cfg, CFront, after.st, LineEvents(cfg, after.hold, rest, closed, after.no, capacity))
  {
    hide Handle, Classify, Odd, TrimCr;
    var line := if strip then TrimCr(raw) else raw;
    var all := [line] + rest;
    assert all[1..] == rest;
    if Continues(cfg) {
      var joined := sc.hold + line;
      var tail := CFrom([], rest, closed, sc.no + 1, capacity);
      if |sc.hold| + |line| > capacity {
        RunCons(cfg, sc.st, Fault(LineTooLong), tail);
      } else if !(Odd(joined) && (closed || rest != [])) {
        RunCons(cfg, sc.st, Logical(joined, sc.no + 1), tail);
      }
    } else {
      RunCons(cfg, sc.st, Logical(line, sc.no + 1), Number(rest, sc.no + 2));
    }
  }

  lemma RunCons(cfg: Config, st: State, e: Event, es: seq<Event>)
    ensures Run(cfg, CFront, st, [e] + es) == Run(cfg, CFront, Step(cfg, CFront, st, e), es)
  {
    assert ([e] + es)[1..] == es;
  }

  /** The automaton over a text is the fold over the joined logical lines. */
  lemma {:induction false} ScanTextIsRun(cfg: Config, strip: bool, capacity: nat, sc: Scan, text: bytes)
    ensures ScanText(cfg, strip, capacity, sc, text).st ==
            Run(cfg, CFront, sc.st,
                LineEvents(cfg, sc.hold, TrimAll(strip, Split(text)), Closed(text), sc.no, capacity))
    decreases |text|
  {
    if text == [] {
      assert TrimAll(strip, Split(text)) == [];
    } else {
      hide ScanLine, LineEvents, Run, TrimAll;
      var p := Find(text, LF);
      if p == |text| {
        assert Split(text) == [text] + [] && !Closed(text);
        TrimAllCons(strip, text, []);
        TrimAllNone(strip);
        ScanLineIsRun(cfg, strip, capacity, sc, text, [], false);
        NoLines(cfg, ScanLine(cfg, strip, capacity, sc, text, false), false, capacity);
      } else {
        var line, rest := text[..p], text[p + 1..];
        assert Split(text) == [line] + Split(rest);
        TrimAllCons(strip, line, Split(rest));
        assert Closed(text) == Closed(rest);
        assert Closed(rest) || |Split(rest)| > 0;
        ScanLineIsRun(cfg, strip, capacity, sc, line, TrimAll(strip, Split(rest)), Closed(rest));
        ScanTextIsRun(cfg, strip, capacity, ScanLine(cfg, strip, capacity, sc, line, true), rest);
      }
    }
  }

  lemma NoLines(cfg: Config, sc: Scan, closed: bool, capacity: nat)
    ensures Run(cfg, CFront, sc.st, LineEvents(cfg, sc.hold, [], closed, sc.no, capacity)) == sc.st
  {}

  /** The line loop's step: scan one physical line, go on behind its LF or at the end. */
  lemma ScanTextNext(cfg: Config, strip: bool, capacity: nat, sc: Scan, text: bytes)
    requires text != []
    ensures var p := Find(text, LF);
            ScanText(cfg, strip, capacity, sc, text) ==
            ScanText(cfg, strip, capacity, ScanLine(cfg, strip, capacity, sc, text[..p], p < |text|),
                     if p < |text| then text[p + 1..] else [])
  {
    hide ScanLine;
    var p := Find(text, LF);
    if p == |text| { assert text[..p] == text; }
  }

  lemma NothingToScan(cfg: Config, strip: bool, capacity: nat, sc: Scan, text: bytes)
    requires text == []
    ensures ScanText(cfg, strip, capacity, sc, text) == sc
  {}

  // ---------------------------------------------------------------- the read loop

  /** Invariant of the read loop: done has been scanned, tail is held, chunks are unread.
      Consumed bytes are delivered lines plus tail, and tail holds no newline. */
  ghost predicate Pending(done: bytes, tail: bytes, chunks: seq<bytes>, all: seq<bytes>, work: nat) {
    var d := Deliver(tail, chunks, work);
    Closed(done) && (forall k :: 0 <= k < |tail| ==> tail[k] != LF) &&
    done + (tail + Concat(chunks)) == Concat(all) &&
    Deliver([], all, work) == Delivery(done + d.text, d.tooLong)
  }

  lemma PendingStart(all: seq<bytes>, work: nat)
    ensures Pending([], [], all, all, work)
  {
    var d := Deliver([], all, work);
    assert [] + d.text == d.text && [] + ([] + Concat(all)) == Concat(all);
  }

  lemma AtEnd(done: bytes, tail: bytes, all: seq<bytes>, work: nat)
    requires Pending(done, tail, [], all, work)
    ensures Closed(done) && Deliver([], all, work) == Delivery(done + tail, false)
  {}

  lemma StopsHere(done: bytes, tail: bytes, chunks: seq<bytes>, all: seq<bytes>, work: nat)
    requires Pending(done, tail, chunks, all, work) && chunks != []
    requires |tail| + |chunks[0]| > work ||
             (|tail| + |chunks[0]| == work && EndOfLines(tail + chunks[0]) == 0)
    ensures Deliver([], all, work) == Delivery(done, true)
  {
    assert done + [] == done;
  }

  lemma DeliverStep(tail: bytes, chunks: seq<bytes>, work: nat, filled: bytes, limit: nat)
    requires chunks != [] && filled == tail + chunks[0] && |filled| <= work && limit == EndOfLines(filled)
    ensures limit == 0 && |filled| < work ==> Deliver(tail, chunks, work) == Deliver(filled, chunks[1..], work)
    ensures limit > 0 ==>
              var d := Deliver(filled[limit..], chunks[1..], work);
              Deliver(tail, chunks, work) == Delivery(filled[..limit] + d.text, d.tooLong)
  {}

  lemma NoNewline(done: bytes, tail: bytes, chunks: seq<bytes>, all: seq<bytes>, work: nat)
    requires Pending(done, tail, chunks, all, work) && chunks != []
    requires |tail| + |chunks[0]| < work && EndOfLines(tail + chunks[0]) == 0
    ensures Pending(done, tail + chunks[0], chunks[1..], all, work)
  {
    hide Deliver, Concat, Closed, EndOfLines;
    var filled := tail + chunks[0];
    ConcatCons(tail, chunks);
    DeliverStep(tail, chunks, work, filled, 0);
  }

  lemma ConcatCons(tail: bytes, chunks: seq<bytes>)
    requires chunks != []
    ensures tail + Concat(chunks) == tail + chunks[0] + Concat(chunks[1..])
  {}

  lemma Advance(done: bytes, tail: bytes, chunks: seq<bytes>, all: seq<bytes>, work: nat)
    requires Pending(done, tail, chunks, all, work) && chunks != []
    requires |tail| + |chunks[0]| <= work && EndOfLines(tail + chunks[0]) > 0
    ensures var filled := tail + chunks[0];
            var limit := EndOfLines(filled);
            Closed(done) && Pending(done + filled[..limit], filled[limit..], chunks[1..], all, work)
  {
    hide Deliver, EndOfLines, Concat;
    var filled := tail + chunks[0];
    var limit := EndOfLines(filled);
    var text, after, rest := filled[..limit], filled[limit..], Concat(chunks[1..]);
    var d := Deliver(after, chunks[1..], work);
    ClosedAppend(done, text);
    hide Closed;
    assert forall k :: 0 <= k < |after| ==> after[k] == filled[limit + k];
    ConcatCons(tail, chunks);
    DeliverStep(tail, chunks, work, filled, limit);
    Regroup(done, filled, limit, rest);
    AppendAssoc(done, text, d.text);
  }

  lemma ClosedAppend(a: bytes, b: bytes)
    requires Closed(a) && Closed(b)
    ensures Closed(a + b)
  {}

  lemma Regroup(done: bytes, filled: bytes, limit: nat, rest: bytes)
    requires limit <= |filled|
    ensures done + (filled + rest) == done + filled[..limit] + (filled[limit..] + rest)
  {}

  // ---------------------------------------------------------------- one file

  function Payload(cfg: Config, data: bytes): bytes {
    if cfg.bom == BomStrip && BOM <= data then data[3..] else data
  }

  predicate Strips(cfg: Config, payload: bytes) { cfg.stripCr && AllEndInCr(Split(payload)) }

  /** The C front end on one file: pre-passes on the whole buffer, then the chunked scan with
      reads of at most read bytes and buffers of work bytes. */
  function CFile(cfg: Config, read: nat, work: nat, st: State, data: bytes, schedule: seq<nat>): State
    requires read > 0
  {
    if cfg.rejectNul && NUL in data then Report(st, FileNul, 0)
    else if cfg.bom == BomReject && BOM <= data then Report(st, FileBom, 0)
    else
      var payload := Payload(cfg, data);
      var d := Deliver([], Chop(payload, schedule, read), work);
      var end := ScanText(cfg, Strips(cfg, payload), work, Scan(st, [], 0), d.text).st;
      if d.tooLong then Report(end, LineTooLong, 0) else end
  }

  function CFiles(cfg: Config, read: nat, work: nat, st: State, files: seq<bytes>, schedules: seq<seq<nat>>): State
    requires read > 0 && |schedules| == |files|
    decreases |files|
  {
    if files == [] then st
    else CFiles(cfg, read, work, CFile(cfg, read, work, st, files[0], schedules[0]), files[1..], schedules[1..])
  }

  // The sizes in the source.
  const READ_BUF: nat := 4096
  const WORK_BUF: nat := 65536
}
