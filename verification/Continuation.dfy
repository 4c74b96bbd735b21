/** Joining physical lines that end in an odd run of backslashes: three algorithms, one function. */
module Continuation {
  import opened Bytes
  import opened Records

  /** What reaches the record step: a logical line with the number of its last physical
      line, or a fault that is reported without a line. */
  datatype Event = Logical(text: bytes, no: nat) | Fault(code: Code)

  /** Length of the run of backslashes at the end of s. */
  function TrailingRun(s: bytes): (n: nat)
    ensures n <= |s|
    ensures forall k :: |s| - n <= k < |s| ==> s[k] == BACKSLASH
    ensures n < |s| ==> s[|s| - n - 1] != BACKSLASH
  {
    if EndsWith(s, BACKSLASH) then 1 + TrailingRun(s[..|s| - 1]) else 0
  }

  predicate Odd(s: bytes) { TrailingRun(s) % 2 == 1 }

  lemma OddNonempty(s: bytes)
    requires Odd(s)
    ensures EndsWith(s, BACKSLASH)
  {}

  /** The run is determined by where it stops. */
  lemma RunUnique(s: bytes, n: nat)
    requires n <= |s| && (forall k :: |s| - n <= k < |s| ==> s[k] == BACKSLASH)
    requires n < |s| ==> s[|s| - n - 1] != BACKSLASH
    ensures TrailingRun(s) == n
  {}

  method TrailingBackslashes(line: bytes) returns (n: nat)
    ensures n == TrailingRun(line)
  {
    n := 0;
    var len := |line|;
    while len > 0 && line[len - 1] == BACKSLASH
      invariant 0 <= len <= |line| && n == |line| - len
      invariant forall k :: len <= k < |line| ==> line[k] == BACKSLASH
    {
      n, len := n + 1, len - 1;
    }
    RunUnique(line, n);
  }

  method IsContinuation(line: bytes) returns (odd: bool)
    ensures odd == Odd(line)
  {
    var n := 0;
    var i := |line| - 1;
    while i >= 0 && line[i] == BACKSLASH
      invariant -1 <= i < |line| && n == |line| - 1 - i
      invariant forall k :: i < k < |line| ==> line[k] == BACKSLASH
    {
      n, i := n + 1, i - 1;
    }
    RunUnique(line, n);
    return n % 2 == 1;
  }

  /** The parity lemma: after an even run, the newest segment alone decides. */
  lemma NewestSegmentDecides(hold: bytes, line: bytes)
    requires !Odd(hold)
    ensures Odd(hold + line) == Odd(line)
  {
    var n := TrailingRun(line);
    if n < |line| {
      RunUnique(hold + line, n);
    } else {
      RunUnique(hold + line, |line| + TrailingRun(hold));
    }
  }

  /** Removing the joining backslash leaves an even run. */
  lemma DropOne(s: bytes)
    requires Odd(s)
    ensures s != [] && !Odd(s[..|s| - 1])
  {
    RunUnique(s[..|s| - 1], TrailingRun(s) - 1);
  }

  // ---------------------------------------------------------------- the three joiners

  /** Go and awk: rebuild the current line and recount on it; no is its number so far. */
  function GoFrom(current: bytes, lines: seq<bytes>, no: nat): seq<Event>
    decreases |lines|
  {
    if lines == [] then [Logical(current, no)]
    else if Odd(current) then GoFrom(current[..|current| - 1] + lines[0], lines[1..], no + 1)
    else [Logical(current, no)] + GoFrom(lines[0], lines[1..], no + 1)
  }

  function GoJoin(lines: seq<bytes>): seq<Event> {
    if lines == [] then [] else GoFrom(lines[0], lines[1..], 1)
  }

  /** Zig: test each segment by itself; joined is the text held while a group is open. */
  function ZigFrom(open: bool, joined: bytes, lines: seq<bytes>, no: nat): seq<Event>
    decreases |lines|
  {
    if lines == [] then if open then [Logical(joined, no)] else []
    else
      var line := lines[0];
      if Odd(line) then ZigFrom(true, joined + line[..|line| - 1], lines[1..], no + 1)
      else [Logical(joined + line, no + 1)] + ZigFrom(false, [], lines[1..], no + 1)
  }

  function ZigJoin(lines: seq<bytes>): seq<Event> { ZigFrom(false, [], lines, 0) }

  /** C: append to a buffer of size capacity and recount on the buffer.  A line joins the next
      one only if it is itself terminated; closed says that the last line is. */
  function CFrom(hold: bytes, lines: seq<bytes>, closed: bool, no: nat, capacity: nat): seq<Event>
    decreases |lines|
  {
    if lines == [] then []
    else if |hold| + |lines[0]| > capacity then
      [Fault(LineTooLong)] + CFrom([], lines[1..], closed, no + 1, capacity)
    else
      var joined := hold + lines[0];
      if Odd(joined) && (closed || |lines| > 1) then
        CFrom(joined[..|joined| - 1], lines[1..], closed, no + 1, capacity)
      else [Logical(joined, no + 1)] + CFrom([], lines[1..], closed, no + 1, capacity)
  }

  function CJoin(lines: seq<bytes>, closed: bool, capacity: nat): seq<Event> {
    CFrom([], lines, closed, 0, capacity)
  }

  /** No running join ever exceeds the capacity. */
  predicate Fits(hold: bytes, lines: seq<bytes>, capacity: nat)
    decreases |lines|
  {
    lines == [] ||
    (|hold| + |lines[0]| <= capacity &&
     var joined := hold + lines[0];
     Fits(if Odd(joined) then joined[..|joined| - 1] else [], lines[1..], capacity))
  }

  predicate LastOdd(lines: seq<bytes>) { lines != [] && Odd(lines[|lines| - 1]) }

  method GoJoinLines(lines: seq<bytes>) returns (proc: seq<Event>)
    ensures proc == GoJoin(lines)
  {
    hide Odd;
    proc := [];
    var i := 0;
    while i < |lines|
      invariant 0 <= i <= |lines|
      invariant proc + GoFromAt(lines, i) == GoJoin(lines)
    {
      ghost var all := GoFromAt(lines, i);
      var line, lineno := lines[i], i + 1;
      i := i + 1;
      var odd := IsContinuation(line);
      while odd && i < |lines|
        invariant 0 < i <= |lines| && lineno == i
        invariant odd == Odd(line)
        invariant GoFrom(line, lines[i..], lineno) == all
        decreases |lines| - i
      {
        assert lines[i..][1..] == lines[i + 1..];
        OddNonempty(line);
        line := line[..|line| - 1] + lines[i];
        lineno := i + 1;
        i := i + 1;
        odd := IsContinuation(line);
      }
      GoFromCut(proc, line, lines, i);
      hide GoFromAt, GoFrom, GoJoin;
      proc := proc + [Logical(line, lineno)];
    }
  }

  ghost function GoFromAt(lines: seq<bytes>, i: nat): seq<Event>
    requires i <= |lines|
  {
    if i == |lines| then [] else GoFrom(lines[i], lines[i + 1..], i + 1)
  }

  lemma GoFromCut(proc: seq<Event>, line: bytes, lines: seq<bytes>, i: nat)
    requires i <= |lines| && (!Odd(line) || i == |lines|)
    ensures proc + GoFrom(line, lines[i..], i) == proc + [Logical(line, i)] + GoFromAt(lines, i)
  {
    if i < |lines| { assert lines[i..][1..] == lines[i + 1..]; }
  }

  method ZigJoinLines(lines: seq<bytes>) returns (proc: seq<Event>)
    ensures proc == ZigJoin(lines)
  {
    hide Odd;
    proc := [];
    var i := 0;
    while i < |lines|
      invariant 0 <= i <= |lines|
      invariant proc + ZigFrom(false, [], lines[i..], i) == ZigJoin(lines)
    {
      ghost var all := ZigFrom(false, [], lines[i..], i);
      var line, lineno := lines[i], i + 1;
      i := i + 1;
      var odd := IsContinuation(line);
      assert lines[i - 1..][1..] == lines[i..] && [] + line == line;
      if odd {
        OddNonempty(line);
        var joined := line[..|line| - 1];
        assert [] + joined == joined;
        var more := true;
        while more && i < |lines|
          invariant 0 < i <= |lines| && lineno == i
          invariant all == if more then ZigFrom(true, joined, lines[i..], i)
                           else [Logical(joined, lineno)] + ZigFrom(false, [], lines[i..], i)
          decreases |lines| - i
        {
          var next := lines[i];
          assert lines[i..][1..] == lines[i + 1..];
          lineno := i + 1;
          i := i + 1;
          var nextOdd := IsContinuation(next);
          if nextOdd {
            OddNonempty(next);
            joined := joined + next[..|next| - 1];
          } else {
            joined := joined + next;
            more := false;
          }
        }
        line := joined;
      }
      assert all == [Logical(line, lineno)] + ZigFrom(false, [], lines[i..], i);
      proc := proc + [Logical(line, lineno)];
    }
  }

  // ---------------------------------------------------------------- agreement

  /** The events of the group that is still open at end of file, per implementation. */
  function GoLast(text: bytes, no: nat): seq<Event> { [Logical(text + [BACKSLASH], no)] }
  function ZigLast(text: bytes, no: nat): seq<Event> { [Logical(text, no)] }
  function CLast(text: bytes, no: nat, closed: bool): seq<Event> {
    if closed then [] else GoLast(text, no)
  }

  /** All three agree up to common; when the last line is odd, each goes on in its own way
      from the same final logical line (text, no). */
  ghost predicate Agree(common: seq<Event>, text: bytes, no: nat, odd: bool, closed: bool,
                        go: seq<Event>, zig: seq<Event>, c: seq<Event>)
  {
    go == common + (if odd then GoLast(text, no) else []) &&
    zig == common + (if odd then ZigLast(text, no) else []) &&
    c == common + (if odd then CLast(text, no, closed) else [])
  }

  lemma AgreePrepend(e: Event, common: seq<Event>, text: bytes, no: nat, odd: bool, closed: bool,
                     go: seq<Event>, zig: seq<Event>, c: seq<Event>)
    requires Agree(common, text, no, odd, closed, go, zig, c)
    ensures Agree([e] + common, text, no, odd, closed, [e] + go, [e] + zig, [e] + c)
  {
    forall last: seq<Event> ensures [e] + (common + last) == [e] + common + last {}
  }

  lemma OpenStep(open: bool, hold: bytes, lines: seq<bytes>, closed: bool, no: nat, capacity: nat)
    returns (held: bytes)
    requires lines != [] && !Odd(hold) && Odd(lines[0]) && Fits(hold, lines, capacity)
    ensures !Odd(held) && Fits(held, lines[1..], capacity) && hold + lines[0] == held + [BACKSLASH]
    ensures ZigFrom(open, hold, lines, no) == ZigFrom(true, held, lines[1..], no + 1)
    ensures |lines| > 1 ==>
              GoFrom(hold + lines[0], lines[1..], no + 1) == GoFrom(held + lines[1], lines[2..], no + 2) &&
              CFrom(hold, lines, closed, no, capacity) == CFrom(held, lines[1..], closed, no + 1, capacity)
    ensures |lines| == 1 ==>
              CFrom(hold, lines, closed, no, capacity) == if closed then [] else [Logical(hold + lines[0], no + 1)]
  {
    var joined := hold + lines[0];
    NewestSegmentDecides(hold, lines[0]);
    DropOne(joined);
    OddNonempty(joined);
    held := joined[..|joined| - 1];
    assert held == hold + lines[0][..|lines[0]| - 1];
  }

  lemma ClosedStep(open: bool, hold: bytes, lines: seq<bytes>, closed: bool, no: nat, capacity: nat)
    requires |lines| > 1 && !Odd(hold) && !Odd(lines[0]) && Fits(hold, lines, capacity)
    ensures var first := [Logical(hold + lines[0], no + 1)];
            var rest := lines[1..];
            ZigFrom(open, hold, lines, no) == first + ZigFrom(false, [], rest, no + 1) &&
            CFrom(hold, lines, closed, no, capacity) == first + CFrom([], rest, closed, no + 1, capacity) &&
            GoFrom(hold + lines[0], rest, no + 1) == first + GoFrom([] + rest[0], rest[1..], no + 2) &&
            Fits([], rest, capacity)
  {
    NewestSegmentDecides(hold, lines[0]);
    assert [] + lines[1] == lines[1];
  }

  lemma LastLineAgrees(open: bool, hold: bytes, line: bytes, closed: bool, no: nat, capacity: nat)
    returns (common: seq<Event>, text: bytes, last: nat)
    requires !Odd(hold) && Fits(hold, [line], capacity)
    ensures Agree(common, text, last, Odd(line), closed, GoFrom(hold + line, [], no + 1),
                  ZigFrom(open, hold, [line], no), CFrom(hold, [line], closed, no, capacity))
  {
    assert [line][1..] == [];
    if Odd(line) {
      var held := OpenStep(open, hold, [line], closed, no, capacity);
      common, text, last := [], held, no + 1;
    } else {
      NewestSegmentDecides(hold, line);
      common, text, last := [Logical(hold + line, no + 1)], [], 0;
    }
  }

  lemma {:induction false} JoinersAgreeFrom(open: bool, hold: bytes, lines: seq<bytes>, closed: bool, no: nat,
                                            capacity: nat)
    returns (common: seq<Event>, text: bytes, last: nat)
    requires lines != [] && !Odd(hold) && Fits(hold, lines, capacity)
    ensures Agree(common, text, last, LastOdd(lines), closed,
                  GoFrom(hold + lines[0], lines[1..], no + 1),
                  ZigFrom(open, hold, lines, no),
                  CFrom(hold, lines, closed, no, capacity))
    decreases |lines|
  {
    hide GoFrom, ZigFrom, CFrom, Fits, Agree, Odd;
    var line, rest := lines[0], lines[1..];
    if |lines| == 1 {
      assert lines == [line] && rest == [];
      common, text, last := LastLineAgrees(open, hold, line, closed, no, capacity);
    } else if Odd(line) {
      var held := OpenStep(open, hold, lines, closed, no, capacity);
      common, text, last := JoinersAgreeFrom(true, held, rest, closed, no + 1, capacity);
    } else {
      ClosedStep(open, hold, lines, closed, no, capacity);
      EmptyIsEven();
      common, text, last := JoinersAgreeFrom(false, [], rest, closed, no + 1, capacity);
      var first := Logical(hold + line, no + 1);
      AgreePrepend(first, common, text, last, LastOdd(rest), closed,
                   GoFrom([] + rest[0], rest[1..], no + 2), ZigFrom(false, [], rest, no + 1),
                   CFrom([], rest, closed, no + 1, capacity));
      common := [first] + common;
    }
  }

  lemma EmptyIsEven()
    ensures !Odd([])
  {}

  lemma JoinersStart(lines: seq<bytes>, closed: bool, capacity: nat)
    requires lines != []
    ensures GoJoin(lines) == GoFrom([] + lines[0], lines[1..], 1) && ZigJoin(lines) == ZigFrom(false, [], lines, 0)
    ensures CJoin(lines, closed, capacity) == CFrom([], lines, closed, 0, capacity)
  {
    assert [] + lines[0] == lines[0];
  }

  lemma NothingToJoin(closed: bool, capacity: nat)
    ensures Agree([], [], 0, LastOdd([]), closed, GoJoin([]), ZigJoin([]), CJoin([], closed, capacity))
  {}

  /** For every list of lines that fits the join buffer the three joiners produce the same
      logical lines and numbers, except for a final logical line left open at end of file:
      Go keeps its last backslash, Zig drops that byte, C drops the whole line if the file
      ended in a newline and otherwise does as Go. */
  lemma JoinersAgree(lines: seq<bytes>, closed: bool, capacity: nat)
    returns (common: seq<Event>, text: bytes, last: nat)
    requires Fits([], lines, capacity)
    ensures Agree(common, text, last, LastOdd(lines), closed,
                  GoJoin(lines), ZigJoin(lines), CJoin(lines, closed, capacity))
  {
    if lines == [] {
      NothingToJoin(closed, capacity);
      common, text, last := [], [], 0;
    } else {
      hide *;
      JoinersStart(lines, closed, capacity);
      EmptyIsEven();
      common, text, last := JoinersAgreeFrom(false, [], lines, closed, 0, capacity);
    }
  }

  /** C and Go agree on the whole list exactly when no group is dropped at end of file. */
  lemma CAgreesWithGoIff(lines: seq<bytes>, closed: bool, capacity: nat)
    requires Fits([], lines, capacity)
    ensures CJoin(lines, closed, capacity) == GoJoin(lines) <==> !(LastOdd(lines) && closed)
  {
    var common, text, last := JoinersAgree(lines, closed, capacity);
    if LastOdd(lines) && closed { assert |GoJoin(lines)| == |common| + 1; }
  }

  /** Zig agrees with Go exactly when the last line does not end in an odd run. */
  lemma ZigAgreesWithGoIff(lines: seq<bytes>)
    ensures ZigJoin(lines) == GoJoin(lines) <==> !LastOdd(lines)
  {
    var capacity := |Concat(lines)|;
    LongEnough([], lines, capacity);
    var common, text, last := JoinersAgree(lines, true, capacity);
    if LastOdd(lines) {
      assert ZigJoin(lines)[|common|] == Logical(text, last);
      assert GoJoin(lines)[|common|] == Logical(text + [BACKSLASH], last);
    }
  }

  lemma {:induction false} LongEnough(hold: bytes, lines: seq<bytes>, capacity: nat)
    requires |hold| + |Concat(lines)| <= capacity
    ensures Fits(hold, lines, capacity)
    decreases |lines|
  {
    if lines != [] {
      hide Odd;
      var joined := hold + lines[0];
      assert Concat(lines) == lines[0] + Concat(lines[1..]);
      LongEnough(if Odd(joined) then joined[..|joined| - 1] else [], lines[1..], capacity);
    }
  }

  /** A join buffer one byte longer than every logical line never overflows. */
  lemma {:induction false} LogicalLinesFit(hold: bytes, lines: seq<bytes>, no: nat, capacity: nat)
    requires lines != []
    requires forall e :: e in GoFrom(hold + lines[0], lines[1..], no) ==> e.Logical? && |e.text| < capacity
    ensures Fits(hold, lines, capacity)
    decreases |lines|
  {
    var joined, rest := hold + lines[0], lines[1..];
    GoFromLonger(joined, rest, no);
    if rest != [] {
      if Odd(joined) {
        LogicalLinesFit(joined[..|joined| - 1], rest, no + 1, capacity);
      } else {
        assert [] + rest[0] == rest[0];
        assert GoFrom(joined, rest, no)[1..] == GoFrom(rest[0], rest[1..], no + 1);
        LogicalLinesFit([], rest, no + 1, capacity);
      }
    }
  }

  lemma {:induction false} GoFromLonger(current: bytes, lines: seq<bytes>, no: nat)
    ensures var es := GoFrom(current, lines, no);
            es != [] && es[0].Logical? && |es[0].text| >= |current| - if Odd(current) then 1 else 0
    ensures forall e :: e in GoFrom(current, lines, no) ==> e.Logical?
    decreases |lines|
  {
    if lines != [] {
      if Odd(current) {
        DropOne(current);
        assert lines[0] == [] ==> current[..|current| - 1] + lines[0] == current[..|current| - 1];
        GoFromLonger(current[..|current| - 1] + lines[0], lines[1..], no + 1);
      } else {
        GoFromLonger(lines[0], lines[1..], no + 1);
      }
    }
  }
}
