/** Splitting a file into physical lines, and the whole-file CRLF decision. */
module Lines {
  import opened Bytes

  /** The physical lines of a file: separated by LF, with no empty line after a final LF. */
  function Split(data: bytes): (lines: seq<bytes>)
    ensures lines == [] <==> data == []
    decreases |data|
  {
    if data == [] then []
    else
      var p := Find(data, LF);
      if p == |data| then [data] else [data[..p]] + Split(data[p + 1..])
  }

  /** Every line followed by LF. */
  function Unlines(lines: seq<bytes>): bytes {
    if lines == [] then [] else lines[0] + [LF] + Unlines(lines[1..])
  }

  /** True when the text is empty or its last line is terminated. */
  predicate Closed(text: bytes) { text == [] || EndsWith(text, LF) }

  lemma SplitAt(data: bytes, p: nat)
    requires p < |data| && data[p] == LF && forall k :: 0 <= k < p ==> data[k] != LF
    ensures Split(data) == [data[..p]] + Split(data[p + 1..])
  {
    FindUnique(data, LF, p);
  }

  lemma SplitFirst(line: bytes, rest: bytes)
    requires LF !in line
    ensures Split(line + [LF] + rest) == [line] + Split(rest)
  {
    var data := line + [LF] + rest;
    assert data[..|line|] == line && data[|line| + 1..] == rest;
    SplitAt(data, |line|);
  }

  /** Cutting a text after a line terminator cuts its list of lines. */
  lemma {:induction false} SplitAppend(a: bytes, b: bytes)
    requires Closed(a)
    ensures Split(a + b) == Split(a) + Split(b)
    decreases |a|
  {
    if a == [] {
      assert a + b == b;
    } else {
      hide Split;
      var p := Find(a, LF);
      var line, rest := a[..p], a[p + 1..];
      assert a == line + [LF] + rest;
      calc {
        Split(a + b);
        { assert a + b == line + [LF] + (rest + b); }
        Split(line + [LF] + (rest + b));
        { SplitFirst(line, rest + b); }
        [line] + Split(rest + b);
        { SplitAppend(rest, b); }
        [line] + (Split(rest) + Split(b));
        [line] + Split(rest) + Split(b);
        { SplitFirst(line, rest); }
        Split(a) + Split(b);
      }
    }
  }

  /** Splitting undoes Unlines on every list of LF-free lines. */
  lemma {:induction false} SplitUnlines(lines: seq<bytes>)
    requires forall i :: 0 <= i < |lines| ==> LF !in lines[i]
    ensures Split(Unlines(lines)) == lines
  {
    if lines != [] {
      SplitFirst(lines[0], Unlines(lines[1..]));
      SplitUnlines(lines[1..]);
    }
  }

  /** The lines determine the file up to the presence of the final terminator. */
  lemma {:induction false} UnlinesSplit(data: bytes)
    ensures Unlines(Split(data)) == if Closed(data) then data else data + [LF]
    decreases |data|
  {
    if data != [] {
      var p := Find(data, LF);
      if p == |data| {
        assert Split(data) == [data];
        assert Unlines([data]) == data + [LF] + Unlines([]);
      } else {
        var line, rest := data[..p], data[p + 1..];
        assert data == line + [LF] + rest;
        assert Split(data)[1..] == Split(rest);
        UnlinesSplit(rest);
      }
    }
  }

  /** No line contains LF, nor any byte that the file does not contain. */
  lemma {:induction false} SplitBytes(data: bytes, c: byte)
    requires c == LF || c !in data
    ensures forall i :: 0 <= i < |Split(data)| ==> c !in Split(data)[i]
    decreases |data|
  {
    if data != [] {
      var p := Find(data, LF);
      if p < |data| { SplitBytes(data[p + 1..], c); }
    }
  }

  // ---------------------------------------------------------------- the splitters

  /** The Go splitter: cut at every LF, then drop one final empty piece. */
  function Pieces(data: bytes): (ps: seq<bytes>)
    ensures |ps| > 0
    decreases |data|
  {
    var p := Find(data, LF);
    if p == |data| then [data] else [data[..p]] + Pieces(data[p + 1..])
  }

  method GoSplitLines(buf: bytes) returns (lines: seq<bytes>)
    ensures lines == Split(buf)
  {
    lines := Pieces(buf);
    GoSplitIsSplit(buf);
    if |lines| > 0 && |lines[|lines| - 1]| == 0 {
      lines := lines[..|lines| - 1];
    }
  }

  lemma {:induction false} GoSplitIsSplit(buf: bytes)
    ensures var ps := Pieces(buf);
            Split(buf) == if ps[|ps| - 1] == [] then ps[..|ps| - 1] else ps
    decreases |buf|
  {
    var p := Find(buf, LF);
    if p < |buf| {
      var rest := buf[p + 1..];
      GoSplitIsSplit(rest);
      SplitAt(buf, p);
      hide Split;
      var ps, qs := Pieces(buf), Pieces(rest);
      assert ps == [buf[..p]] + qs;
      assert ps[..|ps| - 1] == [buf[..p]] + qs[..|qs| - 1];
    }
  }

  lemma SplitSlice(buf: bytes, start: nat, end: nat)
    requires start <= end < |buf| && buf[end] == LF && forall k :: start <= k < end ==> buf[k] != LF
    ensures Split(buf[start..]) == [buf[start..end]] + Split(buf[end + 1..])
  {
    var rest := buf[start..];
    assert rest[..end - start] == buf[start..end] && rest[end - start + 1..] == buf[end + 1..];
    SplitAt(rest, end - start);
  }

  lemma ZigStep(buf: bytes, lines: seq<bytes>, start: nat, end: nat)
    requires start <= end < |buf| && buf[end] == LF && forall k :: start <= k < end ==> buf[k] != LF
    ensures lines + Split(buf[start..]) == lines + [buf[start..end]] + Split(buf[end + 1..])
  {
    SplitSlice(buf, start, end);
  }

  lemma SplitLast(buf: bytes, start: nat)
    requires start <= |buf| && forall k :: start <= k < |buf| ==> buf[k] != LF
    ensures Split(buf[start..]) == if start < |buf| then [buf[start..]] else []
  {
    FindUnique(buf[start..], LF, |buf[start..]|);
  }

  /** The Zig splitter: one pass with a start index. */
  method ZigSplitLines(buf: bytes) returns (lines: seq<bytes>)
    ensures lines == Split(buf)
  {
    hide Split;
    assert buf[0..] == buf;
    lines := [];
    var start, i := 0, 0;
    while i < |buf|
      invariant 0 <= start <= i <= |buf|
      invariant forall k :: start <= k < i ==> buf[k] != LF
      invariant lines + Split(buf[start..]) == Split(buf)
    {
      if buf[i] == LF {
        ZigStep(buf, lines, start, i);
        lines := lines + [buf[start..i]];
        start := i + 1;
      }
      i := i + 1;
    }
    SplitLast(buf, start);
    if start < |buf| {
      lines := lines + [buf[start..]];
    }
  }

  // ---------------------------------------------------------------- CRLF

  predicate AllEndInCr(lines: seq<bytes>) {
    lines != [] && forall i :: 0 <= i < |lines| ==> EndsWith(lines[i], CR)
  }

  /** Removes one CR from every line when all lines end in CR; otherwise changes nothing. */
  function StripCrs(lines: seq<bytes>): (r: seq<bytes>)
    ensures |r| == |lines|
    ensures forall i :: 0 <= i < |lines| ==>
              lines[i] == if AllEndInCr(lines) then r[i] + [CR] else r[i]
  {
    if AllEndInCr(lines) then seq(|lines|, i requires 0 <= i < |lines| => TrimCr(lines[i])) else lines
  }

  ghost predicate CrFrom(buf: bytes, pos: nat) {
    pos >= |buf| || AllEndInCr(Split(buf[pos..]))
  }

  lemma CrFromNext(buf: bytes, pos: nat, end: nat)
    requires pos <= end <= |buf| && pos < |buf|
    requires (forall k :: pos <= k < end ==> buf[k] != LF) && (end < |buf| ==> buf[end] == LF)
    ensures CrFrom(buf, pos) <==> pos < end && buf[end - 1] == CR && CrFrom(buf, end + 1)
  {
    if end < |buf| {
      hide Split, AllEndInCr;
      SplitSlice(buf, pos, end);
      AllEndInCrCons(buf[pos..end], Split(buf[end + 1..]));
    } else {
      hide Split, AllEndInCr;
      var rest := buf[pos..];
      assert rest == buf[pos..end];
      SplitLast(buf, pos);
      AllEndInCrCons(rest, []);
      assert [rest] == [rest] + [];
    }
  }

  /** The C byte-offset scan takes the same decision as the per-line test. */
  method AllRecordsHaveTrailingCr(buf: bytes) returns (all: bool)
    ensures all <==> AllEndInCr(Split(buf))
  {
    var pos := 0;
    if |buf| == 0 { return false; }
    assert buf[0..] == buf;
    ghost var goal := CrFrom(buf, 0);
    while pos < |buf|
      invariant 0 <= pos <= |buf|
      invariant goal <==> CrFrom(buf, pos)
    {
      var end := pos;
      while end < |buf| && buf[end] != LF
        invariant pos <= end <= |buf|
        invariant forall k :: pos <= k < end ==> buf[k] != LF
      {
        end := end + 1;
      }
      CrFromNext(buf, pos, end);
      var rlen := end - pos;
      if rlen == 0 || buf[end - 1] != CR { return false; }
      pos := if end < |buf| then end + 1 else end;
    }
    return true;
  }

  lemma AllEndInCrCons(line: bytes, rest: seq<bytes>)
    ensures AllEndInCr([line] + rest) <==> EndsWith(line, CR) && (rest == [] || AllEndInCr(rest))
  {
    assert ([line] + rest)[0] == line;
    if AllEndInCr([line] + rest) {
      forall i | 0 <= i < |rest| ensures EndsWith(rest[i], CR) {
        assert ([line] + rest)[i + 1] == rest[i];
      }
    }
  }

  /** After a positive decision, re-adding one CR to each stripped line restores the file. */
  lemma CrRestoresFile(data: bytes)
    requires AllEndInCr(Split(data))
    ensures var kept := StripCrs(Split(data));
            Unlines(seq(|kept|, i requires 0 <= i < |kept| => kept[i] + [CR]))
            == if Closed(data) then data else data + [LF]
  {
    var kept := StripCrs(Split(data));
    assert seq(|kept|, i requires 0 <= i < |kept| => kept[i] + [CR]) == Split(data);
    UnlinesSplit(data);
  }
}
