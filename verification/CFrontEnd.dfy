/** The C front end: environment table, substitution walk, record step, chunked scanner. */
module CFrontEnd {
  import opened Bytes
  import opened Lines
  import opened Records
  import opened Continuation
  import opened Substitution
  import opened Environment
  import opened Engine
  import opened Pipeline
  import opened Backends
  import opened Scanning
  import GoParser

  /** Environment table, counters and the two output streams. */
  class Processor {
    const cfg: Config
    const env: EnvTable
    const record: EnvfileRecord
    var checked: nat
    var log: seq<Diag>
    var out: bytes

    ghost predicate Valid()
      reads this, env, env.Repr
    {
      env.Valid() && this !in env.Repr && record !in env.Repr
    }

    ghost function Abs(): State
      reads this, env
    {
      State(env.Model(), out, checked, log)
    }

    constructor (cfg: Config)
      ensures this.cfg == cfg && Valid() && Abs() == EMPTY
      ensures fresh(env.Repr) && fresh(record)
    {
      this.cfg := cfg;
      env := new EnvTable();
      record := new EnvfileRecord();
      checked, log, out := 0, [], [];
    }

    method LogError(code: Code, no: nat)
      requires Valid()
      modifies this`log
      ensures Valid() && Abs() == Report(old(Abs()), code, no)
    {
      log := log + [Diag(code, no)];
    }

    /** buf holds what the walk over val has produced up to i; missing has been reported. */
    ghost predicate Walking(buf: StrBuf, val: bytes, i: nat, missing: seq<bytes>)
      reads this, env, env.Repr, buf, buf.buf
    {
      Valid() && buf !in env.Repr && buf.buf !in env.Repr &&
      buf.Valid() && buf.Tight() && Walk(val, i, env.Model(), buf.Contents(), missing)
    }

    /** Appends the value of name, or reports it as unbound. */
    method AppendResolved(buf: StrBuf, name: bytes, lineNo: nat, ghost missing: seq<bytes>)
      returns (ghost missing': seq<bytes>)
      requires Valid() && buf !in env.Repr && buf.buf !in env.Repr && buf.Valid() && buf.Tight()
      modifies this`log, buf, buf.buf
      ensures Valid() && buf.Valid() && buf.Tight() && (buf.buf == old(buf.buf) || fresh(buf.buf))
      ensures missing <= missing' && log == old(log) + Diags(missing'[|missing|..], lineNo)
      ensures if name in env.Model() then
                buf.Contents() == old(buf.Contents()) + env.Model()[name] && missing' == missing
              else buf.Contents() == old(buf.Contents()) && missing' == missing + [name]
    {
      var key := ArrayOf(name);
      var resolved := env.Get(key);
      missing' := missing;
      if resolved != null {
        buf.AppendN(resolved[..]);
      } else {
        log := log + [Diag(UnboundRef(name), lineNo)];
        missing' := missing + [name];
      }
    }

    /** The part of the loop body after the text before a '$' has been copied. */
    method SubstDollar(buf: StrBuf, val: bytes, dollar: nat, lineNo: nat, ghost missing: seq<bytes>)
      returns (i: nat, ghost missing': seq<bytes>)
      requires dollar < |val| && val[dollar] == DOLLAR && NUL !in val && Walking(buf, val, dollar, missing)
      modifies this`log, buf, buf.buf
      ensures buf.buf == old(buf.buf) || fresh(buf.buf)
      ensures dollar < i <= |val| && Walking(buf, val, i, missing')
      ensures missing <= missing' && log == old(log) + Diags(missing'[|missing|..], lineNo)
    {
      hide Walk, Diags, RefStep, FindFrom, NameEnd;
      GoParser.DiagsNone(lineNo);
      missing' := missing;
      var rest := dollar + 1;
      if CharAt(val, rest) == LBRACE {
        var close := FindFrom(val, RBRACE, rest + 1);
        if close == |val| {
          WalkUnclosed(val, dollar, env.Model(), buf.Contents(), missing);
          buf.AppendN([DOLLAR]);
          buf.AppendN(val[rest..]);
          return |val|, missing;
        }
        var name := val[rest + 1..close];
        BracedStep(val, dollar, env.Model());
        WalkRef(val, dollar, env.Model(), buf.Contents(), missing, name, close + 1);
        missing' := AppendResolved(buf, name, lineNo, missing);
        return close + 1, missing';
      }
      if !IsNameStart(CharAt(val, rest)) {
        WalkLone(val, dollar, env.Model(), buf.Contents(), missing);
        buf.AppendN([DOLLAR]);
        return rest, missing;
      }
      var p := NameEnd(val, rest + 1);
      var name := val[rest..p];
      NamedStep(val, dollar, env.Model());
      WalkRef(val, dollar, env.Model(), buf.Contents(), missing, name, p);
      missing' := AppendResolved(buf, name, lineNo, missing);
      return p, missing';
    }

    /** The pointer walk: val[i] is the byte at *val, and NUL ends the string. */
    method SubstValue(val: bytes, lineNo: nat) returns (resolved: array<byte>, n: nat)
      requires Valid() && NUL !in val
      modifies this`log
      ensures Valid() && fresh(resolved) && n <= resolved.Length && resolved[..n] == Subst(val, env.Model())
      ensures log == old(log) + Diags(Missing(val, env.Model()), lineNo)
    {
      hide Subst, Missing, Walk, Diags, FindFrom;
      var buf := new StrBuf();
      var i := 0;
      ghost var missing: seq<bytes> := [];
      WalkStart(val, env.Model());
      GoParser.DiagsNone(lineNo);
      while CharAt(val, i) != NUL
        invariant 0 <= i <= |val| && Walking(buf, val, i, missing)
        invariant fresh(buf) && fresh(buf.buf)
        invariant log == old(log) + Diags(missing, lineNo)
        decreases |val| - i
      {
        var dollar := FindFrom(val, DOLLAR, i);
        WalkLiteral(val, i, env.Model(), buf.Contents(), missing);
        if dollar == |val| {
          assert val[i..] == val[i..dollar];
          buf.AppendN(val[i..]);
          i := |val|;
          break;
        }
        buf.AppendN(val[i..dollar]);
        ghost var before := missing;
        i, missing := SubstDollar(buf, val, dollar, lineNo, missing);
        DiagsSplit(before, missing, lineNo);
      }
      WalkDone(val, env.Model(), buf.Contents(), missing);
      return buf.buf, buf.len;
    }

    /** normalize_stream: the raw record, cut at the first '='. */
    method NormalizeRecord(line: bytes, lineNo: nat)
      requires Valid() && cfg.action == Normalize
      modifies this
      ensures Valid() && Abs() == Handle(cfg, old(Abs()), Raw(line), lineNo)
    {
      hide IsBlankOrComment, Find;
      var blank := BlankOrComment(line);
      if blank { return; }
      checked := checked + 1;
      var eq := Find(line, EQUALS);
      if eq == |line| {
        LogError(NoEquals, lineNo);
        return;
      }
      out := out + line[..eq] + [EQUALS] + line[eq + 1..] + [LF];
      assert line[..eq] + [EQUALS] + line[eq + 1..] == Pair(line[..eq], line[eq + 1..]);
    }

    /** The record points into the bytes of the line that starts at line[at]. */
    ghost predicate Inside(line: array<byte>, at: nat)
      reads record
    {
      at + record.keyLen <= line.Length && at + record.valueAt + record.valueLen <= line.Length
    }

    ghost function Pointed(line: array<byte>, at: nat): Record
      requires Inside(line, at)
      reads record, line
    {
      var value := at + record.valueAt;
      Record(line[at..at + record.keyLen], line[value..value + record.valueLen], record.kind)
    }

    /** The value copied out of the line, and substituted unless it was single-quoted. */
    method Resolved(line: array<byte>, at: nat, lineNo: nat) returns (resolved: array<byte>, n: nat)
      requires Valid() && Inside(line, at) && NUL !in Pointed(line, at).value
      modifies this`log
      ensures Valid() && fresh(resolved) && n <= resolved.Length
      ensures resolved[..n] == ValueOf(cfg.native, env.Model(), Pointed(line, at))
      ensures log == old(log) + Diags(Unbound(Uses(cfg.native, Pointed(line, at)), env.Model()), lineNo)
    {
      hide Subst, Tokens, Refs;
      var value := CopyOf(line, at + record.valueAt, record.valueLen);
      assert value[..] == Pointed(line, at).value;
      if cfg.native || record.kind != SingleQuoted {
        resolved, n := SubstValue(value[..], lineNo);
      } else {
        resolved, n := value, value.Length;
        GoParser.DiagsNone(lineNo);
      }
    }

    /** delta and apply: bind the key of the record, and print the binding for delta. */
    method Bind(line: array<byte>, at: nat, resolved: array<byte>, n: nat)
      requires Valid() && Inside(line, at) && n <= resolved.Length && Binds(cfg)
      modifies this, env, env.pairs
      ensures Valid() && env.Grown()
      ensures var key, value := old(Pointed(line, at)).key, old(resolved[..n]);
              Abs() == old(Abs()).(env := old(env.Model())[key := value],
                                   out := if cfg.action == Delta then old(out) + Line(key, value) else old(out))
    {
      ghost var place := env.SetN(line, at, record.keyLen, resolved, 0, n);
      if cfg.action == Delta {
        out := out + Pair(line[at..at + record.keyLen], resolved[..n]) + [LF];
      }
    }

    /** scan_stream: what happens with an accepted record. */
    method PerformRecord(line: array<byte>, at: nat, lineNo: nat)
      requires Valid() && cfg.action != Normalize && Inside(line, at) && NUL !in Pointed(line, at).value
      modifies this, env, env.pairs
      ensures Valid() && env.Grown()
      ensures Abs() == Perform(cfg, old(Abs()), old(Pointed(line, at)), lineNo)
    {
      hide ValueOf, Uses, Unbound, Diags;
      if cfg.action == Dump {
        var value := at + record.valueAt;
        out := out + Pair(line[at..at + record.keyLen], line[value..value + record.valueLen]) + [LF];
      } else if cfg.action == Delta || cfg.action == Apply {
        var resolved, n := Resolved(line, at, lineNo);
        Bind(line, at, resolved, n);
      }
    }

    /** The backend call: status and record describe the len bytes at line[at]. */
    method ParseLine(line: array<byte>, at: nat, len: nat) returns (status: Status)
      requires at + len <= line.Length && cfg.action != Normalize
      modifies record
      ensures var v := Classify(cfg, CFront, line[at..at + len]);
              match status
              case Skip => v == Skipped
              case Err(code) => v == Rejected(code)
              case Ok => Inside(line, at) && v == Accepted(Pointed(line, at)) && NUL !in Pointed(line, at).value
    {
      var text := line[at..at + len];
      AcceptedHasNoNul(cfg, text);
      if cfg.native {
        status := CParseNative(text, record);
      } else {
        status := CParseShell(text, record);
      }
      hide CNative, CShell;
      if status.Ok? { PointedInto(text, line, at); }
    }

    method AcceptLine(line: array<byte>, at: nat, lineNo: nat)
      requires Valid() && cfg.action != Normalize && Inside(line, at) && NUL !in Pointed(line, at).value
      modifies this, env, env.pairs
      ensures Valid() && env.Grown()
      ensures Abs() == Accept(cfg, old(Abs()), old(Pointed(line, at)), lineNo)
    {
      checked := checked + 1;
      hide Perform;
      PerformRecord(line, at, lineNo);
    }

    method RejectLine(code: Code, lineNo: nat)
      requires Valid()
      modifies this
      ensures Valid() && Abs() == Handle(cfg, old(Abs()), Rejected(code), lineNo)
    {
      checked := checked + 1;
      LogError(code, lineNo);
    }

    /** scan_stream: classify, then skip, report or perform. */
    method ScanRecord(line: array<byte>, at: nat, len: nat, lineNo: nat)
      requires Valid() && at + len <= line.Length && cfg.action != Normalize
      modifies this, env, env.pairs, record
      ensures Valid() && env.Grown()
      ensures Abs() == Handle(cfg, old(Abs()), Classify(cfg, CFront, old(line[at..at + len])), lineNo)
    {
      hide Classify, Accept, Report, Pointed;
      var status := ParseLine(line, at, len);
      match status
      case Skip =>
      case Err(code) => RejectLine(code, lineNo);
      case Ok => AcceptLine(line, at, lineNo);
    }

    /** The record step on the len bytes at line[at]. */
    method ProcessLine(line: array<byte>, at: nat, len: nat, lineNo: nat)
      requires Valid() && at + len <= line.Length
      modifies this, env, env.pairs, record
      ensures Valid() && env.Grown()
      ensures Abs() == Handle(cfg, old(Abs()), Classify(cfg, CFront, old(line[at..at + len])), lineNo)
    {
      hide Handle;
      if cfg.action == Normalize {
        NormalizeRecord(line[at..at + len], lineNo);
      } else {
        ScanRecord(line, at, len, lineNo);
      }
    }

    /** The record found in a line is the one its offsets point to. */
    lemma PointedInto(text: bytes, line: array<byte>, at: nat)
      requires at + |text| <= line.Length && text == line[at..at + |text|]
      requires record.keyLen <= |text| && record.valueAt + record.valueLen <= |text|
      ensures Inside(line, at)
      ensures Pointed(line, at) == Record(text[..record.keyLen],
                                          text[record.valueAt..record.valueAt + record.valueLen], record.kind)
    {
      SliceOfSlice(line[..], at, |text|, 0, record.keyLen);
      SliceOfSlice(line[..], at, |text|, record.valueAt, record.valueAt + record.valueLen);
    }
  }

  lemma SliceOfSlice(s: bytes, at: nat, n: nat, from: nat, to: nat)
    requires at + n <= |s| && from <= to <= n
    ensures s[at..at + n][from..to] == s[at + from..at + to]
  {
    var a, b := s[at..at + n][from..to], s[at + from..at + to];
    assert |a| == |b| && forall k :: 0 <= k < |a| ==> a[k] == b[k];
  }

  lemma AcceptedHasNoNul(cfg: Config, line: bytes)
    requires cfg.action != Normalize
    ensures var v := Classify(cfg, CFront, line);
            v.Accepted? ==> NUL !in v.record.value
  {
    if !cfg.native && CShell(line).Accepted? { AcceptedPrintsBack(line); }
  }

  lemma DiagsSplit(a: seq<bytes>, b: seq<bytes>, no: nat)
    requires a <= b
    ensures Diags(b, no) == Diags(a, no) + Diags(b[|a|..], no)
  {}

  function CharAt(s: bytes, i: nat): byte { if i < |s| then s[i] else NUL }

  // ---------------------------------------------------------------- input

  /** A file read in chunks: each read returns the next chunk, and 0 bytes at the end. */
  class Stream {
    var chunks: seq<bytes>

    constructor (chunks: seq<bytes>)
      ensures this.chunks == chunks
    {
      this.chunks := chunks;
    }

    method Read(buf: array<byte>) returns (nr: nat)
      requires Chunks(chunks, buf.Length)
      modifies this, buf
      ensures old(chunks) == [] ==> nr == 0 && chunks == []
      ensures old(chunks) != [] ==>
                chunks == old(chunks)[1..] && nr == |old(chunks)[0]| <= buf.Length && buf[..nr] == old(chunks)[0]
      ensures Chunks(chunks, buf.Length)
    {
      if chunks == [] { return 0; }
      var c := chunks[0];
      assert 0 < |c| <= buf.Length;
      forall i | 0 <= i < |c| { buf[i] := c[i]; }
      chunks := chunks[1..];
      return |c|;
    }
  }

  // ---------------------------------------------------------------- the scanner

  /** The work and join buffers of scan_stream and normalize_stream, and their cursors. */
  class Scanner {
    const p: Processor
    const strip: bool
    const workBuf: array<byte>
    const joinBuf: array<byte>
    var joinLen: nat
    var lineNo: nat

    ghost predicate Valid()
      reads this, p, p.env, p.env.Repr
    {
      p.Valid() && this !in p.env.Repr && workBuf !in p.env.Repr && joinBuf !in p.env.Repr &&
      workBuf != joinBuf && workBuf.Length == joinBuf.Length > 0 && joinLen <= joinBuf.Length
    }

    ghost function Abs(): Scan
      requires joinLen <= joinBuf.Length
      reads this, p, p.env, joinBuf
    {
      Scan(p.Abs(), joinBuf[..joinLen], lineNo)
    }

    constructor (p: Processor, strip: bool, size: nat)
      requires p.Valid() && size > 0
      ensures Valid() && this.p == p && this.strip == strip && workBuf.Length == size
      ensures Abs() == Scan(p.Abs(), [], 0)
      ensures fresh(workBuf) && fresh(joinBuf)
    {
      this.p, this.strip := p, strip;
      workBuf := new byte[size];
      joinBuf := new byte[size];
      joinLen, lineNo := 0, 0;
    }

    /** memcpy of the n bytes at workBuf[at] behind the held segments; no binding changes. */
    method AppendSegment(at: nat, n: nat)
      requires Valid() && at + n <= workBuf.Length && joinLen + n <= joinBuf.Length
      modifies this`joinLen, joinBuf
      ensures Valid() && joinLen == old(joinLen) + n && p.Abs() == old(p.Abs())
      ensures joinBuf[..joinLen] == old(joinBuf[..joinLen]) + workBuf[at..at + n]
    {
      forall i | 0 <= i < n { joinBuf[joinLen + i] := workBuf[at + i]; }
      joinLen := joinLen + n;
    }

    /** Appends to the join buffer; ready says that a logical line of len bytes is complete. */
    method JoinLine(at: nat, n: nat, nl: bool) returns (ready: bool, len: nat)
      requires Valid() && at + n <= workBuf.Length && joinLen + n <= joinBuf.Length
      modifies this`joinLen, joinBuf
      ensures Valid() && len <= joinBuf.Length
      ensures var joined := old(joinBuf[..joinLen]) + workBuf[at..at + n];
              ready == !(Odd(joined) && nl) &&
              if ready then joinBuf[..len] == joined && joinBuf[..joinLen] == []
              else joined != [] && joinBuf[..joinLen] == joined[..|joined| - 1]
    {
      ghost var joined := joinBuf[..joinLen] + workBuf[at..at + n];
      AppendSegment(at, n);
      len := joinLen;
      assert joinBuf[..len] == joined;
      var slashes := TrailingBackslashes(joinBuf[..len]);
      assert slashes % 2 == 1 <==> Odd(joined);
      hide Odd, TrailingRun;
      ready := !(slashes % 2 == 1 && nl);
      if ready {
        joinLen := 0;
      } else {
        OddNonempty(joined);
        joinLen := joinLen - 1;
        assert joinBuf[..joinLen] == joined[..|joined| - 1];
      }
    }

    /** Continuation accepted: refuse the segment, hold it, or process the complete logical line. */
    method Segment(at: nat, n: nat, nl: bool)
      requires Valid() && at + n <= workBuf.Length && Continues(p.cfg)
      modifies this`joinLen, joinBuf, p, p.env, p.env.pairs, p.record
      ensures Valid() && p.env.Grown()
      ensures Abs() == HoldLine(p.cfg, joinBuf.Length, old(p.Abs()), old(joinBuf[..joinLen]), old(workBuf[at..at + n]),
                                 lineNo, nl)
    {
      hide Odd, Handle, Classify;
      if joinLen + n > joinBuf.Length {
        p.LogError(LineTooLong, 0);
        joinLen := 0;
        return;
      }
      var ready, len := JoinLine(at, n, nl);
      if ready { p.ProcessLine(joinBuf, 0, len, lineNo); }
    }

    /** One physical line, the len bytes at workBuf[at]: strip, join, process. */
    method PhysicalLine(at: nat, len: nat, nl: bool)
      requires Valid() && at + len <= workBuf.Length
      modifies this, joinBuf, p, p.env, p.env.pairs, p.record
      ensures Valid() && p.env.Grown()
      ensures Abs() == ScanLine(p.cfg, strip, joinBuf.Length, old(Abs()), old(workBuf[at..at + len]), nl)
    {
      hide HoldLine, Handle, Classify;
      ghost var raw := workBuf[at..at + len];
      lineNo := lineNo + 1;
      var n := len;
      if strip && n > 0 && workBuf[at + n - 1] == CR { n := n - 1; }
      assert workBuf[at..at + n] == if strip then TrimCr(raw) else raw;
      if p.cfg.join && !p.cfg.native {
        Segment(at, n, nl);
      } else {
        p.ProcessLine(workBuf, at, n, lineNo);
      }
    }

    /** The line that starts at workBuf[pos]; next is where the following one starts. */
    method LineAt(pos: nat, limit: nat) returns (next: nat)
      requires Valid() && pos < limit <= workBuf.Length
      modifies this, joinBuf, p, p.env, p.env.pairs, p.record
      ensures Valid() && p.env.Grown() && pos < next <= limit
      ensures ScanText(p.cfg, strip, joinBuf.Length, Abs(), workBuf[next..limit]) ==
              old(ScanText(p.cfg, strip, joinBuf.Length, Abs(), workBuf[pos..limit]))
    {
      hide ScanLine, ScanText, Find;
      ghost var text := workBuf[pos..limit];
      ScanTextNext(p.cfg, strip, joinBuf.Length, Abs(), text);
      var len := Find(workBuf[pos..limit], LF);
      var nl := len < limit - pos;
      next := if nl then pos + len + 1 else limit;
      assert text[..len] == workBuf[pos..pos + len];
      assert if nl then text[len + 1..] == workBuf[next..limit] else workBuf[limit..limit] == [];
      PhysicalLine(pos, len, nl);
    }

    /** The line loop over workBuf[..limit]. */
    method ScanLines(limit: nat)
      requires Valid() && limit <= workBuf.Length
      modifies this, joinBuf, p, p.env, p.env.pairs, p.record
      ensures Valid() && p.env.Grown()
      ensures Abs() == ScanText(p.cfg, strip, joinBuf.Length, old(Abs()), workBuf[..limit])
    {
      hide ScanText;
      var pos := 0;
      assert workBuf[0..limit] == workBuf[..limit];
      while pos < limit
        invariant 0 <= pos <= limit && Valid() && p.env.Grown()
        invariant ScanText(p.cfg, strip, joinBuf.Length, Abs(), workBuf[pos..limit]) ==
                  old(ScanText(p.cfg, strip, joinBuf.Length, Abs(), workBuf[..limit]))
      {
        pos := LineAt(pos, limit);
      }
      NothingToScan(p.cfg, strip, joinBuf.Length, Abs(), workBuf[pos..limit]);
    }

    method FindLastNewline(len: nat) returns (limit: nat)
      requires len <= workBuf.Length
      ensures limit == EndOfLines(workBuf[..len])
    {
      var n := len;
      while n > 0 && workBuf[n - 1] != LF
        invariant 0 <= n <= len
        invariant forall k :: n <= k < len ==> workBuf[k] != LF
      {
        n := n - 1;
      }
      EndOfLinesUnique(workBuf[..len], n);
      return n;
    }

    /** memcpy of the bytes just read behind the partial line; no binding changes. */
    method Append(readBuf: array<byte>, tail: nat, nr: nat)
      requires Valid() && nr <= readBuf.Length && tail + nr <= workBuf.Length && readBuf != workBuf
      modifies workBuf
      ensures Valid() && Abs() == old(Abs())
      ensures workBuf[..tail + nr] == old(workBuf[..tail]) + readBuf[..nr]
    {
      forall i | 0 <= i < nr { workBuf[tail + i] := readBuf[i]; }
    }

    /** memmove of the partial line to the front of the work buffer: it overwrites the lines
        whose keys and values were bound, and no binding changes. */
    method KeepTail(limit: nat, filled: nat)
      requires Valid() && limit <= filled <= workBuf.Length
      modifies workBuf
      ensures Valid() && Abs() == old(Abs())
      ensures workBuf[..filled - limit] == old(workBuf[limit..filled])
    {
      forall i | 0 <= i < filled - limit { workBuf[i] := workBuf[limit + i]; }
    }

    /** Everything the read loop keeps: done is scanned, tail bytes are held. */
    ghost predicate Reading(done: bytes, tail: nat, chunks: seq<bytes>, all: seq<bytes>, start: Scan)
      reads this, workBuf, joinBuf, p, p.env, p.env.Repr
    {
      Valid() && tail < workBuf.Length &&
      Pending(done, workBuf[..tail], chunks, all, workBuf.Length) &&
      Abs() == ScanText(p.cfg, strip, joinBuf.Length, start, done)
    }

    /** tail held bytes and nr new ones do not fit, or fill the buffer with one unfinished line. */
    method Refuse(tail: nat, ghost done: bytes, ghost chunks: seq<bytes>, ghost all: seq<bytes>, ghost start: Scan)
      requires Reading(done, tail, chunks, all, start) && chunks != []
      requires tail + |chunks[0]| > workBuf.Length ||
               (tail + |chunks[0]| == workBuf.Length && EndOfLines(workBuf[..tail] + chunks[0]) == 0)
      modifies p
      ensures Valid() && p.env.Grown()
      ensures Deliver([], all, workBuf.Length) == Delivery(done, true)
      ensures p.Abs() == Report(ScanText(p.cfg, strip, joinBuf.Length, start, done).st, LineTooLong, 0)
    {
      hide Deliver, ScanText, EndOfLines, Pending;
      StopsHere(done, workBuf[..tail], chunks, all, workBuf.Length);
      p.LogError(LineTooLong, 0);
    }

    /** The complete lines in workBuf[..limit] are scanned, the rest is kept. */
    method TakeLines(limit: nat, filled: nat, ghost done: bytes, ghost chunks: seq<bytes>,
                     ghost all: seq<bytes>, ghost start: Scan)
      requires Valid() && 0 < limit <= filled <= workBuf.Length && Closed(done)
      requires Abs() == ScanText(p.cfg, strip, joinBuf.Length, start, done)
      requires Pending(done + workBuf[..limit], workBuf[limit..filled], chunks, all, workBuf.Length)
      modifies this, workBuf, joinBuf, p, p.env, p.env.pairs, p.record
      ensures p.env.Grown() && Reading(done + old(workBuf[..limit]), filled - limit, chunks, all, start)
    {
      hide Deliver, ScanText, Pending, Closed;
      ScanTextAppend(p.cfg, strip, joinBuf.Length, start, done, workBuf[..limit]);
      ScanLines(limit);
      KeepTail(limit, filled);
    }

    /** The new bytes stand behind the held ones: refuse, hold, or scan the complete lines. */
    method Filled(filled: nat, tail: nat, ghost done: bytes, ghost chunks: seq<bytes>, ghost all: seq<bytes>,
                  ghost start: Scan)
      returns (tail': nat, ghost done': bytes, tooLong: bool)
      requires Reading(done, tail, chunks, all, start) && chunks != []
      requires tail + |chunks[0]| == filled <= workBuf.Length && workBuf[..filled] == workBuf[..tail] + chunks[0]
      modifies this, workBuf, joinBuf, p, p.env, p.env.pairs, p.record
      ensures Valid() && p.env.Grown()
      ensures !tooLong ==> Reading(done', tail', chunks[1..], all, start)
      ensures tooLong ==>
                Deliver([], all, workBuf.Length) == Delivery(done, true) &&
                p.Abs() == Report(ScanText(p.cfg, strip, joinBuf.Length, start, done).st, LineTooLong, 0)
    {
      hide Deliver, ScanText, EndOfLines, Pending, Closed, Concat;
      ghost var held, both := workBuf[..tail], workBuf[..filled];
      var limit := FindLastNewline(filled);
      if limit == 0 {
        if filled == workBuf.Length {
          Refuse(tail, done, chunks, all, start);
          return tail, done, true;
        }
        NoNewline(done, held, chunks, all, workBuf.Length);
        return filled, done, false;
      }
      Advance(done, held, chunks, all, workBuf.Length);
      assert workBuf[..limit] == both[..limit] && workBuf[limit..filled] == both[limit..];
      TakeLines(limit, filled, done, chunks[1..], all, start);
      return filled - limit, done + both[..limit], false;
    }

    /** One non-empty read. */
    method Chunk(readBuf: array<byte>, nr: nat, tail: nat, ghost done: bytes, ghost chunks: seq<bytes>,
                 ghost all: seq<bytes>, ghost start: Scan)
      returns (tail': nat, ghost done': bytes, tooLong: bool)
      requires Reading(done, tail, chunks, all, start)
      requires readBuf != workBuf && readBuf != joinBuf && nr <= readBuf.Length
      requires chunks != [] && chunks[0] == readBuf[..nr]
      modifies this, workBuf, joinBuf, p, p.env, p.env.pairs, p.record
      ensures Valid() && p.env.Grown()
      ensures !tooLong ==> Reading(done', tail', chunks[1..], all, start)
      ensures tooLong ==>
                Deliver([], all, workBuf.Length) == Delivery(done, true) &&
                p.Abs() == Report(ScanText(p.cfg, strip, joinBuf.Length, start, done).st, LineTooLong, 0)
    {
      hide Deliver, ScanText, EndOfLines, Pending, Closed, Concat;
      ghost var held := workBuf[..tail];
      if tail + nr > workBuf.Length {
        Refuse(tail, done, chunks, all, start);
        return tail, done, true;
      }
      Append(readBuf, tail, nr);
      assert workBuf[..tail] == held;
      tail', done', tooLong := Filled(tail + nr, tail, done, chunks, all, start);
    }

    /** The last, empty read: the held bytes are the last line. */
    method Finish(tail: nat, ghost done: bytes, ghost all: seq<bytes>, ghost start: Scan)
      requires Reading(done, tail, [], all, start)
      modifies this, joinBuf, p, p.env, p.env.pairs, p.record
      ensures Valid() && p.env.Grown()
      ensures var d := Deliver([], all, workBuf.Length);
              !d.tooLong && p.Abs() == ScanText(p.cfg, strip, joinBuf.Length, start, d.text).st
    {
      hide Deliver, ScanText, Pending;
      ghost var held := workBuf[..tail];
      AtEnd(done, held, all, workBuf.Length);
      ScanTextAppend(p.cfg, strip, joinBuf.Length, start, done, held);
      if tail == 0 {
        NothingToScan(p.cfg, strip, joinBuf.Length, Abs(), held);
        return;
      }
      ScanLines(tail);
    }

    /** The stream and the read buffer are apart from the scanner's state. */
    ghost predicate Apart(f: Stream, readBuf: array<byte>)
      reads f, this, p, p.env
    {
      Chunks(f.chunks, readBuf.Length) && readBuf != workBuf && readBuf != joinBuf &&
      readBuf !in p.env.Repr && f !in p.env.Repr
    }

    /** fread: neither the held bytes nor any binding changes. */
    method Fetch(f: Stream, readBuf: array<byte>, tail: nat, ghost done: bytes, ghost all: seq<bytes>,
                 ghost start: Scan)
      returns (nr: nat)
      requires Reading(done, tail, f.chunks, all, start) && Apart(f, readBuf)
      modifies f, readBuf
      ensures Reading(done, tail, old(f.chunks), all, start) && Apart(f, readBuf)
      ensures if old(f.chunks) == [] then nr == 0
              else 0 < nr <= readBuf.Length && f.chunks == old(f.chunks)[1..] && readBuf[..nr] == old(f.chunks)[0]
    {
      hide Pending, ScanText, Concat;
      nr := f.Read(readBuf);
    }

    /** The state after the whole file, read in the given chunks. */
    ghost function Final(all: seq<bytes>, start: Scan): State
      reads this, p
    {
      var d := Deliver([], all, workBuf.Length);
      var end := ScanText(p.cfg, strip, joinBuf.Length, start, d.text).st;
      if d.tooLong then Report(end, LineTooLong, 0) else end
    }

    /** One turn of the read loop. */
    method Turn(f: Stream, readBuf: array<byte>, tail: nat, ghost done: bytes, ghost all: seq<bytes>, ghost start: Scan)
      returns (stop: bool, tail': nat, ghost done': bytes)
      requires Reading(done, tail, f.chunks, all, start) && Apart(f, readBuf)
      modifies this, workBuf, joinBuf, readBuf, f, p, p.env, p.env.pairs, p.record
      ensures Valid() && p.env.Grown()
      ensures stop ==> p.Abs() == Final(all, start)
      ensures !stop ==>
                Reading(done', tail', f.chunks, all, start) && Apart(f, readBuf) && |f.chunks| < |old(f.chunks)|
    {
      hide Deliver, ScanText, Pending, Chunks;
      ghost var unread := f.chunks;
      var nr := Fetch(f, readBuf, tail, done, all, start);
      if nr == 0 {
        Finish(tail, done, all, start);
        return true, tail, done;
      }
      tail', done', stop := Chunk(readBuf, nr, tail, done, unread, all, start);
    }

    /** The read loop.  The result depends on the read schedule only through Deliver. */
    method ScanStream(f: Stream, readBuf: array<byte>)
      requires Valid() && Apart(f, readBuf) && 0 < readBuf.Length <= workBuf.Length
      modifies this, workBuf, joinBuf, readBuf, f, p, p.env, p.env.pairs, p.record
      ensures Valid() && p.env.Grown()
      ensures var d := Deliver([], old(f.chunks), workBuf.Length);
              var end := ScanText(p.cfg, strip, joinBuf.Length, old(Abs()), d.text).st;
              p.Abs() == if d.tooLong then Report(end, LineTooLong, 0) else end
    {
      ghost var all, start := f.chunks, Abs();
      var tail := 0;
      ghost var done: bytes := [];
      BeforeReading(all);
      hide Deliver, ScanText, Reading;
      while true
        invariant Reading(done, tail, f.chunks, all, start) && Apart(f, readBuf)
        invariant p.env.Grown()
        decreases |f.chunks|
      {
        var stop;
        stop, tail, done := Turn(f, readBuf, tail, done, all, start);
        if stop { return; }
      }
    }

    lemma BeforeReading(all: seq<bytes>)
      requires Valid()
      ensures Reading([], 0, all, all, Abs())
    {
      assert workBuf[..0] == [];
      PendingStart(all, workBuf.Length);
      NothingToScan(p.cfg, strip, joinBuf.Length, Abs(), []);
    }
  }

  /** scan_stream or normalize_stream on the payload, with buffers of their own. */
  method ScanPayload(p: Processor, strip: bool, chunks: seq<bytes>, read: nat, work: nat)
    requires p.Valid() && 0 < read <= work && Chunks(chunks, read)
    modifies p, p.env, p.env.pairs, p.record
    ensures p.Valid() && p.env.Grown()
    ensures var d := Deliver([], chunks, work);
            var end := ScanText(p.cfg, strip, work, Scan(old(p.Abs()), [], 0), d.text).st;
            p.Abs() == if d.tooLong then Report(end, LineTooLong, 0) else end
  {
    hide ScanText, Deliver, Chunks;
    var f := new Stream(chunks);
    var readBuf := new byte[read];
    var scanner := new Scanner(p, strip, work);
    scanner.ScanStream(f, readBuf);
  }

  /** process_file: pre-passes on the slurped file, then the scan. */
  method ProcessFile(p: Processor, fbuf: bytes, schedule: seq<nat>, read: nat, work: nat)
    requires p.Valid() && 0 < read <= work
    modifies p, p.env, p.env.pairs, p.record
    ensures p.Valid() && p.env.Grown()
    ensures p.Abs() == CFile(p.cfg, read, work, old(p.Abs()), fbuf, schedule)
  {
    hide ScanText, Deliver, Chop;
    if p.cfg.rejectNul && NUL in fbuf {
      p.LogError(FileNul, 0);
      return;
    }
    var dataStart := 0;
    if HasBomBytes(fbuf) {
      if p.cfg.bom == BomStrip {
        dataStart := 3;
      } else if p.cfg.bom == BomReject {
        p.LogError(FileBom, 0);
        return;
      }
    }
    var payload := fbuf[dataStart..];
    assert payload == Payload(p.cfg, fbuf);
    var strip := p.cfg.stripCr;
    if strip {
      strip := AllRecordsHaveTrailingCr(payload);
    }
    ScanPayload(p, strip, Chop(payload, schedule, read), read, work);
  }

  predicate HasBomBytes(buf: bytes)
    ensures HasBomBytes(buf) <==> BOM <= buf
  {
    |buf| >= 3 && buf[0] == 0xEF && buf[1] == 0xBB && buf[2] == 0xBF
  }

  /** The environment the runs start from: the process for delta and apply, else the empty one. */
  function StartEnv(cfg: Config, entries: seq<bytes>): Env {
    if Binds(cfg) then Seed(entries, false) else map[]
  }

  method SeedTable(p: Processor, entries: seq<bytes>)
    requires p.Valid() && p.Abs() == EMPTY
    modifies p.env, p.env.pairs
    ensures p.Valid() && p.env.Grown() && p.Abs() == EMPTY.(env := StartEnv(p.cfg, entries))
  {
    if p.cfg.action == Delta || p.cfg.action == Apply {
      p.env.InitFromProcess(entries);
    }
  }

  /** main: for delta and apply seed the table from the process; then process every file. */
  method ProcessFiles(p: Processor, entries: seq<bytes>, files: seq<bytes>, schedules: seq<seq<nat>>)
    requires p.Valid() && p.Abs() == EMPTY && |schedules| == |files|
    modifies p, p.env, p.env.pairs, p.record
    ensures p.Valid()
    ensures p.Abs() == CFiles(p.cfg, READ_BUF, WORK_BUF, EMPTY.(env := StartEnv(p.cfg, entries)), files, schedules)
  {
    SeedTable(p, entries);
    var i := 0;
    ghost var start := p.Abs();
    while i < |files|
      invariant 0 <= i <= |files| && p.Valid() && p.env.Grown()
      invariant CFiles(p.cfg, READ_BUF, WORK_BUF, p.Abs(), files[i..], schedules[i..]) ==
                CFiles(p.cfg, READ_BUF, WORK_BUF, start, files, schedules)
    {
      hide CFile;
      assert files[i..][1..] == files[i + 1..] && schedules[i..][1..] == schedules[i + 1..];
      ProcessFile(p, files[i], schedules[i], READ_BUF, WORK_BUF);
      i := i + 1;
    }
  }
}
