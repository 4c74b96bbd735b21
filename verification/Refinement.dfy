/** The C front end refines the whole-file one: same output, environment and counters. */
module Refinement {
  import opened Bytes
  import opened Lines
  import opened Records
  import opened Continuation
  import opened Substitution
  import opened Environment
  import opened Engine
  import opened Pipeline
  import opened Scanning

  /** The codes a classifier can reject a line with. */
  predicate IsLineCode(code: Code) {
    !(code.FileNul? || code.FileBom? || code.LineTooLong? || code.UnboundRef?)
  }

  /** The same diagnostic, up to which test a rejected line failed first. */
  predicate AlikeDiag(a: Diag, b: Diag) {
    a.line == b.line && (a.code == b.code || (IsLineCode(a.code) && IsLineCode(b.code)))
  }

  /** Equal environment, output and counters, and alike diagnostics one by one. */
  predicate Alike(a: State, b: State) {
    a.env == b.env && a.out == b.out && a.checked == b.checked && |a.log| == |b.log| &&
    forall i :: 0 <= i < |a.log| ==> AlikeDiag(a.log[i], b.log[i])
  }

  /** The two classifiers take the same decision on every logical line. */
  predicate SameDecisions(cfg: Config, f1: Front, f2: Front, es: seq<Event>) {
    forall i :: 0 <= i < |es| && es[i].Logical? ==>
      SameOutcome(Classify(cfg, f1, es[i].text), Classify(cfg, f2, es[i].text))
  }

  predicate LineCoded(v: Verdict) { v.Rejected? ==> IsLineCode(v.code) }

  lemma PairCodes(key: bytes, value: bytes)
    ensures LineCoded(ShellValue(key, value)) && LineCoded(NativePair(key, value))
    ensures LineCoded(CShellPair(key, value)) && LineCoded(AsmShellPair(key, value))
    ensures LineCoded(GoShellPair(key, value))
  {
    hide IsIdentifier, Find, BadPlain;
    assert LineCoded(ShellValue(key, value));
    hide ShellValue;
  }

  lemma CCodes(line: bytes)
    ensures LineCoded(CShell(line)) && LineCoded(CNative(line))
  {
    var eq := Find(line, EQUALS);
    if eq < |line| { PairCodes(line[..eq], line[eq + 1..]); }
    hide IsBlankOrComment, CShellPair, NativePair, Find;
  }

  lemma AsmCodes(line: bytes)
    ensures LineCoded(AsmShellOr(line)) && LineCoded(AsmNative(line))
  {
    var work := TrimCr(line);
    var eq := Find(work, EQUALS);
    if eq < |work| { PairCodes(work[..eq], work[eq + 1..]); }
    hide AllBlank, TrimCr, AsmShellPair, Find;
  }

  lemma GoCodes(line: bytes)
    ensures LineCoded(GoShell(line)) && LineCoded(GoNative(line))
  {
    var work, eq := TrimCr(line), Find(line, EQUALS);
    var eq2 := Find(work, EQUALS);
    if eq2 < |work| { PairCodes(work[..eq2], work[eq2 + 1..]); }
    if eq < |line| { PairCodes(line[..eq], line[eq + 1..]); }
    hide IsBlankOrComment, TrimCr, GoShellPair, NativePair, Find;
  }

  lemma RejectsWithLineCode(cfg: Config, front: Front, line: bytes)
    ensures LineCoded(Classify(cfg, front, line))
  {
    CCodes(line);
    AsmCodes(line);
    GoCodes(line);
    hide IsBlankOrComment, Find, CShell, CNative, AsmShellOr, AsmNative, GoShell, GoNative;
  }

  lemma LogAlike(a: seq<Diag>, b: seq<Diag>, c: seq<Diag>, d: seq<Diag>)
    requires |a| == |b| && |c| == |d|
    requires forall i :: 0 <= i < |a| ==> AlikeDiag(a[i], b[i])
    requires forall i :: 0 <= i < |c| ==> AlikeDiag(c[i], d[i])
    ensures forall i :: 0 <= i < |a + c| ==> AlikeDiag((a + c)[i], (b + d)[i])
  {
    hide AlikeDiag;
  }

  lemma AcceptAlike(cfg: Config, a: State, b: State, r: Record, no: nat)
    requires Alike(a, b)
    ensures Alike(Accept(cfg, a, r, no), Accept(cfg, b, r, no))
  {
    var ds := Diags(Unbound(Uses(cfg.native, r), a.env), no);
    LogAlike(a.log, b.log, ds, ds);
    hide Diags, Unbound, Uses, ValueOf, Line, AlikeDiag;
  }

  lemma ReportAlike(a: State, b: State, c1: Code, c2: Code, no: nat)
    requires Alike(a, b) && AlikeDiag(Diag(c1, no), Diag(c2, no))
    ensures Alike(Report(a, c1, no), Report(b, c2, no))
  {
    LogAlike(a.log, b.log, [Diag(c1, no)], [Diag(c2, no)]);
    hide AlikeDiag;
  }

  lemma StepAlike(cfg: Config, f1: Front, f2: Front, a: State, b: State, e: Event)
    requires Alike(a, b)
    requires e.Logical? ==> SameOutcome(Classify(cfg, f1, e.text), Classify(cfg, f2, e.text))
    ensures Alike(Step(cfg, f1, a, e), Step(cfg, f2, b, e))
  {
    match e
    case Fault(code) => ReportAlike(a, b, code, code, 0);
    case Logical(text, no) =>
      RejectsWithLineCode(cfg, f1, text);
      RejectsWithLineCode(cfg, f2, text);
      hide Classify, Accept, Report;
      match Classify(cfg, f1, text)
      case Skipped =>
      case Accepted(r) => AcceptAlike(cfg, a, b, r, no);
      case Rejected(code) =>
        var a', b' := a.(checked := a.checked + 1), b.(checked := b.checked + 1);
        ReportAlike(a', b', code, Classify(cfg, f2, text).code, no);
  }

  /** Fronts that take the same decisions end alike over every run. */
  lemma {:induction false} RunAlike(cfg: Config, f1: Front, f2: Front, a: State, b: State, es: seq<Event>)
    requires Alike(a, b) && SameDecisions(cfg, f1, f2, es)
    ensures Alike(Run(cfg, f1, a, es), Run(cfg, f2, b, es))
    decreases |es|
  {
    if es != [] {
      assert SameDecisions(cfg, f1, f2, es[1..]);
      StepAlike(cfg, f1, f2, a, b, es[0]);
      hide Alike;
      RunAlike(cfg, f1, f2, Step(cfg, f1, a, es[0]), Step(cfg, f2, b, es[0]), es[1..]);
    }
  }

  /** The two link-time backends are interchangeable over every run whose logical lines hold
      no NUL and do not end in CR. */
  lemma BackendsInterchangeable(cfg: Config, st: State, es: seq<Event>)
    requires EventFree(NUL, es) && forall i :: 0 <= i < |es| && es[i].Logical? ==> !EndsWith(es[i].text, CR)
    ensures Alike(Run(cfg, CFront, st, es), Run(cfg, AsmFront, st, es))
  {
    forall i | 0 <= i < |es| && es[i].Logical?
      ensures SameOutcome(Classify(cfg, CFront, es[i].text), Classify(cfg, AsmFront, es[i].text))
    {
      CAndAsmShell(es[i].text);
      CAndAsmNative(es[i].text);
    }
    RunAlike(cfg, CFront, AsmFront, st, st, es);
  }

  /** A logical line on which the shell classifiers part: it ends in CR and is accepted
      without it.  Native and normalize have no such line. */
  predicate Parts(cfg: Config, text: bytes) {
    !cfg.native && cfg.action != Normalize && EndsWith(text, CR) && CShell(TrimCr(text)).Accepted?
  }

  lemma DecisionsIff(cfg: Config, text: bytes)
    requires NUL !in text
    ensures SameOutcome(Classify(cfg, CFront, text), Classify(cfg, GoFront, text)) <==> !Parts(cfg, text)
  {
    CAndGoShell(text);
    CAndGoNative(text);
  }

  // ---------------------------------------------------------------- the physical lines

  /** Dropping the BOM from the buffer, or from the first line, gives the same lines, except
      that a file of nothing but a BOM keeps one empty line when lines are split first. */
  lemma BomOnLines(cfg: Config, data: bytes)
    ensures HasBom(Split(data)) <==> BOM <= data
    ensures DropBom(cfg, Split(data)) ==
            if cfg.bom == BomStrip && data == BOM then [[]] else Split(Payload(cfg, data))
  {
    if data != [] {
      var p := Find(data, LF);
      var lines := Split(data);
      assert lines[0] == data[..p];
      if BOM <= data {
        assert data[0] == 239 && data[1] == 187 && data[2] == 191;
        assert p >= 3 && BOM <= data[..p];
        var rest := data[3..];
        if rest != [] {
          FindUnique(rest, LF, p - 3);
          assert rest[..p - 3] == data[..p][3..];
          if p < |data| {
            assert rest[p - 3 + 1..] == data[p + 1..];
            assert lines[1..] == Split(data[p + 1..]);
          } else {
            assert lines == [data];
          }
        } else {
          assert data == BOM;
          assert [data][1..] == [];
        }
      }
    }
  }

  /** Whether or not stripping applies, the scanner and the per-line pass see the same lines. */
  lemma SameCrs(cfg: Config, payload: bytes)
    ensures TrimAll(Strips(cfg, payload), Split(payload)) == DropCrs(cfg, Split(payload))
  {}

  lemma SameLines(cfg: Config, data: bytes)
    requires !(cfg.bom == BomStrip && data == BOM)
    ensures DropCrs(cfg, DropBom(cfg, Split(data))) ==
            TrimAll(Strips(cfg, Payload(cfg, data)), Split(Payload(cfg, data)))
  {
    BomOnLines(cfg, data);
    SameCrs(cfg, Payload(cfg, data));
  }

  /** The physical lines both front ends agree on. */
  function PhysicalLines(cfg: Config, data: bytes): seq<bytes> {
    TrimAll(Strips(cfg, Payload(cfg, data)), Split(Payload(cfg, data)))
  }

  predicate Refused(cfg: Config, data: bytes) {
    (cfg.rejectNul && NUL in data) || (cfg.bom == BomReject && BOM <= data)
  }

  /** The file ends in a newline inside a continuation. */
  predicate OpenGroup(cfg: Config, data: bytes) {
    Continues(cfg) && LastOdd(PhysicalLines(cfg, data)) && Closed(Payload(cfg, data))
  }

  /** The classifier skips the last logical line of the file. */
  predicate SkipsLast(cfg: Config, front: Front, data: bytes) {
    var es := Events(cfg, data);
    es != [] && es[|es| - 1].Logical? && Classify(cfg, front, es[|es| - 1].text) == Skipped
  }

  /** Joining ends in the same processed lines: the join buffer is large enough, and a
      continuation left open at the end is a line that is skipped anyway.  Go joins native lines
      too when continuations are accepted, and C does not. */
  predicate Joinable(cfg: Config, work: nat, data: bytes) {
    var lines := PhysicalLines(cfg, data);
    (Continues(cfg) ==> Fits([], lines, work)) && (OpenGroup(cfg, data) ==> SkipsLast(cfg, CFront, data)) &&
    (cfg.join && cfg.native ==> OnlyLastOdd(lines))
  }

  /** What a file that is not refused must satisfy for the chunked scanner, reading by this
      schedule, to see what the whole-file pass sees. */
  predicate Scannable(cfg: Config, read: nat, work: nat, data: bytes, schedule: seq<nat>)
    requires read > 0
  {
    !Stopped(Payload(cfg, data), schedule, read, work) && Joinable(cfg, work, data)
  }

  /** A file that is not reported is scanned as the joiner's fold over its physical lines. */
  lemma CFileScans(cfg: Config, read: nat, work: nat, st: State, data: bytes, schedule: seq<nat>)
    requires 0 < read <= work && !Stopped(Payload(cfg, data), schedule, read, work) && !Refused(cfg, data)
    ensures CFile(cfg, read, work, st, data, schedule) ==
            Run(cfg, CFront, st,
                LineEvents(cfg, [], PhysicalLines(cfg, data), Closed(Payload(cfg, data)), 0, work))
  {
    var payload := Payload(cfg, data);
    hide Stopped, Chop, Deliver, ScanText, LineEvents, Run;
    StoppedIff(payload, schedule, read, work);
    ScanTextIsRun(cfg, Strips(cfg, payload), work, Scan(st, [], 0), payload);
  }

  /** The one case the joiners differ in: C processes all logical lines but the open one, which
      Go processes with its last backslash. */
  lemma COpenGroup(cfg: Config, read: nat, work: nat, st: State, data: bytes, schedule: seq<nat>)
    returns (common: seq<Event>, text: bytes, last: nat)
    requires 0 < read <= work && !Stopped(Payload(cfg, data), schedule, read, work)
    requires !Refused(cfg, data) && OpenGroup(cfg, data) && Fits([], PhysicalLines(cfg, data), work)
    ensures Events(cfg, data) == common + GoLast(text, last)
    ensures CFile(cfg, read, work, st, data, schedule) == Run(cfg, CFront, st, common)
  {
    hide CFile, Stopped, Run;
    var lines := PhysicalLines(cfg, data);
    CFileScans(cfg, read, work, st, data, schedule);
    assert Payload(cfg, data) != [];
    BomOnLines(cfg, data);
    SameLines(cfg, data);
    assert Events(cfg, data) == GoJoin(lines);
    hide Events, PhysicalLines, GoJoin, CJoin, CFrom, Fits;
    common, text, last := JoinersAgree(lines, true, work);
    assert common + [] == common;
  }

  /** One more logical line leaves the state alone if it is skipped, and is counted otherwise. */
  lemma LastStep(cfg: Config, front: Front, st: State, common: seq<Event>, text: bytes, no: nat)
    ensures var before, after := Run(cfg, front, st, common), Run(cfg, front, st, common + [Logical(text, no)]);
            if Classify(cfg, front, text) == Skipped then after == before else after.checked == before.checked + 1
  {
    var last := [Logical(text, no)];
    RunAppend(cfg, front, st, common, last);
    assert last[1..] == [];
    hide Classify;
  }

  lemma RefusedIsRun(cfg: Config, read: nat, work: nat, st: State, data: bytes, schedule: seq<nat>)
    requires 0 < read && Refused(cfg, data)
    ensures CFile(cfg, read, work, st, data, schedule) == Run(cfg, CFront, st, Events(cfg, data))
  {
    BomOnLines(cfg, data);
    RunOneC(cfg, st, Fault(if cfg.rejectNul && NUL in data then FileNul else FileBom));
    hide Chop, Deliver, ScanText;
  }

  lemma OpenIsRun(cfg: Config, read: nat, work: nat, st: State, data: bytes, schedule: seq<nat>)
    requires 0 < read <= work && !Refused(cfg, data) && OpenGroup(cfg, data)
    requires Scannable(cfg, read, work, data, schedule)
    ensures CFile(cfg, read, work, st, data, schedule) == Run(cfg, CFront, st, Events(cfg, data))
  {
    hide CFile, Stopped, Run, Events, PhysicalLines, Fits, LastOdd, Classify;
    var common, text, last := COpenGroup(cfg, read, work, st, data, schedule);
    LastStep(cfg, CFront, st, common, text + [BACKSLASH], last);
  }

  /** Without an open group the scanner's events are the whole-file ones. */
  lemma SameEvents(cfg: Config, work: nat, data: bytes)
    requires !Refused(cfg, data) && !OpenGroup(cfg, data) && Joinable(cfg, work, data)
    requires !(cfg.bom == BomStrip && data == BOM)
    ensures LineEvents(cfg, [], PhysicalLines(cfg, data), Closed(Payload(cfg, data)), 0, work) == Events(cfg, data)
  {
    BomOnLines(cfg, data);
    SameLines(cfg, data);
    var lines, closed := PhysicalLines(cfg, data), Closed(Payload(cfg, data));
    assert Events(cfg, data) == Joined(cfg, lines);
    hide Events, PhysicalLines, Payload, GoJoin, Number;
    if Continues(cfg) {
      CAgreesWithGoIff(lines, closed, work);
    } else if cfg.join {
      JoinIsNumberIff(lines);
    }
  }

  /** The C file run is the fold over the whole-file events. */
  lemma CFileIsRun(cfg: Config, read: nat, work: nat, st: State, data: bytes, schedule: seq<nat>)
    requires 0 < read <= work && (Refused(cfg, data) || Scannable(cfg, read, work, data, schedule))
    ensures CFile(cfg, read, work, st, data, schedule) == Run(cfg, CFront, st, Events(cfg, data))
  {
    hide CFile, Stopped, Run, Events, PhysicalLines, Payload, OpenGroup, Refused, LineEvents, Joinable;
    if Refused(cfg, data) {
      RefusedIsRun(cfg, read, work, st, data, schedule);
    } else if OpenGroup(cfg, data) {
      OpenIsRun(cfg, read, work, st, data, schedule);
    } else {
      CFileScans(cfg, read, work, st, data, schedule);
      if cfg.bom == BomStrip && data == BOM {
        BomOnly(cfg, st, data);
        NothingScanned(cfg, st, data, work);
      } else {
        SameEvents(cfg, work, data);
      }
    }
  }

  lemma NothingScanned(cfg: Config, st: State, data: bytes, work: nat)
    requires Payload(cfg, data) == []
    ensures var es := LineEvents(cfg, [], PhysicalLines(cfg, data), Closed(Payload(cfg, data)), 0, work);
            Run(cfg, CFront, st, es) == st
  {}

  /** With a continuation left open C and Go end alike if and only if Go skips the open line. */
  lemma OpenGroupIff(cfg: Config, read: nat, work: nat, c: State, go: State, data: bytes, schedule: seq<nat>)
    requires 0 < read <= work && !Stopped(Payload(cfg, data), schedule, read, work) && Alike(c, go)
    requires !Refused(cfg, data) && OpenGroup(cfg, data) && Fits([], PhysicalLines(cfg, data), work)
    requires NUL !in data && NoParts(cfg, data)
    ensures Alike(CFile(cfg, read, work, c, data, schedule), File(cfg, go, data)) <==> SkipsLast(cfg, GoFront, data)
  {
    var common, text, last := COpenGroup(cfg, read, work, c, data, schedule);
    EventsDecided(cfg, data);
    hide CFile, Stopped, Run, Events, PhysicalLines, Fits, LastOdd, Classify, SameOutcome, Step, Alike;
    var es := Events(cfg, data);
    assert forall i :: 0 <= i < |common| ==> common[i] == es[i];
    RunAlike(cfg, CFront, GoFront, c, go, common);
    LastStep(cfg, GoFront, go, common, text + [BACKSLASH], last);
    AlikeCounts(Run(cfg, CFront, c, common), Run(cfg, GoFront, go, common));
    AlikeCounts(Run(cfg, CFront, c, common), Run(cfg, GoFront, go, es));
  }

  lemma AlikeCounts(a: State, b: State)
    ensures Alike(a, b) ==> a.checked == b.checked
  {}

  lemma RunOneC(cfg: Config, st: State, e: Event)
    ensures Run(cfg, CFront, st, [e]) == Step(cfg, CFront, st, e)
  {
    assert [e][1..] == [];
  }

  /** A file of nothing but a BOM is one skipped line, or none. */
  lemma BomOnly(cfg: Config, st: State, data: bytes)
    requires cfg.bom == BomStrip && data == BOM
    ensures Payload(cfg, data) == [] && Run(cfg, CFront, st, Events(cfg, data)) == st
  {
    BomOnLines(cfg, data);
    var lines: seq<bytes> := [[]];
    assert NUL !in BOM;
    assert !AllEndInCr(lines) by { assert !EndsWith(lines[0], CR); }
    assert DropCrs(cfg, lines) == lines;
    assert lines[1..] == [];
    assert Joined(cfg, lines) == [Logical([], 1)] by {
      assert Number(lines[1..], 2) == [];
      assert [Logical([], 1)] + [] == [Logical([], 1)];
    }
    RunOneC(cfg, st, Logical([], 1));
  }

  /** No logical line of the file is one on which the shell classifiers part. */
  predicate NoParts(cfg: Config, data: bytes) {
    forall i :: 0 <= i < |Events(cfg, data)| && Events(cfg, data)[i].Logical? ==>
      !Parts(cfg, Events(cfg, data)[i].text)
  }

  lemma EventsDecided(cfg: Config, data: bytes)
    requires NUL !in data && NoParts(cfg, data)
    ensures SameDecisions(cfg, CFront, GoFront, Events(cfg, data))
  {
    var es := Events(cfg, data);
    EventsFree(cfg, data, NUL);
    forall i | 0 <= i < |es| && es[i].Logical?
      ensures SameOutcome(Classify(cfg, CFront, es[i].text), Classify(cfg, GoFront, es[i].text))
    {
      DecisionsIff(cfg, es[i].text);
    }
  }

  /** The conditions on one file, read by a schedule, under which C and Go agree. */
  predicate Agreeable(cfg: Config, read: nat, work: nat, data: bytes, schedule: seq<nat>)
    requires read > 0
  {
    Refused(cfg, data) || (Scannable(cfg, read, work, data, schedule) && NUL !in data && NoParts(cfg, data))
  }

  /** Chunking, buffering and classification are invisible: from alike states the C front end
      ends alike the Go one. */
  lemma CRefinesGo(cfg: Config, read: nat, work: nat, c: State, go: State, data: bytes, schedule: seq<nat>)
    requires 0 < read <= work && Agreeable(cfg, read, work, data, schedule) && Alike(c, go)
    ensures Alike(CFile(cfg, read, work, c, data, schedule), File(cfg, go, data))
  {
    var es := Events(cfg, data);
    hide Stopped, CFile, Joinable;
    CFileIsRun(cfg, read, work, c, data, schedule);
    if Refused(cfg, data) {
      BomOnLines(cfg, data);
      assert |es| == 1 && es[0].Fault?;
    } else {
      EventsDecided(cfg, data);
    }
    RunAlike(cfg, CFront, GoFront, c, go, es);
  }

  /** The same for a run over any list of files, with the buffer sizes of the source. */
  lemma {:induction false} CFilesRefineGo(cfg: Config, c: State, go: State, files: seq<bytes>,
                                          schedules: seq<seq<nat>>)
    requires |schedules| == |files| && Alike(c, go)
    requires forall i :: 0 <= i < |files| ==> Agreeable(cfg, READ_BUF, WORK_BUF, files[i], schedules[i])
    ensures Alike(CFiles(cfg, READ_BUF, WORK_BUF, c, files, schedules), Files(cfg, go, files))
    decreases |files|
  {
    if files != [] {
      hide CFile, File, Agreeable;
      CRefinesGo(cfg, READ_BUF, WORK_BUF, c, go, files[0], schedules[0]);
      CFilesRefineGo(cfg, CFile(cfg, READ_BUF, WORK_BUF, c, files[0], schedules[0]), File(cfg, go, files[0]),
                     files[1..], schedules[1..]);
    }
  }

  // ---------------------------------------------------------------- the stage contract in C

  /** Normalize factors out of the C front end as well: three scans, each under its own read
      schedule, of a file and of its normalized text. */
  lemma CNormalizeFactors(cfg: Config, read: nat, work: nat, st: State, again: State, data: bytes,
                          s1: seq<nat>, s2: seq<nat>, s3: seq<nat>)
    requires 0 < read <= work && cfg.action != Normalize && again.env == st.env && again.out == st.out
    requires Refused(cfg, data) || (Joinable(cfg, work, data) && NUL !in data)
    requires !Stopped(Payload(cfg, data), s1, read, work) && !Stopped(Payload(cfg, data), s2, read, work)
    requires !Stopped(NormalizeText(cfg, data), s3, read, work)
    ensures var direct := CFile(cfg, read, work, st, data, s1);
            var first := CFile(AsNormalize(cfg), read, work, EMPTY, data, s2);
            var second := CFile(AsVerbatim(cfg), read, work, again, first.out, s3);
            first.out == NormalizeText(cfg, data) &&
            second.env == direct.env && second.out == direct.out &&
            ErrorsSince(st, direct) == ErrorsSince(EMPTY, first) + ErrorsSince(again, second) &&
            CheckedSince(st, direct) == CheckedSince(EMPTY, first)
  {
    var es, text := Events(cfg, data), NormalizeText(cfg, data);
    hide CFile, Stopped, Run, NormalizeText, Classify;
    assert Events(AsNormalize(cfg), data) == es;
    assert PhysicalLines(AsNormalize(cfg), data) == PhysicalLines(cfg, data);
    if !Refused(cfg, data) && OpenGroup(cfg, data) { SkipsLastToo(cfg, data); }
    CFileIsRun(cfg, read, work, st, data, s1);
    CFileIsRun(AsNormalize(cfg), read, work, EMPTY, data, s2);
    NormalizeRunOut(cfg, data);
    CFileIsRun(AsVerbatim(cfg), read, work, again, text, s3);
    VerbatimEvents(cfg, data);
    EventsNulFree(cfg, data);
    KeptRun(cfg, CFront, st, again, EMPTY, es, 1);
    SameActionRuns(cfg, AsVerbatim(cfg), CFront, again, Number(Kept(es), 1));
  }

  /** Normalize skips the lines the later stages skip. */
  lemma SkipsLastToo(cfg: Config, data: bytes)
    requires cfg.action != Normalize && NUL !in data && SkipsLast(cfg, CFront, data)
    ensures SkipsLast(AsNormalize(cfg), CFront, data)
  {
    var es := Events(cfg, data);
    EventsFree(cfg, data, NUL);
    var text := es[|es| - 1].text;
    assert Events(AsNormalize(cfg), data) == es;
    hide Events, CShell, CNative, Raw;
    RawComesFirst(cfg, CFront, text);
    assert Classify(AsNormalize(cfg), CFront, text) == Raw(text);
    hide Classify;
  }

  lemma EventsNulFree(cfg: Config, data: bytes)
    requires Refused(cfg, data) || NUL !in data
    ensures EventFree(NUL, Events(cfg, data))
  {
    if NUL !in data { EventsFree(cfg, data, NUL); } else { BomOnLines(cfg, data); }
  }

  /** Normalize does not consult the classifier, so every front prints the same text. */
  lemma NormalizeRunOut(cfg: Config, data: bytes)
    ensures Run(AsNormalize(cfg), CFront, EMPTY, Events(cfg, data)).out == NormalizeText(cfg, data)
  {
    assert Events(AsNormalize(cfg), data) == Events(cfg, data);
    NormalizeFronts(AsNormalize(cfg), EMPTY, Events(cfg, data));
  }

  lemma {:induction false} NormalizeFronts(cfg: Config, st: State, es: seq<Event>)
    requires cfg.action == Normalize
    ensures Run(cfg, CFront, st, es) == Run(cfg, GoFront, st, es)
    decreases |es|
  {
    if es != [] { NormalizeFronts(cfg, Step(cfg, CFront, st, es[0]), es[1..]); }
  }

  // ---------------------------------------------------------------- counting LINE_TOO_LONG

  function TooLongCount(log: seq<Diag>): nat {
    if log == [] then 0
    else TooLongCount(log[..|log| - 1]) + if log[|log| - 1].code == LineTooLong then 1 else 0
  }

  /** The join-buffer overflows among the events. */
  function TooLongFaults(es: seq<Event>): nat {
    if es == [] then 0 else (if es[0] == Fault(LineTooLong) then 1 else 0) + TooLongFaults(es[1..])
  }

  lemma TooLongSnoc(log: seq<Diag>, d: Diag)
    ensures TooLongCount(log + [d]) == TooLongCount(log) + if d.code == LineTooLong then 1 else 0
  {
    assert (log + [d])[..|log|] == log;
  }

  lemma {:induction false} TooLongNone(log: seq<Diag>, more: seq<Diag>)
    requires forall i :: 0 <= i < |more| ==> more[i].code != LineTooLong
    ensures TooLongCount(log + more) == TooLongCount(log)
    decreases |more|
  {
    if more == [] {
      assert log + more == log;
    } else {
      var n := |more| - 1;
      TooLongNone(log, more[..n]);
      TooLongSnoc(log + more[..n], more[n]);
      assert log + more == log + more[..n] + [more[n]];
    }
  }

  /** A logical line is never reported as too long by the record step. */
  lemma StepTooLong(cfg: Config, front: Front, st: State, e: Event)
    ensures TooLongCount(Step(cfg, front, st, e).log) ==
            TooLongCount(st.log) + if e == Fault(LineTooLong) then 1 else 0
  {
    match e
    case Fault(code) => TooLongSnoc(st.log, Diag(code, 0));
    case Logical(text, no) =>
      RejectsWithLineCode(cfg, front, text);
      hide Classify;
      match Classify(cfg, front, text)
      case Skipped =>
      case Rejected(code) => TooLongSnoc(st.log, Diag(code, no));
      case Accepted(r) =>
        hide ValueOf, Line, TooLongCount;
        TooLongNone(st.log, Diags(Unbound(Uses(cfg.native, r), st.env), no));
  }

  lemma {:induction false} RunTooLong(cfg: Config, front: Front, st: State, es: seq<Event>)
    ensures TooLongCount(Run(cfg, front, st, es).log) == TooLongCount(st.log) + TooLongFaults(es)
    decreases |es|
  {
    if es != [] {
      hide Step;
      StepTooLong(cfg, front, st, es[0]);
      RunTooLong(cfg, front, Step(cfg, front, st, es[0]), es[1..]);
    }
  }

  lemma {:induction false} NumberHasNoFault(lines: seq<bytes>, no: nat)
    ensures TooLongFaults(Number(lines, no)) == 0
    decreases |lines|
  {
    if lines != [] {
      NumberHasNoFault(lines[1..], no + 1);
      assert Number(lines, no)[1..] == Number(lines[1..], no + 1);
    }
  }

  /** LINE_TOO_LONG over one file and any read schedule: the delivered lines are a prefix of the
      file's lines and all of them are processed; the read loop reports exactly once or not at
      all, next to one report per join-buffer overflow (none with continuation off).  Which
      files it reports is exact, and a report leaves only lines before the first long line. */
  lemma TooLongReports(cfg: Config, read: nat, work: nat, st: State, data: bytes, schedule: seq<nat>)
    requires 0 < read <= work && !Refused(cfg, data)
    ensures var payload := Payload(cfg, data);
            var d := Deliver([], Chop(payload, schedule, read), work);
            var lines := Split(d.text);
            var es := LineEvents(cfg, [], TrimAll(Strips(cfg, payload), lines), Closed(d.text), 0, work);
            var end := Run(cfg, CFront, st, es);
            var all := CFile(cfg, read, work, st, data, schedule);
            lines <= Split(payload) &&
            all == (if d.tooLong then Report(end, LineTooLong, 0) else end) &&
            TooLongCount(all.log) == TooLongCount(st.log) + TooLongFaults(es) + (if d.tooLong then 1 else 0) &&
            (!Continues(cfg) ==> TooLongFaults(es) == 0) &&
            (d.tooLong <==> Stopped(payload, schedule, read, work)) &&
            (schedule == [] ==> (d.tooLong <==> FullReport(payload, read, work))) &&
            (forall i :: 0 <= i < |Split(payload)| && |Split(payload)[i]| >= work ==> d.tooLong && |lines| <= i)
  {
    var payload := Payload(cfg, data);
    var chunks := Chop(payload, schedule, read);
    assert [] + Concat(chunks) == payload;
    var d := Deliver([], chunks, work);
    DeliverIsPrefix([], chunks, work);
    ScanTextIsRun(cfg, Strips(cfg, payload), work, Scan(st, [], 0), d.text);
    StoppedIff(payload, schedule, read, work);
    FullReadsIff(payload, read, work);
    forall i | 0 <= i < |Split(payload)| && |Split(payload)[i]| >= work ensures d.tooLong && |Split(d.text)| <= i {
      LongLineStops([], chunks, work, i);
    }
    hide Stopped, FullReport, Deliver, ScanText, Chop, Run, TooLongFaults, TooLongCount;
    var trimmed := TrimAll(Strips(cfg, payload), Split(d.text));
    var es := LineEvents(cfg, [], trimmed, Closed(d.text), 0, work);
    RunTooLong(cfg, CFront, st, es);
    NumberHasNoFault(trimmed, 1);
    TooLongSnoc(Run(cfg, CFront, st, es).log, Diag(LineTooLong, 0));
  }
}
