/** The Go front end: whole file in memory, one parser object. */
module GoParser {
  import opened Bytes
  import opened Lines
  import opened Records
  import opened Continuation
  import opened Substitution
  import opened Environment
  import opened Engine
  import opened Pipeline

  class Parser {
    const cfg: Config
    var checked: nat
    var log: seq<Diag>
    var envMap: map<bytes, bytes>
    var out: bytes

    /** The state the laws speak about; the errors field is the length of log. */
    ghost function Abs(): State
      reads this
    {
      State(envMap, out, checked, log)
    }

    constructor (cfg: Config)
      ensures this.cfg == cfg && Abs() == EMPTY
    {
      this.cfg := cfg;
      checked, log, envMap, out := 0, [], map[], [];
    }

    method SeedEnv(entries: seq<bytes>)
      modifies this
      ensures Abs() == old(Abs()).(env := Seed(entries, true))
    {
      envMap := map[];
      var e := 0;
      while e < |entries|
        invariant 0 <= e <= |entries|
        invariant Abs() == old(Abs()).(env := Seed(entries[..e], true))
      {
        SeedStep(entries, e, true);
        var entry := entries[e];
        e := e + 1;
        var eq := Find(entry, EQUALS);
        if eq == |entry| { continue; }
        var k := entry[..eq];
        if CONTROL_PREFIX <= k { continue; }
        envMap := envMap[k := entry[eq + 1..]];
      }
      assert entries[..e] == entries;
    }

    method DiagLine(lineno: nat, code: Code)
      modifies this
      ensures Abs() == Report(old(Abs()), code, lineno)
    {
      log := log + [Diag(code, lineno)];
    }

    method ValidShellKey(key: bytes) returns (ok: bool)
      ensures ok == IsIdentifier(key)
    {
      if |key| == 0 { return false; }
      if !IsNameStart(key[0]) { return false; }
      var i := 1;
      while i < |key|
        invariant 1 <= i <= |key|
        invariant forall k :: 1 <= k < i ==> IsNameRest(key[k])
      {
        if !IsNameRest(key[i]) { return false; }
        i := i + 1;
      }
      return true;
    }

    /** Returns the payload, or reports why the value is not legal. */
    method UnquoteShellValue(lineno: nat, ghost key: bytes, value: bytes) returns (r: Option<bytes>)
      modifies this
      ensures match ShellValue(key, value)
              case Accepted(rec) => r == Some(rec.value) && Abs() == old(Abs())
              case Rejected(code) => r == None && Abs() == Report(old(Abs()), code, lineno)
              case Skipped => false
    {
      if |value| == 0 { return Some(value); }
      var c := value[0];
      if c == DQUOTE || c == SQUOTE {
        var rest := value[1..];
        var pos := Find(rest, c);
        if pos == |rest| {
          if c == DQUOTE { DiagLine(lineno, DoubleUnterminated); } else { DiagLine(lineno, SingleUnterminated); }
          return None;
        }
        if |rest[pos + 1..]| != 0 {
          DiagLine(lineno, TrailingContent);
          return None;
        }
        return Some(rest[..pos]);
      }
      var i := 0;
      while i < |value|
        invariant 0 <= i <= |value|
        invariant forall k :: 0 <= k < i ==> !BadPlainByte(value[k])
      {
        if BadPlainByte(value[i]) {
          DiagLine(lineno, ValueInvalid);
          return None;
        }
        i := i + 1;
      }
      return Some(value);
    }

    /** Index walk over the value. */
    method SubstValue(lineno: nat, value: bytes) returns (res: bytes)
      modifies this`log
      ensures res == Subst(value, envMap)
      ensures log == old(log) + Diags(Missing(value, envMap), lineno)
    {
      hide Subst, Missing, Walk, Diags, RefStep, FindFrom, NameEnd;
      res := [];
      var i := 0;
      ghost var missing: seq<bytes> := [];
      WalkStart(value, envMap);
      DiagsNone(lineno);
      while i < |value|
        invariant 0 <= i <= |value| && Walk(value, i, envMap, res, missing)
        invariant log == old(log) + Diags(missing, lineno)
      {
        var pos := FindFrom(value, DOLLAR, i);
        WalkLiteral(value, i, envMap, res, missing);
        if pos == |value| {
          assert value[i..] == value[i..pos];
          res, i := res + value[i..], |value|;
          break;
        }
        res := res + value[i..pos];
        if pos + 1 >= |value| {
          WalkLone(value, pos, envMap, res, missing);
          res, i := res + [DOLLAR], |value|;
          break;
        }
        var name;
        if value[pos + 1] == LBRACE {
          var close := FindFrom(value, RBRACE, pos + 2);
          if close == |value| {
            WalkUnclosed(value, pos, envMap, res, missing);
            res, i := res + [DOLLAR] + value[pos + 1..], |value|;
            break;
          }
          BracedStep(value, pos, envMap);
          name := value[pos + 2..close];
          i := close + 1;
        } else {
          if !IsNameStart(value[pos + 1]) {
            WalkLone(value, pos, envMap, res, missing);
            res := res + [DOLLAR];
            i := pos + 1;
            continue;
          }
          NamedStep(value, pos, envMap);
          var j := NameEnd(value, pos + 2);
          name := value[pos + 1..j];
          i := j;
        }
        WalkRef(value, pos, envMap, res, missing, name, i);
        if name in envMap {
          res := res + envMap[name];
        } else {
          DiagsSnoc(missing, name, lineno);
          log := log + [Diag(UnboundRef(name), lineno)];
          missing := missing + [name];
        }
      }
      WalkDone(value, envMap, res, missing);
    }

    method HandleRecord(lineno: nat, key: bytes, rawValue: bytes, value: bytes, ghost kind: Kind)
      requires kind == SingleQuoted <==> rawValue != [] && rawValue[0] == SQUOTE
      modifies this
      ensures Abs() == if cfg.action == Normalize then old(Abs())
                       else Perform(cfg, old(Abs()), Record(key, value, kind), lineno)
    {
      if cfg.action == Dump {
        out := out + Pair(key, value) + [LF];
        return;
      }
      if cfg.action == Validate || cfg.action == Normalize { return; }
      var resolved := value;
      if cfg.native || !(|rawValue| > 0 && rawValue[0] == SQUOTE) {
        resolved := SubstValue(lineno, value);
      } else {
        DiagsNone(lineno);
      }
      envMap := envMap[key := resolved];
      if cfg.action == Delta {
        out := out + Pair(key, resolved) + [LF];
      }
    }

    /** One logical line. */
    method ProcessLine(line: bytes, lineno: nat)
      modifies this
      ensures Abs() == Step(cfg, GoFront, old(Abs()), Logical(line, lineno))
    {
      var trimmed := TrimCr(line);
      var blank := IsBlankSpacesTabs(trimmed);
      if blank { return; }
      if |trimmed| > 0 && trimmed[0] == HASH { return; }
      checked := checked + 1;
      var eq := Find(line, EQUALS);
      if eq == |line| {
        DiagLine(lineno, NoEquals);
        return;
      }
      var rawKey, rawValue := line[..eq], line[eq + 1..];
      if cfg.action == Normalize {
        out := out + Pair(rawKey, rawValue) + [LF];
        return;
      }
      if cfg.native {
        ProcessNative(line, lineno, eq);
      } else {
        ProcessShell(line, trimmed, lineno, rawValue);
      }
    }

    method IsBlankSpacesTabs(line: bytes) returns (blank: bool)
      ensures blank == AllBlank(line)
    {
      var i := 0;
      while i < |line|
        invariant 0 <= i <= |line|
        invariant forall k :: 0 <= k < i ==> IsBlankByte(line[k])
      {
        if line[i] != SPACE && line[i] != TAB {
          assert line[i] in line;
          return false;
        }
        i := i + 1;
      }
      return true;
    }

    method ProcessNative(line: bytes, lineno: nat, eq: nat)
      requires eq == Find(line, EQUALS) < |line| && cfg.native && cfg.action != Normalize
      requires !IsBlankOrComment(line) && checked > 0
      modifies this
      ensures Abs() == Handle(cfg, old(Abs()).(checked := old(checked) - 1), GoNative(line), lineno)
    {
      if eq == 0 {
        DiagLine(lineno, EmptyKey);
        return;
      }
      assert GoNative(line) == Accepted(Record(line[..eq], line[eq + 1..], Plain));
      hide GoNative, Perform;
      PerformNative(cfg, Abs(), Record(line[..eq], line[eq + 1..], Plain), lineno);
      var raw := line[eq + 1..];
      ghost var kind := if raw != [] && raw[0] == SQUOTE then SingleQuoted else Plain;
      HandleRecord(lineno, line[..eq], raw, raw, kind);
    }

    method ProcessShell(line: bytes, trimmed: bytes, lineno: nat, rawValue: bytes)
      requires trimmed == TrimCr(line) && !IsBlankOrComment(line) && checked > 0
      requires !cfg.native && cfg.action != Normalize
      requires Find(line, EQUALS) < |line| && rawValue == line[Find(line, EQUALS) + 1..]
      modifies this
      ensures Abs() == Handle(cfg, old(Abs()).(checked := old(checked) - 1), GoShell(line), lineno)
    {
      if EndsWith(line, CR) { CrBelongsToValue(line); }
      var eq2 := Find(trimmed, EQUALS);
      var key, value := trimmed[..eq2], trimmed[eq2 + 1..];
      assert GoShell(line) == GoShellPair(key, value);
      assert rawValue == value || rawValue == value + [CR];
      ProcessShellPair(key, value, lineno, rawValue);
    }

    /** The key and value checks, in their order. */
    method ProcessShellPair(key: bytes, value: bytes, lineno: nat, rawValue: bytes)
      requires checked > 0 && !cfg.native && cfg.action != Normalize
      requires rawValue == value || rawValue == value + [CR]
      modifies this
      ensures Abs() == Handle(cfg, old(Abs()).(checked := old(checked) - 1), GoShellPair(key, value), lineno)
    {
      if |key| > 0 && IsBlankByte(key[0]) { DiagLine(lineno, KeyLeadingBlank); return; }
      if |key| > 0 && IsBlankByte(key[|key| - 1]) { DiagLine(lineno, KeyTrailingBlank); return; }
      if |value| > 0 && IsBlankByte(value[0]) { DiagLine(lineno, ValueLeadingBlank); return; }
      if |key| == 0 { DiagLine(lineno, EmptyKey); return; }
      var valid := ValidShellKey(key);
      if !valid { DiagLine(lineno, KeyInvalid); return; }
      hide IsIdentifier, Perform;
      var unquoted := UnquoteShellValue(lineno, key, value);
      if unquoted == None { return; }
      ghost var r := ShellValue(key, value).record;
      assert r.kind == SingleQuoted <==> rawValue != [] && rawValue[0] == SQUOTE;
      HandleRecord(lineno, key, rawValue, unquoted.value, r.kind);
    }

    method ProcessFile(fileBytes: bytes)
      modifies this
      ensures Abs() == File(cfg, old(Abs()), fileBytes)
    {
      if cfg.rejectNul && NUL in fileBytes {
        DiagLine(0, FileNul);
        RunOne(cfg, old(Abs()), Fault(FileNul));
        return;
      }
      var lines := GoSplitLines(fileBytes);
      if |lines| > 0 && BOM <= lines[0] {
        if cfg.bom == BomReject {
          DiagLine(0, FileBom);
          RunOne(cfg, old(Abs()), Fault(FileBom));
          return;
        } else if cfg.bom == BomStrip {
          lines := [lines[0][3..]] + lines[1..];
        }
      }
      assert lines == DropBom(cfg, Split(fileBytes));
      if cfg.stripCr {
        lines := StripCrLines(lines);
      }
      var proc;
      if cfg.join {
        proc := GoJoinLines(lines);
        if lines != [] { GoFromLonger(lines[0], lines[1..], 1); }
        assert forall i :: 0 <= i < |proc| ==> proc[i] in proc;
      } else {
        proc := NumberLines(lines);
        NumberLogical(lines, 1);
      }
      RunRecords(proc);
    }

    /** The record loop over the logical lines. */
    method RunRecords(proc: seq<Event>)
      requires forall i :: 0 <= i < |proc| ==> proc[i].Logical?
      modifies this
      ensures Abs() == Run(cfg, GoFront, old(Abs()), proc)
    {
      assert proc[0..] == proc;
      var n := 0;
      while n < |proc|
        invariant 0 <= n <= |proc|
        invariant Run(cfg, GoFront, Abs(), proc[n..]) == Run(cfg, GoFront, old(Abs()), proc)
      {
        hide Step;
        assert proc[n..][1..] == proc[n + 1..];
        ProcessLine(proc[n].text, proc[n].no);
        n := n + 1;
      }
    }

    method StripCrLines(lines: seq<bytes>) returns (r: seq<bytes>)
      ensures r == StripCrs(lines)
    {
      var allCRLF := |lines| > 0;
      var i := 0;
      while i < |lines| && allCRLF
        invariant 0 <= i <= |lines|
        invariant allCRLF ==> |lines| > 0 && forall k :: 0 <= k < i ==> EndsWith(lines[k], CR)
        invariant !allCRLF ==> !AllEndInCr(lines)
      {
        if |lines[i]| == 0 || lines[i][|lines[i]| - 1] != CR { allCRLF := false; }
        i := i + 1;
      }
      r := lines;
      if allCRLF {
        i := 0;
        while i < |lines|
          invariant 0 <= i <= |lines| == |r|
          invariant forall k :: 0 <= k < i ==> r[k] == TrimCr(lines[k])
          invariant forall k :: i <= k < |lines| ==> r[k] == lines[k]
        {
          r := r[i := r[i][..|r[i]| - 1]];
          i := i + 1;
        }
      }
    }

    method NumberLines(lines: seq<bytes>) returns (proc: seq<Event>)
      ensures proc == Number(lines, 1)
    {
      proc := [];
      var i := 0;
      while i < |lines|
        invariant 0 <= i <= |lines|
        invariant proc + Number(lines[i..], i + 1) == Number(lines, 1)
      {
        assert lines[i..][1..] == lines[i + 1..];
        proc := proc + [Logical(lines[i], i + 1)];
        i := i + 1;
      }
    }
  }

  lemma RunOne(cfg: Config, st: State, e: Event)
    ensures Run(cfg, GoFront, st, [e]) == Step(cfg, GoFront, st, e)
  {
    assert [e][1..] == [];
  }

  lemma DiagsNone(no: nat)
    ensures Diags([], no) == []
  {}

  lemma DiagsSnoc(names: seq<bytes>, name: bytes, no: nat)
    ensures Diags(names + [name], no) == Diags(names, no) + [Diag(UnboundRef(name), no)]
  {}

  /** In native format the kind plays no part. */
  lemma PerformNative(cfg: Config, st: State, r: Record, no: nat)
    requires cfg.native
    ensures forall kind :: Perform(cfg, st, r.(kind := kind), no) == Perform(cfg, st, r, no)
  {}

  lemma {:induction false} NumberLogical(lines: seq<bytes>, no: nat)
    ensures |Number(lines, no)| == |lines|
    ensures forall i :: 0 <= i < |lines| ==> Number(lines, no)[i] == Logical(lines[i], no + i)
    decreases |lines|
  {
    if lines != [] { NumberLogical(lines[1..], no + 1); }
  }
}
