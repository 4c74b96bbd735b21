/** What references, records, files and the emission mean, as rules in byte numbers that name
    none of the byte classes and constants the implementations share. */
module Rules {
  import opened Bytes
  import opened Lines
  import opened Records
  import opened Continuation
  import opened Substitution
  import opened Environment
  import opened Engine
  import opened Pipeline
  import opened Grammar
  import opened Scanning
  import opened Refinement
  import opened Sorting
  import opened GoParser

  // ---------------------------------------------------------------- substitution

  predicate IsName(name: bytes) { |name| > 0 && forall k :: 0 <= k < |name| ==> NameByte(name[k], k == 0) }

  /** What a reference to name contributes. */
  function Bound(name: bytes, env: Env): bytes { if name in env then env[name] else [] }
  function Reported(name: bytes, env: Env): seq<bytes> { if name in env then [] else [name] }

  /** The tokens behind a position are those of the text behind it. */
  lemma TokensBehind(v: bytes, i: nat)
    requires i <= |v|
    ensures TokensFrom(v, i) == Tokens(v[i..])
  {
    TokensText(v, i);
    TokensCanonical(v, i);
    TokensUnique(v[i..], TokensFrom(v, i));
  }

  lemma SubstBehind(v: bytes, i: nat, env: Env)
    requires i <= |v|
    ensures SubstFrom(v, i, env) == Subst(v[i..], env) && MissingFrom(v, i, env) == Missing(v[i..], env)
  {
    hide TokensFrom;
    TokensBehind(v, i);
  }

  /** A text that starts with a token t. */
  lemma FirstToken(t: Token, rest: bytes, env: Env)
    requires CanonicalBefore(t, rest) && |Source(t)| > 0
    ensures var v := Source(t) + rest;
            Subst(v, env) == Meaning(t, env) + Subst(rest, env) &&
            Missing(v, env) == (if t.Ref? then Reported(t.name, env) else []) + Missing(rest, env)
  {
    var v, n := Source(t) + rest, |Source(t)|;
    hide *;
    assert v[n..] == rest && v[0..] == v;
    HeadOfText(v, 0, Source(t), rest);
    CanonicalIsToken(v, 0, t);
    StepToken(v, 0, env);
    SubstBehind(v, 0, env);
    SubstBehind(v, n, env);
    ReportedOne(t, env);
  }

  lemma ReportedOne(t: Token, env: Env)
    ensures t.Ref? ==> Reported(t.name, env) == if t.name !in env then [t.name] else []
  {}

  lemma NothingToSubst(env: Env)
    ensures Subst([], env) == [] && Missing([], env) == []
  {}

  /** Text without '$' in front of a '$' or the end stays. */
  lemma TextRule(text: bytes, rest: bytes, env: Env)
    requires 36 !in text && (|rest| > 0 ==> rest[0] == 36)
    ensures Subst(text + rest, env) == text + Subst(rest, env) && Missing(text + rest, env) == Missing(rest, env)
  {
    hide Subst, Missing;
    if text == [] {
      assert text + rest == rest && text + Subst(rest, env) == Subst(rest, env);
    } else {
      FirstToken(Literal(text), rest, env);
      assert [] + Missing(rest, env) == Missing(rest, env);
    }
  }

  /** "${name}" is the value of name; the name runs to the first '}'. */
  lemma BracedRule(name: bytes, rest: bytes, env: Env)
    requires 125 !in name
    ensures var v := [36, 123] + name + [125] + rest;
            Subst(v, env) == Bound(name, env) + Subst(rest, env) &&
            Missing(v, env) == Reported(name, env) + Missing(rest, env)
  {
    hide Subst, Missing;
    FirstToken(Ref(name, true), rest, env);
  }

  /** "$name" is the value of name; the name is the longest one. */
  lemma NamedRule(name: bytes, rest: bytes, env: Env)
    requires IsName(name) && (|rest| > 0 ==> !NameByte(rest[0], false))
    ensures var v := [36] + name + rest;
            Subst(v, env) == Bound(name, env) + Subst(rest, env) &&
            Missing(v, env) == Reported(name, env) + Missing(rest, env)
  {
    hide Subst, Missing;
    IdentifierIff(name);
    FirstToken(Ref(name, false), rest, env);
  }

  /** A '$' that no '{' and no name follows stays. */
  lemma LoneRule(rest: bytes, env: Env)
    requires |rest| > 0 ==> rest[0] != 123 && !NameByte(rest[0], true)
    ensures Subst([36] + rest, env) == [36] + Subst(rest, env) && Missing([36] + rest, env) == Missing(rest, env)
  {
    hide Subst, Missing;
    FirstToken(Literal([36]), rest, env);
    assert [] + Missing(rest, env) == Missing(rest, env);
  }

  /** "${" without a '}' behind it stays with all that follows. */
  lemma UnclosedRule(rest: bytes, env: Env)
    requires 125 !in rest
    ensures Subst([36, 123] + rest, env) == [36, 123] + rest && Missing([36, 123] + rest, env) == []
  {
    hide Subst, Missing;
    var v := [36, 123] + rest;
    assert v[2..] == rest && v + [] == v;
    FirstToken(Literal(v), [], env);
    NothingToSubst(env);
  }

  /** The five rules leave no text out. */
  lemma RulesCover(v: bytes) returns (head: bytes, rest: bytes)
    requires |v| > 0
    ensures v == head + rest && |rest| < |v|
    ensures (|head| > 0 && 36 !in head && (|rest| > 0 ==> rest[0] == 36)) ||
            (|head| >= 3 && head[..2] == [36, 123] && 125 !in head[2..|head| - 1] && head[|head| - 1] == 125) ||
            (|head| >= 2 && head[0] == 36 && IsName(head[1..]) && (|rest| > 0 ==> !NameByte(rest[0], false))) ||
            (head == [36] && (|rest| > 0 ==> rest[0] != 123 && !NameByte(rest[0], true))) ||
            (|head| >= 2 && head[..2] == [36, 123] && 125 !in head[2..] && rest == [])
  {
    var t := TokenAt(v, 0);
    TokenText(v, 0);
    TokenIsCanonical(v, 0);
    head, rest := Source(t), v[|Source(t)|..];
    assert v == v[..|head|] + rest;
    if t.Ref? {
      if t.braced { assert head[2..|head| - 1] == t.name; } else { IdentifierIff(t.name); assert head[1..] == t.name; }
    }
    hide TokenAt;
  }

  // ---------------------------------------------------------------- the record step

  /** The diagnostics of unbound names, each under the number of the line. */
  lemma DiagsAt(names: seq<bytes>, no: nat)
    ensures |Diags(names, no)| == |names|
    ensures forall i :: 0 <= i < |names| ==> Diags(names, no)[i] == Diag(UnboundRef(names[i]), no)
  {}

  /** The whole effect of an accepted record, action by action.  Only a single-quoted shell
      value is taken as it stands. */
  lemma AcceptRule(cfg: Config, st: State, r: Record, no: nat)
    ensures var literal := !cfg.native && r.kind == SingleQuoted;
            var value := if literal then r.value else Subst(r.value, st.env);
            var missing := if literal then [] else Missing(r.value, st.env);
            var raw, resolved := r.key + [61] + r.value + [10], r.key + [61] + value + [10];
            var binding := cfg.action == Delta || cfg.action == Apply;
            var end := Accept(cfg, st, r, no);
            end.checked == st.checked + 1 &&
            end.env == (if binding then st.env[r.key := value] else st.env) &&
            end.log == (if binding then st.log + Diags(missing, no) else st.log) &&
            end.out == st.out + (match cfg.action
                                 case Normalize => raw
                                 case Dump => raw
                                 case Delta => resolved
                                 case _ => [])
  {
    assert Unbound([], st.env) == [] && Diags([], no) == [];
    assert st.log + [] == st.log && st.out + [] == st.out;
    hide Subst, Tokens, Refs;
  }

  /** A rejected line is counted and reported once, under its own number; a skipped one leaves
      no trace; a fault of the file is reported under number 0. */
  lemma StepRule(cfg: Config, front: Front, st: State, line: bytes, no: nat, fault: Code)
    ensures var v, end := Classify(cfg, front, line), Step(cfg, front, st, Logical(line, no));
            match v
            case Skipped => end == st
            case Rejected(code) => end == State(st.env, st.out, st.checked + 1, st.log + [Diag(code, no)])
            case Accepted(r) => end == Accept(cfg, st, r, no)
    ensures Step(cfg, front, st, Fault(fault)) == State(st.env, st.out, st.checked, st.log + [Diag(fault, 0)])
  {
    hide Classify, Accept;
  }

  lemma RawVerdict(line: bytes)
    ensures Raw(line).Skipped? <==> Void(Uncr(line))
    ensures !Void(Uncr(line)) && 61 !in line ==> Raw(line) == Rejected(NoEquals)
    ensures !Void(Uncr(line)) && 61 in line ==> Raw(line).Accepted?
    ensures Raw(line).Accepted? ==> Raw(line).record.key + [61] + Raw(line).record.value == line
  {
    VoidIff(line);
    hide IsBlankOrComment, Void, Uncr;
    if Raw(line).Accepted? { RawPrintsBack(line); }
    if 61 !in line { FindUnique(line, EQUALS, |line|); }
  }

  /** What normalize does with a line: no check but for '='. */
  lemma NormalizeRule(cfg: Config, front: Front, st: State, line: bytes, no: nat)
    requires cfg.action == Normalize
    ensures Step(cfg, front, st, Logical(line, no)) ==
            if Void(Uncr(line)) then st
            else if 61 in line then State(st.env, st.out + line + [10], st.checked + 1, st.log)
            else State(st.env, st.out, st.checked + 1, st.log + [Diag(NoEquals, no)])
  {
    RawVerdict(line);
    StepRule(cfg, front, st, line, no, NoEquals);
    if Raw(line).Accepted? { AcceptRule(cfg, st, Raw(line).record, no); }
    AppendAssoc(st.out, line, [10]);
    hide Raw, Void, Uncr, Step, Accept, Subst, Missing, Diags;
  }

  /** The logical lines normalize keeps: neither blank nor comment, and with '='. */
  lemma KeptRule(es: seq<Event>)
    ensures |es| > 0 ==>
              Kept(es) == (if es[0].Logical? && !Void(Uncr(es[0].text)) && 61 in es[0].text then [es[0].text] else []) +
                          Kept(es[1..])
    ensures Kept([]) == []
  {
    if |es| > 0 && es[0].Logical? { VoidIff(es[0].text); }
    hide IsBlankOrComment, Void, Uncr;
  }

  /** A native line in every front end: the key must not be empty, and nothing else is tested. */
  lemma NativeRule(cfg: Config, front: Front, st: State, key: bytes, value: bytes, no: nat)
    requires cfg.native && cfg.action != Normalize && 61 !in key && (|key| > 0 ==> key[0] != 35)
    requires front == GoFront || (0 !in key && 0 !in value)
    ensures Step(cfg, front, st, Logical(key + [61] + value, no)) ==
            if |key| == 0 then State(st.env, st.out, st.checked + 1, st.log + [Diag(EmptyKey, no)])
            else Accept(cfg, st, Record(key, value, Plain), no)
  {
    LineVerdicts(key, value);
    StepRule(cfg, front, st, key + [61] + value, no, EmptyKey);
    assert Classify(cfg, front, key + [61] + value) == GoNative(key + [61] + value);
    hide Classify, Step, Accept, GoNative, GoShell, CShell, AsmShell, AwkShell, Judge;
  }

  /** A NUL in a native line that is neither blank nor comment: C refuses the line, Go takes the
      byte as any other. */
  lemma NativeNulRule(cfg: Config, st: State, line: bytes, no: nat)
    requires cfg.native && cfg.action != Normalize && 0 in line && !Void(Uncr(line))
    ensures Step(cfg, CFront, st, Logical(line, no)) ==
            State(st.env, st.out, st.checked + 1, st.log + [Diag(ValueInvalid, no)])
  {
    NulVerdicts(line);
    StepRule(cfg, CFront, st, line, no, ValueInvalid);
    hide CNative, CShell, Step, Void, Uncr;
  }

  lemma PrintedClassified(cfg: Config, front: Front, r: Record)
    requires !cfg.native && cfg.action != Normalize && LegalRecord(r) && !EndsWith(Print(r), CR)
    ensures Classify(cfg, front, Print(r)) == Accepted(r)
  {
    var line := Print(r);
    LegalParsesBack(r);
    PrintedNoNul(r);
    CAndGoShell(line);
    CAndAsmShell(line);
    hide CShell, GoShell, AsmShell, LegalPayload, Print, IsIdentifier;
  }

  lemma PrintedNoNul(r: Record)
    requires LegalRecord(r)
    ensures NUL !in Print(r)
  {
    IdentifierBytes(r.key);
    hide IsIdentifier;
  }

  /** The three kinds of shell values in every front end: a bare value and a value in double
      quotes are substituted, a value in single quotes is not. */
  lemma QuotingRule(cfg: Config, front: Front, st: State, key: bytes, value: bytes, no: nat)
    requires !cfg.native && (cfg.action == Delta || cfg.action == Apply) && IsName(key) && 0 !in value
    ensures var end := Step(cfg, front, st, Logical(key + [61, 39] + value + [39], no));
            39 !in value ==> end.env == st.env[key := value] && end.log == st.log
    ensures var end := Step(cfg, front, st, Logical(key + [61, 34] + value + [34], no));
            34 !in value ==>
              end.env == st.env[key := Subst(value, st.env)] && end.log == st.log + Diags(Missing(value, st.env), no)
    ensures var end := Step(cfg, front, st, Logical(key + [61] + value, no));
            (forall k :: 0 <= k < |value| ==> value[k] !in {9, 13, 32, 34, 39, 92}) ==>
              end.env == st.env[key := Subst(value, st.env)] && end.log == st.log + Diags(Missing(value, st.env), no)
  {
    IdentifierIff(key);
    var single, double := Record(key, value, SingleQuoted), Record(key, value, DoubleQuoted);
    var plain := Record(key, value, Plain);
    assert Print(single) == key + [61, 39] + value + [39] && Print(double) == key + [61, 34] + value + [34];
    assert Print(plain) == key + [61] + value;
    hide Print, Step, Subst, Missing, Diags, IsIdentifier, IsName;
    if 39 !in value { KindRule(cfg, front, st, single, no, key + [61, 39] + value + [39]); }
    if 34 !in value { KindRule(cfg, front, st, double, no, key + [61, 34] + value + [34]); }
    if forall k :: 0 <= k < |value| ==> value[k] !in {9, 13, 32, 34, 39, 92} {
      assert forall k :: 0 <= k < |value| ==> value[k] !in {9, 32, 34, 39, 92};
      KindRule(cfg, front, st, plain, no, key + [61] + value);
    }
  }

  lemma KindRule(cfg: Config, front: Front, st: State, r: Record, no: nat, line: bytes)
    requires !cfg.native && (cfg.action == Delta || cfg.action == Apply) && LegalRecord(r)
    requires line == Print(r) && line[|line| - 1] != 13
    ensures var end := Step(cfg, front, st, Logical(line, no));
            var literal := r.kind == SingleQuoted;
            end.env == st.env[r.key := if literal then r.value else Subst(r.value, st.env)] &&
            end.log == st.log + (if literal then [] else Diags(Missing(r.value, st.env), no))
  {
    PrintedClassified(cfg, front, r);
    StepRule(cfg, front, st, line, no, NoEquals);
    AcceptRule(cfg, st, r, no);
    assert Diags([], no) == [] && st.log + [] == st.log;
    hide Classify, Step, Accept, Print, LegalRecord, Subst, Missing, Diags;
  }

  // ---------------------------------------------------------------- files

  /** Lines end at LF; a last line needs none. */
  lemma SplitRule(line: bytes, rest: bytes)
    requires 10 !in line
    ensures Split(line + [10] + rest) == [line] + Split(rest)
    ensures |line| > 0 ==> Split(line) == [line]
    ensures Split([]) == []
  {
    SplitFirst(line, rest);
    if |line| > 0 { FindUnique(line, LF, |line|); }
  }

  lemma UnlinesRule(line: bytes, rest: seq<bytes>)
    ensures Unlines([line] + rest) == line + [10] + Unlines(rest) && Unlines([]) == []
  {
    assert ([line] + rest)[1..] == rest;
  }

  /** CRs leave the lines together or not at all. */
  lemma CrRule(lines: seq<bytes>)
    ensures StripCrs(lines) ==
            if |lines| > 0 && forall i :: 0 <= i < |lines| ==> |lines[i]| > 0 && lines[i][|lines[i]| - 1] == 13
            then seq(|lines|, i requires 0 <= i < |lines| => Uncr(lines[i])) else lines
  {}

  /** The byte order mark in numbers. */
  predicate Marked(data: bytes) { |data| >= 3 && data[0] == 239 && data[1] == 187 && data[2] == 191 }

  lemma MarkedIff(data: bytes)
    ensures BOM <= data <==> Marked(data)
    ensures data == BOM <==> Marked(data) && |data| == 3
  {}

  lemma OneEmptyLine(cfg: Config)
    ensures Joined(cfg, DropCrs(cfg, [[]])) == [Logical([], 1)]
  {
    var lines: seq<bytes> := [[]];
    assert !AllEndInCr(lines) by { assert !EndsWith(lines[0], CR); }
    assert lines[1..] == [] && !Odd([]);
    assert Number(lines[1..], 2) == [];
    assert [Logical([], 1)] + [] == [Logical([], 1)];
  }

  /** The pre-passes: NUL anywhere, then the three bytes of the mark in front, then the CRs;
      then the lines are joined, or numbered from 1. */
  lemma PrePassRule(cfg: Config, data: bytes)
    ensures var lines := Split(if cfg.bom == BomStrip && Marked(data) then data[3..] else data);
            var kept := if cfg.stripCr then StripCrs(lines) else lines;
            var es := Events(cfg, data);
            if cfg.rejectNul && 0 in data then es == [Fault(FileNul)]
            else if cfg.bom == BomReject && Marked(data) then es == [Fault(FileBom)]
            else if cfg.bom == BomStrip && Marked(data) && |data| == 3 then es == [Logical([], 1)]
            else if cfg.join then es == GoJoin(kept)
            else |es| == |kept| && forall i :: 0 <= i < |kept| ==> es[i] == Logical(kept[i], i + 1)
  {
    MarkedIff(data);
    BomOnLines(cfg, data);
    OneEmptyLine(cfg);
    var lines := Split(Payload(cfg, data));
    NumberLogical(if cfg.stripCr then StripCrs(lines) else lines, 1);
    hide Split, StripCrs, GoJoin, Number, HasBom, DropBom, Marked;
  }

  /** Files are processed in their order, each by the run over its events. */
  lemma {:induction false} FilesRule(cfg: Config, st: State, a: seq<bytes>, b: seq<bytes>, data: bytes)
    ensures Files(cfg, st, a + b) == Files(cfg, Files(cfg, st, a), b)
    ensures Files(cfg, st, [data]) == Run(cfg, GoFront, st, Events(cfg, data))
    decreases |a|
  {
    hide Events, Run;
    assert [data][1..] == [];
    assert Files(cfg, st, [data]) == Files(cfg, File(cfg, st, data), [data][1..]);
    if a == [] {
      assert a + b == b;
    } else {
      assert (a + b)[1..] == a[1..] + b;
      FilesRule(cfg, File(cfg, st, a[0]), a[1..], b, data);
    }
  }

  // ---------------------------------------------------------------- continuation

  function Slashes(n: nat): bytes { seq(n, _ => 92) }

  /** A line goes on if and only if it ends in an odd number of backslashes. */
  lemma OddRule(s: bytes, n: nat)
    requires |s| > 0 ==> s[|s| - 1] != 92
    ensures Odd(s + Slashes(n)) <==> n % 2 == 1
  {
    RunUnique(s + Slashes(n), n);
  }

  /** Segments without their last byte, one after the other. */
  function Glue(segments: seq<bytes>): bytes {
    if segments == [] then []
    else (if |segments[0]| > 0 then segments[0][..|segments[0]| - 1] else []) + Glue(segments[1..])
  }

  /** The same events with higher line numbers. */
  function Shifted(es: seq<Event>, k: nat): (r: seq<Event>)
    ensures |r| == |es|
  {
    seq(|es|, i requires 0 <= i < |es| => if es[i].Logical? then Logical(es[i].text, es[i].no + k) else es[i])
  }

  lemma ShiftedCons(e: Event, es: seq<Event>, k: nat)
    ensures Shifted([e] + es, k) ==
            [if e.Logical? then Logical(e.text, e.no + k) else e] + Shifted(es, k)
  {}

  /** Lines 0 to n - 1 go on. */
  predicate GoOn(lines: seq<bytes>, n: nat) { n < |lines| && forall i :: 0 <= i < n ==> Odd(lines[i]) }

  lemma GoOnTail(lines: seq<bytes>, n: nat)
    requires GoOn(lines, n) && n > 0
    ensures GoOn(lines[1..], n - 1) && Odd(lines[0]) && EndsWith(lines[0], BACKSLASH)
    ensures lines[..n] == [lines[0]] + lines[1..][..n - 1] && lines[1..][n - 1] == lines[n]
    ensures lines[1..][n..] == lines[n + 1..]
    ensures Glue(lines[..n]) == lines[0][..|lines[0]| - 1] + Glue(lines[1..][..n - 1])
  {
    OddNonempty(lines[0]);
    assert lines[..n] == [lines[0]] + lines[1..][..n - 1];
    assert ([lines[0]] + lines[1..][..n - 1])[1..] == lines[1..][..n - 1];
  }

  lemma GoFromStep(current: bytes, lines: seq<bytes>, no: nat)
    requires |lines| > 0
    ensures Odd(current) ==>
              |current| > 0 &&
              GoFrom(current, lines, no) == GoFrom(current[..|current| - 1] + lines[0], lines[1..], no + 1)
    ensures !Odd(current) ==>
              GoFrom(current, lines, no) == [Logical(current, no)] + GoFrom(lines[0], lines[1..], no + 1)
  {
    if Odd(current) { OddNonempty(current); }
    hide Odd;
  }

  lemma LastShift(current: bytes, no: nat, k: nat)
    ensures GoFrom(current, [], no + k) == Shifted(GoFrom(current, [], no), k)
  {}

  lemma {:induction false} GoFromShift(current: bytes, lines: seq<bytes>, no: nat, k: nat)
    ensures GoFrom(current, lines, no + k) == Shifted(GoFrom(current, lines, no), k)
    decreases |lines|
  {
    hide Shifted, GoFrom, Odd;
    if |lines| == 0 {
      LastShift(current, no, k);
    } else {
      GoFromStep(current, lines, no);
      GoFromStep(current, lines, no + k);
      if Odd(current) {
        GoFromShift(current[..|current| - 1] + lines[0], lines[1..], no + 1, k);
      } else {
        GoFromShift(lines[0], lines[1..], no + 1, k);
        ShiftedCons(Logical(current, no), GoFrom(lines[0], lines[1..], no + 1), k);
      }
    }
  }

  /** A line that does not go on ends its group. */
  lemma GroupEnds(hold: bytes, lines: seq<bytes>, no: nat)
    requires !Odd(hold) && |lines| > 0 && (|lines| > 1 ==> !Odd(lines[0]))
    ensures GoFrom(hold + lines[0], lines[1..], no) ==
            [Logical(hold + lines[0], no)] + (if |lines| > 1 then GoFrom(lines[1], lines[2..], no + 1) else [])
  {
    NewestSegmentDecides(hold, lines[0]);
    if |lines| > 1 {
      assert lines[1..][0] == lines[1] && lines[1..][1..] == lines[2..];
      hide Odd, GoFrom;
      GoFromStep(hold + lines[0], lines[1..], no);
    }
  }

  /** A line that goes on loses its backslash. */
  lemma GroupGoesOn(hold: bytes, line: bytes) returns (held: bytes)
    requires !Odd(hold) && Odd(line)
    ensures Odd(hold + line) && |line| > 0 && !Odd(held)
    ensures held == hold + line[..|line| - 1] == (hold + line)[..|hold + line| - 1]
  {
    NewestSegmentDecides(hold, line);
    OddNonempty(line);
    DropOne(hold + line);
    held := (hold + line)[..|hold + line| - 1];
  }

  /** One group of the running join. */
  lemma {:induction false} GoFromGroup(hold: bytes, lines: seq<bytes>, no: nat, n: nat)
    requires !Odd(hold) && GoOn(lines, n) && (n + 1 < |lines| ==> !Odd(lines[n]))
    ensures GoFrom(hold + lines[0], lines[1..], no) ==
            [Logical(hold + Glue(lines[..n]) + lines[n], no + n)] +
            (if n + 1 < |lines| then GoFrom(lines[n + 1], lines[n + 2..], no + n + 1) else [])
    decreases n
  {
    hide GoFrom, Odd;
    if n == 0 {
      GroupEnds(hold, lines, no);
      assert lines[..0] == [] && hold + [] == hold;
    } else {
      GoOnTail(lines, n);
      hide Glue, GoOn;
      var rest := lines[1..];
      var held := GroupGoesOn(hold, lines[0]);
      GoFromStep(hold + lines[0], rest, no);
      GoFromGroup(held, rest, no + 1, n - 1);
      AppendAssoc(hold, lines[0][..|lines[0]| - 1], Glue(rest[..n - 1]));
      assert n + 1 < |lines| ==> rest[n] == lines[n + 1] && rest[n + 1..] == lines[n + 2..];
    }
  }

  /** The join: the first group of lines that go on, each without its backslash, with the line
      that ends it and that line's number; then the lines behind it as a text of their own. */
  lemma JoinRule(lines: seq<bytes>, n: nat)
    requires GoOn(lines, n) && (n + 1 < |lines| ==> !Odd(lines[n]))
    ensures GoJoin(lines) == [Logical(Glue(lines[..n]) + lines[n], n + 1)] + Shifted(GoJoin(lines[n + 1..]), n + 1)
  {
    EmptyIsEven();
    assert [] + lines[0] == lines[0] && [] + Glue(lines[..n]) == Glue(lines[..n]);
    GoFromGroup([], lines, 1, n);
    hide Odd, Glue, GoOn, GoFrom;
    if n + 1 < |lines| {
      assert lines[n + 1..][0] == lines[n + 1] && lines[n + 1..][1..] == lines[n + 2..];
      GoFromShift(lines[n + 1], lines[n + 2..], 1, n + 1);
    } else {
      assert lines[n + 1..] == [];
    }
  }

  // ---------------------------------------------------------------- the C join buffer

  /** One step of the C join. */
  lemma CFromStep(hold: bytes, lines: seq<bytes>, closed: bool, no: nat, capacity: nat)
    requires |lines| > 0
    ensures var joined, es := hold + lines[0], CFrom(hold, lines, closed, no, capacity);
            if |joined| > capacity then es == [Fault(LineTooLong)] + CFrom([], lines[1..], closed, no + 1, capacity)
            else if Odd(joined) && (closed || |lines| > 1) then
              |joined| > 0 && es == CFrom(joined[..|joined| - 1], lines[1..], closed, no + 1, capacity)
            else es == [Logical(joined, no + 1)] + CFrom([], lines[1..], closed, no + 1, capacity)
  {
    if Odd(hold + lines[0]) { OddNonempty(hold + lines[0]); }
    hide Odd;
  }

  lemma NoneShift(hold: bytes, closed: bool, no: nat, capacity: nat, k: nat)
    ensures CFrom(hold, [], closed, no + k, capacity) == Shifted(CFrom(hold, [], closed, no, capacity), k)
  {}

  lemma {:induction false} CFromShift(hold: bytes, lines: seq<bytes>, closed: bool, no: nat, capacity: nat, k: nat)
    ensures CFrom(hold, lines, closed, no + k, capacity) == Shifted(CFrom(hold, lines, closed, no, capacity), k)
    decreases |lines|
  {
    hide Shifted, Odd, CFrom;
    if |lines| == 0 {
      NoneShift(hold, closed, no, capacity, k);
    } else {
      var joined, after := hold + lines[0], CFrom([], lines[1..], closed, no + 1, capacity);
      CFromStep(hold, lines, closed, no, capacity);
      CFromStep(hold, lines, closed, no + k, capacity);
      if |joined| <= capacity && Odd(joined) && (closed || |lines| > 1) {
        CFromShift(joined[..|joined| - 1], lines[1..], closed, no + 1, capacity, k);
      } else {
        CFromShift([], lines[1..], closed, no + 1, capacity, k);
        ShiftedCons(Fault(LineTooLong), after, k);
        ShiftedCons(Logical(joined, no + 1), after, k);
      }
    }
  }

  /** The join buffer takes lines 0 to n - 1. */
  predicate Taken(hold: bytes, lines: seq<bytes>, n: nat, capacity: nat) {
    n <= |lines| && forall i :: 0 <= i < n ==> |hold| + |Glue(lines[..i])| + |lines[i]| <= capacity
  }

  lemma TakenTail(hold: bytes, lines: seq<bytes>, n: nat, capacity: nat)
    requires GoOn(lines, n) && n > 0 && Taken(hold, lines, n, capacity)
    ensures |hold| + |lines[0]| <= capacity
    ensures Taken(hold + lines[0][..|lines[0]| - 1], lines[1..], n - 1, capacity)
  {
    assert lines[..0] == [];
    OddNonempty(lines[0]);
    forall i | 0 <= i < n - 1
      ensures |hold + lines[0][..|lines[0]| - 1]| + |Glue(lines[1..][..i])| + |lines[1..][i]| <= capacity
    {
      assert lines[..i + 1] == [lines[0]] + lines[1..][..i];
      assert ([lines[0]] + lines[1..][..i])[1..] == lines[1..][..i];
      assert |hold| + |Glue(lines[..i + 1])| + |lines[i + 1]| <= capacity;
    }
  }

  /** n lines that go on and fit are held in the buffer. */
  lemma {:induction false} CFromHolds(hold: bytes, lines: seq<bytes>, closed: bool, no: nat, capacity: nat, n: nat)
    requires !Odd(hold) && GoOn(lines, n) && Taken(hold, lines, n, capacity)
    ensures CFrom(hold, lines, closed, no, capacity) ==
            CFrom(hold + Glue(lines[..n]), lines[n..], closed, no + n, capacity)
    ensures !Odd(hold + Glue(lines[..n]))
    decreases n
  {
    hide CFrom, Odd;
    if n == 0 {
      assert lines[..0] == [] && hold + [] == hold && lines[0..] == lines;
    } else {
      GoOnTail(lines, n);
      TakenTail(hold, lines, n, capacity);
      assert |lines| > 1;
      hide GoOn, Taken, Glue;
      var held := GroupGoesOn(hold, lines[0]);
      CFromStep(hold, lines, closed, no, capacity);
      CFromHolds(held, lines[1..], closed, no + 1, capacity, n - 1);
      AppendAssoc(hold, lines[0][..|lines[0]| - 1], Glue(lines[1..][..n - 1]));
      assert lines[1..][n - 1..] == lines[n..];
    }
  }

  /** The C join, for any list of lines: the first group as in JoinRule; a line that does not fit
      is one fault and everything held is dropped with it; a group left open at a final newline
      is dropped. */
  lemma CJoinRule(lines: seq<bytes>, closed: bool, capacity: nat, n: nat)
    requires GoOn(lines, n) && Taken([], lines, n, capacity)
    ensures var rest := Shifted(CJoin(lines[n + 1..], closed, capacity), n + 1);
            var text := Glue(lines[..n]) + lines[n];
            if |text| > capacity then CJoin(lines, closed, capacity) == [Fault(LineTooLong)] + rest
            else if !Odd(lines[n]) || (n + 1 == |lines| && !closed) then
              CJoin(lines, closed, capacity) == [Logical(text, n + 1)] + rest
            else n + 1 == |lines| ==> CJoin(lines, closed, capacity) == []
  {
    EmptyIsEven();
    hide CFrom, Odd, Taken, Shifted;
    var hold, last := Glue(lines[..n]), lines[n..];
    assert [] + hold == hold && n < |lines|;
    CFromHolds([], lines, closed, 0, capacity, n);
    hide Glue, GoOn;
    NewestSegmentDecides(hold, lines[n]);
    assert last[0] == lines[n] && last[1..] == lines[n + 1..];
    CFromStep(hold, last, closed, n, capacity);
    CFromShift([], lines[n + 1..], closed, 0, capacity, n + 1);
    NothingJoined(closed, n + 1, capacity);
  }

  lemma NothingJoined(closed: bool, no: nat, capacity: nat)
    ensures forall hold :: CFrom(hold, [], closed, no, capacity) == []
    ensures CJoin([], closed, capacity) == [] && GoJoin([]) == []
  {}

  /** C joins shell lines only, and only when continuations are accepted. */
  lemma CScanRule(cfg: Config, strip: bool, capacity: nat, st: State, text: bytes)
    ensures var lines := seq(|Split(text)|, i requires 0 <= i < |Split(text)| =>
                               if strip then Uncr(Split(text)[i]) else Split(text)[i]);
            ScanText(cfg, strip, capacity, Scan(st, [], 0), text).st ==
            Run(cfg, CFront, st,
                if cfg.join && !cfg.native then CJoin(lines, |text| == 0 || text[|text| - 1] == 10, capacity)
                else Number(lines, 1))
  {
    ScanTextIsRun(cfg, strip, capacity, Scan(st, [], 0), text);
    var lines := seq(|Split(text)|, i requires 0 <= i < |Split(text)| =>
                       if strip then Uncr(Split(text)[i]) else Split(text)[i]);
    assert lines == TrimAll(strip, Split(text));
    hide Split, ScanText, Run, Number, CFrom;
  }

  // ---------------------------------------------------------------- the process environment

  // "ENVFILE_"
  predicate ControlName(key: bytes) { |key| >= 8 && key[..8] == [69, 78, 86, 70, 73, 76, 69, 95] }

  /** One more entry of the process. */
  lemma SeedRule(entries: seq<bytes>, name: bytes, value: bytes, keepEmpty: bool)
    requires 61 !in name
    ensures Seed(entries + [name + [61] + value], keepEmpty) ==
            if ControlName(name) || (|name| == 0 && !keepEmpty) then Seed(entries, keepEmpty)
            else Seed(entries, keepEmpty)[name := value]
    ensures Seed(entries + [name], keepEmpty) == Seed(entries, keepEmpty) && Seed([], keepEmpty) == map[]
  {
    var entry := name + [61] + value;
    PairSplits(name, value);
    FindUnique(name, EQUALS, |name|);
    EntryAppended(entries, entry);
    EntryAppended(entries, name);
    SeedStep(entries + [entry], |entries|, keepEmpty);
    SeedStep(entries + [name], |entries|, keepEmpty);
    hide Seed, Find;
  }

  lemma EntryAppended(entries: seq<bytes>, entry: bytes)
    ensures (entries + [entry])[..|entries|] == entries && (entries + [entry])[..|entries| + 1] == entries + [entry]
  {}

  // ---------------------------------------------------------------- the emission

  /** a is a proper prefix of b, or smaller, at the first byte in which they differ. */
  predicate Parting(a: bytes, b: bytes, i: nat) {
    i <= |a| && i < |b| && a[..i] == b[..i] && (i == |a| || a[i] < b[i])
  }

  predicate Before(a: bytes, b: bytes) { exists i :: 0 <= i <= |a| && Parting(a, b, i) }

  /** The order of the emission. */
  lemma {:induction false} LessIff(a: bytes, b: bytes)
    ensures Less(a, b) <==> Before(a, b)
    decreases |a|
  {
    forall i: nat | Parting(a, b, i) && i > 0 ensures a[0] == b[0] {
      assert a[0] == a[..i][0] && b[0] == b[..i][0];
    }
    if |a| > 0 && |b| > 0 && a[0] == b[0] {
      LessIff(a[1..], b[1..]);
      SharedHead(a, b);
    } else if |b| > 0 {
      assert a[..0] == b[..0];
      assert (|a| == 0 || a[0] < b[0]) ==> Parting(a, b, 0);
    }
  }

  lemma SharedHead(a: bytes, b: bytes)
    requires |a| > 0 && |b| > 0 && a[0] == b[0]
    ensures Before(a, b) <==> Before(a[1..], b[1..])
  {
    if i :| 0 <= i <= |a[1..]| && Parting(a[1..], b[1..], i) {
      assert a[..i + 1] == [a[0]] + a[1..][..i] && b[..i + 1] == [b[0]] + b[1..][..i];
      assert Parting(a, b, i + 1);
    }
    if i :| 0 <= i <= |a| && Parting(a, b, i) {
      assert a[..0] == b[..0];
      assert i > 0 ==> a[..i][1..] == a[1..][..i - 1] && b[..i][1..] == b[1..][..i - 1];
      assert Parting(a[1..], b[1..], i - 1);
    }
  }

  /** The names of the emission are the bound names outside the control prefix, each once,
      and of two names the one printed first is smaller at the first difference. */
  lemma EmissionRule(ks: seq<bytes>, env: Env)
    ensures IsSortedKeys(ks, env) <==>
            (forall k :: k in ks <==> k in env && !ControlName(k)) &&
            forall i, j :: 0 <= i < j < |ks| ==> Before(ks[i], ks[j])
  {
    forall i, j | 0 <= i < j < |ks| ensures Less(ks[i], ks[j]) <==> Before(ks[i], ks[j]) { LessIff(ks[i], ks[j]); }
    hide Less, Before;
    assert forall k :: IsControl(k) <==> ControlName(k);
    hide IsControl, ControlName;
  }

  /** The text of the emission. */
  lemma PrintedRule(ks: seq<bytes>, env: Env)
    requires forall k :: k in ks ==> k in env
    ensures |ks| > 0 ==>
              (forall k :: k in ks[1..] ==> k in env) &&
              Render(PairsOf(ks, env)) == ks[0] + [61] + env[ks[0]] + [10] + Render(PairsOf(ks[1..], env))
    ensures |ks| == 0 ==> Render(PairsOf(ks, env)) == []
  {
    if |ks| > 0 {
      forall k | k in ks[1..] ensures k in env { assert k in ks; }
      assert PairsOf(ks, env)[1..] == PairsOf(ks[1..], env);
    }
  }

  // ---------------------------------------------------------------- the reads of the source

  /** Which files the source reports, at its sizes. */
  lemma SourceReads(p: bytes)
    ensures Deliver([], Chop(p, [], READ_BUF), WORK_BUF).tooLong <==>
            (exists i :: 0 <= i < |Split(p)| && |Split(p)[i]| >= 65536) ||
            exists k :: 0 <= k < |p| && ReadOverflows(p, 4096, 65536, k)
  {
    hide Deliver, Chop, Split, ReadOverflows;
    FullReadsIff(p, 4096, 65536);
    assert READ_BUF == 4096 && WORK_BUF == 65536;
    assert HasLong(p, 65536) <==> exists i :: 0 <= i < |Split(p)| && |Split(p)[i]| >= 65536;
    hide HasLong;
    assert FullReport(p, 4096, 65536) <==>
           HasLong(p, 65536) || exists k :: 0 <= k < |p| && ReadOverflows(p, 4096, 65536, k);
  }
}
