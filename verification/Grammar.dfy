/** The grammar of one line in byte numbers: a reference verdict that shares no predicate with the
    parsers, and every parser's decision on every line stated through it. */
module Grammar {
  import opened Bytes
  import opened Records

  // ---------------------------------------------------------------- names

  /** A letter or '_', and behind the first byte also a digit. */
  predicate NameByte(c: byte, first: bool) {
    65 <= c <= 90 || 97 <= c <= 122 || c == 95 || (!first && 48 <= c <= 57)
  }

  lemma IdentifierIff(key: bytes)
    ensures IsIdentifier(key) <==> |key| > 0 && forall k :: 0 <= k < |key| ==> NameByte(key[k], k == 0)
  {}

  // ---------------------------------------------------------------- the reference verdict

  /** One fault of a key and a value, by itself. */
  predicate Faulty(code: Code, key: bytes, value: bytes) {
    match code
    case EmptyKey => |key| == 0
    case KeyLeadingBlank => |key| > 0 && key[0] in {9, 32}
    case KeyTrailingBlank => |key| > 0 && key[|key| - 1] in {9, 32}
    case KeyInvalid => exists k :: 0 <= k < |key| && !NameByte(key[k], k == 0)
    case ValueLeadingBlank => |value| > 0 && value[0] in {9, 32}
    case SingleUnterminated => |value| > 0 && value[0] == 39 && forall k :: 0 < k < |value| ==> value[k] != 39
    case DoubleUnterminated => |value| > 0 && value[0] == 34 && forall k :: 0 < k < |value| ==> value[k] != 34
    case TrailingContent =>
      |value| > 0 && value[0] in {34, 39} && exists k :: 0 < k < |value| - 1 && value[k] == value[0]
    case ValueInvalid =>
      (|value| == 0 || value[0] !in {34, 39}) && exists k :: 0 <= k < |value| && value[k] in {9, 32, 34, 39, 92}
    case _ => false
  }

  /** The verdict of an implementation: its first fault, in its order, or the record. */
  function Judge(order: seq<Code>, key: bytes, value: bytes): Verdict
    decreases |order|
  {
    if order != [] then
      if Faulty(order[0], key, value) then Rejected(order[0]) else Judge(order[1..], key, value)
    else if |value| >= 2 && value[0] == 34 then Accepted(Record(key, value[1..|value| - 1], DoubleQuoted))
    else if |value| >= 2 && value[0] == 39 then Accepted(Record(key, value[1..|value| - 1], SingleQuoted))
    else Accepted(Record(key, value, Plain))
  }

  // The orders in which the implementations test.
  const VALUE_ORDER: seq<Code> := [SingleUnterminated, DoubleUnterminated, TrailingContent, ValueInvalid]
  const C_ORDER: seq<Code> :=
    [EmptyKey, KeyLeadingBlank, KeyTrailingBlank, KeyInvalid, ValueLeadingBlank] + VALUE_ORDER
  const ASM_ORDER: seq<Code> :=
    [EmptyKey, KeyLeadingBlank, KeyTrailingBlank, ValueLeadingBlank, KeyInvalid] + VALUE_ORDER
  const GO_ORDER: seq<Code> :=
    [KeyLeadingBlank, KeyTrailingBlank, ValueLeadingBlank, EmptyKey, KeyInvalid] + VALUE_ORDER

  lemma JudgeStep(code: Code, order: seq<Code>, key: bytes, value: bytes)
    ensures Judge([code] + order, key, value) ==
            if Faulty(code, key, value) then Rejected(code) else Judge(order, key, value)
  {
    assert ([code] + order)[1..] == order;
    hide Faulty;
  }

  lemma JudgeFive(a: Code, b: Code, c: Code, d: Code, e: Code, order: seq<Code>, key: bytes, value: bytes)
    ensures Judge([a, b, c, d, e] + order, key, value) ==
            if Faulty(a, key, value) then Rejected(a)
            else if Faulty(b, key, value) then Rejected(b)
            else if Faulty(c, key, value) then Rejected(c)
            else if Faulty(d, key, value) then Rejected(d)
            else if Faulty(e, key, value) then Rejected(e)
            else Judge(order, key, value)
  {
    hide Faulty, Judge;
    assert [a, b, c, d, e] + order == [a] + ([b] + ([c] + ([d] + ([e] + order))));
    JudgeStep(a, [b] + ([c] + ([d] + ([e] + order))), key, value);
    JudgeStep(b, [c] + ([d] + ([e] + order)), key, value);
    JudgeStep(c, [d] + ([e] + order), key, value);
    JudgeStep(d, [e] + order, key, value);
    JudgeStep(e, order, key, value);
  }

  /** The shell value, quoted or not. */
  lemma ValueVerdict(key: bytes, value: bytes)
    ensures ShellValue(key, value) == Judge(VALUE_ORDER, key, value)
  {
    assert VALUE_ORDER ==
           [SingleUnterminated] + ([DoubleUnterminated] + ([TrailingContent] + ([ValueInvalid] + [])));
    JudgeStep(SingleUnterminated, [DoubleUnterminated] + ([TrailingContent] + ([ValueInvalid] + [])), key, value);
    JudgeStep(DoubleUnterminated, [TrailingContent] + ([ValueInvalid] + []), key, value);
    JudgeStep(TrailingContent, [ValueInvalid] + [], key, value);
    JudgeStep(ValueInvalid, [], key, value);
    if |value| > 0 && value[0] in {34, 39} {
      var rest := value[1..];
      var close := Find(rest, value[0]);
      assert forall k :: 0 < k < |value| ==> value[k] == rest[k - 1];
      assert close < |rest| ==> value[close + 1] == value[0] && value[1..close + 1] == rest[..close];
    }
  }

  /** The three orders on a key and a value. */
  lemma PairVerdicts(key: bytes, value: bytes)
    ensures CShellPair(key, value) == Judge(C_ORDER, key, value)
    ensures GoShellPair(key, value) == Judge(GO_ORDER, key, value)
    ensures AwkShellPair(key, value) == Judge(ASM_ORDER, key, value)
    ensures 0 !in value ==> AsmShellPair(key, value) == Judge(ASM_ORDER, key, value)
  {
    IdentifierIff(key);
    ValueVerdict(key, value);
    JudgeFive(EmptyKey, KeyLeadingBlank, KeyTrailingBlank, KeyInvalid, ValueLeadingBlank, VALUE_ORDER, key, value);
    JudgeFive(EmptyKey, KeyLeadingBlank, KeyTrailingBlank, ValueLeadingBlank, KeyInvalid, VALUE_ORDER, key, value);
    JudgeFive(KeyLeadingBlank, KeyTrailingBlank, ValueLeadingBlank, EmptyKey, KeyInvalid, VALUE_ORDER, key, value);
    hide Judge, ShellValue, IsIdentifier;
  }

  // ---------------------------------------------------------------- whole lines

  /** A byte string without one final CR. */
  function Uncr(s: bytes): bytes { if |s| > 0 && s[|s| - 1] == 13 then s[..|s| - 1] else s }

  /** Nothing but blanks, or a '#' in front. */
  predicate Void(s: bytes) { (forall k :: 0 <= k < |s| ==> s[k] in {9, 32}) || s[0] == 35 }

  /** Which lines are skipped. */
  lemma SkippedIff(line: bytes)
    ensures CShell(line) == Skipped <==> Void(Uncr(line))
    ensures CNative(line) == Skipped <==> Void(Uncr(line))
    ensures GoShell(line) == Skipped <==> Void(Uncr(line))
    ensures GoNative(line) == Skipped <==> Void(Uncr(line))
    ensures AwkShell(line) == Skipped <==> Void(Uncr(line))
    ensures Raw(line) == Skipped <==> Void(Uncr(line))
    ensures line != [13] ==> (AsmShell(line) == Skipped <==> Void(line))
    ensures AsmNative(line) == Skipped <==> Void(line)
  {
    VoidIff(line);
    NeverSkipped();
    hide IsBlankOrComment, AllBlank, Find, Void, Uncr;
    hide CShellPair, GoShellPair, AsmShellPair, AwkShellPair, ShellValue, IsIdentifier;
  }

  lemma VoidIff(line: bytes)
    ensures IsBlankOrComment(line) <==> Void(Uncr(line))
    ensures AllBlank(line) || line[0] == HASH <==> Void(line)
    ensures TrimCr(line) == Uncr(line)
  {
    assert forall k :: 0 <= k < |line| ==> line[k] in line;
    var t := Uncr(line);
    assert forall k :: 0 <= k < |t| ==> t[k] in t;
  }

  lemma NeverSkipped()
    ensures forall key, value :: ShellValue(key, value) != Skipped
    ensures forall key, value :: CShellPair(key, value) != Skipped
    ensures forall key, value :: GoShellPair(key, value) != Skipped
    ensures forall key, value :: AsmShellPair(key, value) != Skipped
    ensures forall key, value :: AwkShellPair(key, value) != Skipped
  {}

  /** A line without '=' that is not skipped. */
  lemma NoEqualsVerdicts(line: bytes)
    requires 61 !in line
    ensures !Void(Uncr(line)) ==>
              GoShell(line) == GoNative(line) == AwkShell(line) == Raw(line) == Rejected(NoEquals)
    ensures !Void(Uncr(line)) && 0 !in line ==> CShell(line) == CNative(line) == Rejected(NoEquals)
    ensures !Void(line) ==> AsmNative(line) == Rejected(NoEquals)
    ensures !Void(line) && line != [13] ==> AsmShell(line) == Rejected(NoEquals)
  {
    var t := Uncr(line);
    VoidIff(line);
    assert forall k :: 0 <= k < |t| ==> t[k] == line[k];
    FindUnique(line, EQUALS, |line|);
    FindUnique(t, EQUALS, |t|);
    hide IsBlankOrComment, AllBlank, Find, Void, Uncr, TrimCr;
  }

  /** Where the two C classifiers meet a NUL. */
  lemma NulVerdicts(line: bytes)
    requires 0 in line && !Void(Uncr(line))
    ensures CShell(line) == CNative(line) == Rejected(ValueInvalid)
  {
    VoidIff(line);
    hide IsBlankOrComment, Void, Uncr;
  }

  /** A line cut at its first '=', and not a comment: every parser's verdict.  Go and the assembly
      drop a final CR from the value, C and awk keep it. */
  lemma LineVerdicts(key: bytes, value: bytes)
    requires 61 !in key && (|key| > 0 ==> key[0] != 35)
    ensures var line := key + [61] + value;
            GoShell(line) == Judge(GO_ORDER, key, Uncr(value)) &&
            AwkShell(line) == Judge(ASM_ORDER, key, value) &&
            GoNative(line) == (if |key| == 0 then Rejected(EmptyKey) else Accepted(Record(key, value, Plain))) &&
            Raw(line) == Accepted(Record(key, value, Plain)) &&
            (0 !in line ==>
               CShell(line) == Judge(C_ORDER, key, value) &&
               line != [13] && AsmShell(line) == Judge(ASM_ORDER, key, Uncr(value)) &&
               CNative(line) == AsmNative(line) == GoNative(line))
  {
    var line := key + [61] + value;
    PairSplits(key, value);
    PairNotBlank(key, value);
    PairVerdicts(key, value);
    PairVerdicts(key, Uncr(value));
    UncrPair(key, value);
    PairSplits(key, Uncr(value));
    assert line[|key|] == 61 && (|key| > 0 ==> line[0] == key[0]);
    assert 0 !in line ==> 0 !in value && 0 !in Uncr(value);
    NotAllBlank(key, value);
    hide Judge, IsBlankOrComment, AllBlank, Find, Uncr, TrimCr;
    hide CShellPair, GoShellPair, AsmShellPair, AwkShellPair, ShellValue, IsIdentifier;
  }

  /** The assembly and NUL: native values are searched for it and keys are not, and of the shell
      values only the bare ones are. */
  lemma AsmNulVerdicts(key: bytes, value: bytes)
    requires 61 !in key && (|key| > 0 ==> key[0] != 35)
    ensures AsmNative(key + [61] + value) ==
            if |key| == 0 then Rejected(EmptyKey)
            else if 0 in value then Rejected(ValueInvalid)
            else Accepted(Record(key, value, Plain))
    ensures var v := Judge(ASM_ORDER, key, value);
            AsmShellPair(key, value) ==
            if 0 in value && v.Accepted? && value[0] !in {34, 39} then Rejected(ValueInvalid) else v
  {
    PairSplits(key, value);
    NotAllBlank(key, value);
    assert |key| > 0 ==> (key + [61] + value)[0] == key[0];
    IdentifierIff(key);
    ValueVerdict(key, value);
    AwkPairNul(key, value);
    hide AllBlank, Find, Judge, IsIdentifier;
  }

  /** Without its own test the assembly order gives the verdict of awk. */
  lemma AwkPairNul(key: bytes, value: bytes)
    ensures AwkShellPair(key, value) == Judge(ASM_ORDER, key, value)
    ensures AwkShellPair(key, value).Rejected? && AwkShellPair(key, value).code == ValueInvalid ==>
              !StartsQuoted(value)
  {
    PairVerdicts(key, value);
    hide Judge, IsIdentifier;
  }

  /** The line of one CR in the assembly: the record that starts with it in memory. */
  lemma LoneCrVerdict(beyond: bytes)
    requires Reaches([13], beyond)
    ensures var n := Find(beyond, 61);
            n + 1 < |beyond| && 61 !in beyond[..n] && beyond[n] == 61 &&
            AsmLoneCr(beyond) == Judge(ASM_ORDER, [13] + beyond[..n], beyond[n + 1..])
  {
    var n := Find(beyond, 61);
    var key, value := [13] + beyond[..n], beyond[n + 1..];
    assert key[|key| - 1] == if n == 0 then 13 else beyond[..n][n - 1];
    PairVerdicts(key, value);
    hide Judge, Find, ShellValue;
    assert AwkShellPair(key, value) == AsmLoneCr(beyond);
  }

  lemma NotAllBlank(key: bytes, value: bytes)
    ensures var line := key + [61] + value; !AllBlank(line) && line != [13]
  {
    var line := key + [61] + value;
    assert line[|key|] == 61 && line[|key|] in line;
  }

  lemma UncrPair(key: bytes, value: bytes)
    ensures TrimCr(key + [61] + value) == key + [61] + Uncr(value)
  {
    var line := key + [61] + value;
    if |value| > 0 {
      assert line[|line| - 1] == value[|value| - 1];
    } else {
      assert line[|line| - 1] == 61;
    }
  }

  // ---------------------------------------------------------------- consequences

  /** A pair is accepted if and only if it has none of the faults tested for. */
  lemma {:induction false} JudgeAccepts(order: seq<Code>, key: bytes, value: bytes)
    ensures Judge(order, key, value).Accepted? <==> forall code :: code in order ==> !Faulty(code, key, value)
    decreases |order|
  {
    hide Faulty;
    if order != [] {
      JudgeAccepts(order[1..], key, value);
      assert order == [order[0]] + order[1..];
    }
  }

  lemma PlainPair(key: bytes, value: bytes)
    requires IsIdentifier(key) && !StartsQuoted(value)
    ensures CShellPair(key, value).Accepted? <==> !BadPlain(value)
  {
    IdentifierBytes(key);
    hide IsIdentifier, EndsBlank;
  }

  /** Which bytes an unquoted value may hold. */
  lemma PlainAcceptedIff(key: bytes, value: bytes)
    requires IsIdentifier(key) && 0 !in value && (|value| > 0 ==> value[0] !in {34, 39})
    ensures CShell(key + [61] + value).Accepted? <==>
            forall k :: 0 <= k < |value| ==> value[k] !in {9, 32, 34, 39, 92}
  {
    IdentifierBytes(key);
    LineVerdicts(key, value);
    PairVerdicts(key, value);
    PlainPair(key, value);
    assert BadPlain(value) <==> exists k :: 0 <= k < |value| && value[k] in {9, 32, 34, 39, 92};
    hide Judge, CShell, GoShell, AwkShell, AsmShell, CShellPair, IsIdentifier, EndsBlank, BadPlain;
  }
}
