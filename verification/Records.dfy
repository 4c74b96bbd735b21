/** Classifying one logical line: what each parser decides, and the printer that undoes it. */
module Records {
  import opened Bytes

  /** Diagnostic codes.  UnboundRef is raised by substitution, the first three per file. */
  datatype Code =
    | FileNul | FileBom | LineTooLong
    | NoEquals | EmptyKey | KeyInvalid | KeyLeadingBlank | KeyTrailingBlank
    | ValueLeadingBlank | ValueInvalid | SingleUnterminated | DoubleUnterminated | TrailingContent
    | UnboundRef(name: bytes)

  datatype Kind = Plain | SingleQuoted | DoubleQuoted
  datatype Record = Record(key: bytes, value: bytes, kind: Kind)
  datatype Verdict = Skipped | Rejected(code: Code) | Accepted(record: Record)

  predicate IsBlankOrComment(line: bytes) {
    var t := TrimCr(line);
    AllBlank(t) || t[0] == HASH
  }

  predicate BadPlainByte(c: byte) { IsBlankByte(c) || c == SQUOTE || c == DQUOTE || c == BACKSLASH }
  predicate BadPlain(value: bytes) { exists k :: 0 <= k < |value| && BadPlainByte(value[k]) }
  predicate StartsBlank(s: bytes) { s != [] && IsBlankByte(s[0]) }
  predicate EndsBlank(s: bytes) { s != [] && IsBlankByte(s[|s| - 1]) }
  predicate StartsQuoted(s: bytes) { s != [] && (s[0] == DQUOTE || s[0] == SQUOTE) }

  /** The part every implementation shares: unquoting a shell value. */
  function ShellValue(key: bytes, value: bytes): Verdict {
    if StartsQuoted(value) then
      var quote, rest := value[0], value[1..];
      var close := Find(rest, quote);
      if close == |rest| then Rejected(if quote == DQUOTE then DoubleUnterminated else SingleUnterminated)
      else if close + 1 != |rest| then Rejected(TrailingContent)
      else Accepted(Record(key, rest[..close], if quote == SQUOTE then SingleQuoted else DoubleQuoted))
    else if BadPlain(value) then Rejected(ValueInvalid)
    else Accepted(Record(key, value, Plain))
  }

  // The orders in which the shell checks are made.

  function CShellPair(key: bytes, value: bytes): Verdict {
    if key == [] then Rejected(EmptyKey)
    else if StartsBlank(key) then Rejected(KeyLeadingBlank)
    else if EndsBlank(key) then Rejected(KeyTrailingBlank)
    else if !IsIdentifier(key) then Rejected(KeyInvalid)
    else if StartsBlank(value) then Rejected(ValueLeadingBlank)
    else ShellValue(key, value)
  }

  function AsmShellPair(key: bytes, value: bytes): Verdict {
    if key == [] then Rejected(EmptyKey)
    else if StartsBlank(key) then Rejected(KeyLeadingBlank)
    else if EndsBlank(key) then Rejected(KeyTrailingBlank)
    else if StartsBlank(value) then Rejected(ValueLeadingBlank)
    else if !IsIdentifier(key) then Rejected(KeyInvalid)
    else if !StartsQuoted(value) && NUL in value then Rejected(ValueInvalid)
    else ShellValue(key, value)
  }

  function GoShellPair(key: bytes, value: bytes): Verdict {
    if StartsBlank(key) then Rejected(KeyLeadingBlank)
    else if EndsBlank(key) then Rejected(KeyTrailingBlank)
    else if StartsBlank(value) then Rejected(ValueLeadingBlank)
    else if key == [] then Rejected(EmptyKey)
    else if !IsIdentifier(key) then Rejected(KeyInvalid)
    else ShellValue(key, value)
  }

  function AwkShellPair(key: bytes, value: bytes): Verdict {
    if key == [] then Rejected(EmptyKey)
    else if StartsBlank(key) then Rejected(KeyLeadingBlank)
    else if EndsBlank(key) then Rejected(KeyTrailingBlank)
    else if StartsBlank(value) then Rejected(ValueLeadingBlank)
    else if !IsIdentifier(key) then Rejected(KeyInvalid)
    else ShellValue(key, value)
  }

  function NativePair(key: bytes, value: bytes): Verdict {
    if key == [] then Rejected(EmptyKey) else Accepted(Record(key, value, Plain))
  }

  function CShell(line: bytes): Verdict {
    if IsBlankOrComment(line) then Skipped
    else if NUL in line then Rejected(ValueInvalid)
    else
      var eq := Find(line, EQUALS);
      if eq == |line| then Rejected(NoEquals) else CShellPair(line[..eq], line[eq + 1..])
  }

  function CNative(line: bytes): Verdict {
    if IsBlankOrComment(line) then Skipped
    else if NUL in line then Rejected(ValueInvalid)
    else
      var eq := Find(line, EQUALS);
      if eq == |line| then Rejected(NoEquals) else NativePair(line[..eq], line[eq + 1..])
  }

  /** The assembly backend tests blankness before it drops the CR, so a line that is
      only CR leaves it no byte of the line to scan: see AsmLoneCr. */
  function AsmShell(line: bytes): Verdict
    requires line != [CR]
  {
    if AllBlank(line) || line[0] == HASH then Skipped
    else
      var work := TrimCr(line);
      var eq := Find(work, EQUALS);
      if eq == |work| then Rejected(NoEquals) else AsmShellPair(work[..eq], work[eq + 1..])
  }

  /** The memory behind a line of one CR holds a '=' and a byte after it. */
  predicate Reaches(line: bytes, beyond: bytes) { line == [CR] ==> Find(beyond, EQUALS) + 1 < |beyond| }

  /** The assembly verdict on the line of one CR, given the memory behind it: the scan runs on
      to the next '=', and the key it finds starts with the CR. */
  function AsmLoneCr(beyond: bytes): Verdict
    requires Reaches([CR], beyond)
  {
    var eq := Find(beyond, EQUALS);
    if EndsBlank(beyond[..eq]) then Rejected(KeyTrailingBlank)
    else if IsBlankByte(beyond[eq + 1]) then Rejected(ValueLeadingBlank)
    else Rejected(KeyInvalid)
  }

  /** The assembly verdict on any line that lies in front of the bytes beyond. */
  function AsmShellIn(line: bytes, beyond: bytes): Verdict
    requires Reaches(line, beyond)
  {
    if line == [CR] then AsmLoneCr(beyond) else AsmShell(line)
  }

  function AsmNative(line: bytes): Verdict {
    if AllBlank(line) || line[0] == HASH then Skipped
    else
      var eq := Find(line, EQUALS);
      if eq == |line| then Rejected(NoEquals)
      else if eq == 0 then Rejected(EmptyKey)
      else if NUL in line[eq + 1..] then Rejected(ValueInvalid)
      else Accepted(Record(line[..eq], line[eq + 1..], Plain))
  }

  function GoShell(line: bytes): Verdict {
    if IsBlankOrComment(line) then Skipped
    else if Find(line, EQUALS) == |line| then Rejected(NoEquals)
    else
      var work := TrimCr(line);
      var eq := Find(work, EQUALS);
      if eq == |work| then Rejected(NoEquals) else GoShellPair(work[..eq], work[eq + 1..])
  }

  function GoNative(line: bytes): Verdict {
    if IsBlankOrComment(line) then Skipped
    else
      var eq := Find(line, EQUALS);
      if eq == |line| then Rejected(NoEquals) else NativePair(line[..eq], line[eq + 1..])
  }

  /** The reference implementation: the order of the assembly backend, on the line as it
      stands (a trailing CR stays in the value). */
  function AwkShell(line: bytes): Verdict {
    if IsBlankOrComment(line) then Skipped
    else
      var eq := Find(line, EQUALS);
      if eq == |line| then Rejected(NoEquals) else AwkShellPair(line[..eq], line[eq + 1..])
  }

  // The value awk uses to signal a failed unquote.
  const AWK_SENTINEL: bytes := [1]

  /** The decision in either format; on native lines awk makes the tests Go makes. */
  function AwkVerdict(native: bool, line: bytes): Verdict { if native then GoNative(line) else AwkShell(line) }
  function CVerdict(native: bool, line: bytes): Verdict { if native then CNative(line) else CShell(line) }

  /** In both formats an accepted record goes on to dump and delta unless its value is the
      sentinel. */
  predicate AwkHandsOn(native: bool, line: bytes) {
    AwkVerdict(native, line).Accepted? && AwkVerdict(native, line).record.value != AWK_SENTINEL
  }

  /** Normalize looks no further than the first '='. */
  function Raw(line: bytes): Verdict {
    if IsBlankOrComment(line) then Skipped
    else
      var eq := Find(line, EQUALS);
      if eq == |line| then Rejected(NoEquals) else Accepted(Record(line[..eq], line[eq + 1..], Plain))
  }

  // ---------------------------------------------------------------- printing

  function Wrap(value: bytes, kind: Kind): bytes {
    match kind
    case Plain => value
    case SingleQuoted => [SQUOTE] + value + [SQUOTE]
    case DoubleQuoted => [DQUOTE] + value + [DQUOTE]
  }

  function Pair(key: bytes, value: bytes): bytes { key + [EQUALS] + value }
  function Print(r: Record): bytes { Pair(r.key, Wrap(r.value, r.kind)) }

  /** The payloads each kind of shell value can carry. */
  predicate LegalPayload(value: bytes, kind: Kind) {
    NUL !in value &&
    match kind
    case Plain => !BadPlain(value)
    case SingleQuoted => SQUOTE !in value
    case DoubleQuoted => DQUOTE !in value
  }

  predicate LegalRecord(r: Record) { IsIdentifier(r.key) && LegalPayload(r.value, r.kind) }

  lemma PairParts(line: bytes, eq: nat)
    requires eq < |line| && line[eq] == EQUALS
    ensures line == Pair(line[..eq], line[eq + 1..])
  {}

  /** The first '=' of a printed pair separates it again. */
  lemma PairSplits(key: bytes, value: bytes)
    requires EQUALS !in key
    ensures var line := Pair(key, value);
            Find(line, EQUALS) == |key| && line[..|key|] == key && line[|key| + 1..] == value
  {
    FindUnique(Pair(key, value), EQUALS, |key|);
  }

  lemma PairNotBlank(key: bytes, value: bytes)
    ensures IsBlankOrComment(Pair(key, value)) <==> key != [] && key[0] == HASH
  {
    var line := Pair(key, value);
    var t := TrimCr(line);
    assert line[|key|] == EQUALS;
    assert t[|key|] == EQUALS && EQUALS in t;
  }

  lemma ShellValuePrints(key: bytes, value: bytes)
    requires NUL !in value && ShellValue(key, value).Accepted?
    ensures var r := ShellValue(key, value).record;
            r.key == key && Wrap(r.value, r.kind) == value && LegalPayload(r.value, r.kind)
  {
    if StartsQuoted(value) {
      var rest := value[1..];
      var close := Find(rest, value[0]);
      assert value == [value[0]] + rest[..close] + [value[0]];
    }
  }

  lemma PayloadParses(key: bytes, value: bytes, kind: Kind)
    requires LegalPayload(value, kind)
    ensures var w := Wrap(value, kind);
            ShellValue(key, w) == Accepted(Record(key, value, kind)) && !StartsBlank(w) && NUL !in w
  {
    if kind != Plain {
      var w := Wrap(value, kind);
      FindUnique(w[1..], w[0], |value|);
      assert w[1..][..|value|] == value;
    } else {
      assert value != [] ==> !BadPlainByte(value[0]);
    }
  }

  /** Every line the C shell parser accepts is the printed form of its record, and the
      record is legal. */
  lemma AcceptedPrintsBack(line: bytes)
    requires CShell(line).Accepted?
    ensures Print(CShell(line).record) == line && LegalRecord(CShell(line).record)
  {
    var eq := Find(line, EQUALS);
    PairParts(line, eq);
    ShellValuePrints(line[..eq], line[eq + 1..]);
  }

  /** Every legal record parses back from its printed form. */
  lemma LegalParsesBack(r: Record)
    requires LegalRecord(r)
    ensures CShell(Print(r)) == Accepted(r)
  {
    var value := Wrap(r.value, r.kind);
    IdentifierBytes(r.key);
    PayloadParses(r.key, r.value, r.kind);
    hide LegalPayload, ShellValue, Wrap, IsIdentifier;
    PairSplits(r.key, value);
    PairNotBlank(r.key, value);
  }

  lemma IdentifierBytes(key: bytes)
    requires IsIdentifier(key)
    ensures EQUALS !in key && NUL !in key && !StartsBlank(key) && !EndsBlank(key) && key[0] != HASH
  {}

  /** The accepted lines are exactly the printed legal records. */
  lemma AcceptedIffPrinted(line: bytes)
    ensures CShell(line).Accepted? <==> exists r :: LegalRecord(r) && Print(r) == line
  {
    if CShell(line).Accepted? {
      AcceptedPrintsBack(line);
    }
    if r :| LegalRecord(r) && Print(r) == line {
      LegalParsesBack(r);
    }
  }

  /** The kind is single-quoted exactly when the raw value starts with a single quote,
      which is the test Go and awk make instead of keeping a kind. */
  lemma SingleIffRawQuote(line: bytes)
    requires CShell(line).Accepted?
    ensures var raw := line[Find(line, EQUALS) + 1..];
            CShell(line).record.kind == SingleQuoted <==> raw != [] && raw[0] == SQUOTE
  {}

  // ---------------------------------------------------------------- agreement

  /** Same skip, accept or reject decision and same record; codes may differ. */
  predicate SameOutcome(a: Verdict, b: Verdict) { a == b || (a.Rejected? && b.Rejected?) }

  lemma CrBelongsToValue(line: bytes)
    requires EndsWith(line, CR)
    ensures var work, eq := TrimCr(line), Find(line, EQUALS);
            if eq == |line| then Find(work, EQUALS) == |work|
            else Find(work, EQUALS) == eq < |work| && line[..eq] == work[..eq] &&
                 line[eq + 1..] == work[eq + 1..] + [CR]
  {
    var work, eq := TrimCr(line), Find(line, EQUALS);
    FindUnique(work, EQUALS, if eq == |line| then |work| else eq);
  }

  /** A CR after the value: the quoted forms see trailing content, the plain one keeps it. */
  lemma CrAfterValue(key: bytes, value: bytes)
    ensures var with, without := ShellValue(key, value + [CR]), ShellValue(key, value);
            SameOutcome(with, without) <==> !without.Accepted?
  {
    var longer := value + [CR];
    if StartsQuoted(value) {
      var rest := value[1..];
      assert longer[1..] == rest + [CR];
      var close := Find(rest, value[0]);
      FindUnique(longer[1..], value[0], if close == |rest| then |longer[1..]| else close);
    } else if BadPlain(value) {
      var k :| 0 <= k < |value| && BadPlainByte(value[k]);
      assert BadPlainByte(longer[k]);
    } else {
      assert !BadPlain(longer);
    }
  }

  lemma CrPairs(key: bytes, value: bytes)
    requires NUL !in value
    ensures var c, accepted := CShellPair(key, value + [CR]), CShellPair(key, value).Accepted?;
            (SameOutcome(c, GoShellPair(key, value)) <==> !accepted) &&
            (SameOutcome(c, AsmShellPair(key, value)) <==> !accepted)
  {
    CrAfterValue(key, value);
    assert value != [] ==> (value + [CR])[0] == value[0];
  }

  /** The shell verdicts of a line ending in CR that contains '=', as functions of its parts. */
  lemma CrLineParts(line: bytes, eq: nat)
    requires NUL !in line && EndsWith(line, CR) && eq == Find(line, EQUALS) < |line|
    requires line[0] != HASH
    ensures var work := TrimCr(line);
            var key, value := work[..eq], work[eq + 1..];
            CShell(line) == CShellPair(key, value + [CR]) &&
            CShell(work) == CShellPair(key, value) &&
            GoShell(line) == GoShellPair(key, value) &&
            AsmShell(line) == AsmShellPair(key, value) && NUL !in value
  {
    hide CShellPair, GoShellPair, AsmShellPair, IsBlankOrComment, Find;
    CrBelongsToValue(line);
    var work := TrimCr(line);
    PairParts(work, eq);
    PairParts(line, eq);
    PairNotBlank(work[..eq], work[eq + 1..]);
    PairNotBlank(line[..eq], line[eq + 1..]);
    assert line[eq] == EQUALS && EQUALS in line;
  }

  /** C and Go on every NUL-free shell line: same outcome unless the line ends in CR and
      would be accepted without it. */
  lemma CAndGoShell(line: bytes)
    requires NUL !in line
    ensures SameOutcome(CShell(line), GoShell(line)) <==>
            !(EndsWith(line, CR) && CShell(TrimCr(line)).Accepted?)
  {
    var work, eq := TrimCr(line), Find(line, EQUALS);
    if EndsWith(line, CR) {
      CrBelongsToValue(line);
      if eq < |line| && line[0] != HASH {
        CrLineParts(line, eq);
        CrPairs(work[..eq], work[eq + 1..]);
      }
    }
  }

  /** C and Go agree, record and code, on every NUL-free native line. */
  lemma CAndGoNative(line: bytes)
    requires NUL !in line
    ensures CNative(line) == GoNative(line)
  {}

  /** The first test whose place differs between C and the assembly backend. */
  predicate CodesDiffer(line: bytes) {
    var eq := Find(line, EQUALS);
    eq < |line| &&
    var key, value := line[..eq], line[eq + 1..];
    key != [] && key[0] != HASH && !StartsBlank(key) && !EndsBlank(key) && !IsIdentifier(key) &&
    StartsBlank(value)
  }

  /** The two link-time backends on a NUL-free shell line without trailing CR: same outcome,
      and the same code except for one order of tests. */
  lemma CAndAsmShell(line: bytes)
    requires NUL !in line && !EndsWith(line, CR)
    ensures SameOutcome(CShell(line), AsmShell(line))
    ensures CShell(line) == AsmShell(line) <==> !CodesDiffer(line)
    ensures CodesDiffer(line) ==>
              CShell(line) == Rejected(KeyInvalid) && AsmShell(line) == Rejected(ValueLeadingBlank)
  {
    var eq := Find(line, EQUALS);
    if eq < |line| {
      PairParts(line, eq);
      PairNotBlank(line[..eq], line[eq + 1..]);
      assert line[eq] == EQUALS && EQUALS in line;
    }
  }

  /** With a trailing CR the two backends part exactly on blank lines and on lines that
      would be accepted without the CR, whatever stands in memory behind the line. */
  lemma CAndAsmShellCr(line: bytes, beyond: bytes)
    requires NUL !in line && EndsWith(line, CR) && Reaches(line, beyond)
    ensures SameOutcome(CShell(line), AsmShellIn(line, beyond)) <==>
            !AllBlank(TrimCr(line)) && !CShell(TrimCr(line)).Accepted?
  {
    if line == [CR] {
      assert TrimCr(line) == [];
    } else {
      CAndAsmLongerCr(line);
    }
  }

  lemma CAndAsmLongerCr(line: bytes)
    requires NUL !in line && EndsWith(line, CR) && line != [CR]
    ensures SameOutcome(CShell(line), AsmShell(line)) <==>
            !AllBlank(TrimCr(line)) && !CShell(TrimCr(line)).Accepted?
  {
    CrBelongsToValue(line);
    var work, eq := TrimCr(line), Find(line, EQUALS);
    assert line[|line| - 1] == CR && CR in line;
    assert work[0] in work && line[0] == work[0];
    if eq < |line| && line[0] != HASH {
      CrLineParts(line, eq);
      CrPairs(work[..eq], work[eq + 1..]);
      assert work[eq] == EQUALS && EQUALS in work;
    }
  }

  /** The native backends agree on every NUL-free line except blanks followed by CR. */
  lemma CAndAsmNative(line: bytes)
    requires NUL !in line
    ensures CNative(line) == AsmNative(line) <==> !(EndsWith(line, CR) && AllBlank(TrimCr(line)))
    ensures SameOutcome(CNative(line), AsmNative(line)) <==> CNative(line) == AsmNative(line)
  {
    var eq := Find(line, EQUALS);
    if eq < |line| {
      PairParts(line, eq);
      PairNotBlank(line[..eq], line[eq + 1..]);
      assert line[eq] == EQUALS && EQUALS in line;
      if EndsWith(line, CR) {
        CrBelongsToValue(line);
        assert TrimCr(line)[eq] == EQUALS && EQUALS in TrimCr(line);
      }
    } else if EndsWith(line, CR) {
      assert line[|line| - 1] == CR && CR in line;
      assert |line| > 1 ==> line[0] in TrimCr(line);
    }
  }

  /** The reference implementation decides as C on every NUL-free line, trailing CR or not,
      with the same code except for the one order of tests. */
  lemma CAndAwkShell(line: bytes)
    requires NUL !in line
    ensures SameOutcome(CShell(line), AwkShell(line))
    ensures CShell(line) == AwkShell(line) <==> !CodesDiffer(line)
  {
    var eq := Find(line, EQUALS);
    if eq < |line| {
      PairParts(line, eq);
      PairNotBlank(line[..eq], line[eq + 1..]);
    }
  }

  /** The records C accepts and awk hands on are the same except for one value: a payload of
      the single byte 1 is silently dropped by awk, as in the line A= followed by that byte. */
  lemma AwkLosesSentinel(native: bool, line: bytes)
    requires NUL !in line
    ensures var v := CVerdict(native, line);
            AwkHandsOn(native, line) <==> v.Accepted? && v.record.value != AWK_SENTINEL
    ensures var l := [65, EQUALS, 1];
            CVerdict(native, l) == Accepted(Record([65], [1], Plain)) && !AwkHandsOn(native, l)
  {
    SentinelLine();
    CAndAwkShell(line);
    CAndGoNative(line);
    hide CShell, CNative, AwkShell, GoNative;
  }

  /** The line A= and the sentinel is accepted by all. */
  lemma SentinelLine()
    ensures var l, v := [65, EQUALS, 1], Accepted(Record([65], [1], Plain));
            CShell(l) == AwkShell(l) == v && CNative(l) == GoNative(l) == v
  {
    var r := Record([65], [1], Plain);
    var l := [65, EQUALS, 1];
    assert Print(r) == l == Pair([65], [1]) && NUL !in l;
    LegalParsesBack(r);
    PairSplits([65], [1]);
    PairNotBlank([65], [1]);
    CAndAwkShell(l);
    CAndGoNative(l);
    hide CShell, AwkShell, GoNative, IsBlankOrComment, Find;
  }

  // The lines on which the shell classifiers part.

  /** An unquoted record followed by CR: C keeps the CR, Go and the assembly backend drop it. */
  lemma CrLineParted(key: bytes, value: bytes)
    requires IsIdentifier(key) && LegalPayload(value, Plain)
    ensures var l := Pair(key, value + [CR]);
            CShell(l) == Accepted(Record(key, value + [CR], Plain)) &&
            GoShell(l) == Accepted(Record(key, value, Plain)) &&
            l != [CR] && AsmShell(l) == Accepted(Record(key, value, Plain))
  {
    var l := Pair(key, value + [CR]);
    IdentifierBytes(key);
    LegalParsesBack(Record(key, value + [CR], Plain));
    PayloadParses(key, value, Plain);
    PairSplits(key, value + [CR]);
    PairSplits(key, value);
    assert TrimCr(l) == Pair(key, value) && l[0] == key[0];
    hide CShell, GoShell, AsmShell, Find, IsBlankOrComment, IsIdentifier, ShellValue;
    CrLineParts(l, |key|);
  }

  /** "1= x": C faults the key, the assembly backend the value. */
  lemma CodesParted()
    ensures var l := [49, EQUALS, SPACE, 120];
            CShell(l) == Rejected(KeyInvalid) && AsmShell(l) == Rejected(ValueLeadingBlank)
  {
    var key, value := [49], [SPACE, 120];
    PairSplits(key, value);
    assert [49, EQUALS, SPACE, 120] == Pair(key, value);
    hide CShell, AsmShell, Find;
    CAndAsmShell(Pair(key, value));
  }

  /** A blank followed by CR: C skips it, the assembly backend finds no '='. */
  lemma BlankCrParted()
    ensures var l := [SPACE, CR]; CShell(l) == Skipped && AsmShell(l) == Rejected(NoEquals)
  {
    var l := [SPACE, CR];
    assert TrimCr(l) == [SPACE] && l[1] in l;
    FindUnique([SPACE], EQUALS, 1);
    hide Find, AsmShellPair, CShellPair;
  }
}
