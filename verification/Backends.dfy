/** The two link-time interchangeable record classifiers, as loops over one line. */
module Backends {
  import opened Bytes
  import opened Records

  datatype Status = Skip | Ok | Err(code: Code)

  /** The out record: offsets into the line stand for the pointers of the C struct. */
  class EnvfileRecord {
    var keyLen: nat
    var valueAt: nat
    var valueLen: nat
    var kind: Kind

    constructor ()
      ensures keyLen == 0 && valueAt == 0 && valueLen == 0 && kind == Plain
    {
      keyLen, valueAt, valueLen, kind := 0, 0, 0, Plain;
    }

    method Fill(keyLen: nat, valueAt: nat, valueLen: nat, kind: Kind)
      modifies this
      ensures this.keyLen == keyLen && this.valueAt == valueAt
      ensures this.valueLen == valueLen && this.kind == kind
    {
      this.keyLen, this.valueAt, this.valueLen, this.kind := keyLen, valueAt, valueLen, kind;
    }
  }

  /** The status code and the out record together say exactly verdict about line. */
  ghost predicate Reports(line: bytes, status: Status, out: EnvfileRecord, verdict: Verdict)
    reads out
  {
    match status
    case Skip => verdict == Skipped
    case Err(code) => verdict == Rejected(code)
    case Ok =>
      out.keyLen <= |line| && out.valueAt + out.valueLen <= |line| &&
      verdict == Accepted(Record(line[..out.keyLen], line[out.valueAt..out.valueAt + out.valueLen], out.kind))
  }

  // ---------------------------------------------------------------- backend.c

  method BlankOrComment(s: bytes) returns (r: bool)
    ensures r == IsBlankOrComment(s)
  {
    var len := |s|;
    if len > 0 && s[len - 1] == CR { len := len - 1; }
    assert TrimCr(s) == s[..len];
    if len == 0 || s[0] == HASH { return true; }
    var i := 0;
    while i < len
      invariant 0 <= i <= len
      invariant forall k :: 0 <= k < i ==> IsBlankByte(s[k])
    {
      if !IsBlankByte(s[i]) {
        assert s[i] in s[..len];
        return false;
      }
      i := i + 1;
    }
    return true;
  }

  method CParseShell(line: bytes, out: EnvfileRecord) returns (status: Status)
    modifies out
    ensures Reports(line, status, out, CShell(line))
  {
    var blank := BlankOrComment(line);
    if blank { return Skip; }
    if NUL in line { return Err(ValueInvalid); }
    var keyLen := Find(line, EQUALS);
    if keyLen == |line| { return Err(NoEquals); }
    ghost var key, val := line[..keyLen], line[keyLen + 1..];
    assert CShell(line) == CShellPair(key, val);
    if keyLen == 0 { return Err(EmptyKey); }
    if IsBlankByte(line[0]) { return Err(KeyLeadingBlank); }
    if IsBlankByte(line[keyLen - 1]) { return Err(KeyTrailingBlank); }
    if !IsNameStart(line[0]) { return Err(KeyInvalid); }
    var i := 1;
    while i < keyLen
      invariant 1 <= i <= keyLen
      invariant forall k :: 1 <= k < i ==> IsNameRest(line[k])
    {
      if !IsNameRest(line[i]) {
        assert key[i] == line[i];
        return Err(KeyInvalid);
      }
      i := i + 1;
    }
    status := CParseShellValue(line, keyLen, out);
  }

  method CParseShellValue(line: bytes, keyLen: nat, out: EnvfileRecord) returns (status: Status)
    requires keyLen < |line| && IsIdentifier(line[..keyLen])
    modifies out
    ensures Reports(line, status, out, CShellPair(line[..keyLen], line[keyLen + 1..]))
  {
    ghost var key, val := line[..keyLen], line[keyLen + 1..];
    IdentifierBytes(key);
    var value := keyLen + 1;
    var valueLen := |line| - keyLen - 1;
    if valueLen > 0 && IsBlankByte(line[value]) { return Err(ValueLeadingBlank); }
    if valueLen > 0 && (line[value] == DQUOTE || line[value] == SQUOTE) {
      var quote := line[value];
      assert val[1..] == line[value + 1..];
      var close := Find(line[value + 1..], quote);
      if close == valueLen - 1 {
        return Err(if quote == DQUOTE then DoubleUnterminated else SingleUnterminated);
      }
      if value + 1 + close + 1 != |line| { return Err(TrailingContent); }
      assert line[value + 1..value + 1 + close] == val[1..][..close];
      out.Fill(keyLen, value + 1, close, if quote == SQUOTE then SingleQuoted else DoubleQuoted);
      return Ok;
    }
    var i := 0;
    while i < valueLen
      invariant 0 <= i <= valueLen
      invariant forall k :: 0 <= k < i ==> !BadPlainByte(val[k])
    {
      if BadPlainByte(line[value + i]) {
        assert BadPlainByte(val[i]);
        return Err(ValueInvalid);
      }
      i := i + 1;
    }
    assert line[value..value + valueLen] == val;
    out.Fill(keyLen, value, valueLen, Plain);
    return Ok;
  }

  method CParseNative(line: bytes, out: EnvfileRecord) returns (status: Status)
    modifies out
    ensures Reports(line, status, out, CNative(line))
  {
    var blank := BlankOrComment(line);
    if blank { return Skip; }
    if NUL in line { return Err(ValueInvalid); }
    var keyLen := Find(line, EQUALS);
    if keyLen == |line| { return Err(NoEquals); }
    if keyLen == 0 { return Err(EmptyKey); }
    out.Fill(keyLen, keyLen + 1, |line| - keyLen - 1, Plain);
    assert line[keyLen + 1..keyLen + 1 + (|line| - keyLen - 1)] == line[keyLen + 1..];
    return Ok;
  }

  // ---------------------------------------------------------------- backend.asm
  // Register names are kept; addresses are offsets from rdi, the start of the line.

  /** .blank_loop: true when the loop runs out of bytes. */
  method AsmBlankLoop(line: bytes, rsi: nat) returns (blank: bool)
    requires 0 < rsi == |line|
    ensures blank == AllBlank(line)
  {
    var rcx, rdx := rsi, 0;
    while rcx != 0
      invariant rcx + rdx == rsi
      invariant forall k :: 0 <= k < rdx ==> IsBlankByte(line[k])
    {
      var al := line[rdx];
      if !IsBlankByte(al) {
        assert al in line;
        return false;
      }
      rdx, rcx := rdx + 1, rcx - 1;
    }
    return true;
  }

  /** .find_eq / .find_close: the first c in [rdx, rdx + rcx), with the bytes left there. */
  method AsmScan(line: bytes, start: nat, count: nat, c: byte) returns (rdx: nat, rcx: nat)
    requires start + count <= |line|
    ensures rdx == start + Find(line[start..start + count], c) && rcx == start + count - rdx
  {
    rcx, rdx := count, start;
    while rcx != 0 && line[rdx] != c
      invariant rdx + rcx == start + count && start <= rdx
      invariant forall k :: start <= k < rdx ==> line[k] != c
    {
      rdx, rcx := rdx + 1, rcx - 1;
    }
    FindUnique(line[start..start + count], c, rdx - start);
  }

  /** .validate_key: first byte, then .key_rest_loop. */
  method AsmValidateKey(line: bytes, rbx: nat) returns (valid: bool)
    requires 0 < rbx <= |line|
    ensures valid == IsIdentifier(line[..rbx])
  {
    if !IsNameStart(line[0]) { return false; }
    var rcx, rdx := rbx - 1, 1;
    while rcx != 0
      invariant 0 <= rcx && rdx + rcx == rbx && rdx >= 1
      invariant forall k :: 1 <= k < rdx ==> IsNameRest(line[k])
    {
      if !IsNameRest(line[rdx]) {
        assert line[..rbx][rdx] == line[rdx];
        return false;
      }
      rdx, rcx := rdx + 1, rcx - 1;
    }
    return true;
  }

  /** The line stands in memory in front of the bytes beyond. */
  method AsmParseShell(line: bytes, beyond: bytes, out: EnvfileRecord) returns (rax: Status)
    requires Reaches(line, beyond) && |line + beyond| < REGISTER
    modifies out
    ensures Reports(line, rax, out, AsmShellIn(line, beyond))
  {
    var rsi := |line|;
    if rsi == 0 { return Skip; }
    assert line[0] in line;
    var blank := AsmBlankLoop(line, rsi);
    if blank { return Skip; }
    if line[0] == HASH { return Skip; }
    if line[rsi - 1] == CR { rsi := rsi - 1; }
    assert line[..rsi] == TrimCr(line);
    if rsi == 0 {
      assert line == [CR];
      rax := AsmScanPast(line, beyond);
    } else {
      rax := AsmScanEq(line, rsi, out);
    }
  }

  // The number of values of a 64-bit register.
  const REGISTER: nat := 0x1_0000_0000_0000_0000

  /** .scan_eq entered with rcx = 0: the counter wraps around, so that the loop ends at the
      first '=' in memory; its key starts with the CR. */
  method AsmScanPast(line: bytes, beyond: bytes) returns (rax: Status)
    requires line == [CR] && Reaches(line, beyond) && |line + beyond| < REGISTER
    ensures rax.Err? && AsmLoneCr(beyond) == Rejected(rax.code)
  {
    var mem := line + beyond;
    var rcx, rdx := 0, 0;
    ghost var eq := Find(beyond, EQUALS);
    assert mem[eq + 1] == EQUALS;
    while mem[rdx] != EQUALS
      invariant 0 <= rdx <= eq + 1 && rcx == (if rdx == 0 then 0 else REGISTER - rdx)
      invariant forall k :: 0 <= k < rdx ==> mem[k] != EQUALS
      decreases eq + 1 - rdx
    {
      assert rdx > 0 ==> mem[rdx] == beyond[rdx - 1];
      rdx, rcx := rdx + 1, (rcx + REGISTER - 1) % REGISTER;
      if rcx == 0 { return Err(NoEquals); }
    }
    assert rdx == eq + 1 && mem[rdx - 1] == if eq == 0 then CR else beyond[eq - 1];
    var rbx := rdx;
    var r13 := (REGISTER + 0 - rbx - 1) % REGISTER;
    if IsBlankByte(mem[0]) { return Err(KeyLeadingBlank); }
    if IsBlankByte(mem[rbx - 1]) { return Err(KeyTrailingBlank); }
    if r13 != 0 && IsBlankByte(mem[rdx + 1]) { return Err(ValueLeadingBlank); }
    if !IsNameStart(mem[0]) { return Err(KeyInvalid); }
    assert false;
  }

  /** .scan_eq: the line is neither blank nor a comment; only its first rsi bytes count. */
  method AsmScanEq(line: bytes, rsi: nat, out: EnvfileRecord) returns (rax: Status)
    requires rsi <= |line|
    modifies out
    ensures var work := line[..rsi];
            var eq := Find(work, EQUALS);
            Reports(line, rax, out,
                    if eq == |work| then Rejected(NoEquals) else AsmShellPair(work[..eq], work[eq + 1..]))
  {
    var rdx, rcx := AsmScan(line, 0, rsi, EQUALS);
    assert line[0..0 + rsi] == line[..rsi];
    if rcx == 0 { return Err(NoEquals); }
    var rbx := rdx;
    var r13 := rsi - rbx - 1;
    var r12 := rdx + 1;
    hide AsmShellPair;
    assert line[..rbx] == line[..rsi][..rbx] && line[r12..r12 + r13] == line[..rsi][rbx + 1..];
    rax := AsmFoundEq(line, rbx, r12, r13, out);
  }

  /** .found_eq: the checks on key and value, key bytes [0, rbx), value bytes [r12, r12 + r13). */
  method AsmFoundEq(line: bytes, rbx: nat, r12: nat, r13: nat, out: EnvfileRecord) returns (rax: Status)
    requires rbx <= |line| && r12 + r13 <= |line|
    modifies out
    ensures Reports(line, rax, out, AsmShellPair(line[..rbx], line[r12..r12 + r13]))
  {
    if rbx == 0 { return Err(EmptyKey); }
    if IsBlankByte(line[0]) { return Err(KeyLeadingBlank); }
    if IsBlankByte(line[rbx - 1]) { return Err(KeyTrailingBlank); }
    if r13 != 0 && IsBlankByte(line[r12]) { return Err(ValueLeadingBlank); }
    var valid := AsmValidateKey(line, rbx);
    if !valid { return Err(KeyInvalid); }
    rax := AsmShellValue(line, rbx, r12, r13, out);
  }

  /** .value_check onwards: key and leading blanks are already checked. */
  method AsmShellValue(line: bytes, rbx: nat, r12: nat, r13: nat, out: EnvfileRecord) returns (rax: Status)
    requires rbx <= |line| && r12 + r13 <= |line|
    requires IsIdentifier(line[..rbx]) && !StartsBlank(line[r12..r12 + r13])
    modifies out
    ensures Reports(line, rax, out, AsmShellPair(line[..rbx], line[r12..r12 + r13]))
  {
    ghost var key, val := line[..rbx], line[r12..r12 + r13];
    IdentifierBytes(key);
    if r13 != 0 && (line[r12] == DQUOTE || line[r12] == SQUOTE) {
      rax := AsmQuoted(line, rbx, r12, r13, out);
    } else {
      // .unquoted_scan
      var rcx, rdx := r13, r12;
      while rcx != 0
        invariant 0 <= rcx && r12 <= rdx && rdx + rcx == r12 + r13
        invariant forall k :: 0 <= k < rdx - r12 ==> val[k] != NUL && !BadPlainByte(val[k])
      {
        var al := line[rdx];
        if al == NUL || BadPlainByte(al) {
          assert val[rdx - r12] == al;
          return Err(ValueInvalid);
        }
        rdx, rcx := rdx + 1, rcx - 1;
      }
      out.Fill(rbx, r12, r13, Plain);
      return Ok;
    }
  }

  /** .quoted: r11 is the opening quote; the close must be the last byte. */
  method AsmQuoted(line: bytes, rbx: nat, r12: nat, r13: nat, out: EnvfileRecord) returns (rax: Status)
    requires rbx <= |line| && r12 + r13 <= |line| && r13 > 0 && StartsQuoted(line[r12..r12 + r13])
    modifies out
    ensures Reports(line, rax, out, ShellValue(line[..rbx], line[r12..r12 + r13]))
  {
    ghost var val := line[r12..r12 + r13];
    var r11 := line[r12];
    var rdx, rcx := AsmScan(line, r12 + 1, r13 - 1, r11);
    assert line[r12 + 1..r12 + 1 + (r13 - 1)] == val[1..];
    if rcx == 0 {
      return Err(if r11 == DQUOTE then DoubleUnterminated else SingleUnterminated);
    }
    rcx := rcx - 1;
    if rcx != 0 { return Err(TrailingContent); }
    var len := rdx - (r12 + 1);
    assert line[r12 + 1..r12 + 1 + len] == val[1..][..len];
    out.Fill(rbx, r12 + 1, len, if r11 == SQUOTE then SingleQuoted else DoubleQuoted);
    return Ok;
  }

  method AsmParseNative(line: bytes, out: EnvfileRecord) returns (rax: Status)
    modifies out
    ensures Reports(line, rax, out, AsmNative(line))
  {
    var rsi := |line|;
    if rsi == 0 { return Skip; }
    var blank := AsmBlankLoop(line, rsi);
    if blank { return Skip; }
    if line[0] == HASH { return Skip; }
    var rdx, rcx := AsmScan(line, 0, rsi, EQUALS);
    assert line[0..0 + rsi] == line;
    if rcx == 0 { return Err(NoEquals); }
    var rbx := rdx;
    if rbx == 0 { return Err(EmptyKey); }
    var r12 := rbx + 1;
    var r13 := rsi - rbx - 1;
    ghost var val := line[rbx + 1..];
    rcx, rdx := r13, r12;
    while rcx != 0
      invariant 0 <= rcx && r12 <= rdx && rdx + rcx == r12 + r13
      invariant forall k :: 0 <= k < rdx - r12 ==> val[k] != NUL
    {
      if line[rdx] == NUL {
        assert val[rdx - r12] == NUL;
        return Err(ValueInvalid);
      }
      rdx, rcx := rdx + 1, rcx - 1;
    }
    out.Fill(rbx, r12, r13, Plain);
    assert line[r12..r12 + r13] == val;
    return Ok;
  }
}
