/** References in values: a lossless tokeniser, its meaning over an environment, and the
    growable string buffer the C walk writes into. */
module Substitution {
  import opened Bytes

  type Env = map<bytes, bytes>

  /** A piece of a value: text kept as it is, or a reference $name / ${name}. */
  datatype Token = Literal(text: bytes) | Ref(name: bytes, braced: bool)

  function Source(t: Token): bytes {
    match t
    case Literal(text) => text
    case Ref(name, braced) => if braced then [DOLLAR, LBRACE] + name + [RBRACE] else [DOLLAR] + name
  }

  /** End of the run of name bytes that starts at i. */
  function NameEnd(v: bytes, i: nat): (r: nat)
    requires i <= |v|
    ensures i <= r <= |v|
    ensures forall k :: i <= k < r ==> IsNameRest(v[k])
    ensures r < |v| ==> !IsNameRest(v[r])
    decreases |v| - i
  {
    if i == |v| || !IsNameRest(v[i]) then i else NameEnd(v, i + 1)
  }

  /** The token at position i of v. */
  function TokenAt(v: bytes, i: nat): (t: Token)
    requires i < |v|
    ensures 0 < |Source(t)| <= |v| - i
  {
    var d := FindFrom(v, DOLLAR, i);
    if d > i then Literal(v[i..d])
    else if i + 1 < |v| && v[i + 1] == LBRACE then
      var close := FindFrom(v, RBRACE, i + 2);
      if close == |v| then Literal(v[i..]) else Ref(v[i + 2..close], true)
    else if i + 1 < |v| && IsNameStart(v[i + 1]) then Ref(v[i + 1..NameEnd(v, i + 2)], false)
    else Literal([DOLLAR])
  }

  function TokensFrom(v: bytes, i: nat): seq<Token>
    requires i <= |v|
    decreases |v| - i
  {
    if i == |v| then [] else [TokenAt(v, i)] + TokensFrom(v, i + |Source(TokenAt(v, i))|)
  }

  function Tokens(v: bytes): seq<Token> { TokensFrom(v, 0) }

  function Text(ts: seq<Token>): bytes {
    if ts == [] then [] else Source(ts[0]) + Text(ts[1..])
  }

  // ---------------------------------------------------------------- meaning

  function Meaning(t: Token, env: Env): bytes {
    match t
    case Literal(text) => text
    case Ref(name, _) => if name in env then env[name] else []
  }

  /** Each reference is replaced once; what replaces it is never scanned again. */
  function Expand(ts: seq<Token>, env: Env): bytes {
    if ts == [] then [] else Meaning(ts[0], env) + Expand(ts[1..], env)
  }

  /** The names referred to, in order. */
  function Refs(ts: seq<Token>): seq<bytes> {
    if ts == [] then [] else (if ts[0].Ref? then [ts[0].name] else []) + Refs(ts[1..])
  }

  /** The names of the unbound reference tokens, in order. */
  function Unbound(names: seq<bytes>, env: Env): seq<bytes> {
    if names == [] then [] else (if names[0] in env then [] else [names[0]]) + Unbound(names[1..], env)
  }

  function Subst(v: bytes, env: Env): bytes { Expand(Tokens(v), env) }
  function Missing(v: bytes, env: Env): seq<bytes> { Unbound(Refs(Tokens(v)), env) }

  /** The same two from position i, as the walks see them. */
  function SubstFrom(v: bytes, i: nat, env: Env): bytes
    requires i <= |v|
  { Expand(TokensFrom(v, i), env) }

  function MissingFrom(v: bytes, i: nat, env: Env): seq<bytes>
    requires i <= |v|
  { Unbound(Refs(TokensFrom(v, i)), env) }

  // ---------------------------------------------------------------- the tokeniser is lossless and canonical

  lemma TokenText(v: bytes, i: nat)
    requires i < |v|
    ensures var t := TokenAt(v, i); v[i..i + |Source(t)|] == Source(t)
  {
    var t := TokenAt(v, i);
    if t.Ref? {
      var n := if t.braced then i + 2 else i + 1;
      var e := n + |t.name|;
      assert v[n..e] == t.name && v[i] == DOLLAR;
      assert t.braced ==> v[i + 1] == LBRACE && v[e] == RBRACE;
      hide TokenAt, NameEnd, FindFrom;
      forall k | i <= k < i + |Source(t)| ensures v[k] == Source(t)[k - i] {
        if n <= k < e { assert v[k] == v[n..e][k - n]; }
      }
    }
  }

  lemma {:induction false} TokensText(v: bytes, i: nat)
    requires i <= |v|
    ensures Text(TokensFrom(v, i)) == v[i..]
    decreases |v| - i
  {
    hide TokenAt;
    if i < |v| {
      var t := TokenAt(v, i);
      var next := i + |Source(t)|;
      TokenText(v, i);
      TokensText(v, next);
      TokensCons(t, TokensFrom(v, next), v, i);
      TextCons(t, TokensFrom(v, next));
      Cut(v, i, next);
    }
  }

  lemma Cut(v: bytes, i: nat, j: nat)
    requires i <= j <= |v|
    ensures v[i..] == v[i..j] + v[j..]
  {}

  lemma TextCons(t: Token, ts: seq<Token>)
    ensures Text([t] + ts) == Source(t) + Text(ts)
  {
    assert ([t] + ts)[1..] == ts;
  }

  lemma Lossless(v: bytes)
    ensures Text(Tokens(v)) == v
  {
    TokensText(v, 0);
  }

  /** When t is the only reading of its own text before the text next. */
  predicate CanonicalBefore(t: Token, next: bytes) {
    match t
    case Literal(x) => PlainText(x, next) || LoneDollar(x, next) || Unclosed(x, next)
    case Ref(name, braced) =>
      if braced then RBRACE !in name else IsIdentifier(name) && (next == [] || !IsNameRest(next[0]))
  }

  /** Text up to the next '$' or the end. */
  predicate PlainText(x: bytes, next: bytes) {
    x != [] && DOLLAR !in x && (next == [] || next[0] == DOLLAR)
  }

  /** A '$' that starts no reference. */
  predicate LoneDollar(x: bytes, next: bytes) {
    x == [DOLLAR] && (next == [] || !(next[0] == LBRACE || IsNameStart(next[0])))
  }

  /** A "${" that is never closed, with all that follows it. */
  predicate Unclosed(x: bytes, next: bytes) {
    |x| >= 2 && x[0] == DOLLAR && x[1] == LBRACE && RBRACE !in x[2..] && next == []
  }

  predicate Canonical(ts: seq<Token>) {
    ts == [] || (CanonicalBefore(ts[0], Text(ts[1..])) && Canonical(ts[1..]))
  }

  lemma TokenIsCanonical(v: bytes, i: nat)
    requires i < |v|
    ensures var t := TokenAt(v, i); CanonicalBefore(t, v[i + |Source(t)|..])
  {
    var d := FindFrom(v, DOLLAR, i);
    var t := TokenAt(v, i);
    if d > i {
      assert PlainText(t.text, v[d..]);
    } else if i + 1 < |v| && v[i + 1] == LBRACE {
    } else if i + 1 < |v| && IsNameStart(v[i + 1]) {
      assert IsIdentifier(t.name);
    } else {
      assert LoneDollar(t.text, v[i + 1..]);
    }
  }

  lemma {:induction false} TokensCanonical(v: bytes, i: nat)
    requires i <= |v|
    ensures Canonical(TokensFrom(v, i))
    decreases |v| - i
  {
    if i < |v| {
      hide TokenAt, CanonicalBefore;
      var next := i + |Source(TokenAt(v, i))|;
      TokenIsCanonical(v, i);
      TokensText(v, next);
      TokensCanonical(v, next);
    }
  }

  /** s stands at position i of v. */
  predicate At(v: bytes, i: nat, s: bytes) {
    i + |s| <= |v| && forall k :: i <= k < i + |s| ==> v[k] == s[k - i]
  }

  lemma FindFromUnique(v: bytes, c: byte, i: nat, r: nat)
    requires i <= r <= |v| && (forall k :: i <= k < r ==> v[k] != c) && (r < |v| ==> v[r] == c)
    ensures FindFrom(v, c, i) == r
  {}

  lemma NameEndUnique(v: bytes, i: nat, r: nat)
    requires i <= r <= |v| && (forall k :: i <= k < r ==> IsNameRest(v[k])) && (r < |v| ==> !IsNameRest(v[r]))
    ensures NameEnd(v, i) == r
  {}

  lemma LiteralIsToken(v: bytes, i: nat, x: bytes)
    requires At(v, i, x) && CanonicalBefore(Literal(x), v[i + |x|..])
    ensures i < |v| && TokenAt(v, i) == Literal(x)
  {
    var n := i + |x|;
    var next := v[n..];
    assert next != [] ==> next[0] == v[n];
    if PlainText(x, next) {
      FindFromUnique(v, DOLLAR, i, n);
      assert v[i..n] == x;
    } else {
      assert v[i] == x[0] == DOLLAR;
      FindFromUnique(v, DOLLAR, i, i);
      if Unclosed(x, next) {
        forall k | i + 2 <= k < n ensures v[k] != RBRACE { assert v[k] == x[2..][k - i - 2]; }
        FindFromUnique(v, RBRACE, i + 2, n);
        assert v[i + 1] == x[1] && v[i..] == x;
      }
    }
  }

  lemma BracedIsToken(v: bytes, i: nat, name: bytes)
    requires At(v, i, [DOLLAR, LBRACE] + name + [RBRACE]) && RBRACE !in name
    ensures TokenAt(v, i) == Ref(name, true)
  {
    var s := [DOLLAR, LBRACE] + name + [RBRACE];
    var close := i + 2 + |name|;
    assert v[i] == s[0] && v[i + 1] == s[1] && v[close] == s[2 + |name|];
    FindFromUnique(v, DOLLAR, i, i);
    forall k | i + 2 <= k < close ensures v[k] == name[k - i - 2] { assert v[k] == s[k - i]; }
    FindFromUnique(v, RBRACE, i + 2, close);
    assert v[i + 2..close] == name;
  }

  lemma NameIsToken(v: bytes, i: nat, name: bytes)
    requires At(v, i, [DOLLAR] + name) && IsIdentifier(name)
    requires i + 1 + |name| < |v| ==> !IsNameRest(v[i + 1 + |name|])
    ensures TokenAt(v, i) == Ref(name, false)
  {
    var s := [DOLLAR] + name;
    var end := i + 1 + |name|;
    assert v[i] == s[0] && v[i + 1] == s[1];
    FindFromUnique(v, DOLLAR, i, i);
    forall k | i + 1 <= k < end ensures v[k] == name[k - i - 1] { assert v[k] == s[k - i]; }
    NameEndUnique(v, i + 2, end);
    assert v[i + 1..end] == name;
  }

  lemma CanonicalIsToken(v: bytes, i: nat, t: Token)
    requires At(v, i, Source(t)) && CanonicalBefore(t, v[i + |Source(t)|..])
    ensures i < |v| && TokenAt(v, i) == t
  {
    match t
    case Literal(x) => LiteralIsToken(v, i, x);
    case Ref(name, braced) =>
      if braced { BracedIsToken(v, i, name); } else { NameIsToken(v, i, name); }
  }

  lemma HeadOfText(v: bytes, i: nat, head: bytes, tail: bytes)
    requires i <= |v| && v[i..] == head + tail
    ensures At(v, i, head) && v[i + |head|..] == tail
  {
    forall k | i <= k < i + |head| ensures v[k] == head[k - i] { assert v[k] == v[i..][k - i]; }
    assert v[i + |head|..] == v[i..][|head|..];
  }

  lemma CanonicalHead(ts: seq<Token>, v: bytes, i: nat)
    requires ts != [] && i <= |v| && Canonical(ts) && Text(ts) == v[i..]
    ensures i < |v| && TokenAt(v, i) == ts[0] && Canonical(ts[1..])
    ensures Text(ts[1..]) == v[i + |Source(ts[0])|..]
  {
    hide TokenAt;
    HeadOfText(v, i, Source(ts[0]), Text(ts[1..]));
    CanonicalIsToken(v, i, ts[0]);
  }

  lemma TokensCons(t: Token, rest: seq<Token>, v: bytes, i: nat)
    requires i < |v| && TokenAt(v, i) == t && rest == TokensFrom(v, i + |Source(t)|)
    ensures TokensFrom(v, i) == [t] + rest
  { hide TokenAt; }

  lemma {:induction false} CanonicalUnique(ts: seq<Token>, v: bytes, i: nat)
    requires i <= |v| && Canonical(ts) && Text(ts) == v[i..]
    ensures ts == TokensFrom(v, i)
  {
    if ts == [] {
      assert |v[i..]| == 0;
    } else {
      hide TokenAt, CanonicalBefore, Canonical, Text, TokensFrom;
      CanonicalHead(ts, v, i);
      CanonicalUnique(ts[1..], v, i + |Source(ts[0])|);
      TokensCons(ts[0], ts[1..], v, i);
      assert ts == [ts[0]] + ts[1..];
    }
  }

  /** The tokens of v are the one canonical token list whose source text is v. */
  lemma TokensUnique(v: bytes, ts: seq<Token>)
    ensures ts == Tokens(v) <==> Canonical(ts) && Text(ts) == v
  {
    Lossless(v);
    TokensCanonical(v, 0);
    if Canonical(ts) && Text(ts) == v {
      assert v[0..] == v;
      CanonicalUnique(ts, v, 0);
    }
  }

  // ---------------------------------------------------------------- growth

  predicate Bounded(env: Env, m: nat) { forall k :: k in env ==> |env[k]| <= m }

  lemma MeaningBound(t: Token, env: Env, m: nat)
    requires Bounded(env, m)
    ensures |Meaning(t, env)| <= |Source(t)| * Max(1, m)
  {
    var n, b := |Source(t)|, Max(1, m);
    match t
    case Literal(text) => assert n <= n * b;
    case Ref(name, _) => assert 1 <= n; assert b <= n * b;
  }

  lemma {:induction false} ExpandBound(ts: seq<Token>, env: Env, m: nat)
    requires Bounded(env, m)
    ensures |Expand(ts, env)| <= |Text(ts)| * Max(1, m)
  {
    if ts != [] {
      MeaningBound(ts[0], env, m);
      ExpandBound(ts[1..], env, m);
      Distribute(|Source(ts[0])|, |Text(ts[1..])|, Max(1, m));
    }
  }

  lemma Distribute(x: nat, y: nat, b: nat)
    ensures (x + y) * b == x * b + y * b
  {}

  /** One substitution grows a value at most by the longest environment value. */
  lemma SubstBound(v: bytes, env: Env, m: nat)
    requires Bounded(env, m)
    ensures |Subst(v, env)| <= |v| * Max(1, m)
  {
    Lossless(v);
    ExpandBound(Tokens(v), env, m);
  }

  // ---------------------------------------------------------------- locality

  lemma {:induction false} ExpandAgree(ts: seq<Token>, e1: Env, e2: Env)
    requires forall n :: n in Refs(ts) ==> (n in e1 <==> n in e2) && (n in e1 ==> e1[n] == e2[n])
    ensures Expand(ts, e1) == Expand(ts, e2)
  {
    if ts != [] {
      assert forall n :: n in Refs(ts[1..]) ==> n in Refs(ts);
      if ts[0].Ref? { assert ts[0].name == Refs(ts)[0]; }
      ExpandAgree(ts[1..], e1, e2);
    }
  }

  lemma {:induction false} UnboundAgree(names: seq<bytes>, e1: Env, e2: Env)
    requires forall n :: n in names ==> (n in e1 <==> n in e2)
    ensures Unbound(names, e1) == Unbound(names, e2)
  {
    if names != [] {
      assert names[0] in names;
      UnboundAgree(names[1..], e1, e2);
    }
  }

  /** A byte that is in neither the value nor the environment is not in the result. */
  lemma {:induction false} ExpandBytes(ts: seq<Token>, env: Env, c: byte)
    requires c !in Text(ts) && forall k :: k in env ==> c !in env[k]
    ensures c !in Expand(ts, env)
  {
    if ts != [] { ExpandBytes(ts[1..], env, c); }
  }

  // ---------------------------------------------------------------- steps of the walks

  /** Copying up to the next '$' keeps the rest of the work. */
  lemma StepLiteral(v: bytes, i: nat, env: Env)
    requires i <= |v|
    ensures var d := FindFrom(v, DOLLAR, i);
            SubstFrom(v, i, env) == v[i..d] + SubstFrom(v, d, env) &&
            MissingFrom(v, i, env) == MissingFrom(v, d, env)
  {
    hide SubstFrom, MissingFrom;
    var d := FindFrom(v, DOLLAR, i);
    var text := v[i..d];
    if d > i {
      assert TokenAt(v, i) == Literal(text);
      hide TokenAt, FindFrom;
      StepToken(v, i, env);
      assert [] + MissingFrom(v, d, env) == MissingFrom(v, d, env);
    } else {
      assert text == [];
      assert [] + SubstFrom(v, d, env) == SubstFrom(v, d, env);
    }
  }

  lemma StepToken(v: bytes, i: nat, env: Env)
    requires i < |v|
    ensures var t := TokenAt(v, i);
            var next := i + |Source(t)|;
            SubstFrom(v, i, env) == Meaning(t, env) + SubstFrom(v, next, env) &&
            MissingFrom(v, i, env) ==
              (if t.Ref? && t.name !in env then [t.name] else []) + MissingFrom(v, next, env)
  {
    hide TokenAt;
    var t := TokenAt(v, i);
    var rest := TokensFrom(v, i + |Source(t)|);
    assert TokensFrom(v, i) == [t] + rest;
    assert TokensFrom(v, i)[1..] == rest;
    if t.Ref? {
      assert Refs([t] + rest) == [t.name] + Refs(rest);
      assert Refs([t] + rest)[1..] == Refs(rest);
    } else {
      assert Refs([t] + rest) == Refs(rest);
    }
  }

  /** The reference to name at pos is resolved once and the walk goes on at next. */
  ghost predicate RefStep(v: bytes, pos: nat, name: bytes, next: nat, env: Env)
    requires pos <= |v| && next <= |v|
  {
    SubstFrom(v, pos, env) == (if name in env then env[name] else []) + SubstFrom(v, next, env) &&
    MissingFrom(v, pos, env) == (if name in env then [] else [name]) + MissingFrom(v, next, env)
  }

  lemma RefTokenStep(v: bytes, pos: nat, name: bytes, braced: bool, next: nat, env: Env)
    requires pos < |v| && TokenAt(v, pos) == Ref(name, braced) && next == pos + |Source(Ref(name, braced))|
    ensures RefStep(v, pos, name, next, env)
  {
    hide TokenAt, SubstFrom, MissingFrom;
    StepToken(v, pos, env);
  }

  lemma EndOfWalk(v: bytes, env: Env)
    ensures SubstFrom(v, |v|, env) == [] && MissingFrom(v, |v|, env) == []
  {}

  /** A walk at a "${" that is never closed copies the rest. */
  lemma UnclosedStep(v: bytes, pos: nat, env: Env)
    requires pos + 1 < |v| && v[pos] == DOLLAR && v[pos + 1] == LBRACE && FindFrom(v, RBRACE, pos + 2) == |v|
    ensures SubstFrom(v, pos, env) == [DOLLAR] + v[pos + 1..] && MissingFrom(v, pos, env) == []
  {
    FindFromUnique(v, DOLLAR, pos, pos);
    var rest := v[pos..];
    assert TokenAt(v, pos) == Literal(rest);
    assert rest == [DOLLAR] + v[pos + 1..];
    hide TokenAt, SubstFrom, MissingFrom, FindFrom;
    StepToken(v, pos, env);
    EndOfWalk(v, env);
    assert |rest| == |v| - pos;
  }

  /** A walk at a "${" that is closed. */
  lemma BracedStep(v: bytes, pos: nat, env: Env)
    requires pos + 1 < |v| && v[pos] == DOLLAR && v[pos + 1] == LBRACE && FindFrom(v, RBRACE, pos + 2) < |v|
    ensures var close := FindFrom(v, RBRACE, pos + 2); RefStep(v, pos, v[pos + 2..close], close + 1, env)
  {
    FindFromUnique(v, DOLLAR, pos, pos);
    var close := FindFrom(v, RBRACE, pos + 2);
    var name := v[pos + 2..close];
    assert TokenAt(v, pos) == Ref(name, true);
    hide TokenAt, FindFrom, RefStep;
    assert |Source(Ref(name, true))| == |name| + 3;
    RefTokenStep(v, pos, name, true, close + 1, env);
  }

  /** A walk at '$' and a name start. */
  lemma NamedStep(v: bytes, pos: nat, env: Env)
    requires pos + 1 < |v| && v[pos] == DOLLAR && IsNameStart(v[pos + 1])
    ensures RefStep(v, pos, v[pos + 1..NameEnd(v, pos + 2)], NameEnd(v, pos + 2), env)
  {
    FindFromUnique(v, DOLLAR, pos, pos);
    var end := NameEnd(v, pos + 2);
    var name := v[pos + 1..end];
    assert TokenAt(v, pos) == Ref(name, false);
    hide TokenAt, FindFrom, NameEnd, RefStep;
    assert |Source(Ref(name, false))| == |name| + 1;
    RefTokenStep(v, pos, name, false, end, env);
  }

  /** A walk at a '$' that starts no reference. */
  lemma LoneStep(v: bytes, pos: nat, env: Env)
    requires pos < |v| && v[pos] == DOLLAR
    requires pos + 1 == |v| || !(v[pos + 1] == LBRACE || IsNameStart(v[pos + 1]))
    ensures SubstFrom(v, pos, env) == [DOLLAR] + SubstFrom(v, pos + 1, env)
    ensures MissingFrom(v, pos, env) == MissingFrom(v, pos + 1, env)
  {
    FindFromUnique(v, DOLLAR, pos, pos);
    assert TokenAt(v, pos) == Literal([DOLLAR]);
    hide TokenAt, SubstFrom, MissingFrom;
    StepToken(v, pos, env);
    assert [] + MissingFrom(v, pos + 1, env) == MissingFrom(v, pos + 1, env);
  }

  /** Invariant of the walks: res has been written and missing reported, the rest starts at i. */
  ghost predicate Walk(v: bytes, i: nat, env: Env, res: bytes, missing: seq<bytes>) {
    i <= |v| && res + SubstFrom(v, i, env) == Subst(v, env) && missing + MissingFrom(v, i, env) == Missing(v, env)
  }

  lemma WalkStart(v: bytes, env: Env)
    ensures Walk(v, 0, env, [], [])
  {
    assert [] + SubstFrom(v, 0, env) == Subst(v, env);
    assert [] + MissingFrom(v, 0, env) == Missing(v, env);
  }

  lemma WalkDone(v: bytes, env: Env, res: bytes, missing: seq<bytes>)
    requires Walk(v, |v|, env, res, missing)
    ensures res == Subst(v, env) && missing == Missing(v, env)
  {
    EndOfWalk(v, env);
    assert res + [] == res && missing + [] == missing;
  }

  lemma WalkText(v: bytes, i: nat, env: Env, res: bytes, missing: seq<bytes>, text: bytes, next: nat)
    requires Walk(v, i, env, res, missing) && next <= |v|
    requires SubstFrom(v, i, env) == text + SubstFrom(v, next, env)
    requires MissingFrom(v, i, env) == MissingFrom(v, next, env)
    ensures Walk(v, next, env, res + text, missing)
  {
    hide SubstFrom, MissingFrom, Subst, Missing;
    assert res + text + SubstFrom(v, next, env) == res + (text + SubstFrom(v, next, env));
  }

  lemma WalkLiteral(v: bytes, i: nat, env: Env, res: bytes, missing: seq<bytes>)
    requires Walk(v, i, env, res, missing)
    ensures var d := FindFrom(v, DOLLAR, i); Walk(v, d, env, res + v[i..d], missing)
  {
    hide SubstFrom, MissingFrom, Subst, Missing;
    StepLiteral(v, i, env);
    var d := FindFrom(v, DOLLAR, i);
    WalkText(v, i, env, res, missing, v[i..d], d);
  }

  lemma WalkLone(v: bytes, pos: nat, env: Env, res: bytes, missing: seq<bytes>)
    requires Walk(v, pos, env, res, missing) && pos < |v| && v[pos] == DOLLAR
    requires pos + 1 == |v| || !(v[pos + 1] == LBRACE || IsNameStart(v[pos + 1]))
    ensures Walk(v, pos + 1, env, res + [DOLLAR], missing)
  {
    hide SubstFrom, MissingFrom, Subst, Missing;
    LoneStep(v, pos, env);
    WalkText(v, pos, env, res, missing, [DOLLAR], pos + 1);
  }

  lemma WalkUnclosed(v: bytes, pos: nat, env: Env, res: bytes, missing: seq<bytes>)
    requires Walk(v, pos, env, res, missing)
    requires pos + 1 < |v| && v[pos] == DOLLAR && v[pos + 1] == LBRACE && FindFrom(v, RBRACE, pos + 2) == |v|
    ensures Walk(v, |v|, env, res + [DOLLAR] + v[pos + 1..], missing)
  {
    hide SubstFrom, MissingFrom, Subst, Missing;
    UnclosedStep(v, pos, env);
    EndOfWalk(v, env);
    var text := [DOLLAR] + v[pos + 1..];
    assert text + [] == text && res + text == res + [DOLLAR] + v[pos + 1..];
    WalkText(v, pos, env, res, missing, text, |v|);
  }

  lemma WalkRef(v: bytes, pos: nat, env: Env, res: bytes, missing: seq<bytes>, name: bytes, next: nat)
    requires Walk(v, pos, env, res, missing) && next <= |v| && RefStep(v, pos, name, next, env)
    ensures if name in env then Walk(v, next, env, res + env[name], missing)
            else Walk(v, next, env, res, missing + [name])
  {
    hide SubstFrom, MissingFrom, Subst, Missing;
    if name in env {
      assert [] + MissingFrom(v, next, env) == MissingFrom(v, next, env);
      WalkText(v, pos, env, res, missing, env[name], next);
    } else {
      assert [] + SubstFrom(v, next, env) == SubstFrom(v, next, env);
      assert missing + [name] + MissingFrom(v, next, env) == missing + ([name] + MissingFrom(v, next, env));
    }
  }

  // ---------------------------------------------------------------- StrBuf

  /** base, doubled some number of times. */
  predicate Doubled(base: nat, cap: nat)
    decreases cap
  {
    base > 0 && (cap == base || (cap > base && cap % 2 == 0 && Doubled(base, cap / 2)))
  }

  /** The growth loop: start is doubled until it reaches need. */
  method DoubleUntil(base: nat, start: nat, need: nat) returns (cap: nat)
    requires Doubled(base, start)
    ensures need <= cap && Doubled(base, cap) && (cap == start || cap < 2 * need)
  {
    hide Doubled;
    DoubledPositive(base, start);
    cap := start;
    while cap < need
      invariant cap > 0 && Doubled(base, cap) && (cap == start || cap < 2 * need)
      decreases need - cap
    {
      DoubledPositive(base, cap);
      DoubleAgain(base, cap);
      cap := cap * 2;
    }
  }

  lemma DoubledPositive(base: nat, cap: nat)
    requires Doubled(base, cap)
    ensures base > 0 && cap > 0
  {}

  lemma DoubleAgain(base: nat, cap: nat)
    requires base > 0 && cap > 0
    ensures Doubled(base, base) && (Doubled(base, cap) ==> Doubled(base, cap * 2))
  {
    assert cap * 2 / 2 == cap;
  }

  class StrBuf {
    var buf: array<byte>
    var len: nat

    /** No buffer yet, or room for the terminator after len bytes. */
    ghost predicate Valid()
      reads this, buf
    {
      (buf.Length == 0 && len == 0) || (Doubled(64, buf.Length) && len < buf.Length)
    }

    /** The capacity is 0, 64, or below 2 * (len + 1). */
    ghost predicate Tight()
      reads this
    {
      buf.Length == 0 || buf.Length == 64 || buf.Length < 2 * (len + 1)
    }

    ghost function Contents(): bytes
      requires Valid()
      reads this, buf
    {
      buf[..len]
    }

    constructor ()
      ensures Valid() && Tight() && Contents() == [] && fresh(buf)
    {
      buf := new byte[0];
      len := 0;
    }

    method Reserve(extra: nat)
      requires Valid() && Tight()
      modifies this
      ensures Valid() && len == old(len) && Contents() == old(Contents())
      ensures len + extra + 1 <= buf.Length
      ensures buf.Length == 64 || buf.Length < 2 * (len + extra + 1)
      ensures buf == old(buf) || fresh(buf)
    {
      var need := len + extra + 1;
      if need <= buf.Length { return; }
      var cap := DoubleUntil(64, if buf.Length != 0 then buf.Length else 64, need);
      var nb := new byte[cap](_ => NUL);
      forall i | 0 <= i < len { nb[i] := buf[i]; }
      assert nb[..len] == buf[..len];
      buf := nb;
    }

    method AppendN(s: bytes)
      requires Valid() && Tight()
      modifies this, buf
      ensures Valid() && Tight() && Contents() == old(Contents()) + s
      ensures len < buf.Length && buf[len] == NUL
      ensures buf == old(buf) || fresh(buf)
    {
      Reserve(|s|);
      ghost var before := buf[..len];
      forall i | 0 <= i < |s| { buf[len + i] := s[i]; }
      assert buf[..len + |s|] == before + s;
      len := len + |s|;
      buf[len] := NUL;
    }
  }
}
