/** The record step and its fold over a run: output, diagnostics and the working environment. */
module Engine {
  import opened Bytes
  import opened Lines
  import opened Records
  import opened Continuation
  import opened Substitution
  import opened Environment

  datatype Action = Normalize | Validate | Dump | Delta | Apply
  datatype BomMode = BomLiteral | BomStrip | BomReject

  /** The resolved ENVFILE_* settings. */
  datatype Config = Config(native: bool, action: Action, bom: BomMode, stripCr: bool, rejectNul: bool, join: bool)

  /** Which classifier is in front: the C backend, the assembly backend or the Go one. */
  datatype Front = CFront | AsmFront | GoFront

  datatype Diag = Diag(code: Code, line: nat)

  /** Working environment, standard output, checked counter, and the diagnostics written;
      the error counter of the source is the length of log. */
  datatype State = State(env: Env, out: bytes, checked: nat, log: seq<Diag>)

  function Classify(cfg: Config, front: Front, line: bytes): Verdict {
    if cfg.action == Normalize then Raw(line)
    else match front
      case CFront => if cfg.native then CNative(line) else CShell(line)
      case AsmFront => if cfg.native then AsmNative(line) else AsmShellOr(line)
      case GoFront => if cfg.native then GoNative(line) else GoShell(line)
  }

  /** The code on the line that is a single CR depends on the memory behind the line
      (Records.AsmLoneCr); it is a rejection in any case, and one stands here for all. */
  function AsmShellOr(line: bytes): Verdict {
    if line == [CR] then Rejected(NoEquals) else AsmShell(line)
  }

  predicate Binds(cfg: Config) { cfg.action == Delta || cfg.action == Apply }
  predicate Substitutes(native: bool, r: Record) { native || r.kind != SingleQuoted }

  function ValueOf(native: bool, env: Env, r: Record): bytes {
    if Substitutes(native, r) then Subst(r.value, env) else r.value
  }

  /** The names a record refers to. */
  function Uses(native: bool, r: Record): seq<bytes> {
    if Substitutes(native, r) then Refs(Tokens(r.value)) else []
  }

  function Diags(names: seq<bytes>, no: nat): (ds: seq<Diag>)
    ensures |ds| == |names|
  {
    seq(|names|, i requires 0 <= i < |names| => Diag(UnboundRef(names[i]), no))
  }

  /** One output record. */
  function Line(key: bytes, value: bytes): bytes { Pair(key, value) + [LF] }

  /** What the action does with an accepted record. */
  function Perform(cfg: Config, st: State, r: Record, no: nat): State {
    match cfg.action
    case Normalize => st.(out := st.out + Line(r.key, r.value))
    case Dump => st.(out := st.out + Line(r.key, r.value))
    case Validate => st
    case _ =>
      var value := ValueOf(cfg.native, st.env, r);
      st.(env := st.env[r.key := value],
          log := st.log + Diags(Unbound(Uses(cfg.native, r), st.env), no),
          out := if cfg.action == Delta then st.out + Line(r.key, value) else st.out)
  }

  function Accept(cfg: Config, st: State, r: Record, no: nat): State {
    Perform(cfg, st.(checked := st.checked + 1), r, no)
  }

  function Report(st: State, code: Code, no: nat): State { st.(log := st.log + [Diag(code, no)]) }

  function Handle(cfg: Config, st: State, v: Verdict, no: nat): State {
    match v
    case Skipped => st
    case Rejected(code) => Report(st.(checked := st.checked + 1), code, no)
    case Accepted(r) => Accept(cfg, st, r, no)
  }

  function Step(cfg: Config, front: Front, st: State, e: Event): State {
    match e
    case Fault(code) => Report(st, code, 0)
    case Logical(text, no) => Handle(cfg, st, Classify(cfg, front, text), no)
  }

  function Run(cfg: Config, front: Front, st: State, es: seq<Event>): State
    decreases |es|
  {
    if es == [] then st else Run(cfg, front, Step(cfg, front, st, es[0]), es[1..])
  }

  lemma {:induction false} RunAppend(cfg: Config, front: Front, st: State, a: seq<Event>, b: seq<Event>)
    ensures Run(cfg, front, st, a + b) == Run(cfg, front, Run(cfg, front, st, a), b)
    decreases |a|
  {
    if a == [] {
      assert a + b == b;
    } else {
      assert (a + b)[1..] == a[1..] + b;
      RunAppend(cfg, front, Step(cfg, front, st, a[0]), a[1..], b);
    }
  }

  // ---------------------------------------------------------------- bindings of a run

  /** The record an event contributes, if any. */
  function AcceptedBy(cfg: Config, front: Front, e: Event): Option<Record> {
    if e.Logical? && Classify(cfg, front, e.text).Accepted? then Some(Classify(cfg, front, e.text).record) else None
  }

  /** The records a run accepts, in order. */
  function Accepts(cfg: Config, front: Front, es: seq<Event>): seq<Record> {
    if es == [] then []
    else
      var rest := Accepts(cfg, front, es[1..]);
      match AcceptedBy(cfg, front, es[0])
      case None => rest
      case Some(r) => [r] + rest
  }

  /** An event either contributes one record, or leaves environment and output alone. */
  lemma StepCases(cfg: Config, front: Front, st: State, es: seq<Event>)
    requires es != []
    ensures var next, rest := Step(cfg, front, st, es[0]), Accepts(cfg, front, es[1..]);
            match AcceptedBy(cfg, front, es[0])
            case None => Accepts(cfg, front, es) == rest && next.env == st.env && next.out == st.out
            case Some(r) => es[0].Logical? && Accepts(cfg, front, es) == [r] + rest &&
                            next == Accept(cfg, st, r, es[0].no)
  {}

  /** The bindings delta emits for a list of records. */
  function Resolve(native: bool, env: Env, rs: seq<Record>): (ps: seq<EnvPair>)
    ensures |ps| == |rs|
    decreases |rs|
  {
    if rs == [] then []
    else
      var value := ValueOf(native, env, rs[0]);
      [EnvPair(rs[0].key, value)] + Resolve(native, env[rs[0].key := value], rs[1..])
  }

  function Render(ps: seq<EnvPair>): bytes {
    if ps == [] then [] else Line(ps[0].key, ps[0].value) + Render(ps[1..])
  }

  lemma OverlayCons(env: Env, p: EnvPair, ps: seq<EnvPair>)
    ensures Overlay(env, [p] + ps) == Overlay(env[p.key := p.value], ps)
  {
    OverlayAppend(env, [p], ps);
    assert [p][..0] == [];
  }

  lemma ResolveCons(native: bool, env: Env, r: Record, rs: seq<Record>)
    ensures var p := EnvPair(r.key, ValueOf(native, env, r));
            Resolve(native, env, [r] + rs) == [p] + Resolve(native, env[p.key := p.value], rs)
  {
    assert ([r] + rs)[1..] == rs;
  }

  lemma RenderCons(p: EnvPair, ps: seq<EnvPair>)
    ensures Render([p] + ps) == Line(p.key, p.value) + Render(ps)
  {
    assert ([p] + ps)[1..] == ps;
  }

  /** What the run prints: one record per accepted line for normalize, dump and delta. */
  function Printed(cfg: Config, env: Env, rs: seq<Record>): (ps: seq<EnvPair>)
    ensures |ps| == if cfg.action == Validate || cfg.action == Apply then 0 else |rs|
  {
    match cfg.action
    case Delta => Resolve(cfg.native, env, rs)
    case Apply => []
    case Validate => []
    case _ => seq(|rs|, i requires 0 <= i < |rs| => EnvPair(rs[i].key, rs[i].value))
  }

  lemma AcceptPrints(cfg: Config, st: State, r: Record, no: nat, rs: seq<Record>)
    ensures var next := Accept(cfg, st, r, no);
            next.out + Render(Printed(cfg, next.env, rs)) == st.out + Render(Printed(cfg, st.env, [r] + rs))
  {
    hide Render, Line, ValueOf, Resolve;
    var next := Accept(cfg, st, r, no);
    var ps, qs := Printed(cfg, st.env, [r] + rs), Printed(cfg, next.env, rs);
    if cfg.action == Apply || cfg.action == Validate {
    } else {
      if cfg.action == Delta {
        ResolveCons(cfg.native, st.env, r, rs);
      }
      assert ps == [ps[0]] + qs;
      hide Printed;
      RenderCons(ps[0], qs);
      AppendAssoc(st.out, Line(ps[0].key, ps[0].value), Render(qs));
    }
  }

  lemma AppendAssoc(a: bytes, b: bytes, c: bytes)
    ensures a + b + c == a + (b + c)
  {}

  /** Every run adds to the output exactly the records it prints. */
  lemma {:induction false} RunPrints(cfg: Config, front: Front, st: State, es: seq<Event>)
    ensures Run(cfg, front, st, es).out == st.out + Render(Printed(cfg, st.env, Accepts(cfg, front, es)))
    decreases |es|
  {
    if es == [] {
      assert st.out + [] == st.out;
    } else {
      var next := Step(cfg, front, st, es[0]);
      StepCases(cfg, front, st, es);
      hide Step, Printed, Accepts, AcceptedBy;
      RunPrints(cfg, front, next, es[1..]);
      match AcceptedBy(cfg, front, es[0])
      case None =>
      case Some(r) => AcceptPrints(cfg, st, r, es[0].no, Accepts(cfg, front, es[1..]));
    }
  }

  /** Apply is overlay: whatever the files, the final environment is the initial one overlaid
      by the emitted bindings in order, and delta writes exactly those bindings. */
  lemma {:induction false} RunIsOverlay(cfg: Config, front: Front, st: State, es: seq<Event>)
    requires Binds(cfg)
    ensures var ps := Resolve(cfg.native, st.env, Accepts(cfg, front, es));
            var end := Run(cfg, front, st, es);
            end.env == Overlay(st.env, ps) &&
            end.out == st.out + (if cfg.action == Delta then Render(ps) else [])
    decreases |es|
  {
    RunPrints(cfg, front, st, es);
    if es != [] {
      var next, rest := Step(cfg, front, st, es[0]), Accepts(cfg, front, es[1..]);
      StepCases(cfg, front, st, es);
      RunIsOverlay(cfg, front, next, es[1..]);
      match AcceptedBy(cfg, front, es[0])
      case None =>
      case Some(r) =>
        ResolveCons(cfg.native, st.env, r, rest);
        OverlayCons(st.env, EnvPair(r.key, ValueOf(cfg.native, st.env, r)), Resolve(cfg.native, next.env, rest));
    }
  }

  /** Each value is resolved against exactly the state the earlier bindings left. */
  lemma {:induction false} ResolvedAgainstEarlier(native: bool, env: Env, rs: seq<Record>, i: nat)
    requires i < |rs|
    ensures var ps := Resolve(native, env, rs);
            ps[i] == EnvPair(rs[i].key, ValueOf(native, Overlay(env, ps[..i]), rs[i]))
    decreases |rs|
  {
    var ps := Resolve(native, env, rs);
    if i == 0 {
      assert ps[..0] == [];
    } else {
      var next := env[ps[0].key := ps[0].value];
      ResolvedAgainstEarlier(native, next, rs[1..], i - 1);
      var qs := Resolve(native, next, rs[1..]);
      assert ps == [ps[0]] + qs && ps[..i] == [ps[0]] + qs[..i - 1];
      OverlayCons(env, ps[0], qs[..i - 1]);
    }
  }

  /** Keys the files never set keep their value; a set key holds its last emitted value. */
  lemma UnsetKeysUnchanged(cfg: Config, front: Front, st: State, es: seq<Event>, key: bytes)
    requires Binds(cfg)
    ensures var ps := Resolve(cfg.native, st.env, Accepts(cfg, front, es));
            var end := Run(cfg, front, st, es);
            (!HasKey(ps, key) ==> Lookup(end.env, key) == Lookup(st.env, key)) &&
            (HasKey(ps, key) ==>
               exists i :: 0 <= i < |ps| && ps[i].key == key && Lookup(end.env, key) == Some(ps[i].value) &&
                           forall j :: i < j < |ps| ==> ps[j].key != key)
  {
    RunIsOverlay(cfg, front, st, es);
    OverlayLookup(st.env, Resolve(cfg.native, st.env, Accepts(cfg, front, es)), key);
  }

  // ---------------------------------------------------------------- live-in names

  /** The names a run reads before it writes them. */
  function LiveIn(cfg: Config, front: Front, es: seq<Event>): set<bytes> {
    if es == [] then {}
    else
      var rest := LiveIn(cfg, front, es[1..]);
      match AcceptedBy(cfg, front, es[0])
      case None => rest
      case Some(r) => (set n | n in Uses(cfg.native, r)) + (rest - {r.key})
  }

  /** The keys a run sets. */
  function Written(cfg: Config, front: Front, es: seq<Event>): set<bytes> {
    set r | r in Accepts(cfg, front, es) :: r.key
  }

  predicate AgreeOn(names: set<bytes>, e1: Env, e2: Env) {
    forall n :: n in names ==> Lookup(e1, n) == Lookup(e2, n)
  }

  lemma AcceptAgrees(cfg: Config, s1: State, s2: State, r: Record, no: nat, names: set<bytes>)
    requires Binds(cfg) && s2 == s1.(env := s2.env)
    requires AgreeOn(names, s1.env, s2.env) && forall n :: n in Uses(cfg.native, r) ==> n in names
    ensures var a1, a2 := Accept(cfg, s1, r, no), Accept(cfg, s2, r, no);
            a2 == a1.(env := a2.env) && AgreeOn(names + {r.key}, a1.env, a2.env)
  {
    forall n | n in Uses(cfg.native, r)
      ensures (n in s1.env <==> n in s2.env) && (n in s1.env ==> s1.env[n] == s2.env[n])
    {
      assert Lookup(s1.env, n) == Lookup(s2.env, n);
    }
    UnboundAgree(Uses(cfg.native, r), s1.env, s2.env);
    if Substitutes(cfg.native, r) { ExpandAgree(Tokens(r.value), s1.env, s2.env); }
  }

  /** Live-in theorem: initial environments that agree on the live-in names (and possibly
      more) give the same output, the same diagnostics line by line, and the same final
      values for those names and every key the run sets. */
  lemma {:induction false} LiveInDecides(cfg: Config, front: Front, s1: State, s2: State, es: seq<Event>,
                                         names: set<bytes>)
    requires Binds(cfg) && s2 == s1.(env := s2.env)
    requires LiveIn(cfg, front, es) <= names && AgreeOn(names, s1.env, s2.env)
    ensures var r1, r2 := Run(cfg, front, s1, es), Run(cfg, front, s2, es);
            r2 == r1.(env := r2.env) && AgreeOn(names + Written(cfg, front, es), r1.env, r2.env)
    decreases |es|
  {
    if es != [] {
      var n1, n2 := Step(cfg, front, s1, es[0]), Step(cfg, front, s2, es[0]);
      StepCases(cfg, front, s1, es);
      StepCases(cfg, front, s2, es);
      match AcceptedBy(cfg, front, es[0])
      case None =>
        LiveInDecides(cfg, front, n1, n2, es[1..], names);
      case Some(r) =>
        AcceptAgrees(cfg, s1, s2, r, es[0].no, names);
        LiveInDecides(cfg, front, n1, n2, es[1..], names + {r.key});
        WrittenCons(cfg, front, es, r);
        assert names + Written(cfg, front, es) == names + {r.key} + Written(cfg, front, es[1..]);
    }
  }

  lemma WrittenCons(cfg: Config, front: Front, es: seq<Event>, r: Record)
    requires es != [] && AcceptedBy(cfg, front, es[0]) == Some(r)
    ensures Written(cfg, front, es) == {r.key} + Written(cfg, front, es[1..])
  {
    var rest := Accepts(cfg, front, es[1..]);
    assert Accepts(cfg, front, es) == [r] + rest;
    forall q ensures q in [r] + rest <==> q == r || q in rest {}
  }

  lemma {:induction false} UnboundMonotone(names: seq<bytes>, e1: Env, e2: Env, x: bytes)
    requires e2.Keys <= e1.Keys
    ensures |Unbound(names, e2)| >= |Unbound(names, e1)|
    ensures x in names && x in e1 && x !in e2 ==> |Unbound(names, e2)| > |Unbound(names, e1)|
  {
    if names != [] { UnboundMonotone(names[1..], e1, e2, x); }
  }

  /** Live-in names are needed: with fewer names bound at the start there are at least as
      many errors, and strictly more when a live-in name x is among the missing ones. */
  lemma {:induction false} LiveInNeeded(cfg: Config, front: Front, s1: State, s2: State, es: seq<Event>, x: bytes)
    requires Binds(cfg) && s2.env.Keys <= s1.env.Keys
    ensures var d1 := |Run(cfg, front, s1, es).log| - |s1.log|;
            var d2 := |Run(cfg, front, s2, es).log| - |s2.log|;
            d2 >= d1 && (x in LiveIn(cfg, front, es) && x in s1.env && x !in s2.env ==> d2 > d1)
    decreases |es|
  {
    if es != [] {
      var n1, n2 := Step(cfg, front, s1, es[0]), Step(cfg, front, s2, es[0]);
      if es[0].Logical? && Classify(cfg, front, es[0].text).Accepted? {
        UnboundMonotone(Uses(cfg.native, Classify(cfg, front, es[0].text).record), s1.env, s2.env, x);
      }
      LiveInNeeded(cfg, front, n1, n2, es[1..], x);
    }
  }

  // ---------------------------------------------------------------- conservation

  datatype Tally = Tally(skipped: nat, accepted: nat, rejected: nat, faults: nat)

  function Count(cfg: Config, front: Front, es: seq<Event>): Tally {
    if es == [] then Tally(0, 0, 0, 0)
    else
      var t := Count(cfg, front, es[1..]);
      match es[0]
      case Fault(_) => t.(faults := t.faults + 1)
      case Logical(text, _) =>
        match Classify(cfg, front, text)
        case Skipped => t.(skipped := t.skipped + 1)
        case Rejected(_) => t.(rejected := t.rejected + 1)
        case Accepted(_) => t.(accepted := t.accepted + 1)
  }

  /** Unbound reference tokens over a list of records, each against its own state. */
  function UnboundTotal(native: bool, env: Env, rs: seq<Record>): nat
    decreases |rs|
  {
    if rs == [] then 0
    else |Unbound(Uses(native, rs[0]), env)|
         + UnboundTotal(native, env[rs[0].key := ValueOf(native, env, rs[0])], rs[1..])
  }

  lemma AcceptCounts(cfg: Config, st: State, r: Record, no: nat)
    ensures var next := Accept(cfg, st, r, no);
            next.checked == st.checked + 1 &&
            |next.log| == |st.log| + if Binds(cfg) then |Unbound(Uses(cfg.native, r), st.env)| else 0
    ensures Binds(cfg) ==> Accept(cfg, st, r, no).env == st.env[r.key := ValueOf(cfg.native, st.env, r)]
  {}

  lemma UnboundTotalCons(native: bool, env: Env, r: Record, rs: seq<Record>)
    ensures UnboundTotal(native, env, [r] + rs) ==
            |Unbound(Uses(native, r), env)| + UnboundTotal(native, env[r.key := ValueOf(native, env, r)], rs)
  {
    assert ([r] + rs)[1..] == rs;
  }

  /** Conservation: every event is skipped, accepted, rejected or a fault; checked counts the
      accepted and rejected lines; every error is a rejected line, a fault or an unbound
      reference (and Printed says that one record is printed per accepted line). */
  lemma {:induction false} Conservation(cfg: Config, front: Front, st: State, es: seq<Event>)
    ensures var t, rs, end := Count(cfg, front, es), Accepts(cfg, front, es), Run(cfg, front, st, es);
            |es| == t.skipped + t.accepted + t.rejected + t.faults &&
            |rs| == t.accepted &&
            end.checked == st.checked + t.accepted + t.rejected &&
            |end.log| == |st.log| + t.rejected + t.faults +
                         (if Binds(cfg) then UnboundTotal(cfg.native, st.env, rs) else 0)
    decreases |es|
  {
    if es != [] {
      var next, rest := Step(cfg, front, st, es[0]), Accepts(cfg, front, es[1..]);
      StepCases(cfg, front, st, es);
      hide Accept, UnboundTotal, Classify;
      Conservation(cfg, front, next, es[1..]);
      match AcceptedBy(cfg, front, es[0])
      case None =>
      case Some(r) =>
        AcceptCounts(cfg, st, r, es[0].no);
        UnboundTotalCons(cfg.native, st.env, r, rest);
    }
  }

  // ---------------------------------------------------------------- growth

  function Pow(b: nat, n: nat): nat { if n == 0 then 1 else b * Pow(b, n - 1) }

  /** max(1, m) * l^n. */
  function GrowthLimit(m: nat, l: nat, n: nat): nat { Max(1, m) * Pow(l, n) }

  lemma ValueBound(native: bool, env: Env, r: Record, m: nat, l: nat)
    requires l >= 1 && Bounded(env, m) && |r.value| <= l
    ensures |ValueOf(native, env, r)| <= l * Max(1, m) && m <= l * Max(1, m)
  {
    var b := Max(1, m);
    SubstBound(r.value, env, m);
    Scale(|r.value|, l, b);
    Scale(1, l, b);
    Scale(1, b, l);
  }

  lemma Scale(x: nat, y: nat, b: nat)
    requires x <= y
    ensures x * b <= y * b
  {}

  /** After n records with raw values of at most l bytes every value is within max(1, m) * l^n. */
  lemma {:induction false} GrowthBound(native: bool, env: Env, rs: seq<Record>, m: nat, l: nat)
    requires l >= 1 && Bounded(env, m) && forall r :: r in rs ==> |r.value| <= l
    ensures Bounded(Overlay(env, Resolve(native, env, rs)), GrowthLimit(m, l, |rs|))
    decreases |rs|
  {
    if rs != [] {
      var b := Max(1, m);
      var value := ValueOf(native, env, rs[0]);
      var next := env[rs[0].key := value];
      assert rs[0] in rs;
      ValueBound(native, env, rs[0], m, l);
      GrowthBound(native, next, rs[1..], l * b, l);
      OverlayCons(env, EnvPair(rs[0].key, value), Resolve(native, next, rs[1..]));
      PowStep(b, l, |rs|);
    }
  }

  lemma PowStep(b: nat, l: nat, n: nat)
    requires b >= 1 && l >= 1 && n > 0
    ensures Max(1, l * b) * Pow(l, n - 1) == b * Pow(l, n)
  {
    var p := Pow(l, n - 1);
    assert l * b >= 1 by { Scale(1, l, b); }
    assert (l * b) * p == b * (l * p);
  }

  // A=$A$A
  const A: bytes := [65]
  const DOUBLING: Record := Record(A, [36, 65, 36, 65], Plain)

  lemma DoublingTokens()
    ensures Tokens(DOUBLING.value) == [Ref(A, false), Ref(A, false)]
  {
    var t := Ref(A, false);
    var one := [t];
    assert one[1..] == [] && Text(one) == [36, 65];
    TextCons(t, one);
    assert ([t] + one)[1..] == one;
    assert Text([t] + one) == DOUBLING.value;
    assert Canonical(one);
    assert Canonical([t] + one);
    TokensUnique(DOUBLING.value, [t] + one);
  }

  lemma DoublingStep(env: Env)
    requires A in env
    ensures ValueOf(true, env, DOUBLING) == env[A] + env[A]
  {
    DoublingTokens();
    var one := [Ref(A, false)];
    assert one[1..] == [] && ([Ref(A, false)] + one)[1..] == one;
    assert Expand(one, env) == env[A];
  }

  /** The growth is genuinely exponential: n records A=$A$A multiply the length of A by 2^n. */
  lemma {:induction false} Doubling(env: Env, rs: seq<Record>)
    requires A in env && forall r :: r in rs ==> r == DOUBLING
    ensures var end := Overlay(env, Resolve(true, env, rs));
            A in end && |end[A]| == Pow(2, |rs|) * |env[A]|
    decreases |rs|
  {
    if rs != [] {
      assert rs[0] in rs;
      forall r | r in rs[1..] ensures r == DOUBLING { assert r in rs; }
      DoublingStep(env);
      hide ValueOf;
      var value := env[A] + env[A];
      var next := env[A := value];
      Doubling(next, rs[1..]);
      OverlayCons(env, EnvPair(A, value), Resolve(true, next, rs[1..]));
      PowDouble(|rs|, |env[A]|);
    }
  }

  lemma PowDouble(n: nat, x: nat)
    requires n > 0
    ensures Pow(2, n - 1) * (x + x) == Pow(2, n) * x
  {
    var p := Pow(2, n - 1);
    assert p * (x + x) == 2 * p * x;
  }
}
