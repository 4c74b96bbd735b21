/** From process environment and files to final output: the two main programs compared. */
module Mains {
  import opened Bytes
  import opened Lines
  import opened Records
  import opened Continuation
  import opened Substitution
  import opened Environment
  import opened Engine
  import opened Pipeline
  import opened Scanning
  import opened Refinement
  import opened Sorting
  import CFrontEnd

  /** The states the two programs start a binding run from: Go sees the first entry of every
      name and keeps the empty name, C sees all entries and drops it. */
  function GoStart(entries: seq<bytes>): State { EMPTY.(env := Seed(FirstOnly(entries), true)) }
  function CStart(entries: seq<bytes>): State { EMPTY.(env := Seed(entries, false)) }

  /** The C program starts there for delta and apply, and from nothing for the other actions. */
  lemma CStartRule(cfg: Config, entries: seq<bytes>)
    ensures EMPTY.(env := CFrontEnd.StartEnv(cfg, entries)) ==
            if cfg.action in {Delta, Apply} then CStart(entries) else State(map[], [], 0, [])
    ensures CStart(entries) == State(Seed(entries, false), [], 0, [])
    ensures GoStart(entries) == State(Seed(FirstOnly(entries), true), [], 0, [])
  {
    hide Seed, FirstOnly;
  }

  /** The run refers to the empty name, as ${} does, and the process binds it. */
  predicate ReadsEmptyName(cfg: Config, front: Front, entries: seq<bytes>, es: seq<Event>) {
    [] in LiveIn(cfg, front, es) && Mentioned(entries, [])
  }

  /** Every name the run reads before it writes it has the same first and last value. */
  predicate ReadsSteady(cfg: Config, front: Front, entries: seq<bytes>, es: seq<Event>) {
    forall key :: key in LiveIn(cfg, front, es) ==> Steady(entries, key)
  }

  lemma StartsAgree(entries: seq<bytes>, names: set<bytes>)
    requires [] in names ==> !Mentioned(entries, [])
    requires forall key :: key in names ==> Steady(entries, key)
    ensures AgreeOn(names, GoStart(entries).env, CStart(entries).env)
  {
    hide Seed, FirstOnly, Mentioned, FirstValue, LastValue, IsControl;
    forall key | key in names ensures Lookup(GoStart(entries).env, key) == Lookup(CStart(entries).env, key) {
      SeedLookups(entries, key);
    }
  }

  /** The keys a run binds: those of its start and those it writes. */
  lemma {:induction false} RunEnds(cfg: Config, front: Front, st: State, es: seq<Event>, key: bytes)
    requires Binds(cfg)
    ensures var end := Run(cfg, front, st, es).env;
            if key in Written(cfg, front, es) then key in end else Lookup(end, key) == Lookup(st.env, key)
    decreases |es|
  {
    if es != [] {
      StepCases(cfg, front, st, es);
      if AcceptedBy(cfg, front, es[0]).Some? { WrittenCons(cfg, front, es, AcceptedBy(cfg, front, es[0]).value); }
      var next := Step(cfg, front, st, es[0]);
      hide AcceptedBy, Step, ValueOf;
      RunEnds(cfg, front, next, es[1..], key);
    }
  }

  /** Over any run from the two starts, reading an empty name that the process binds makes C
      report more errors.  A run that reads steady names only has the same output and
      diagnostics if and only if it does not, and then a name ends with the same value if and
      only if the run writes it or it is steady; the empty name aside. */
  lemma StartsDecideIff(cfg: Config, front: Front, entries: seq<bytes>, es: seq<Event>)
    requires Binds(cfg)
    ensures var g, c := Run(cfg, front, GoStart(entries), es), Run(cfg, front, CStart(entries), es);
            var clash := ReadsEmptyName(cfg, front, entries, es);
            (clash ==> |c.log| > |g.log|) &&
            (!clash && ReadsSteady(cfg, front, entries, es) ==>
               c == g.(env := c.env) &&
               forall k :: k != [] ==>
                 (Lookup(c.env, k) == Lookup(g.env, k) <==> k in Written(cfg, front, es) || Steady(entries, k)))
  {
    var sg, sc := GoStart(entries), CStart(entries);
    hide Seed, FirstOnly, Mentioned, IsControl, LiveIn, Written, FirstValue, LastValue;
    forall k ensures k in sc.env ==> k in sg.env { SeedLookups(entries, k); }
    SeedLookups(entries, []);
    EmptyNameIsPlain();
    LiveInNeeded(cfg, front, sg, sc, es, []);
    if !ReadsEmptyName(cfg, front, entries, es) && ReadsSteady(cfg, front, entries, es) {
      var live := LiveIn(cfg, front, es);
      StartsAgree(entries, live);
      LiveInDecides(cfg, front, sg, sc, es, live);
      forall k | k != []
        ensures Lookup(Run(cfg, front, sc, es).env, k) == Lookup(Run(cfg, front, sg, es).env, k)
                <==> k in Written(cfg, front, es) || Steady(entries, k)
      {
        RunEnds(cfg, front, sg, es, k);
        RunEnds(cfg, front, sc, es, k);
        SeedLookups(entries, k);
      }
    }
  }

  lemma EmptyNameIsPlain()
    ensures !IsControl([])
  {}

  /** Same standard output, checked counter and, up to the code of a rejected line, the same
      diagnostics. */
  predicate SameStreams(a: State, b: State) {
    a.out == b.out && a.checked == b.checked && |a.log| == |b.log| &&
    forall i :: 0 <= i < |a.log| ==> AlikeDiag(a.log[i], b.log[i])
  }

  predicate AllAgreeable(cfg: Config, files: seq<bytes>, schedules: seq<seq<nat>>)
    requires |schedules| == |files|
  {
    forall i :: 0 <= i < |files| ==> Agreeable(cfg, READ_BUF, WORK_BUF, files[i], schedules[i])
  }

  /** The C and the Go program, from the same process entries and files.  Reading an empty name
      that the process binds tells them apart.  If all names the files read are steady, nothing
      else does, and every other name has the same final value exactly when the files set it
      or it is steady. */
  lemma ProgramsAgreeIff(cfg: Config, entries: seq<bytes>, files: seq<bytes>, schedules: seq<seq<nat>>)
    requires Binds(cfg) && |schedules| == |files| && AllAgreeable(cfg, files, schedules)
    ensures var c := CFiles(cfg, READ_BUF, WORK_BUF, CStart(entries), files, schedules);
            var go := Files(cfg, GoStart(entries), files);
            var es := AllEvents(cfg, files);
            var clash := ReadsEmptyName(cfg, GoFront, entries, es);
            (clash ==> !SameStreams(c, go)) &&
            (ReadsSteady(cfg, GoFront, entries, es) ==> (SameStreams(c, go) <==> !clash)) &&
            (ReadsSteady(cfg, GoFront, entries, es) && !clash ==>
               forall k :: k != [] ==>
                 (Lookup(c.env, k) == Lookup(go.env, k) <==> k in Written(cfg, GoFront, es) || Steady(entries, k)))
  {
    var es := AllEvents(cfg, files);
    hide CFiles, Files, AllEvents, ReadsEmptyName, ReadsSteady, Agreeable, Steady, Written;
    CFilesRefineGo(cfg, CStart(entries), CStart(entries), files, schedules);
    FilesAreOneRun(cfg, CStart(entries), files);
    FilesAreOneRun(cfg, GoStart(entries), files);
    StartsDecideIff(cfg, GoFront, entries, es);
  }

  // ---------------------------------------------------------------- full reads

  /** The schedule of the source: every read of a file in memory is full. */
  function FullReads(n: nat): seq<seq<nat>> { seq(n, _ => []) }

  /** C and Go agree on the file when it is read in full reads. */
  predicate FullyAgreeable(cfg: Config, data: bytes) {
    Refused(cfg, data) ||
    (!FullReport(Payload(cfg, data), READ_BUF, WORK_BUF) && Joinable(cfg, WORK_BUF, data) && NUL !in data &&
     NoParts(cfg, data))
  }

  lemma FullyAgreeableIff(cfg: Config, data: bytes)
    ensures FullyAgreeable(cfg, data) <==> Agreeable(cfg, READ_BUF, WORK_BUF, data, [])
  {
    hide Stopped, FullReport, Joinable, NoParts, Refused;
    StoppedIff(Payload(cfg, data), [], READ_BUF, WORK_BUF);
    FullReadsIff(Payload(cfg, data), READ_BUF, WORK_BUF);
  }

  lemma AllFullyAgreeable(cfg: Config, files: seq<bytes>)
    requires forall i :: 0 <= i < |files| ==> FullyAgreeable(cfg, files[i])
    ensures AllAgreeable(cfg, files, FullReads(|files|))
  {
    hide FullyAgreeable, Agreeable;
    forall i | 0 <= i < |files|
      ensures Agreeable(cfg, READ_BUF, WORK_BUF, files[i], FullReads(|files|)[i])
    {
      FullyAgreeableIff(cfg, files[i]);
    }
  }

  /** The refinement for the reads the source performs. */
  lemma FullReadsRefineGo(cfg: Config, c: State, go: State, files: seq<bytes>)
    requires Alike(c, go) && forall i :: 0 <= i < |files| ==> FullyAgreeable(cfg, files[i])
    ensures Alike(CFiles(cfg, READ_BUF, WORK_BUF, c, files, FullReads(|files|)), Files(cfg, go, files))
  {
    AllFullyAgreeable(cfg, files);
    hide FullyAgreeable, Agreeable, CFiles, Files, FullReads;
    CFilesRefineGo(cfg, c, go, files, FullReads(|files|));
  }

  /** The two programs with the reads the source performs. */
  lemma FullReadsAgreeIff(cfg: Config, entries: seq<bytes>, files: seq<bytes>)
    requires Binds(cfg) && forall i :: 0 <= i < |files| ==> FullyAgreeable(cfg, files[i])
    ensures var c := CFiles(cfg, READ_BUF, WORK_BUF, CStart(entries), files, FullReads(|files|));
            var go := Files(cfg, GoStart(entries), files);
            var es := AllEvents(cfg, files);
            (ReadsEmptyName(cfg, GoFront, entries, es) ==> !SameStreams(c, go)) &&
            (ReadsSteady(cfg, GoFront, entries, es) ==>
               (SameStreams(c, go) <==> !ReadsEmptyName(cfg, GoFront, entries, es)))
  {
    AllFullyAgreeable(cfg, files);
    hide FullyAgreeable, AllAgreeable, CFiles, Files, FullReads, ReadsEmptyName, ReadsSteady, SameStreams;
    ProgramsAgreeIff(cfg, entries, files, FullReads(|files|));
  }

  // ---------------------------------------------------------------- a duplicate name

  // The process holds A=1 and A=2; the file is the line B=$A.
  const TWICE: seq<bytes> := [[65, EQUALS, 49], [65, EQUALS, 50]]
  const ECHO: Record := Record([66], [DOLLAR, 65], Plain)
  const NATIVE_DELTA: Config := NATIVE_DUMP.(action := Delta)

  lemma EchoValue(env: Env)
    requires A in env
    ensures ValueOf(true, env, ECHO) == env[A]
  {
    var one := [Ref(A, false)];
    assert one[1..] == [] && Text(one) == ECHO.value;
    TokensUnique(ECHO.value, one);
    assert Expand(one, env) == env[A];
  }

  lemma EchoLine()
    ensures var line := Print(ECHO);
            Split(line) == [line] && LF !in line && NUL !in line && GoNative(line) == Accepted(ECHO)
  {
    var line := Print(ECHO);
    PairSplits([66], ECHO.value);
    PairNotBlank([66], ECHO.value);
    FindUnique(line, LF, |line|);
  }

  lemma EchoEvents()
    ensures Events(NATIVE_DELTA, Print(ECHO)) == [Logical(Print(ECHO), 1)]
  {
    var line := Print(ECHO);
    EchoLine();
    hide Split, Print;
    assert [line][1..] == [] && Number([], 2) == [];
  }

  lemma EchoRun(st: State)
    requires A in st.env
    ensures Step(NATIVE_DELTA, GoFront, st, Logical(Print(ECHO), 1)).out == st.out + Line([66], st.env[A])
  {
    EchoLine();
    EchoValue(st.env);
    hide Print, GoNative, ValueOf, Line, Diags, Unbound, Uses;
    assert Classify(NATIVE_DELTA, GoFront, Print(ECHO)) == Accepted(ECHO);
    hide Classify;
    assert ECHO.key == [66];
  }

  lemma OneEvent(cfg: Config, st: State, data: bytes, e: Event)
    requires Events(cfg, data) == [e]
    ensures Files(cfg, st, [data]) == Step(cfg, GoFront, st, e)
  {
    hide Events, Step;
    var es, next := [e], Step(cfg, GoFront, st, e);
    assert es[1..] == [] && [data][1..] == [];
    assert Run(cfg, GoFront, st, es) == Run(cfg, GoFront, next, es[1..]);
    assert Files(cfg, st, [data]) == Files(cfg, File(cfg, st, data), [data][1..]);
  }

  lemma EchoFile(st: State)
    requires A in st.env
    ensures Files(NATIVE_DELTA, st, [Print(ECHO)]).out == st.out + Line([66], st.env[A])
  {
    EchoEvents();
    EchoRun(st);
    hide Events, Print, Step, Files, Line;
    OneEvent(NATIVE_DELTA, st, Print(ECHO), Logical(Print(ECHO), 1));
  }

  lemma EchoAgreeable()
    ensures FullyAgreeable(NATIVE_DELTA, Print(ECHO))
  {
    var line := Print(ECHO);
    EchoLine();
    assert |line| == 4;
    hide Print, FullReport, Events, PhysicalLines, Parts;
    ShortLinesFullyRead(line, READ_BUF, WORK_BUF);
  }

  lemma TwiceValues()
    ensures FirstValue(TWICE, A) == Some([49]) && LastValue(TWICE, A) == Some([50])
  {
    FindUnique(TWICE[0], EQUALS, 1);
    FindUnique(TWICE[1], EQUALS, 1);
    hide Find;
    var one := TWICE[..1];
    assert one == [TWICE[0]] && one[..0] == [];
    assert EntryValue(TWICE[0], A) == Some([49]) && EntryValue(TWICE[1], A) == Some([50]);
    hide EntryValue;
    assert FirstValue(one, A) == Some([49]);
  }

  /** The duplicate decides: from the same process and file Go prints B=1 and C prints B=2. */
  lemma DuplicateTellsApart()
    ensures var go := Files(NATIVE_DELTA, GoStart(TWICE), [Print(ECHO)]);
            var c := CFiles(NATIVE_DELTA, READ_BUF, WORK_BUF, CStart(TWICE), [Print(ECHO)], FullReads(1));
            go.out == Line([66], [49]) && c.out == Line([66], [50])
  {
    TwiceValues();
    SeedLookups(TWICE, A);
    assert !IsControl(A);
    hide Seed, FirstOnly, FirstValue, LastValue, Files, CFiles, Print, Line, FullyAgreeable, FullReads, Mentioned;
    EchoFile(GoStart(TWICE));
    EchoFile(CStart(TWICE));
    EchoAgreeable();
    FullReadsRefineGo(NATIVE_DELTA, CStart(TWICE), CStart(TWICE), [Print(ECHO)]);
  }

  // ---------------------------------------------------------------- what apply prints

  /** Names a run can bind: not empty, no '='. */
  predicate RecordName(key: bytes) { key != [] && EQUALS !in key }

  lemma AcceptedName(cfg: Config, line: bytes)
    requires cfg.action != Normalize
    ensures var v := Classify(cfg, GoFront, line); v.Accepted? ==> RecordName(v.record.key)
  {
    var work := if cfg.native then line else TrimCr(line);
    var eq := Find(work, EQUALS);
    if eq < |work| && IsIdentifier(work[..eq]) { IdentifierBytes(work[..eq]); }
  }

  /** Runs keep all names non-empty and free of '='. */
  lemma {:induction false} RunKeepsNames(cfg: Config, st: State, es: seq<Event>)
    requires Binds(cfg) && forall k :: k in st.env ==> RecordName(k)
    ensures forall k :: k in Run(cfg, GoFront, st, es).env ==> RecordName(k)
    decreases |es|
  {
    if es != [] {
      StepCases(cfg, GoFront, st, es);
      if es[0].Logical? { AcceptedName(cfg, es[0].text); }
      hide Classify, Step, ValueOf;
      RunKeepsNames(cfg, Step(cfg, GoFront, st, es[0]), es[1..]);
    }
  }

  /** What apply writes at the end, given the names in byte order. */
  function Emission(ks: seq<bytes>, env: Env): bytes
    requires forall k :: k in ks ==> k in env
  {
    Render(PairsOf(ks, env))
  }

  lemma EmissionHead(ks: seq<bytes>, env: Env)
    requires ks != [] && forall k :: k in ks ==> k in env
    ensures var text := Emission(ks, env);
            text != [] && text[0] == if ks[0] == [] then EQUALS else ks[0][0]
  {
    assert PairsOf(ks, env)[0] == EnvPair(ks[0], env[ks[0]]);
  }

  /** The empty name is printed first. */
  lemma EmptyNameFirst(ks: seq<bytes>, env: Env)
    requires IsSortedKeys(ks, env) && [] in env
    ensures ks != [] && ks[0] == []
  {
    assert [] in ks;
    var i :| 0 <= i < |ks| && ks[i] == [];
    assert !Less(ks[0], []);
  }

  /** An output line fixes its LF-free value. */
  lemma LineFixes(key: bytes, v1: bytes, v2: bytes, r1: bytes, r2: bytes)
    requires Line(key, v1) + r1 == Line(key, v2) + r2
    requires v1 == v2 || (LF !in v1 && LF !in v2)
    ensures v1 == v2 && r1 == r2
  {
    var n, text := |key| + 1, Line(key, v1) + r1;
    var rest := text[n..];
    assert rest == v1 + [LF] + r1 && rest == v2 + [LF] + r2;
    if LF !in v1 && LF !in v2 {
      FindUnique(rest, LF, |v1|);
      FindUnique(rest, LF, |v2|);
    }
    assert |v1| == |v2|;
    assert v1 == rest[..|v1|] && v2 == rest[..|v2|];
    assert r1 == rest[|v1| + 1..] && r2 == rest[|v2| + 1..];
  }

  lemma EmissionCons(ks: seq<bytes>, env: Env)
    requires ks != [] && forall k :: k in ks ==> k in env
    ensures forall k :: k in ks[1..] ==> k in env
    ensures Emission(ks, env) == Line(ks[0], env[ks[0]]) + Emission(ks[1..], env)
  {
    forall k | k in ks[1..] ensures k in env { assert k in ks; }
    assert PairsOf(ks, env)[1..] == PairsOf(ks[1..], env);
  }

  /** Two environments that print the same text under the same names are the same there, if
      no value in which they differ holds a newline. */
  lemma {:induction false} EmissionFixes(ks: seq<bytes>, e1: Env, e2: Env)
    requires forall k :: k in ks ==> k in e1 && k in e2
    requires forall k :: k in ks ==> e1[k] == e2[k] || (LF !in e1[k] && LF !in e2[k])
    requires Emission(ks, e1) == Emission(ks, e2)
    ensures forall k :: k in ks ==> e1[k] == e2[k]
  {
    if ks != [] {
      hide Emission, Line;
      var k := ks[0];
      EmissionCons(ks, e1);
      EmissionCons(ks, e2);
      assert k in ks;
      LineFixes(k, e1[k], e2[k], Emission(ks[1..], e1), Emission(ks[1..], e2));
      forall q | q in ks[1..] ensures q in ks {}
      EmissionFixes(ks[1..], e1, e2);
      forall q | q in ks ensures e1[q] == e2[q] { assert q == k || q in ks[1..]; }
    }
  }

  lemma {:induction false} EntryValuesFree(entries: seq<bytes>, key: bytes)
    requires forall i :: 0 <= i < |entries| ==> LF !in entries[i]
    ensures var first, last := FirstValue(entries, key), LastValue(entries, key);
            (first.Some? ==> LF !in first.value) && (last.Some? ==> LF !in last.value)
  {
    if entries != [] {
      var n := |entries| - 1;
      EntryValuesFree(entries[..n], key);
      assert LF !in entries[n];
      assert EntryValue(entries[n], key).Some? ==> LF !in EntryValue(entries[n], key).value;
    }
  }

  lemma StartNames(entries: seq<bytes>)
    ensures forall k :: k in CStart(entries).env ==> RecordName(k)
    ensures !Mentioned(entries, []) ==> forall k :: k in GoStart(entries).env ==> RecordName(k)
  {
    SeedKeys(entries, false);
    SeedKeys(FirstOnly(entries), true);
    SeedLookups(entries, []);
  }

  /** A bound empty name is printed first, and only by Go. */
  lemma EmptyNameTellsApart(cKs: seq<bytes>, cEnv: Env, ks: seq<bytes>, goEnv: Env)
    requires IsSortedKeys(cKs, cEnv) && IsSortedKeys(ks, goEnv) && [] in goEnv
    requires forall k :: k in cEnv ==> RecordName(k)
    ensures Emission(cKs, cEnv) != Emission(ks, goEnv)
  {
    EmptyNameFirst(ks, goEnv);
    EmissionHead(ks, goEnv);
    if cKs != [] {
      assert cKs[0] in cKs;
      EmissionHead(cKs, cEnv);
      assert cKs[0][0] in cKs[0];
    }
  }

  /** The final environments of a run from the two starts, when the empty name is not bound:
      the same names, and the same values but for unsteady names the run does not write. */
  lemma FinalEnvs(cfg: Config, entries: seq<bytes>, es: seq<Event>, k: bytes)
    requires Binds(cfg) && !Mentioned(entries, []) && ReadsSteady(cfg, GoFront, entries, es)
    ensures var g, c := Run(cfg, GoFront, GoStart(entries), es).env, Run(cfg, GoFront, CStart(entries), es).env;
            (k in g <==> k in c) &&
            (Lookup(c, k) == Lookup(g, k) <==> k in Written(cfg, GoFront, es) || Steady(entries, k)) &&
            (k !in Written(cfg, GoFront, es) && !IsControl(k) ==>
               Lookup(g, k) == FirstValue(entries, k) && Lookup(c, k) == LastValue(entries, k))
  {
    hide Seed, FirstOnly, Written, Run, ReadsSteady, IsControl;
    RunEnds(cfg, GoFront, GoStart(entries), es, k);
    RunEnds(cfg, GoFront, CStart(entries), es, k);
    SeedLookups(entries, k);
    MentionedHasValues(entries, k);
    StartsDecideIff(cfg, GoFront, entries, es);
    if k == [] {
      StartNames(entries);
      RunKeepsNames(cfg, CStart(entries), es);
      RunKeepsNames(cfg, GoStart(entries), es);
    }
  }

  /** From the two starts apply prints the same text if and only if every name of the process
      that the run does not write is steady. */
  lemma EmissionsSameIff(cfg: Config, entries: seq<bytes>, es: seq<Event>, cKs: seq<bytes>, ks: seq<bytes>)
    requires Binds(cfg) && !Mentioned(entries, []) && ReadsSteady(cfg, GoFront, entries, es)
    requires IsSortedKeys(cKs, Run(cfg, GoFront, CStart(entries), es).env)
    requires IsSortedKeys(ks, Run(cfg, GoFront, GoStart(entries), es).env)
    ensures var c, g := Run(cfg, GoFront, CStart(entries), es).env, Run(cfg, GoFront, GoStart(entries), es).env;
            var same := Emission(cKs, c) == Emission(ks, g);
            var steady := SteadyOutside(entries, Written(cfg, GoFront, es));
            (steady ==> same) &&
            ((forall i :: 0 <= i < |entries| ==> LF !in entries[i]) && same ==> steady)
  {
    var c, g := Run(cfg, GoFront, CStart(entries), es).env, Run(cfg, GoFront, GoStart(entries), es).env;
    var written := Written(cfg, GoFront, es);
    hide Run, CStart, GoStart, Written, ReadsSteady, Mentioned, FirstValue, LastValue;
    hide Emission, Ascending, SteadyOutside;
    forall k { FinalEnvs(cfg, entries, es, k); }
    SteadyOutsideNames(entries, written);
    hide Steady;
    AscendingUnique(cKs, ks);
    if SteadyOutside(entries, written) {
      SameLookups(c, g);
    } else if (forall i :: 0 <= i < |entries| ==> LF !in entries[i]) && Emission(cKs, c) == Emission(ks, g) {
      forall k | k in ks ensures c[k] == g[k] || (LF !in c[k] && LF !in g[k]) { EntryValuesFree(entries, k); }
      EmissionFixes(ks, c, g);
    }
  }

  /** Apply in C and in Go, from the same process entries and files, whatever library sort
      orders the C table.  A bound empty name changes the printed bytes.  Otherwise, and with
      steady names read, the bytes are the same if all names the files do not set are steady,
      and only if they are when no process entry holds a newline. */
  lemma ApplyPrintsSameIff(cfg: Config, entries: seq<bytes>, files: seq<bytes>, schedules: seq<seq<nat>>,
                           table: seq<EnvPair>, sorted: seq<EnvPair>, ks: seq<bytes>)
    requires cfg.action == Apply && |schedules| == |files| && AllAgreeable(cfg, files, schedules)
    requires Distinct(table)
    requires ToMap(table) == CFiles(cfg, READ_BUF, WORK_BUF, CStart(entries), files, schedules).env
    requires multiset(sorted) == multiset(Keep(table))
    requires forall i, j :: 0 <= i < j < |sorted| ==> !Less(sorted[j].key, sorted[i].key)
    requires IsSortedKeys(ks, Files(cfg, GoStart(entries), files).env)
    ensures var same := Render(sorted) == Emission(ks, Files(cfg, GoStart(entries), files).env);
            var es := AllEvents(cfg, files);
            var steady := SteadyOutside(entries, Written(cfg, GoFront, es));
            (Mentioned(entries, []) ==> !same) &&
            (ReadsSteady(cfg, GoFront, entries, es) && !Mentioned(entries, []) ==>
               (steady ==> same) &&
               ((forall i :: 0 <= i < |entries| ==> LF !in entries[i]) ==> (same <==> steady))) &&
            (SteadyOutside(entries, {}) ==> (same <==> !Mentioned(entries, [])))
  {
    hide CFiles, Files, Agreeable, Less, Keep, Run, Written, LiveIn, Mentioned, Steady, SteadyOutside, GoStart, CStart;
    var es, cKs := AllEvents(cfg, files), KeysOf(sorted);
    var cEnv, goEnv := ToMap(table), Files(cfg, GoStart(entries), files).env;
    AnySortIsCanonical(table, sorted);
    assert Render(sorted) == Emission(cKs, cEnv);
    hide KeysOf, Emission, ToMap, IsSortedKeys;
    CFilesRefineGo(cfg, CStart(entries), CStart(entries), files, schedules);
    FilesAreOneRun(cfg, CStart(entries), files);
    FilesAreOneRun(cfg, GoStart(entries), files);
    SteadyOutsideNames(entries, {});
    SteadyOutsideNames(entries, Written(cfg, GoFront, es));
    if Mentioned(entries, []) {
      StartNames(entries);
      RunKeepsNames(cfg, CStart(entries), es);
      EmptyNameBound(cfg, entries, es);
      EmptyNameTellsApart(cKs, cEnv, ks, goEnv);
    } else if ReadsSteady(cfg, GoFront, entries, es) {
      EmissionsSameIff(cfg, entries, es, cKs, ks);
    }
  }

  lemma EmptyNameBound(cfg: Config, entries: seq<bytes>, es: seq<Event>)
    requires Binds(cfg) && Mentioned(entries, [])
    ensures [] in Run(cfg, GoFront, GoStart(entries), es).env
  {
    hide Seed, FirstOnly, Written, Run, Mentioned, FirstValue, LastValue;
    SeedLookups(entries, []);
    EmptyNameIsPlain();
    RunEnds(cfg, GoFront, GoStart(entries), es, []);
  }
}
