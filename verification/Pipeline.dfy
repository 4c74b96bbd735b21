/** Whole files: the pre-passes, the stages, and the laws that connect the stages. */
module Pipeline {
  import opened Bytes
  import opened Lines
  import opened Records
  import opened Continuation
  import opened Substitution
  import opened Environment
  import opened Engine

  predicate HasBom(lines: seq<bytes>) { lines != [] && BOM <= lines[0] }

  function DropBom(cfg: Config, lines: seq<bytes>): (r: seq<bytes>)
    ensures |r| == |lines|
  {
    if cfg.bom == BomStrip && HasBom(lines) then [lines[0][3..]] + lines[1..] else lines
  }

  function DropCrs(cfg: Config, lines: seq<bytes>): (r: seq<bytes>)
    ensures |r| == |lines|
  {
    if cfg.stripCr then StripCrs(lines) else lines
  }

  function Number(lines: seq<bytes>, no: nat): seq<Event> {
    if lines == [] then [] else [Logical(lines[0], no)] + Number(lines[1..], no + 1)
  }

  function Joined(cfg: Config, lines: seq<bytes>): seq<Event> {
    if cfg.join then GoJoin(lines) else Number(lines, 1)
  }

  /** What one file hands to the record step. */
  function Events(cfg: Config, data: bytes): seq<Event> {
    var lines := Split(data);
    if cfg.rejectNul && NUL in data then [Fault(FileNul)]
    else if cfg.bom == BomReject && HasBom(lines) then [Fault(FileBom)]
    else Joined(cfg, DropCrs(cfg, DropBom(cfg, lines)))
  }

  /** Processing one file, and a list of files in order. */
  function File(cfg: Config, st: State, data: bytes): State { Run(cfg, GoFront, st, Events(cfg, data)) }

  function Files(cfg: Config, st: State, files: seq<bytes>): State
    decreases |files|
  {
    if files == [] then st else Files(cfg, File(cfg, st, files[0]), files[1..])
  }

  function AllEvents(cfg: Config, files: seq<bytes>): seq<Event> {
    if files == [] then [] else Events(cfg, files[0]) + AllEvents(cfg, files[1..])
  }

  /** A run over files is one run over all their events, so every law about runs is a law
      about lists of files. */
  lemma {:induction false} FilesAreOneRun(cfg: Config, st: State, files: seq<bytes>)
    ensures Files(cfg, st, files) == Run(cfg, GoFront, st, AllEvents(cfg, files))
    decreases |files|
  {
    if files != [] {
      FilesAreOneRun(cfg, File(cfg, st, files[0]), files[1..]);
      RunAppend(cfg, GoFront, st, Events(cfg, files[0]), AllEvents(cfg, files[1..]));
    }
  }

  /** Apply over any list of files is overlay of the bindings delta emits. */
  lemma FilesAreOverlay(cfg: Config, st: State, files: seq<bytes>)
    requires Binds(cfg)
    ensures var ps := Resolve(cfg.native, st.env, Accepts(cfg, GoFront, AllEvents(cfg, files)));
            var end := Files(cfg, st, files);
            end.env == Overlay(st.env, ps) &&
            end.out == st.out + (if cfg.action == Delta then Render(ps) else [])
  {
    FilesAreOneRun(cfg, st, files);
    RunIsOverlay(cfg, GoFront, st, AllEvents(cfg, files));
  }

  /** The live-in theorem over any list of files. */
  lemma FilesLiveIn(cfg: Config, s1: State, s2: State, files: seq<bytes>)
    requires Binds(cfg) && s2 == s1.(env := s2.env)
    requires AgreeOn(LiveIn(cfg, GoFront, AllEvents(cfg, files)), s1.env, s2.env)
    ensures var r1, r2 := Files(cfg, s1, files), Files(cfg, s2, files);
            r2 == r1.(env := r2.env) && AgreeOn(Written(cfg, GoFront, AllEvents(cfg, files)), r1.env, r2.env)
  {
    var es := AllEvents(cfg, files);
    FilesAreOneRun(cfg, s1, files);
    FilesAreOneRun(cfg, s2, files);
    LiveInDecides(cfg, GoFront, s1, s2, es, LiveIn(cfg, GoFront, es));
  }

  /** The counters add up over any list of files; a refused file is one fault. */
  lemma FilesConservation(cfg: Config, st: State, files: seq<bytes>)
    ensures var es := AllEvents(cfg, files);
            var t, rs, end := Count(cfg, GoFront, es), Accepts(cfg, GoFront, es), Files(cfg, st, files);
            end.checked == st.checked + t.accepted + t.rejected &&
            end.out == st.out + Render(Printed(cfg, st.env, rs)) &&
            |end.log| == |st.log| + t.rejected + t.faults +
                         (if Binds(cfg) then UnboundTotal(cfg.native, st.env, rs) else 0)
  {
    FilesAreOneRun(cfg, st, files);
    Conservation(cfg, GoFront, st, AllEvents(cfg, files));
    RunPrints(cfg, GoFront, st, AllEvents(cfg, files));
  }

  /** The growth bound over any list of files. */
  lemma FilesGrowthBound(cfg: Config, st: State, files: seq<bytes>, m: nat, l: nat)
    requires Binds(cfg) && l >= 1 && Bounded(st.env, m)
    requires forall r :: r in Accepts(cfg, GoFront, AllEvents(cfg, files)) ==> |r.value| <= l
    ensures var n := |Accepts(cfg, GoFront, AllEvents(cfg, files))|;
            Bounded(Files(cfg, st, files).env, GrowthLimit(m, l, n))
  {
    FilesAreOverlay(cfg, st, files);
    GrowthBound(cfg.native, st.env, Accepts(cfg, GoFront, AllEvents(cfg, files)), m, l);
  }

  // ---------------------------------------------------------------- bytes of events

  predicate LineFree(c: byte, lines: seq<bytes>) { forall i :: 0 <= i < |lines| ==> c !in lines[i] }
  predicate EventFree(c: byte, es: seq<Event>) {
    forall i :: 0 <= i < |es| ==> es[i].Logical? ==> c !in es[i].text
  }

  lemma EventFreeCons(c: byte, e: Event, es: seq<Event>)
    ensures EventFree(c, [e] + es) <==> (e.Logical? ==> c !in e.text) && EventFree(c, es)
  {
    var all := [e] + es;
    assert all[0] == e && all[1..] == es;
    if EventFree(c, all) {
      forall i | 0 <= i < |es| ensures es[i].Logical? ==> c !in es[i].text { assert all[i + 1] == es[i]; }
    }
  }

  lemma EventFreeTail(c: byte, es: seq<Event>)
    requires es != [] && EventFree(c, es)
    ensures EventFree(c, es[1..])
  {}

  lemma {:induction false} GoFromFree(c: byte, current: bytes, lines: seq<bytes>, no: nat)
    requires c !in current && LineFree(c, lines)
    ensures EventFree(c, GoFrom(current, lines, no))
    decreases |lines|
  {
    if lines != [] {
      assert c !in lines[0] && LineFree(c, lines[1..]);
      if Odd(current) {
        OddNonempty(current);
        GoFromFree(c, current[..|current| - 1] + lines[0], lines[1..], no + 1);
      } else {
        GoFromFree(c, lines[0], lines[1..], no + 1);
        EventFreeCons(c, Logical(current, no), GoFrom(lines[0], lines[1..], no + 1));
      }
    }
  }

  lemma {:induction false} NumberFree(c: byte, lines: seq<bytes>, no: nat)
    requires LineFree(c, lines)
    ensures EventFree(c, Number(lines, no))
    decreases |lines|
  {
    if lines != [] {
      assert LineFree(c, lines[1..]);
      NumberFree(c, lines[1..], no + 1);
      EventFreeCons(c, Logical(lines[0], no), Number(lines[1..], no + 1));
    }
  }

  lemma PreparedFree(cfg: Config, c: byte, lines: seq<bytes>)
    requires LineFree(c, lines)
    ensures LineFree(c, DropCrs(cfg, DropBom(cfg, lines)))
  {
    var ls := DropBom(cfg, lines);
    assert LineFree(c, ls);
    var r := DropCrs(cfg, ls);
    forall i | 0 <= i < |r| ensures c !in r[i] { assert c !in ls[i]; }
  }

  /** No logical line contains LF, nor any byte the file does not contain. */
  lemma EventsFree(cfg: Config, data: bytes, c: byte)
    requires c == LF || c !in data
    ensures EventFree(c, Events(cfg, data))
  {
    var lines := Split(data);
    SplitBytes(data, c);
    PreparedFree(cfg, c, lines);
    var ls := DropCrs(cfg, DropBom(cfg, lines));
    NumberFree(c, ls, 1);
    if ls != [] { GoFromFree(c, ls[0], ls[1..], 1); }
  }

  // ---------------------------------------------------------------- normalize

  /** Normalize keeps a logical line that holds '=' and is neither blank nor comment. */
  predicate IsKept(e: Event) { e.Logical? && !IsBlankOrComment(e.text) && EQUALS in e.text }

  /** The logical lines normalize prints. */
  function Kept(es: seq<Event>): seq<bytes> {
    if es == [] then []
    else
      var rest := Kept(es[1..]);
      if IsKept(es[0]) then [es[0].text] + rest else rest
  }

  lemma {:induction false} KeptFree(c: byte, es: seq<Event>)
    requires EventFree(c, es)
    ensures LineFree(c, Kept(es))
    decreases |es|
  {
    if es != [] {
      EventFreeTail(c, es);
      KeptFree(c, es[1..]);
    }
  }

  /** Normalize accepts exactly the lines that are kept. */
  lemma RawAccepts(line: bytes)
    ensures Raw(line).Accepted? <==> !IsBlankOrComment(line) && EQUALS in line
  {
    if EQUALS !in line { FindUnique(line, EQUALS, |line|); }
    hide IsBlankOrComment;
  }

  lemma RawPrintsBack(line: bytes)
    requires Raw(line).Accepted?
    ensures Pair(Raw(line).record.key, Raw(line).record.value) == line
  {
    PairParts(line, Find(line, EQUALS));
  }

  /** Normalize prints the kept logical lines verbatim. */
  lemma {:induction false} NormalizePrints(cfg: Config, st: State, es: seq<Event>)
    requires cfg.action == Normalize
    ensures Run(cfg, GoFront, st, es).out == st.out + Unlines(Kept(es))
    decreases |es|
  {
    if es == [] {
      assert st.out + [] == st.out;
    } else {
      NormalizePrints(cfg, Step(cfg, GoFront, st, es[0]), es[1..]);
      if es[0].Logical? { RawAccepts(es[0].text); }
      if IsKept(es[0]) {
        RawPrintsBack(es[0].text);
        var rest := Kept(es[1..]);
        assert ([es[0].text] + rest)[1..] == rest;
        AppendAssoc(st.out, es[0].text + [LF], Unlines(rest));
      }
    }
  }

  /** The setting under which a normalized file is read back as it stands. */
  predicate Verbatim(cfg: Config) { cfg.bom == BomLiteral && !cfg.stripCr }

  function AsNormalize(cfg: Config): Config { cfg.(action := Normalize) }
  function AsVerbatim(cfg: Config): Config { cfg.(bom := BomLiteral, stripCr := false, join := false) }

  const EMPTY: State := State(map[], [], 0, [])

  function NormalizeText(cfg: Config, data: bytes): bytes { File(AsNormalize(cfg), EMPTY, data).out }

  lemma NormalizeTextIsKept(cfg: Config, data: bytes)
    ensures NormalizeText(cfg, data) == Unlines(Kept(Events(cfg, data)))
    ensures LineFree(LF, Kept(Events(cfg, data)))
    ensures cfg.rejectNul ==> LineFree(NUL, Kept(Events(cfg, data))) && NUL !in NormalizeText(cfg, data)
  {
    var es := Events(cfg, data);
    assert Events(AsNormalize(cfg), data) == es;
    NormalizePrints(AsNormalize(cfg), EMPTY, es);
    EventsFree(cfg, data, LF);
    KeptFree(LF, es);
    if cfg.rejectNul {
      if NUL in data {
        assert Kept(es) == [];
      } else {
        EventsFree(cfg, data, NUL);
        KeptFree(NUL, es);
      }
      UnlinesFree(NUL, Kept(es));
    }
  }

  lemma {:induction false} UnlinesFree(c: byte, lines: seq<bytes>)
    requires c != LF && LineFree(c, lines)
    ensures c !in Unlines(lines)
  {
    if lines != [] {
      assert LineFree(c, lines[1..]);
      UnlinesFree(c, lines[1..]);
    }
  }

  /** Errors and lines counted since an earlier state. */
  function ErrorsSince(before: State, after: State): int { |after.log| - |before.log| }
  function CheckedSince(before: State, after: State): int { after.checked - before.checked }

  /** The fronts and lines for which normalize decides first: Go always, C on NUL-free lines. */
  predicate RawFirst(front: Front, es: seq<Event>) {
    front == GoFront || (front == CFront && EventFree(NUL, es))
  }

  /** The verdict v of a later stage starts with the test normalize makes. */
  predicate StartsRaw(v: Verdict, line: bytes) { if Raw(line).Accepted? then v != Skipped else v == Raw(line) }

  lemma RawFirstC(line: bytes)
    requires NUL !in line
    ensures StartsRaw(CNative(line), line) && StartsRaw(CShell(line), line)
  {}

  lemma RawFirstGo(line: bytes)
    ensures StartsRaw(GoNative(line), line) && StartsRaw(GoShell(line), line)
  {
    if Raw(line).Accepted? && EndsWith(line, CR) { CrBelongsToValue(line); }
  }

  /** The first '=' test of every later stage is the one normalize makes. */
  lemma RawComesFirst(cfg: Config, front: Front, line: bytes)
    requires front == GoFront || (front == CFront && NUL !in line)
    ensures !Raw(line).Accepted? ==> Classify(cfg, front, line) == Raw(line)
    ensures Raw(line).Accepted? ==> Classify(cfg, front, line) != Skipped
  {
    hide CShell, CNative, GoShell, GoNative, Raw, AsmShellOr, AsmNative;
    if front == CFront { RawFirstC(line); } else { RawFirstGo(line); }
  }

  /** An event normalize drops: later stages do with it what normalize does. */
  lemma DroppedStep(cfg: Config, front: Front, st: State, norm: State, e: Event)
    requires cfg.action != Normalize && !IsKept(e)
    requires e.Logical? ==> front == GoFront || (front == CFront && NUL !in e.text)
    ensures var st', norm' := Step(cfg, front, st, e), Step(AsNormalize(cfg), front, norm, e);
            st'.env == st.env && st'.out == st.out &&
            ErrorsSince(st, st') == ErrorsSince(norm, norm') && CheckedSince(st, st') == CheckedSince(norm, norm')
  {
    if e.Logical? {
      RawComesFirst(cfg, front, e.text);
      RawAccepts(e.text);
    }
    hide Raw, IsBlankOrComment;
  }

  /** An event normalize keeps: it is counted once and normalize reports nothing. */
  lemma KeptStep(cfg: Config, front: Front, st: State, norm: State, e: Event)
    requires cfg.action != Normalize && IsKept(e)
    requires front == GoFront || (front == CFront && NUL !in e.text)
    ensures var st', norm' := Step(cfg, front, st, e), Step(AsNormalize(cfg), front, norm, e);
            CheckedSince(st, st') == CheckedSince(norm, norm') && ErrorsSince(norm, norm') == 0
  {
    RawComesFirst(cfg, front, e.text);
    RawAccepts(e.text);
    hide Raw, IsBlankOrComment;
  }

  /** Running over all events, and running over the kept lines renumbered, reach the same
      output and environment; the errors that disappear are those normalize reports. */
  lemma {:induction false} KeptRun(cfg: Config, front: Front, st: State, again: State, norm: State, es: seq<Event>,
                                   no: nat)
    requires cfg.action != Normalize && again.env == st.env && again.out == st.out && RawFirst(front, es)
    ensures var direct := Run(cfg, front, st, es);
            var second := Run(cfg, front, again, Number(Kept(es), no));
            var first := Run(AsNormalize(cfg), front, norm, es);
            second.env == direct.env && second.out == direct.out &&
            ErrorsSince(st, direct) == ErrorsSince(norm, first) + ErrorsSince(again, second) &&
            CheckedSince(st, direct) == CheckedSince(norm, first)
    decreases |es|
  {
    if es != [] {
      hide Step, Raw;
      var e := es[0];
      var st', norm' := Step(cfg, front, st, e), Step(AsNormalize(cfg), front, norm, e);
      if front == CFront {
        EventFreeTail(NUL, es);
        assert e.Logical? ==> NUL !in e.text;
      }
      hide EventFree;
      if IsKept(e) {
        KeptCons(es, no);
        RunConsOf(cfg, front, again, Logical(e.text, no), Number(Kept(es[1..]), no + 1));
        SameStep(cfg, front, st, again, e.text, e.no, no);
        KeptStep(cfg, front, st, norm, e);
        KeptRun(cfg, front, st', Step(cfg, front, again, Logical(e.text, no)), norm', es[1..], no + 1);
      } else {
        DroppedStep(cfg, front, st, norm, e);
        KeptRun(cfg, front, st', again, norm', es[1..], no);
      }
    }
  }

  lemma KeptCons(es: seq<Event>, no: nat)
    requires es != [] && IsKept(es[0])
    ensures Number(Kept(es), no) == [Logical(es[0].text, no)] + Number(Kept(es[1..]), no + 1)
  {
    assert ([es[0].text] + Kept(es[1..]))[1..] == Kept(es[1..]);
  }

  lemma RunConsOf(cfg: Config, front: Front, st: State, e: Event, es: seq<Event>)
    ensures Run(cfg, front, st, [e] + es) == Run(cfg, front, Step(cfg, front, st, e), es)
  {
    assert ([e] + es)[1..] == es;
  }

  lemma SameStep(cfg: Config, front: Front, s1: State, s2: State, text: bytes, no1: nat, no2: nat)
    requires s1.env == s2.env && s1.out == s2.out
    ensures var t1, t2 := Step(cfg, front, s1, Logical(text, no1)), Step(cfg, front, s2, Logical(text, no2));
            t1.env == t2.env && t1.out == t2.out && ErrorsSince(s1, t1) == ErrorsSince(s2, t2)
  {}

  /** The stage contract: with any BOM, CRLF, NUL and continuation setting, running the stage
      directly equals normalizing first and then running it verbatim, on output, on the
      environment, and on the number of errors. */
  lemma NormalizeFactors(cfg: Config, st: State, again: State, data: bytes)
    requires cfg.action != Normalize && again.env == st.env && again.out == st.out
    ensures var direct := File(cfg, st, data);
            var first := File(AsNormalize(cfg), EMPTY, data);
            var second := File(AsVerbatim(cfg), again, NormalizeText(cfg, data));
            second.env == direct.env && second.out == direct.out &&
            ErrorsSince(st, direct) == ErrorsSince(EMPTY, first) + ErrorsSince(again, second) &&
            CheckedSince(st, direct) == CheckedSince(EMPTY, first)
  {
    var es := Events(cfg, data);
    VerbatimEvents(cfg, data);
    assert Events(AsNormalize(cfg), data) == es;
    KeptRun(cfg, GoFront, st, again, EMPTY, es, 1);
    SameActionRuns(cfg, AsVerbatim(cfg), GoFront, again, Number(Kept(es), 1));
  }

  /** Read verbatim, the normalized text gives the kept lines again, renumbered. */
  lemma VerbatimEvents(cfg: Config, data: bytes)
    ensures Events(AsVerbatim(cfg), NormalizeText(cfg, data)) == Number(Kept(Events(cfg, data)), 1)
  {
    NormalizeTextIsKept(cfg, data);
    SplitUnlines(Kept(Events(cfg, data)));
  }

  /** The fold looks only at format and action. */
  lemma {:induction false} SameActionRuns(c1: Config, c2: Config, front: Front, st: State, es: seq<Event>)
    requires c1.native == c2.native && c1.action == c2.action
    ensures Run(c1, front, st, es) == Run(c2, front, st, es)
    decreases |es|
  {
    if es != [] { SameActionRuns(c1, c2, front, Step(c1, front, st, es[0]), es[1..]); }
  }

  function NormalizeAll(cfg: Config, files: seq<bytes>): seq<bytes> {
    if files == [] then [] else [NormalizeText(cfg, files[0])] + NormalizeAll(cfg, files[1..])
  }

  /** The errors and checked lines normalize counts, summed over the files. */
  function NormalizeErrors(cfg: Config, files: seq<bytes>): int {
    if files == [] then 0
    else ErrorsSince(EMPTY, File(AsNormalize(cfg), EMPTY, files[0])) + NormalizeErrors(cfg, files[1..])
  }

  function NormalizeChecked(cfg: Config, files: seq<bytes>): int {
    if files == [] then 0
    else CheckedSince(EMPTY, File(AsNormalize(cfg), EMPTY, files[0])) + NormalizeChecked(cfg, files[1..])
  }

  /** The same over any list of files, with the counts summed over the files. */
  lemma {:induction false} NormalizeFactorsFiles(cfg: Config, st: State, again: State, files: seq<bytes>)
    requires cfg.action != Normalize && again.env == st.env && again.out == st.out
    ensures var direct, second := Files(cfg, st, files), Files(AsVerbatim(cfg), again, NormalizeAll(cfg, files));
            second.env == direct.env && second.out == direct.out &&
            ErrorsSince(st, direct) == NormalizeErrors(cfg, files) + ErrorsSince(again, second) &&
            CheckedSince(st, direct) == NormalizeChecked(cfg, files)
    decreases |files|
  {
    if files != [] {
      NormalizeFactors(cfg, st, again, files[0]);
      hide File, NormalizeText;
      var rest := NormalizeAll(cfg, files[1..]);
      assert ([NormalizeText(cfg, files[0])] + rest)[1..] == rest;
      NormalizeFactorsFiles(cfg, File(cfg, st, files[0]),
                            File(AsVerbatim(cfg), again, NormalizeText(cfg, files[0])), files[1..]);
    }
  }

  // ---------------------------------------------------------------- idempotence

  /** Every line but the last ends in an even run of backslashes. */
  predicate OnlyLastOdd(lines: seq<bytes>) { forall i :: 0 <= i < |lines| - 1 ==> !Odd(lines[i]) }

  lemma {:induction false} GoFromOnlyLastOdd(current: bytes, lines: seq<bytes>, no: nat)
    ensures forall i :: 0 <= i < |GoFrom(current, lines, no)| - 1 ==>
              GoFrom(current, lines, no)[i].Logical? && !Odd(GoFrom(current, lines, no)[i].text)
    decreases |lines|
  {
    if lines != [] {
      if Odd(current) {
        OddNonempty(current);
        GoFromOnlyLastOdd(current[..|current| - 1] + lines[0], lines[1..], no + 1);
      } else {
        GoFromOnlyLastOdd(lines[0], lines[1..], no + 1);
      }
    }
  }

  lemma {:induction false} KeptOnlyLastOdd(es: seq<Event>)
    requires forall i :: 0 <= i < |es| - 1 ==> es[i].Logical? ==> !Odd(es[i].text)
    ensures OnlyLastOdd(Kept(es))
    decreases |es|
  {
    if es != [] {
      KeptOnlyLastOdd(es[1..]);
      if |es| == 1 {
        assert Kept(es[1..]) == [];
      }
    }
  }

  /** Joining changes nothing when only the last line may be odd. */
  lemma {:induction false} JoinKeepsLines(current: bytes, lines: seq<bytes>, no: nat)
    requires OnlyLastOdd([current] + lines)
    ensures GoFrom(current, lines, no) == Number([current] + lines, no)
    decreases |lines|
  {
    assert ([current] + lines)[1..] == lines;
    if lines != [] {
      assert !Odd(([current] + lines)[0]);
      assert OnlyLastOdd(lines) by {
        forall i | 0 <= i < |lines| - 1 ensures !Odd(lines[i]) { assert ([current] + lines)[i + 1] == lines[i]; }
      }
      assert [lines[0]] + lines[1..] == lines;
      JoinKeepsLines(lines[0], lines[1..], no + 1);
    } else {
      assert Number([current], no) == [Logical(current, no)] + Number([], no + 1);
    }
  }

  lemma {:induction false} JoinShortens(current: bytes, lines: seq<bytes>, no: nat)
    ensures |GoFrom(current, lines, no)| <= |lines| + 1
    ensures |GoFrom(current, lines, no)| == |lines| + 1 ==> OnlyLastOdd([current] + lines)
    decreases |lines|
  {
    if lines != [] {
      var all := [current] + lines;
      if Odd(current) {
        OddNonempty(current);
        JoinShortens(current[..|current| - 1] + lines[0], lines[1..], no + 1);
      } else {
        JoinShortens(lines[0], lines[1..], no + 1);
        assert [lines[0]] + lines[1..] == lines;
        if OnlyLastOdd(lines) {
          forall i | 0 <= i < |all| - 1 ensures !Odd(all[i]) { if i > 0 { assert all[i] == lines[i - 1]; } }
        }
      }
    }
  }

  lemma {:induction false} NumberLength(lines: seq<bytes>, no: nat)
    ensures |Number(lines, no)| == |lines|
  {
    if lines != [] { NumberLength(lines[1..], no + 1); }
  }

  /** Accepting continuations changes nothing exactly when only the last line may be odd. */
  lemma JoinIsNumberIff(lines: seq<bytes>)
    ensures GoJoin(lines) == Number(lines, 1) <==> OnlyLastOdd(lines)
  {
    if lines != [] {
      assert [lines[0]] + lines[1..] == lines;
      NumberLength(lines, 1);
      JoinShortens(lines[0], lines[1..], 1);
      if OnlyLastOdd(lines) { JoinKeepsLines(lines[0], lines[1..], 1); }
    }
  }

  lemma {:induction false} KeptOfKept(es: seq<Event>, no: nat)
    ensures Kept(Number(Kept(es), no)) == Kept(es)
    decreases |es|
  {
    if es != [] {
      if IsKept(es[0]) {
        RawAccepts(es[0].text);
        var rest := Kept(es[1..]);
        KeptOfKept(es[1..], no + 1);
        assert ([es[0].text] + rest)[1..] == rest;
        assert ([Logical(es[0].text, no)] + Number(rest, no + 1))[1..] == Number(rest, no + 1);
      } else {
        KeptOfKept(es[1..], no);
      }
    }
  }

  lemma EventsOnlyLastOdd(cfg: Config, data: bytes)
    requires cfg.join
    ensures OnlyLastOdd(Kept(Events(cfg, data)))
  {
    var lines := DropCrs(cfg, DropBom(cfg, Split(data)));
    if lines != [] { GoFromOnlyLastOdd(lines[0], lines[1..], 1); }
    KeptOnlyLastOdd(Events(cfg, data));
  }

  /** Normalized text is a fixed point of verbatim normalizing; with continuation accepted
      again this needs that it was accepted the first time. */
  lemma NormalizedIsFixed(cfg: Config, cfg2: Config, data: bytes)
    requires Verbatim(cfg2) && (cfg2.join ==> cfg.join) && (cfg2.rejectNul ==> cfg.rejectNul)
    ensures NormalizeText(cfg2, NormalizeText(cfg, data)) == NormalizeText(cfg, data)
  {
    var es := Events(cfg, data);
    var lines, text := Kept(es), NormalizeText(cfg, data);
    NormalizeTextIsKept(cfg, data);
    NormalizeTextIsKept(cfg2, text);
    SplitUnlines(lines);
    if cfg2.join && lines != [] {
      EventsOnlyLastOdd(cfg, data);
      assert [lines[0]] + lines[1..] == lines;
      JoinKeepsLines(lines[0], lines[1..], 1);
    }
    assert Events(cfg2, text) == Number(lines, 1);
    KeptOfKept(es, 1);
  }

  /** Normalize with CRLF=ignore and BOM=literal is idempotent for every file, whether or not
      continuations are accepted. */
  lemma NormalizeIdempotent(cfg: Config, data: bytes)
    requires Verbatim(cfg)
    ensures NormalizeText(cfg, NormalizeText(cfg, data)) == NormalizeText(cfg, data)
  {
    NormalizedIsFixed(cfg, cfg, data);
  }

  // ---------------------------------------------------------------- clean bindings and round trips

  /** A binding that survives being written as one line. */
  predicate CleanName(key: bytes) {
    key != [] && key[0] != HASH && EQUALS !in key && LF !in key && NUL !in key
  }
  predicate CleanValue(value: bytes) { LF !in value && NUL !in value }
  predicate CleanEnv(env: Env) { forall k :: k in env ==> CleanName(k) && CleanValue(env[k]) }
  predicate CleanPairs(ps: seq<EnvPair>) {
    forall i :: 0 <= i < |ps| ==> CleanName(ps[i].key) && CleanValue(ps[i].value)
  }

  const NATIVE_DUMP: Config := Config(true, Dump, BomLiteral, false, true, false)

  function PairTexts(ps: seq<EnvPair>): seq<bytes> {
    seq(|ps|, i requires 0 <= i < |ps| => Pair(ps[i].key, ps[i].value))
  }

  lemma {:induction false} RenderIsUnlines(ps: seq<EnvPair>)
    ensures Render(ps) == Unlines(PairTexts(ps))
  {
    if ps != [] {
      RenderIsUnlines(ps[1..]);
      assert PairTexts(ps) == [Pair(ps[0].key, ps[0].value)] + PairTexts(ps[1..]);
      assert PairTexts(ps)[1..] == PairTexts(ps[1..]);
    }
  }

  lemma CleanPairParses(p: EnvPair)
    requires CleanName(p.key)
    ensures GoNative(Pair(p.key, p.value)) == Accepted(Record(p.key, p.value, Plain))
  {
    PairSplits(p.key, p.value);
    PairNotBlank(p.key, p.value);
  }

  /** The records a native dump reads from a text, as bindings. */
  function Parsed(data: bytes): seq<EnvPair> {
    var rs := Accepts(NATIVE_DUMP, GoFront, Events(NATIVE_DUMP, data));
    seq(|rs|, i requires 0 <= i < |rs| => EnvPair(rs[i].key, rs[i].value))
  }

  function PlainRecords(ps: seq<EnvPair>): seq<Record> {
    seq(|ps|, i requires 0 <= i < |ps| => Record(ps[i].key, ps[i].value, Plain))
  }

  lemma PairTextsCons(ps: seq<EnvPair>, no: nat)
    requires ps != []
    ensures Number(PairTexts(ps), no) ==
            [Logical(Pair(ps[0].key, ps[0].value), no)] + Number(PairTexts(ps[1..]), no + 1)
    ensures PlainRecords(ps) == [Record(ps[0].key, ps[0].value, Plain)] + PlainRecords(ps[1..])
  {
    assert PairTexts(ps)[1..] == PairTexts(ps[1..]);
  }

  lemma {:induction false} PairTextsRun(ps: seq<EnvPair>, st: State, no: nat)
    requires CleanPairs(ps)
    ensures var es := Number(PairTexts(ps), no);
            Accepts(NATIVE_DUMP, GoFront, es) == PlainRecords(ps) &&
            Run(NATIVE_DUMP, GoFront, st, es).log == st.log
    decreases |ps|
  {
    if ps != [] {
      assert CleanName(ps[0].key) && CleanPairs(ps[1..]);
      CleanPairParses(ps[0]);
      PairTextsCons(ps, no);
      hide GoNative, Pair, CleanName, CleanValue, CleanPairs, PairTexts, Number, PlainRecords;
      var e, es := Logical(Pair(ps[0].key, ps[0].value), no), Number(PairTexts(ps[1..]), no + 1);
      assert ([e] + es)[1..] == es;
      PairTextsRun(ps[1..], Step(NATIVE_DUMP, GoFront, st, e), no + 1);
    }
  }

  lemma PairTextsFree(ps: seq<EnvPair>)
    requires CleanPairs(ps)
    ensures LineFree(LF, PairTexts(ps)) && LineFree(NUL, PairTexts(ps))
  {
    forall i | 0 <= i < |ps| ensures LF !in PairTexts(ps)[i] && NUL !in PairTexts(ps)[i] {
      assert CleanName(ps[i].key);
    }
  }

  /** Clean bindings written as lines are read back exactly, without a diagnostic. */
  lemma RenderParses(ps: seq<EnvPair>, st: State)
    requires CleanPairs(ps)
    ensures Parsed(Render(ps)) == ps && File(NATIVE_DUMP, st, Render(ps)).log == st.log
  {
    RenderIsUnlines(ps);
    PairTextsFree(ps);
    SplitUnlines(PairTexts(ps));
    UnlinesFree(NUL, PairTexts(ps));
    PairTextsRun(ps, st, 1);
    assert Events(NATIVE_DUMP, Render(ps)) == Number(PairTexts(ps), 1);
  }

  lemma NativeAcceptsClean(line: bytes)
    requires LF !in line && NUL !in line && GoNative(line).Accepted?
    ensures var r := GoNative(line).record;
            CleanName(r.key) && CleanValue(r.value) && Pair(r.key, r.value) == line
  {
    var eq := Find(line, EQUALS);
    PairParts(line, eq);
    PairNotBlank(line[..eq], line[eq + 1..]);
  }

  lemma {:induction false} AcceptsClean(es: seq<Event>)
    requires EventFree(LF, es) && EventFree(NUL, es)
    ensures forall r :: r in Accepts(NATIVE_DUMP, GoFront, es) ==> CleanName(r.key) && CleanValue(r.value)
    decreases |es|
  {
    if es != [] {
      EventFreeTail(LF, es);
      EventFreeTail(NUL, es);
      AcceptsClean(es[1..]);
      if es[0].Logical? && GoNative(es[0].text).Accepted? { NativeAcceptsClean(es[0].text); }
    }
  }

  /** Whatever is read, the bindings are clean. */
  lemma ParsedIsClean(data: bytes)
    ensures CleanPairs(Parsed(data))
  {
    var es := Events(NATIVE_DUMP, data);
    EventsFree(NATIVE_DUMP, data, LF);
    if NUL !in data { EventsFree(NATIVE_DUMP, data, NUL); }
    AcceptsClean(es);
    var rs := Accepts(NATIVE_DUMP, GoFront, es);
    forall i | 0 <= i < |rs| ensures CleanName(rs[i].key) && CleanValue(rs[i].value) { assert rs[i] in rs; }
  }

  /** What a native dump writes, it reads back; so dumping is idempotent and the second run
      reports nothing. */
  lemma NativeDumpIdempotent(data: bytes, st: State)
    ensures var once := File(NATIVE_DUMP, EMPTY, data).out;
            File(NATIVE_DUMP, EMPTY, once).out == once && File(NATIVE_DUMP, st, once).log == st.log
  {
    var ps := Parsed(data);
    ParsedIsClean(data);
    DumpRenders(data);
    RenderParses(ps, st);
    DumpRenders(Render(ps));
  }

  lemma DumpRenders(data: bytes)
    ensures File(NATIVE_DUMP, EMPTY, data).out == Render(Parsed(data))
  {
    RunPrints(NATIVE_DUMP, GoFront, EMPTY, Events(NATIVE_DUMP, data));
    assert [] + Render(Parsed(data)) == Render(Parsed(data));
  }

  // ---------------------------------------------------------------- cleanliness is kept by runs

  lemma ShellPairClean(key: bytes, value: bytes)
    requires CleanValue(key) && CleanValue(value) && GoShellPair(key, value).Accepted?
    ensures var r := GoShellPair(key, value).record; CleanName(r.key) && CleanValue(r.value)
  {
    IdentifierBytes(key);
    ShellValuePrints(key, value);
    var r := GoShellPair(key, value).record;
    hide IsIdentifier, ShellValue;
    assert forall c :: c in r.value ==> c in Wrap(r.value, r.kind);
  }

  lemma ShellAcceptsClean(line: bytes)
    requires LF !in line && NUL !in line && GoShell(line).Accepted?
    ensures var r := GoShell(line).record; CleanName(r.key) && CleanValue(r.value)
  {
    hide GoShellPair;
    var work := TrimCr(line);
    var eq := Find(work, EQUALS);
    assert CleanValue(work);
    ShellPairClean(work[..eq], work[eq + 1..]);
  }

  lemma AcceptKeepsClean(cfg: Config, st: State, r: Record, no: nat)
    requires CleanEnv(st.env) && CleanName(r.key) && CleanValue(r.value)
    ensures CleanEnv(Accept(cfg, st, r, no).env)
  {
    if Substitutes(cfg.native, r) {
      Lossless(r.value);
      ExpandBytes(Tokens(r.value), st.env, LF);
      ExpandBytes(Tokens(r.value), st.env, NUL);
    }
  }

  /** A run over LF- and NUL-free lines keeps the environment clean. */
  lemma {:induction false} RunKeepsClean(cfg: Config, st: State, es: seq<Event>)
    requires cfg.action != Normalize && CleanEnv(st.env) && EventFree(LF, es) && EventFree(NUL, es)
    ensures CleanEnv(Run(cfg, GoFront, st, es).env)
    decreases |es|
  {
    if es != [] {
      EventFreeTail(LF, es);
      EventFreeTail(NUL, es);
      if es[0].Logical? && Classify(cfg, GoFront, es[0].text).Accepted? {
        var r := Classify(cfg, GoFront, es[0].text).record;
        if cfg.native { NativeAcceptsClean(es[0].text); } else { ShellAcceptsClean(es[0].text); }
        AcceptKeepsClean(cfg, st, r, es[0].no);
      }
      RunKeepsClean(cfg, Step(cfg, GoFront, st, es[0]), es[1..]);
    }
  }

  /** With NUL rejected, every list of files keeps a clean environment clean. */
  lemma {:induction false} FilesKeepClean(cfg: Config, st: State, files: seq<bytes>)
    requires cfg.action != Normalize && cfg.rejectNul && CleanEnv(st.env)
    ensures CleanEnv(Files(cfg, st, files).env)
    decreases |files|
  {
    if files != [] {
      EventsFree(cfg, files[0], LF);
      if NUL !in files[0] { EventsFree(cfg, files[0], NUL); }
      RunKeepsClean(cfg, st, Events(cfg, files[0]));
      FilesKeepClean(cfg, File(cfg, st, files[0]), files[1..]);
    }
  }

  // ---------------------------------------------------------------- exponential growth, as a file

  function Repeat(line: bytes, n: nat): seq<bytes> { if n == 0 then [] else [line] + Repeat(line, n - 1) }

  lemma DoublingLine(cfg: Config)
    requires cfg.native && cfg.action != Normalize
    ensures var line := Print(DOUBLING);
            LF !in line && NUL !in line && Classify(cfg, GoFront, line) == Accepted(DOUBLING)
  {
    PairSplits(A, DOUBLING.value);
    PairNotBlank(A, DOUBLING.value);
    hide Find, IsBlankOrComment;
  }

  lemma {:induction false} RepeatFree(c: byte, line: bytes, n: nat)
    requires c !in line
    ensures LineFree(c, Repeat(line, n))
  {
    if n > 0 { RepeatFree(c, line, n - 1); }
  }

  lemma {:induction false} RepeatAt(line: bytes, n: nat)
    ensures |Repeat(line, n)| == n && forall i :: 0 <= i < n ==> Repeat(line, n)[i] == line
  {
    if n > 0 {
      RepeatAt(line, n - 1);
      assert forall i :: 0 < i < n ==> Repeat(line, n)[i] == Repeat(line, n - 1)[i - 1];
    }
  }

  /** A list of equal accepted lines contributes that many equal records. */
  lemma {:induction false} RepeatedRecords(cfg: Config, line: bytes, r: Record, n: nat, no: nat)
    requires Classify(cfg, GoFront, line) == Accepted(r)
    ensures var rs := Accepts(cfg, GoFront, Number(Repeat(line, n), no));
            |rs| == n && forall i :: 0 <= i < n ==> rs[i] == r
  {
    if n > 0 {
      hide Classify;
      var rest := Repeat(line, n - 1);
      RepeatedRecords(cfg, line, r, n - 1, no + 1);
      var e, es := Logical(line, no), Number(rest, no + 1);
      assert ([line] + rest)[1..] == rest && ([e] + es)[1..] == es;
      assert AcceptedBy(cfg, GoFront, e) == Some(r);
      assert Accepts(cfg, GoFront, [e] + es) == [r] + Accepts(cfg, GoFront, es);
    }
  }

  /** The lines hold no backslash, so accepting continuations does not matter. */
  lemma DoublingEvents(cfg: Config, n: nat)
    requires cfg.native && cfg.action != Normalize && Verbatim(cfg)
    ensures var lines := Repeat(Print(DOUBLING), n);
            Events(cfg, Unlines(lines)) == Number(lines, 1)
  {
    var line, lines := Print(DOUBLING), Repeat(Print(DOUBLING), n);
    DoublingLine(cfg);
    RepeatFree(LF, line, n);
    RepeatFree(NUL, line, n);
    RepeatAt(line, n);
    assert !Odd(line) by { assert line[|line| - 1] == 65; }
    hide Print, Odd, Repeat, Number, Joined, GoJoin, Classify, Split, Unlines;
    SplitUnlines(lines);
    UnlinesFree(NUL, lines);
    JoinedEven(cfg, lines);
  }

  lemma JoinedEven(cfg: Config, lines: seq<bytes>)
    requires OnlyLastOdd(lines)
    ensures Joined(cfg, lines) == Number(lines, 1)
  {
    JoinIsNumberIff(lines);
  }

  /** A native file of n lines A=$A$A makes the value of A exactly 2^n times as long. */
  lemma DoublingFile(cfg: Config, st: State, n: nat)
    requires cfg.native && Binds(cfg) && Verbatim(cfg) && A in st.env
    ensures var end := File(cfg, st, Unlines(Repeat(Print(DOUBLING), n)));
            A in end.env && |end.env[A]| == Pow(2, n) * |st.env[A]|
  {
    var lines := Repeat(Print(DOUBLING), n);
    var es := Number(lines, 1);
    DoublingLine(cfg);
    DoublingEvents(cfg, n);
    hide Print, Classify, Events, Number, Repeat;
    RepeatedRecords(cfg, Print(DOUBLING), DOUBLING, n, 1);
    RunIsOverlay(cfg, GoFront, st, es);
    Doubling(st.env, Accepts(cfg, GoFront, es));
  }
}
