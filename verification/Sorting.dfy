/** Sorted emission of the environment by apply. */
module Sorting {
  import opened Bytes
  import opened Records
  import opened Substitution
  import opened Environment
  import opened Engine
  import opened Pipeline

  // ---------------------------------------------------------------- byte order

  /** Byte-wise lexicographic order (strcmp, memcmp order with shorter first). */
  predicate Less(a: bytes, b: bytes)
    decreases |a|
  {
    b != [] && (a == [] || a[0] < b[0] || (a[0] == b[0] && Less(a[1..], b[1..])))
  }

  lemma {:induction false} LessTransitive(a: bytes, b: bytes, c: bytes)
    requires Less(a, b) && Less(b, c)
    ensures Less(a, c)
    decreases |a|
  {
    if a != [] && a[0] == b[0] && b[0] == c[0] { LessTransitive(a[1..], b[1..], c[1..]); }
  }

  lemma {:induction false} LessTotal(a: bytes, b: bytes)
    ensures a == b || Less(a, b) || Less(b, a)
    ensures !(Less(a, b) && Less(b, a)) && !Less(a, a)
    decreases |a|
  {
    if a != [] && b != [] {
      LessTotal(a[1..], b[1..]);
      if a[0] == b[0] && a[1..] == b[1..] {
        assert a == [a[0]] + a[1..] && b == [b[0]] + b[1..];
      }
    }
    if a != [] { LessTotal(a[1..], a[1..]); }
  }

  predicate Ascending(ks: seq<bytes>) { forall i, j :: 0 <= i < j < |ks| ==> Less(ks[i], ks[j]) }

  /** ks lists the names of env that are printed, in strictly ascending byte order. */
  ghost predicate IsSortedKeys(ks: seq<bytes>, env: Env) {
    Ascending(ks) && forall k :: k in ks <==> k in env && !IsControl(k)
  }

  function PairsOf(ks: seq<bytes>, env: Env): (ps: seq<EnvPair>)
    requires forall k :: k in ks ==> k in env
    ensures |ps| == |ks|
  {
    seq(|ks|, i requires 0 <= i < |ks| => EnvPair(ks[i], env[ks[i]]))
  }

  /** The bindings apply prints. */
  function Emittable(env: Env): Env { map k | k in env && !IsControl(k) :: env[k] }

  // ---------------------------------------------------------------- canonicity

  lemma {:induction false} AscendingUnique(a: seq<bytes>, b: seq<bytes>)
    requires Ascending(a) && Ascending(b) && forall k :: k in a <==> k in b
    ensures a == b
    decreases |a|
  {
    if a == [] {
      assert forall i :: 0 <= i < |b| ==> b[i] in b;
    } else {
      assert a[0] in b;
      SameHead(a, b);
      forall k ensures k in a[1..] <==> k in b[1..] {
        LessTotal(a[0], a[0]);
        assert k in a <==> k == a[0] || k in a[1..];
        assert k in b <==> k == b[0] || k in b[1..];
      }
      AscendingUnique(a[1..], b[1..]);
      assert a == [a[0]] + a[1..] && b == [b[0]] + b[1..];
    }
  }

  lemma SameHead(a: seq<bytes>, b: seq<bytes>)
    requires a != [] && b != [] && Ascending(a) && Ascending(b) && a[0] in b && b[0] in a
    ensures a[0] == b[0]
  {
    LessTotal(a[0], b[0]);
  }

  /** The emission depends only on the map: any two ways of listing the keys agree. */
  lemma EmissionIsCanonical(k1: seq<bytes>, k2: seq<bytes>, env: Env)
    requires IsSortedKeys(k1, env) && IsSortedKeys(k2, env)
    ensures k1 == k2
  {
    AscendingUnique(k1, k2);
  }

  // ---------------------------------------------------------------- the exchange sort of awk

  predicate NoDuplicates(ks: seq<bytes>) { forall i, j :: 0 <= i < j < |ks| ==> ks[i] != ks[j] }

  lemma SwapKeeps(before: seq<bytes>, after: seq<bytes>, i: nat, j: nat)
    requires i < j < |before| && after == before[i := before[j]][j := before[i]] && NoDuplicates(before)
    ensures NoDuplicates(after) && multiset(after) == multiset(before)
  {}

  /** In-place exchange sort: for each i, every smaller later key is swapped into place i. */
  method ExchangeSort(keys: array<bytes>)
    requires NoDuplicates(keys[..])
    modifies keys
    ensures Ascending(keys[..])
    ensures multiset(keys[..]) == multiset(old(keys[..]))
  {
    var n := keys.Length;
    var i := 0;
    while i < n
      invariant 0 <= i <= n
      invariant NoDuplicates(keys[..]) && multiset(keys[..]) == multiset(old(keys[..]))
      invariant Placed(keys[..], i)
    {
      var j := i + 1;
      while j < n
        invariant i < j <= n
        invariant NoDuplicates(keys[..]) && multiset(keys[..]) == multiset(old(keys[..]))
        invariant Placed(keys[..], i)
        invariant LeastUpTo(keys[..], i, j)
      {
        ghost var before := keys[..];
        if Less(keys[j], keys[i]) {
          keys[i], keys[j] := keys[j], keys[i];
          assert keys[..] == before[i := before[j]][j := before[i]];
          SwapKeeps(before, keys[..], i, j);
          SwapPlaces(before, keys[..], i, j);
        } else {
          LessTotal(keys[i], keys[j]);
        }
        j := j + 1;
      }
      i := i + 1;
    }
  }

  /** The first n places hold their final keys. */
  predicate Placed(ks: seq<bytes>, n: nat)
  {
    n <= |ks| && forall i, j :: 0 <= i < n && i < j < |ks| ==> Less(ks[i], ks[j])
  }

  predicate LeastUpTo(ks: seq<bytes>, i: nat, j: nat)
    requires i < |ks|
  {
    j <= |ks| && forall m :: i < m < j ==> Less(ks[i], ks[m])
  }

  lemma SwapPlaces(before: seq<bytes>, after: seq<bytes>, i: nat, j: nat)
    requires i < j < |before| && after == before[i := before[j]][j := before[i]]
    requires Placed(before, i) && LeastUpTo(before, i, j) && Less(before[j], before[i])
    ensures Placed(after, i) && LeastUpTo(after, i, j + 1)
  {
    forall m | i < m < j + 1 ensures Less(after[i], after[m]) {
      if m < j { LessTransitive(before[j], before[i], before[m]); }
    }
  }

  /** The keys awk collects, sorts and prints, whatever order its table is walked in. */
  method EmitEnvSorted(env: Env, order: seq<bytes>) returns (out: bytes)
    requires NoDuplicates(order) && forall k :: k in order <==> k in env
    ensures exists ks :: IsSortedKeys(ks, env) && out == Render(PairsOf(ks, env))
  {
    var kept := Collect(order);
    var keys := new bytes[|kept|](i requires 0 <= i < |kept| => kept[i]);
    assert keys[..] == kept;
    ExchangeSort(keys);
    SameMembers(keys[..], kept);
    assert IsSortedKeys(keys[..], env);
    out := PrintAll(keys, env);
  }

  /** The printing loop. */
  method PrintAll(keys: array<bytes>, env: Env) returns (out: bytes)
    requires forall k :: k in keys[..] ==> k in env
    ensures out == Render(PairsOf(keys[..], env))
  {
    hide Render, Line;
    ghost var ps := PairsOf(keys[..], env);
    out := [];
    var i := 0;
    assert ps[0..] == ps && [] + Render(ps) == Render(ps);
    while i < keys.Length
      invariant 0 <= i <= keys.Length && out + Render(ps[i..]) == Render(ps)
    {
      assert ps[i] == EnvPair(keys[i], env[keys[i]]) && ps[i..] == [ps[i]] + ps[i + 1..];
      RenderCons(ps[i], ps[i + 1..]);
      AppendAssoc(out, Line(keys[i], env[keys[i]]), Render(ps[i + 1..]));
      out := out + Line(keys[i], env[keys[i]]);
      i := i + 1;
    }
    RenderNone();
    assert ps[i..] == [] && out + [] == out;
  }

  lemma RenderNone()
    ensures Render([]) == []
  {}

  method Collect(order: seq<bytes>) returns (kept: seq<bytes>)
    requires NoDuplicates(order)
    ensures NoDuplicates(kept) && forall k :: k in kept <==> k in order && !IsControl(k)
  {
    kept := [];
    var i := 0;
    while i < |order|
      invariant 0 <= i <= |order|
      invariant NoDuplicates(kept) && forall k :: k in kept <==> k in order[..i] && !IsControl(k)
    {
      assert order[..i + 1] == order[..i] + [order[i]];
      if !IsControl(order[i]) {
        assert order[i] !in order[..i];
        kept := kept + [order[i]];
      }
      i := i + 1;
    }
    assert order[..i] == order;
  }

  lemma SameMembers(a: seq<bytes>, b: seq<bytes>)
    requires multiset(a) == multiset(b)
    ensures forall k :: k in a <==> k in b
  {
    forall k ensures k in a <==> k in b {
      assert k in a <==> k in multiset(a);
      assert k in b <==> k in multiset(b);
    }
  }

  // ---------------------------------------------------------------- emission through a library sort (C, Go, Zig)

  /** The pairs env_table_emit_sorted collects. */
  function Keep(ps: seq<EnvPair>): seq<EnvPair> {
    if ps == [] then []
    else
      var n := |ps| - 1;
      Keep(ps[..n]) + if IsControl(ps[n].key) then [] else [ps[n]]
  }

  method CollectPairs(env: EnvTable) returns (sorted: seq<EnvPair>)
    requires env.Valid()
    ensures sorted == Keep(env.Contents)
  {
    sorted := [];
    var i := 0;
    while i < env.len
      invariant 0 <= i <= env.len
      invariant sorted == Keep(env.Contents[..i])
    {
      ghost var ps := env.Contents[..i + 1];
      assert ps[..i] == env.Contents[..i];
      assert env.Holds(env.pairs[i], env.Contents[i]);
      var key, value := env.pairs[i].key[..], env.pairs[i].value[..];
      if !IsControl(key) { sorted := sorted + [EnvPair(key, value)]; }
      i := i + 1;
    }
    assert env.Contents[..i] == env.Contents;
  }

  lemma {:induction false} KeepMembers(ps: seq<EnvPair>)
    ensures forall p :: p in Keep(ps) <==> p in ps && !IsControl(p.key)
  {
    if ps != [] {
      var n := |ps| - 1;
      KeepMembers(ps[..n]);
      assert ps == ps[..n] + [ps[n]];
    }
  }

  lemma {:induction false} KeepDistinct(ps: seq<EnvPair>)
    requires Distinct(ps)
    ensures Distinct(Keep(ps))
  {
    if ps != [] {
      var n := |ps| - 1;
      KeepDistinct(ps[..n]);
      KeepMembers(ps[..n]);
      var kept := Keep(ps[..n]);
      forall i | 0 <= i < |kept| ensures kept[i].key != ps[n].key { assert kept[i] in ps[..n]; }
    }
  }

  lemma {:induction false} DistinctCounts(ps: seq<EnvPair>, p: EnvPair)
    requires Distinct(ps)
    ensures multiset(ps)[p] <= 1
  {
    if ps != [] {
      var n := |ps| - 1;
      assert ps == ps[..n] + [ps[n]];
      DistinctCounts(ps[..n], p);
    }
  }

  lemma TwiceCounted(ps: seq<EnvPair>, i: nat, j: nat)
    requires i < j < |ps| && ps[i] == ps[j]
    ensures multiset(ps)[ps[i]] >= 2
  {
    assert ps == ps[..j] + [ps[j]] + ps[j + 1..];
    assert ps[..j][i] in multiset(ps[..j]);
  }

  lemma PermutationDistinct(ps: seq<EnvPair>, sorted: seq<EnvPair>)
    requires Distinct(ps) && multiset(sorted) == multiset(ps)
    ensures Distinct(sorted)
  {
    forall i, j | 0 <= i < j < |sorted| ensures sorted[i].key != sorted[j].key {
      var p, q := sorted[i], sorted[j];
      if p.key == q.key {
        assert p in multiset(ps) && q in multiset(ps);
        TwiceCounted(sorted, i, j);
        DistinctCounts(ps, p);
      }
    }
  }

  function KeysOf(ps: seq<EnvPair>): (ks: seq<bytes>)
    ensures |ks| == |ps|
  {
    seq(|ps|, i requires 0 <= i < |ps| => ps[i].key)
  }

  lemma SortedPairBound(ps: seq<EnvPair>, sorted: seq<EnvPair>, i: nat)
    requires Distinct(ps) && multiset(sorted) == multiset(Keep(ps)) && i < |sorted|
    ensures !IsControl(sorted[i].key) && Lookup(ToMap(ps), sorted[i].key) == Some(sorted[i].value)
  {
    KeepMembers(ps);
    assert sorted[i] in multiset(Keep(ps));
    var h :| 0 <= h < |ps| && ps[h] == sorted[i];
    OverlayAt(map[], ps, h);
  }

  lemma BoundPairSorted(ps: seq<EnvPair>, sorted: seq<EnvPair>, k: bytes)
    requires multiset(sorted) == multiset(Keep(ps)) && k in ToMap(ps) && !IsControl(k)
    ensures k in KeysOf(sorted)
  {
    KeepMembers(ps);
    OverlayLookup(map[], ps, k);
    assert Lookup(ToMap(ps), k) == Some(ToMap(ps)[k]);
    var h :| 0 <= h < |ps| && ps[h].key == k;
    assert ps[h] in Keep(ps) && ps[h] in multiset(sorted);
    var i :| 0 <= i < |sorted| && sorted[i] == ps[h];
    assert KeysOf(sorted)[i] == k;
  }

  /** Whatever sort by key the collected pairs go through (qsort, sort.Strings, heap sort),
      the printed list is the canonical one of the table's map. */
  lemma AnySortIsCanonical(ps: seq<EnvPair>, sorted: seq<EnvPair>)
    requires Distinct(ps) && multiset(sorted) == multiset(Keep(ps))
    requires forall i, j :: 0 <= i < j < |sorted| ==> !Less(sorted[j].key, sorted[i].key)
    ensures var ks := KeysOf(sorted);
            IsSortedKeys(ks, ToMap(ps)) && sorted == PairsOf(ks, ToMap(ps))
  {
    hide ToMap, Keep, Less;
    var ks, env := KeysOf(sorted), ToMap(ps);
    KeepDistinct(ps);
    PermutationDistinct(Keep(ps), sorted);
    forall i, j | 0 <= i < j < |ks| ensures Less(ks[i], ks[j]) { LessTotal(ks[i], ks[j]); }
    forall i | 0 <= i < |sorted|
      ensures ks[i] in env && !IsControl(ks[i]) && env[ks[i]] == sorted[i].value
    {
      SortedPairBound(ps, sorted, i);
    }
    forall k | k in env && !IsControl(k) ensures k in ks { BoundPairSorted(ps, sorted, k); }
  }

  // ---------------------------------------------------------------- round trip

  lemma EmissionIsMap(ks: seq<bytes>, env: Env)
    requires IsSortedKeys(ks, env)
    ensures ToMap(PairsOf(ks, env)) == Emittable(env)
  {
    var ps := PairsOf(ks, env);
    forall k ensures Lookup(ToMap(ps), k) == Lookup(Emittable(env), k) {
      if k in ks {
        var i :| 0 <= i < |ks| && ks[i] == k;
        forall j | i < j < |ps| ensures ps[j].key != ps[i].key { LessTotal(ks[i], ks[j]); }
        OverlayAt(map[], ps, i);
      } else {
        forall i | 0 <= i < |ps| ensures ps[i].key != k { assert ks[i] in ks; }
        OverlayMiss(map[], ps, k);
      }
    }
    SameLookups(ToMap(ps), Emittable(env));
  }

  /** Apply output round-trips: read back by a native dump it gives exactly the printed
      bindings if and only if all of them are clean, and then without a diagnostic. */
  lemma RoundTripIff(ks: seq<bytes>, env: Env, st: State)
    requires IsSortedKeys(ks, env)
    ensures var text := Render(PairsOf(ks, env));
            (ToMap(Parsed(text)) == Emittable(env) <==> CleanEnv(Emittable(env))) &&
            (CleanEnv(Emittable(env)) ==>
               Parsed(text) == PairsOf(ks, env) && File(NATIVE_DUMP, st, text).log == st.log)
  {
    var ps := PairsOf(ks, env);
    var text := Render(ps);
    EmissionIsMap(ks, env);
    if CleanEnv(Emittable(env)) {
      forall i | 0 <= i < |ps| ensures CleanName(ps[i].key) && CleanValue(ps[i].value) {
        assert ks[i] in ks && ks[i] in Emittable(env);
      }
      RenderParses(ps, st);
    }
    if ToMap(Parsed(text)) == Emittable(env) {
      ParsedIsClean(text);
      CleanListCleanMap(Parsed(text));
    }
  }

  lemma CleanListCleanMap(ps: seq<EnvPair>)
    requires CleanPairs(ps)
    ensures CleanEnv(ToMap(ps))
  {
    forall k | k in ToMap(ps) ensures CleanName(k) && CleanValue(ToMap(ps)[k]) {
      OverlayLookup(map[], ps, k);
      assert Lookup(ToMap(ps), k) == Some(ToMap(ps)[k]);
    }
  }

  /** From a clean process environment, whatever files are applied, the sorted emission reads
      back as exactly the final environment with no error. */
  lemma ApplyRoundTrips(cfg: Config, st: State, files: seq<bytes>, ks: seq<bytes>)
    requires cfg.action == Apply && cfg.rejectNul && CleanEnv(st.env)
    requires IsSortedKeys(ks, Files(cfg, st, files).env)
    ensures var end := Files(cfg, st, files);
            var text := Render(PairsOf(ks, end.env));
            ToMap(Parsed(text)) == Emittable(end.env) && File(NATIVE_DUMP, EMPTY, text).log == []
  {
    var end := Files(cfg, st, files);
    FilesKeepClean(cfg, st, files);
    assert CleanEnv(Emittable(end.env));
    RoundTripIff(ks, end.env, EMPTY);
  }
}
