/** The working environment: a map, and the two tables that implement it. */
module Environment {
  import opened Bytes
  import opened Substitution

  datatype Option<T> = None | Some(value: T)
  datatype EnvPair = EnvPair(key: bytes, value: bytes)

  function Lookup(env: Env, key: bytes): Option<bytes> {
    if key in env then Some(env[key]) else None
  }

  /** The bindings of a list, later ones winning. */
  function Overlay(env: Env, ps: seq<EnvPair>): Env {
    if ps == [] then env else Overlay(env, ps[..|ps| - 1])[ps[|ps| - 1].key := ps[|ps| - 1].value]
  }

  function ToMap(ps: seq<EnvPair>): Env { Overlay(map[], ps) }

  predicate Distinct(ps: seq<EnvPair>) {
    forall i, j :: 0 <= i < j < |ps| ==> ps[i].key != ps[j].key
  }

  predicate HasKey(ps: seq<EnvPair>, key: bytes) {
    exists i :: 0 <= i < |ps| && ps[i].key == key
  }

  /** An overlay binds a key to its last value in the list, and leaves the other keys alone. */
  lemma {:induction false} OverlayLookup(env: Env, ps: seq<EnvPair>, key: bytes)
    ensures HasKey(ps, key) ==>
              exists i :: 0 <= i < |ps| && ps[i].key == key && Lookup(Overlay(env, ps), key) == Some(ps[i].value) &&
                          forall j :: i < j < |ps| ==> ps[j].key != key
    ensures !HasKey(ps, key) ==> Lookup(Overlay(env, ps), key) == Lookup(env, key)
  {
    if ps != [] {
      var n := |ps| - 1;
      if ps[n].key != key {
        OverlayLookup(env, ps[..n], key);
        if HasKey(ps, key) {
          var h :| 0 <= h < |ps| && ps[h].key == key;
          assert ps[..n][h].key == key;
          var i :| 0 <= i < n && ps[..n][i].key == key && Lookup(Overlay(env, ps[..n]), key) == Some(ps[..n][i].value)
                   && forall j :: i < j < n ==> ps[..n][j].key != key;
          assert ps[i].key == key;
          forall j | i < j < |ps| ensures ps[j].key != key {
            if j < n { assert ps[..n][j] == ps[j]; }
          }
        }
      }
    }
  }

  /** With distinct keys the place of a key in the list does not matter. */
  lemma OverlayAt(env: Env, ps: seq<EnvPair>, i: nat)
    requires i < |ps| && forall j :: i < j < |ps| ==> ps[j].key != ps[i].key
    ensures Lookup(Overlay(env, ps), ps[i].key) == Some(ps[i].value)
  {
    OverlayLookup(env, ps, ps[i].key);
  }

  lemma OverlayMiss(env: Env, ps: seq<EnvPair>, key: bytes)
    requires forall i :: 0 <= i < |ps| ==> ps[i].key != key
    ensures Lookup(Overlay(env, ps), key) == Lookup(env, key)
  {
    OverlayLookup(env, ps, key);
  }

  lemma {:induction false} OverlayAppend(env: Env, a: seq<EnvPair>, b: seq<EnvPair>)
    ensures Overlay(env, a + b) == Overlay(Overlay(env, a), b)
  {
    if b == [] {
      assert a + b == a;
    } else {
      var n := |b| - 1;
      assert (a + b)[..|a + b| - 1] == a + b[..n];
      OverlayAppend(env, a, b[..n]);
    }
  }

  lemma SameLookups(a: Env, b: Env)
    requires forall k :: Lookup(a, k) == Lookup(b, k)
    ensures a == b
  {
    forall k ensures k in a <==> k in b { assert Lookup(a, k) == Lookup(b, k); }
    forall k | k in a ensures a[k] == b[k] { assert Lookup(a, k) == Lookup(b, k); }
  }

  /** Overwriting the value at one place of a distinct list is a map update. */
  lemma OverwriteIsUpdate(ps: seq<EnvPair>, i: nat, value: bytes)
    requires i < |ps| && Distinct(ps)
    ensures var qs := ps[i := EnvPair(ps[i].key, value)];
            Distinct(qs) && ToMap(qs) == ToMap(ps)[ps[i].key := value]
  {
    var qs := ps[i := EnvPair(ps[i].key, value)];
    forall k ensures Lookup(ToMap(qs), k) == Lookup(ToMap(ps)[ps[i].key := value], k) {
      OverlayLookup(map[], ps, k);
      OverlayLookup(map[], qs, k);
      if HasKey(ps, k) {
        var h :| 0 <= h < |ps| && ps[h].key == k;
        assert qs[h].key == k;
        OverlayAt(map[], ps, h);
        OverlayAt(map[], qs, h);
      } else {
        assert forall h :: 0 <= h < |qs| ==> qs[h].key == ps[h].key;
      }
    }
    SameLookups(ToMap(qs), ToMap(ps)[ps[i].key := value]);
  }

  lemma AppendIsUpdate(ps: seq<EnvPair>, key: bytes, value: bytes)
    requires Distinct(ps) && forall k :: 0 <= k < |ps| ==> ps[k].key != key
    ensures var qs := ps + [EnvPair(key, value)];
            Distinct(qs) && ToMap(qs) == ToMap(ps)[key := value]
  {
    var qs := ps + [EnvPair(key, value)];
    assert qs[..|qs| - 1] == ps;
  }

  // ---------------------------------------------------------------- the process environment

  predicate IsControl(key: bytes) { CONTROL_PREFIX <= key }

  /** The binding an environment entry makes, if any.  C drops empty names, Go does not. */
  function EntryPair(entry: bytes, keepEmpty: bool): Option<EnvPair> {
    var eq := Find(entry, EQUALS);
    if eq == |entry| || IsControl(entry[..eq]) || (eq == 0 && !keepEmpty) then None
    else Some(EnvPair(entry[..eq], entry[eq + 1..]))
  }

  function EntryPairs(entries: seq<bytes>, keepEmpty: bool): seq<EnvPair> {
    if entries == [] then []
    else
      var n := |entries| - 1;
      EntryPairs(entries[..n], keepEmpty) +
      match EntryPair(entries[n], keepEmpty)
      case None => []
      case Some(p) => [p]
  }

  /** The seeded environment; duplicate entries resolve to the last one (OverlayLookup). */
  function Seed(entries: seq<bytes>, keepEmpty: bool): Env { ToMap(EntryPairs(entries, keepEmpty)) }

  /** A name the process environment can bind. */
  predicate ProcessName(key: bytes, keepEmpty: bool) {
    !IsControl(key) && EQUALS !in key && (keepEmpty || key != [])
  }

  lemma {:induction false} SeedKeys(entries: seq<bytes>, keepEmpty: bool)
    ensures forall k :: k in Seed(entries, keepEmpty) ==> ProcessName(k, keepEmpty)
  {
    if entries != [] {
      var n := |entries| - 1;
      SeedKeys(entries[..n], keepEmpty);
      SeedStep(entries, n, keepEmpty);
      assert entries[..n + 1] == entries;
      var entry := entries[n];
      var eq := Find(entry, EQUALS);
      assert EntryPair(entry, keepEmpty).Some? ==> ProcessName(entry[..eq], keepEmpty);
    }
  }

  lemma SeedStep(entries: seq<bytes>, n: nat, keepEmpty: bool)
    requires n < |entries|
    ensures var before, after := Seed(entries[..n], keepEmpty), Seed(entries[..n + 1], keepEmpty);
            match EntryPair(entries[n], keepEmpty)
            case None => after == before
            case Some(p) => after == before[p.key := p.value]
  {
    var es := entries[..n + 1];
    assert es[..n] == entries[..n] && es[n] == entries[n];
    var before := EntryPairs(entries[..n], keepEmpty);
    match EntryPair(entries[n], keepEmpty)
    case None => assert before + [] == before;
    case Some(p) => assert (before + [p])[..|before|] == before;
  }

  lemma WithoutEmptyName(env: Env, p: EnvPair)
    ensures env[p.key := p.value] - {[]} == if p.key == [] then env - {[]} else (env - {[]})[p.key := p.value]
  {}

  lemma EntryPairsDiffer(entry: bytes)
    ensures match EntryPair(entry, true)
            case None => EntryPair(entry, false) == None
            case Some(p) => EntryPair(entry, false) == if p.key == [] then None else Some(p)
  {}

  /** The C and Go seeds differ only in the binding of the empty name. */
  lemma {:induction false} SeedsDifferInEmptyName(entries: seq<bytes>)
    ensures Seed(entries, false) == Seed(entries, true) - {[]}
  {
    if entries != [] {
      var n := |entries| - 1;
      hide Seed, EntryPair;
      SeedsDifferInEmptyName(entries[..n]);
      SeedStep(entries, n, false);
      SeedStep(entries, n, true);
      EntryPairsDiffer(entries[n]);
      assert entries[..n + 1] == entries;
      match EntryPair(entries[n], true)
      case None =>
      case Some(p) => WithoutEmptyName(Seed(entries[..n], true), p);
    }
  }

  // ---------------------------------------------------------------- duplicate names

  /** The value an entry gives to a name. */
  function EntryValue(entry: bytes, key: bytes): Option<bytes> {
    var eq := Find(entry, EQUALS);
    if eq < |entry| && entry[..eq] == key then Some(entry[eq + 1..]) else None
  }

  predicate Mentioned(entries: seq<bytes>, key: bytes) {
    exists i :: 0 <= i < |entries| && EntryValue(entries[i], key).Some?
  }

  /** os.Environ: the Go runtime clears every entry whose name an earlier one has.  C walks
      environ itself. */
  function FirstOnly(entries: seq<bytes>): seq<bytes> {
    if entries == [] then []
    else
      var n := |entries| - 1;
      var eq := Find(entries[n], EQUALS);
      if eq < |entries[n]| && Mentioned(entries[..n], entries[n][..eq]) then FirstOnly(entries[..n])
      else FirstOnly(entries[..n]) + [entries[n]]
  }

  function FirstValue(entries: seq<bytes>, key: bytes): Option<bytes> {
    if entries == [] then None
    else
      var n := |entries| - 1;
      match FirstValue(entries[..n], key)
      case Some(v) => Some(v)
      case None => EntryValue(entries[n], key)
  }

  function LastValue(entries: seq<bytes>, key: bytes): Option<bytes> {
    if entries == [] then None
    else
      var n := |entries| - 1;
      match EntryValue(entries[n], key)
      case Some(v) => Some(v)
      case None => LastValue(entries[..n], key)
  }

  lemma {:induction false} MentionedHasValues(entries: seq<bytes>, key: bytes)
    ensures Mentioned(entries, key) <==> FirstValue(entries, key).Some?
    ensures Mentioned(entries, key) <==> LastValue(entries, key).Some?
  {
    if entries != [] {
      var n := |entries| - 1;
      hide EntryValue;
      MentionedHasValues(entries[..n], key);
      assert EntryValue(entries[n], key).Some? ==> Mentioned(entries, key);
      if i :| 0 <= i < |entries| && EntryValue(entries[i], key).Some? {
        if i < n { assert entries[..n][i] == entries[i]; }
      }
      if i :| 0 <= i < n && EntryValue(entries[..n][i], key).Some? { assert entries[i] == entries[..n][i]; }
    }
  }

  lemma EntryPairValue(entry: bytes, key: bytes, keepEmpty: bool)
    ensures var p := EntryPair(entry, keepEmpty);
            (p.Some? && p.value.key == key ==> EntryValue(entry, key) == Some(p.value.value)) &&
            (EntryValue(entry, key).Some? && !IsControl(key) && (keepEmpty || key != []) ==>
               p.Some? && p.value.key == key) &&
            (p.Some? ==> !IsControl(p.value.key) && (keepEmpty || p.value.key != []))
  {}

  /** The seed binds every name of the process to its last value; C leaves out the empty one. */
  lemma {:induction false} SeedIsLast(entries: seq<bytes>, key: bytes, keepEmpty: bool)
    ensures Lookup(Seed(entries, keepEmpty), key) ==
            if IsControl(key) || (key == [] && !keepEmpty) then None else LastValue(entries, key)
  {
    if entries != [] {
      var n := |entries| - 1;
      hide Seed, EntryPair, EntryValue, IsControl;
      SeedIsLast(entries[..n], key, keepEmpty);
      SeedStep(entries, n, keepEmpty);
      EntryPairValue(entries[n], key, keepEmpty);
      assert entries[..n + 1] == entries;
    }
  }

  lemma {:induction false} FirstOnlyIsFirst(entries: seq<bytes>, key: bytes)
    ensures LastValue(FirstOnly(entries), key) == FirstValue(entries, key)
  {
    if entries != [] {
      var n := |entries| - 1;
      var entry, kept := entries[n], FirstOnly(entries[..n]);
      var eq := Find(entry, EQUALS);
      FirstOnlyIsFirst(entries[..n], key);
      MentionedHasValues(entries[..n], key);
      if eq < |entry| && Mentioned(entries[..n], entry[..eq]) {
        assert entry[..eq] != key ==> EntryValue(entry, key) == None;
      } else {
        assert (kept + [entry])[..|kept|] == kept;
        assert EntryValue(entry, key).Some? ==> entry[..eq] == key;
      }
    }
  }

  /** Keeping first and keeping last entries makes no difference for a name. */
  predicate Steady(entries: seq<bytes>, key: bytes) {
    IsControl(key) || FirstValue(entries, key) == LastValue(entries, key)
  }

  /** All names of the process outside a set are steady. */
  predicate SteadyOutside(entries: seq<bytes>, names: set<bytes>) {
    forall i :: 0 <= i < |entries| ==>
      var eq := Find(entries[i], EQUALS);
      eq < |entries[i]| && entries[i][..eq] !in names ==> Steady(entries, entries[i][..eq])
  }

  lemma SteadyOutsideNames(entries: seq<bytes>, names: set<bytes>)
    ensures SteadyOutside(entries, names) <==> forall key :: key !in names ==> Steady(entries, key)
  {
    if SteadyOutside(entries, names) {
      forall key | key !in names ensures Steady(entries, key) {
        MentionedHasValues(entries, key);
        if i :| 0 <= i < |entries| && EntryValue(entries[i], key).Some? {
          assert entries[i][..Find(entries[i], EQUALS)] == key;
        }
      }
    }
  }

  /** What Go and C see of one name. */
  lemma SeedLookups(entries: seq<bytes>, key: bytes)
    ensures var go, c := Seed(FirstOnly(entries), true), Seed(entries, false);
            Lookup(go, key) == (if IsControl(key) then None else FirstValue(entries, key)) &&
            Lookup(c, key) == (if IsControl(key) || key == [] then None else LastValue(entries, key)) &&
            (key in go <==> !IsControl(key) && Mentioned(entries, key)) &&
            (key in c <==> !IsControl(key) && key != [] && Mentioned(entries, key))
  {
    hide IsControl, FirstValue, LastValue, FirstOnly, Mentioned, Seed;
    SeedIsLast(FirstOnly(entries), key, true);
    SeedIsLast(entries, key, false);
    FirstOnlyIsFirst(entries, key);
    MentionedHasValues(entries, key);
  }

  /** Dropping the later duplicates leaves the seed alone if and only if every name the process
      binds has the same first and last value. */
  lemma FirstOnlyIff(entries: seq<bytes>)
    ensures Seed(FirstOnly(entries), true) == Seed(entries, true) <==> SteadyOutside(entries, {})
  {
    hide Seed, FirstValue, LastValue, FirstOnly, IsControl, SteadyOutside;
    SteadyOutsideNames(entries, {});
    var first, last := Seed(FirstOnly(entries), true), Seed(entries, true);
    forall key ensures Steady(entries, key) <==> Lookup(first, key) == Lookup(last, key) {
      SeedIsLast(FirstOnly(entries), key, true);
      SeedIsLast(entries, key, true);
      FirstOnlyIsFirst(entries, key);
    }
    if forall key :: Lookup(first, key) == Lookup(last, key) { SameLookups(first, last); }
  }

  // ---------------------------------------------------------------- EnvTable (C)

  /** A place of the table: memory not written yet, or the copies of a key and a value. */
  datatype Slot = Free | Used(key: array<byte>, value: array<byte>)

  /** xstrndup: a fresh copy of n bytes. */
  method CopyOf(src: array<byte>, at: nat, n: nat) returns (copy: array<byte>)
    requires at + n <= src.Length
    ensures fresh(copy) && copy[..] == src[at..at + n]
  {
    copy := new byte[n];
    forall i | 0 <= i < n { copy[i] := src[at + i]; }
  }

  /** A string of the process as an array. */
  method ArrayOf(s: bytes) returns (a: array<byte>)
    ensures fresh(a) && a[..] == s
  {
    a := new byte[|s|](i requires 0 <= i < |s| => s[i]);
  }

  /** Growable array of pairs, searched from the end and overwritten in place.  Keys and values
      are copies the table owns: Repr holds the table, its array and all copies. */
  class EnvTable {
    var pairs: array<Slot>
    var len: nat
    ghost var Contents: seq<EnvPair>
    ghost var Repr: set<object>

    ghost predicate Valid()
      reads this, Repr
      ensures Valid() ==> this in Repr && pairs in Repr
    {
      this in Repr && pairs in Repr && len == |Contents| <= pairs.Length && Distinct(Contents) && CapacityOk() &&
      forall i :: 0 <= i < len ==> Holds(pairs[i], Contents[i])
    }

    /** The slot owns arrays with exactly the bytes of p. */
    ghost predicate Holds(slot: Slot, p: EnvPair)
      reads this, Repr
    {
      slot.Used? && slot.key in Repr && slot.value in Repr && slot.key[..] == p.key && slot.value[..] == p.value
    }

    /** The capacity is 0, 32, or 32 * 2^k below 2 * len. */
    ghost predicate CapacityOk()
      reads this
    {
      (pairs.Length == 0 && len == 0) ||
      (Doubled(32, pairs.Length) && (pairs.Length == 32 || pairs.Length < 2 * len))
    }

    ghost function Model(): Env
      reads this
    {
      ToMap(Contents)
    }

    /** Everything the table has come to own since is newly allocated. */
    twostate predicate Grown()
      reads this
    {
      (pairs == old(pairs) || fresh(pairs)) && fresh(Repr - old(Repr))
    }

    constructor ()
      ensures Valid() && Model() == map[] && fresh(Repr)
    {
      pairs := new Slot[0];
      len := 0;
      Contents := [];
      Repr := {this, pairs};
    }

    /** The array moves to one of cap places; the strings stay where they are. */
    method MoveTo(cap: nat)
      requires Valid() && len <= cap
      modifies this`pairs, this`Repr
      ensures fresh(pairs) && pairs.Length == cap && Repr == old(Repr) + {pairs}
      ensures forall i :: 0 <= i < len ==> pairs[i] == old(pairs[i])
    {
      var np := new Slot[cap](_ => Free);
      forall i | 0 <= i < len { np[i] := pairs[i]; }
      pairs := np;
      Repr := Repr + {np};
    }

    /** Room for one more pair, the pairs so far in place. */
    ghost predicate Roomy()
      reads this, Repr
    {
      this in Repr && pairs in Repr && len == |Contents| < pairs.Length && Distinct(Contents) &&
      (forall i :: 0 <= i < len ==> Holds(pairs[i], Contents[i])) &&
      Doubled(32, pairs.Length) && (pairs.Length == 32 || pairs.Length < 2 * (len + 1))
    }

    method ReserveOne()
      requires Valid()
      modifies this`pairs, this`Repr
      ensures Roomy() && Grown() && old(Repr) <= Repr
    {
      var need := len + 1;
      if need <= pairs.Length { return; }
      var cap := DoubleUntil(32, if pairs.Length != 0 then pairs.Length else 32, need);
      hide Doubled, Distinct;
      MoveTo(cap);
      forall i | 0 <= i < len ensures Holds(pairs[i], Contents[i]) { assert old(Holds(pairs[i], Contents[i])); }
    }

    /** Last-to-first search for the n bytes at key[at]. */
    method FindN(key: array<byte>, at: nat, n: nat) returns (idx: int)
      requires Valid() && at + n <= key.Length
      ensures -1 <= idx < len
      ensures idx >= 0 ==>
                Contents[idx].key == key[at..at + n] &&
                Lookup(Model(), key[at..at + n]) == Some(Contents[idx].value)
      ensures idx < 0 ==> Lookup(Model(), key[at..at + n]) == None
      ensures idx < 0 ==> forall k :: 0 <= k < len ==> Contents[k].key != key[at..at + n]
    {
      ghost var name := key[at..at + n];
      var i := len;
      while i > 0
        invariant 0 <= i <= len
        invariant forall k :: i <= k < len ==> Contents[k].key != name
      {
        assert Holds(pairs[i - 1], Contents[i - 1]);
        var cur := pairs[i - 1].key;
        if cur.Length == n && cur[..] == key[at..at + n] {
          OverlayAt(map[], Contents, i - 1);
          return i - 1;
        }
        i := i - 1;
      }
      OverlayMiss(map[], Contents, name);
      return -1;
    }

    /** The stored value itself, or null. */
    method Get(key: array<byte>) returns (value: array?<byte>)
      requires Valid()
      ensures value == null <==> key[..] !in Model()
      ensures value != null ==> value in Repr && value[..] == Model()[key[..]]
    {
      assert key[0..0 + key.Length] == key[..];
      var idx := FindN(key, 0, key.Length);
      if idx < 0 { return null; }
      assert Holds(pairs[idx], Contents[idx]);
      value := pairs[idx].value;
    }

    /** env->pairs[idx].value = copy. */
    method Overwrite(idx: nat, copy: array<byte>)
      requires Valid() && idx < len
      modifies pairs, this`Contents, this`Repr
      ensures Valid() && Repr == old(Repr) + {copy}
      ensures Contents == old(Contents)[idx := EnvPair(old(Contents)[idx].key, copy[..])]
      ensures Model() == old(Model())[old(Contents)[idx].key := copy[..]]
      ensures pairs[idx].Used? && pairs[idx].value == copy
    {
      OverwriteIsUpdate(Contents, idx, copy[..]);
      hide ToMap, Distinct;
      assert Holds(pairs[idx], Contents[idx]);
      pairs[idx] := Used(pairs[idx].key, copy);
      Contents := Contents[idx := EnvPair(Contents[idx].key, copy[..])];
      Repr := Repr + {copy};
    }

    /** env->pairs[env->len] = {keyCopy, copy}; env->len++. */
    method Put(keyCopy: array<byte>, copy: array<byte>)
      requires Roomy() && Distinct(Contents + [EnvPair(keyCopy[..], copy[..])])
      modifies this`len, this`Contents, this`Repr, pairs
      ensures Valid() && Repr == old(Repr) + {keyCopy, copy}
      ensures Contents == old(Contents) + [EnvPair(keyCopy[..], copy[..])]
      ensures pairs[old(len)] == Used(keyCopy, copy)
    {
      hide Distinct, Doubled;
      pairs[len] := Used(keyCopy, copy);
      len := len + 1;
      Contents := Contents + [EnvPair(keyCopy[..], copy[..])];
      Repr := Repr + {keyCopy, copy};
    }

    /** A new pair behind the last one. */
    method Add(keyCopy: array<byte>, copy: array<byte>)
      requires Valid() && forall k :: 0 <= k < len ==> Contents[k].key != keyCopy[..]
      modifies this, pairs
      ensures Valid() && (pairs == old(pairs) || fresh(pairs))
      ensures old(Repr) + {keyCopy, copy} <= Repr && fresh(Repr - old(Repr) - {keyCopy, copy})
      ensures Contents == old(Contents) + [EnvPair(keyCopy[..], copy[..])] && len == old(len) + 1
      ensures Model() == old(Model())[keyCopy[..] := copy[..]]
      ensures pairs[old(len)] == Used(keyCopy, copy)
    {
      AppendIsUpdate(Contents, keyCopy[..], copy[..]);
      hide ToMap, Distinct, Doubled, Holds;
      ReserveOne();
      Put(keyCopy, copy);
    }

    /** Binds the n bytes at key[at] to the vn bytes at value[vat].  What the table holds
        afterwards are its own copies, at place i: the value's always, the key's when it is new. */
    method SetN(key: array<byte>, at: nat, n: nat, value: array<byte>, vat: nat, vn: nat) returns (ghost i: nat)
      requires Valid() && at + n <= key.Length && vat + vn <= value.Length
      modifies this, pairs
      ensures Valid() && Grown()
      ensures Model() == old(Model())[old(key[at..at + n]) := old(value[vat..vat + vn])]
      ensures len == old(len) + if old(key[at..at + n]) in old(Model()) then 0 else 1
      ensures i < len && Contents[i] == EnvPair(old(key[at..at + n]), old(value[vat..vat + vn]))
      ensures pairs[i].Used? && fresh(pairs[i].value) && (len > old(len) ==> fresh(pairs[i].key))
    {
      hide ToMap, Distinct;
      var idx := FindN(key, at, n);
      var copy := CopyOf(value, vat, vn);
      if idx >= 0 {
        Overwrite(idx, copy);
        i := idx;
      } else {
        var keyCopy := CopyOf(key, at, n);
        i := len;
        Add(keyCopy, copy);
      }
    }

    method InitFromProcess(entries: seq<bytes>)
      requires Valid() && Model() == map[]
      modifies this, pairs
      ensures Valid() && Model() == Seed(entries, false)
      ensures Grown()
    {
      var e := 0;
      while e < |entries|
        invariant 0 <= e <= |entries| && Valid()
        invariant Model() == Seed(entries[..e], false)
        invariant Grown()
      {
        SeedStep(entries, e, false);
        hide Seed, EntryPair;
        InitFromEntry(entries[e]);
        e := e + 1;
      }
      assert entries[..e] == entries;
    }

    /** One string of environ. */
    method InitFromEntry(text: bytes)
      requires Valid()
      modifies this, pairs
      ensures Valid() && Grown()
      ensures Model() == match EntryPair(text, false)
                         case None => old(Model())
                         case Some(p) => old(Model())[p.key := p.value]
    {
      var keyLen := Find(text, EQUALS);
      if keyLen == |text| { return; }
      assert IsControl(text[..keyLen]) <==> keyLen >= 8 && text[..8] == CONTROL_PREFIX;
      if keyLen == 0 || (keyLen >= 8 && text[..8] == CONTROL_PREFIX) { return; }
      hide IsControl;
      var entry := ArrayOf(text);
      var rest := keyLen + 1;
      assert entry[0..0 + keyLen] == text[..keyLen];
      assert entry[rest..rest + (|text| - rest)] == text[rest..];
      ghost var place := SetN(entry, 0, keyLen, entry, rest, |text| - rest);
    }
  }

  // ---------------------------------------------------------------- EnvStore (Zig)

  /** Entries in insertion order, searched from the start. */
  class EnvStore {
    var entries: seq<EnvPair>

    ghost predicate Valid()
      reads this
    {
      Distinct(entries)
    }

    ghost function Model(): Env
      reads this
    {
      ToMap(entries)
    }

    constructor ()
      ensures Valid() && Model() == map[]
    {
      entries := [];
    }

    method Get(key: bytes) returns (value: Option<bytes>)
      requires Valid()
      ensures value == Lookup(Model(), key)
    {
      var i := 0;
      while i < |entries|
        invariant 0 <= i <= |entries|
        invariant forall k :: 0 <= k < i ==> entries[k].key != key
      {
        if entries[i].key == key {
          OverlayAt(map[], entries, i);
          return Some(entries[i].value);
        }
        i := i + 1;
      }
      OverlayMiss(map[], entries, key);
      return None;
    }

    method Set(key: bytes, value: bytes)
      requires Valid()
      modifies this
      ensures Valid() && Model() == old(Model())[key := value]
    {
      var i := 0;
      while i < |entries|
        invariant 0 <= i <= |entries| && entries == old(entries)
        invariant forall k :: 0 <= k < i ==> entries[k].key != key
      {
        if entries[i].key == key {
          OverwriteIsUpdate(entries, i, value);
          entries := entries[i := EnvPair(key, value)];
          return;
        }
        i := i + 1;
      }
      AppendIsUpdate(entries, key, value);
      entries := entries + [EnvPair(key, value)];
    }
  }
}
