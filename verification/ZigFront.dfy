/** The Zig substitution walk over its own store. */
module ZigFront {
  import opened Bytes
  import opened Substitution
  import opened Environment

  /** Index walk; unbound collects the names reported, one error each. */
  method SubstValue(value: bytes, env: EnvStore) returns (res: bytes, unbound: seq<bytes>)
    requires env.Valid()
    ensures res == Subst(value, env.Model())
    ensures unbound == Missing(value, env.Model())
  {
    hide Subst, Missing, Walk, RefStep, FindFrom, NameEnd;
    ghost var m := env.Model();
    res, unbound := [], [];
    var i := 0;
    WalkStart(value, m);
    while i < |value|
      invariant 0 <= i <= |value| && Walk(value, i, m, res, unbound)
    {
      var pos := FindFrom(value, DOLLAR, i);
      WalkLiteral(value, i, m, res, unbound);
      if pos == |value| {
        assert value[i..] == value[i..pos];
        res, i := res + value[i..], |value|;
        break;
      }
      res := res + value[i..pos];
      var after := pos + 1;
      if after >= |value| {
        WalkLone(value, pos, m, res, unbound);
        res, i := res + [DOLLAR], |value|;
        break;
      }
      var name;
      if value[after] == LBRACE {
        var close := FindFrom(value, RBRACE, after + 1);
        if close == |value| {
          WalkUnclosed(value, pos, m, res, unbound);
          res, i := res + [DOLLAR] + value[after..], |value|;
          break;
        }
        BracedStep(value, pos, m);
        name, i := value[after + 1..close], close + 1;
      } else if !IsNameStart(value[after]) {
        WalkLone(value, pos, m, res, unbound);
        res, i := res + [DOLLAR], after;
        continue;
      } else {
        NamedStep(value, pos, m);
        var end := NameEnd(value, after + 1);
        name, i := value[after..end], end;
      }
      WalkRef(value, pos, m, res, unbound, name, i);
      var v := env.Get(name);
      if v.Some? {
        res := res + v.value;
      } else {
        unbound := unbound + [name];
      }
    }
    WalkDone(value, m, res, unbound);
  }
}
