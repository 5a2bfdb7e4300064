/** The enum resolver as it runs: a cache and a stack updated in place, a counter and a
    carried expression in a loop. */
module Enums {
  import opened ConstExpr
  import opened EnumMeaning
  import R = EnumResolution
  import W = Wire

  class EnumResolver {
    const world: World
    var cache: R.Cache
    var stack: set<Key>

    constructor (w: World)
      ensures world == w && cache == map[] && stack == {}
    {
      world := w;
      cache := map[];
      stack := {};
    }

    /** `enum_member_const_expr_from_lookup`: the stack is restored on every path. */
    method Resolve(k: Key) returns (r: R.Found)
      modifies this
      ensures stack == old(stack)
      ensures (r, cache) == R.Resolve(world, old(cache), old(stack), k)
      decreases world.names.Values + {k} - stack, 0, 0, 0
    {
      hide R.Count;
      if k in cache {
        return R.Resolved(cache[k]);
      }
      if k in stack || k.enum !in world.enums {
        return R.Unresolved;
      }
      assert k in world.names.Values + {k} - stack && k !in world.names.Values - (stack + {k});
      stack := stack + {k};
      var found, counter, carried := Count(world.enums[k.enum].list, k.member);
      stack := stack - {k};
      assert stack == old(stack);
      if !found {
        return R.Unresolved;
      }
      if carried.Some? {
        return R.Carried(carried.value);
      }
      cache := cache[k := counter];
      r := R.Resolved(counter);
    }

    /** The loop over the enumerators, up to the member asked for. */
    method Count(list: seq<Enumerator>, member: string) returns (found: bool, counter: i64, carried: W.Option<Expr>)
      modifies this
      ensures stack == old(stack)
      ensures R.Counting(found, counter, carried, cache) == R.Count(world, old(cache), stack, list, member, 0, 0, W.None)
      decreases world.names.Values - stack, 2, |list|, 0
    {
      hide R.Evaluate;
      counter, carried := 0, W.None;
      for i := 0 to |list|
        invariant stack == old(stack)
        invariant R.Count(world, old(cache), stack, list, member, 0, 0, W.None) ==
                  R.Count(world, cache, stack, list, member, i, counter, carried)
      {
        if list[i].expr.Some? {
          var e := list[i].expr.value;
          var v := Evaluate(e, {}, 0);
          if Number(v) {
            counter, carried := ToI64(v.value).value, W.None;
          } else {
            carried := W.Some(e);
          }
        }
        if list[i].name == member {
          return true, counter, carried;
        }
        counter := Wrap64(counter + 1);
      }
      found := false;
    }

    /** `calculate_with_visited`, looking names up through the resolver. */
    method Evaluate(e: Expr, visited: set<string>, depth: nat) returns (r: Outcome<Value>)
      modifies this
      ensures stack == old(stack)
      ensures (r, cache) == R.Evaluate(world, old(cache), stack, e, visited, depth)
      decreases world.names.Values - stack, 1, if depth > MAX_EXPR_DEPTH then 0 else MAX_EXPR_DEPTH + 1 - depth, 0
    {
      hide FoldUnary, FoldBinary, R.Resolve;
      if depth > MAX_EXPR_DEPTH {
        return Fail;
      }
      match e
      case Unary(op, a) =>
        var v := Evaluate(a, visited, depth + 1);
        r := if v.Done? then FoldUnary(op, v.value) else Fail;
      case Binary(x, op, y) =>
        var a := Evaluate(x, visited, depth + 1);
        if a.Fail? {
          return Fail;
        }
        var b := Evaluate(y, visited, depth + 1);
        r := if b.Done? then FoldBinary(op, a.value, b.value) else Fail;
      case Name(n) =>
        if n in visited {
          return Fail;
        }
        if n !in world.names {
          return Done(e);
        }
        var k := world.names[n];
        assert world.names.Values + {k} - stack == world.names.Values - stack;
        var found := Resolve(k);
        match found {
          case Unresolved =>
            r := Done(e);
          case Resolved(x) =>
            r := if depth < MAX_EXPR_DEPTH && k.enum in world.enums then Done(Reference(Rendered(world, k), x)) else Fail;
          case Carried(e') =>
            r := Evaluate(e', visited + {n}, depth + 1);
        }
      case _ =>
        r := Done(e);
    }

    /** The pass of `decl_enum` that renders an enum: one discriminant for each enumerator,
        or an error. */
    method DeclareEnum(list: seq<Enumerator>, t: string) returns (r: Outcome<seq<(string, i64)>>)
      requires stack == {}
      modifies this
      ensures stack == {}
      ensures (r, cache) == R.Declare(world, old(cache), t, list)
    {
      hide R.Resolve, R.Evaluate;
      var members: seq<(string, i64)> := [];
      assert list[0..] == list;
      R.PrefixedNone(R.Declare(world, cache, t, list));
      for i := 0 to |list|
        invariant stack == {}
        invariant R.Declare(world, old(cache), t, list) == R.Prefixed(members, R.Declare(world, cache, t, list[i..]))
      {
        assert list[i..][0] == list[i] && list[i..][1..] == list[i + 1..];
        var found := Resolve(Key(t, list[i].name));
        ghost var rest := R.Declare(world, cache, t, list[i + 1..]);
        match found
        case Unresolved =>
        case Resolved(x) =>
          R.PrefixedNext(members, (list[i].name, x), rest);
          members := members + [(list[i].name, x)];
        case Carried(e) =>
          var v := Evaluate(e, {}, 0);
          if !Number(v) {
            return Fail;
          }
          rest := R.Declare(world, cache, t, list[i + 1..]);
          R.PrefixedNext(members, (list[i].name, ToI64(v.value).value), rest);
          members := members + [(list[i].name, ToI64(v.value).value)];
      }
      assert list[|list|..] == [];
      assert members + [] == members;
      r := Done(members);
    }
  }
}
