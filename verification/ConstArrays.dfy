/** The evaluator as it runs, with a `visited` set that is passed along and mutated,
    and what sharing that set among array elements does. */
module ConstArrays {
  import opened ConstExpr
  import opened Names

  /** The names a successful evaluation adds to the set it was given: those met before
      the first binary operator, whose operands work on copies. */
  function Spine(env: Env, e: Expr, n: nat): (s: set<string>)
    decreases n
  {
    match e
    case Unary(_, a) => if n == 0 then {} else Spine(env, a, n - 1)
    case Name(x) => if x in env && n > 0 then {x} + Spine(env, env[x], n - 1) else {x}
    case _ => {}
  }

  /** Every name an evaluation looks up. */
  function Looked(env: Env, e: Expr, n: nat): (s: set<string>)
    decreases n
  {
    match e
    case Unary(_, a) => if n == 0 then {} else Looked(env, a, n - 1)
    case Binary(l, _, r) => if n == 0 then {} else Looked(env, l, n - 1) + Looked(env, r, n - 1)
    case Name(x) => if x in env && n > 0 then {x} + Looked(env, env[x], n - 1) else {x}
    case _ => {}
  }

  function Fuel(depth: nat): nat {
    if depth <= MAX_EXPR_DEPTH then MAX_EXPR_DEPTH - depth else 0
  }

  /** `calculate_with_visited`, with the set it leaves behind. */
  method CalculateWithVisited(env: Env, e: Expr, visited: set<string>, depth: nat) returns (r: Outcome<Value>, after: set<string>)
    ensures r == Calc(env, e, visited, depth)
    ensures r.Done? ==> after == visited + Spine(env, e, Fuel(depth))
    decreases MAX_EXPR_DEPTH + 1 - depth
  {
    hide FoldUnary, FoldBinary;
    after := visited;
    if depth > MAX_EXPR_DEPTH {
      return Fail, after;
    }
    match e
    case Unary(op, a) =>
      r, after := CalculateWithVisited(env, a, after, depth + 1);
      if r.Done? {
        r := FoldUnary(op, r.value);
      }
    case Binary(a, op, b) =>
      var l, _ := CalculateWithVisited(env, a, visited, depth + 1);
      if l.Fail? {
        return Fail, after;
      }
      var m, _ := CalculateWithVisited(env, b, visited, depth + 1);
      if m.Fail? {
        return Fail, after;
      }
      r := FoldBinary(op, l.value, m.value);
    case Name(x) =>
      if x in after {
        return Fail, after;
      }
      after := after + {x};
      if x in env {
        r, after := CalculateWithVisited(env, env[x], after, depth + 1);
      } else {
        r := Done(e);
      }
    case _ =>
      r := Done(e);
  }

  /** The `Array` case: one set for all elements. */
  method CalculateArray(env: Env, elems: seq<Expr>) returns (r: Outcome<seq<Value>>)
    ensures r == ArrayFrom(env, elems, {})
    ensures r.Done? ==> |r.value| == |elems| && forall i :: 0 <= i < |elems| ==> Calc(env, elems[i], {}, 1) == Done(r.value[i])
  {
    hide Calc, Spine;
    var visited: set<string> := {};
    var done: seq<Value> := [];
    assert elems[0..] == elems;
    JoinedNothing(done, ArrayFrom(env, elems, {}));
    for i := 0 to |elems|
      invariant ArrayFrom(env, elems, {}) == Joined(done, ArrayFrom(env, elems[i..], visited))
    {
      assert elems[i..][0] == elems[i] && elems[i..][1..] == elems[i + 1..];
      var v, after := CalculateWithVisited(env, elems[i], visited, 1);
      if v.Fail? {
        return Fail;
      }
      JoinedStep(done, v.value, ArrayFrom(env, elems[i + 1..], after));
      done, visited := done + [v.value], after;
    }
    assert elems[|elems|..] == [];
    JoinedNothing(done, ArrayFrom(env, [], visited));
    r := Done(done);
    ArrayValues(env, elems, {});
  }

  lemma JoinedNothing(done: seq<Value>, rest: Outcome<seq<Value>>)
    ensures done == [] ==> Joined(done, rest) == rest
    ensures rest == Done([]) ==> Joined(done, rest) == Done(done)
  {
    assert rest.Done? && done == [] ==> done + rest.value == rest.value;
    assert rest.Done? && rest.value == [] ==> done + rest.value == done;
  }

  function Joined(done: seq<Value>, rest: Outcome<seq<Value>>): Outcome<seq<Value>> {
    if rest.Done? then Done(done + rest.value) else Fail
  }

  lemma JoinedStep(done: seq<Value>, v: Value, rest: Outcome<seq<Value>>)
    ensures Joined(done, Joined([v], rest)) == Joined(done + [v], rest)
  {
    if rest.Done? {
      assert done + ([v] + rest.value) == done + [v] + rest.value;
    }
  }

  function ArrayFrom(env: Env, elems: seq<Expr>, visited: set<string>): (r: Outcome<seq<Value>>)
    decreases elems
  {
    if elems == [] then Done([])
    else
      var v :- Calc(env, elems[0], visited, 1);
      Joined([v], ArrayFrom(env, elems[1..], visited + Spine(env, elems[0], Fuel(1))))
  }

  /** An expression that folds on its own folds under a non-empty set exactly when it
      looks up none of the names in it. */
  lemma {:induction false} VisitedMatters(env: Env, e: Expr, own: set<string>, extra: set<string>, depth: nat)
    requires Calc(env, e, own, depth).Done?
    ensures Calc(env, e, own + extra, depth) ==
            if extra !! Looked(env, e, Fuel(depth)) then Calc(env, e, own, depth) else Fail
    decreases MAX_EXPR_DEPTH + 1 - depth
  {
    hide FoldUnary, FoldBinary;
    match e
    case Unary(op, a) => VisitedMatters(env, a, own, extra, depth + 1);
    case Binary(l, op, r) =>
      VisitedMatters(env, l, own, extra, depth + 1);
      VisitedMatters(env, r, own, extra, depth + 1);
    case Name(x) =>
      if x in env {
        VisitedMatters(env, env[x], own + {x}, extra, depth + 1);
        assert own + extra + {x} == own + {x} + extra;
      }
    case _ =>
  }

  /** No element looks up a name that an earlier element put on its spine. */
  ghost predicate Disjoint(env: Env, elems: seq<Expr>) {
    forall i, j :: 0 <= i < j < |elems| ==>
      Spine(env, elems[i], Fuel(1)) !! Looked(env, elems[j], Fuel(1))
  }

  ghost predicate Avoid(env: Env, elems: seq<Expr>, visited: set<string>) {
    forall j :: 0 <= j < |elems| ==> visited !! Looked(env, elems[j], Fuel(1))
  }

  lemma {:induction false} ArrayFromIff(env: Env, elems: seq<Expr>, visited: set<string>)
    requires forall e <- elems :: Calc(env, e, {}, 1).Done?
    ensures ArrayFrom(env, elems, visited).Done? <==> Avoid(env, elems, visited) && Disjoint(env, elems)
    decreases elems
  {
    hide Calc, Spine, Looked;
    if elems != [] {
      VisitedMatters(env, elems[0], {}, visited, 1);
      assert {} + visited == visited;
      var spine := Spine(env, elems[0], Fuel(1));
      ArrayFromIff(env, elems[1..], visited + spine);
      AvoidSplit(env, elems, visited, spine);
    }
  }

  lemma AvoidSplit(env: Env, elems: seq<Expr>, visited: set<string>, spine: set<string>)
    requires elems != [] && spine == Spine(env, elems[0], Fuel(1))
    ensures Avoid(env, elems, visited) && Disjoint(env, elems) <==>
            && visited !! Looked(env, elems[0], Fuel(1))
            && Avoid(env, elems[1..], visited + spine)
            && Disjoint(env, elems[1..])
  {
    hide Spine, Looked;
    var rest := elems[1..];
    assert elems == [elems[0]] + rest;
    if Avoid(env, elems, visited) && Disjoint(env, elems) {
      forall j | 0 <= j < |rest|
        ensures visited + spine !! Looked(env, rest[j], Fuel(1))
      {
        assert rest[j] == elems[j + 1];
      }
    }
    if visited !! Looked(env, elems[0], Fuel(1)) && Avoid(env, rest, visited + spine) && Disjoint(env, rest) {
      forall j | 0 <= j < |elems|
        ensures visited !! Looked(env, elems[j], Fuel(1))
        ensures j > 0 ==> spine !! Looked(env, elems[j], Fuel(1))
      {
        if j > 0 {
          assert elems[j] == rest[j - 1];
        }
      }
      forall i, j | 0 <= i < j < |elems|
        ensures Spine(env, elems[i], Fuel(1)) !! Looked(env, elems[j], Fuel(1))
      {
        if i > 0 {
          assert elems[i] == rest[i - 1] && elems[j] == rest[j - 1];
        }
      }
    }
  }

  /** When an array of expressions that each fold folds as a whole: exactly when no element
      looks up a name that an earlier one put on its spine. */
  lemma ArrayFoldsIff(env: Env, elems: seq<Expr>)
    requires forall e <- elems :: Calc(env, e, {}, 1).Done?
    ensures ArrayFrom(env, elems, {}).Done? <==> Disjoint(env, elems)
  {
    hide ArrayFrom, Disjoint, Calc;
    ArrayFromIff(env, elems, {});
  }

  /** Each value of a folded array is what its element evaluates to by itself. */
  lemma {:induction false} ArrayValues(env: Env, elems: seq<Expr>, visited: set<string>)
    ensures match ArrayFrom(env, elems, visited)
            case Done(vs) => |vs| == |elems| && forall i :: 0 <= i < |elems| ==> Calc(env, elems[i], {}, 1) == Done(vs[i])
            case Fail => true
    decreases elems
  {
    hide Calc, Spine;
    if elems != [] && ArrayFrom(env, elems, visited).Done? {
      DoneStays(env, elems[0], visited, {}, 1, 1);
      ArrayValues(env, elems[1..], visited + Spine(env, elems[0], Fuel(1)));
      var vs, rest := ArrayFrom(env, elems, visited).value, ArrayFrom(env, elems[1..], visited + Spine(env, elems[0], Fuel(1))).value;
      forall i | 0 <= i < |elems|
        ensures Calc(env, elems[i], {}, 1) == Done(vs[i])
      {
        if i > 0 {
          assert elems[1..][i - 1] == elems[i] && vs[i] == rest[i - 1];
        }
      }
    }
  }

  /** The fold of an element's inlined tree, one level below the array. */
  function Alone(env: Env, e: Expr): Outcome<Value> {
    var t :- Inline(env, e, MAX_EXPR_DEPTH - 1);
    Fold(t)
  }

  lemma CalcAlone(env: Env, e: Expr)
    ensures Calc(env, e, {}, 1) == Alone(env, e)
  {
    hide Calc, Inline, Fold;
    if Inline(env, e, MAX_EXPR_DEPTH - 1).Done? {
      CalcOfInline(env, e, MAX_EXPR_DEPTH - 1, {}, 1);
    } else if Calc(env, e, {}, 1).Done? {
      InlineOfCalc(env, e, {}, 1);
    }
  }

  /** What an array literal folds to: the fold of the inlined tree of each element, in order,
      when every element folds and no element looks up a name that an earlier one put on its
      spine; otherwise nothing. */
  lemma ArrayExact(env: Env, elems: seq<Expr>)
    ensures ArrayFrom(env, elems, {}).Done? <==> (forall e <- elems :: Alone(env, e).Done?) && Disjoint(env, elems)
    ensures match ArrayFrom(env, elems, {})
            case Done(vs) => |vs| == |elems| && forall i :: 0 <= i < |elems| ==> Alone(env, elems[i]) == Done(vs[i])
            case Fail => true
  {
    hide Calc, Disjoint, ArrayFrom, Alone;
    ArrayValues(env, elems, {});
    forall e <- elems
      ensures Calc(env, e, {}, 1) == Alone(env, e)
    {
      CalcAlone(env, e);
    }
    if forall e <- elems :: Calc(env, e, {}, 1).Done? {
      ArrayFoldsIff(env, elems);
    }
  }

  /** What is left when the unary operators in front are taken away. */
  function Stripped(e: Expr): Expr {
    if e.Unary? then Stripped(e.arg) else e
  }

  lemma {:induction false} SpineStripped(env: Env, e: Expr, n: nat)
    requires Inline(env, e, n).Done?
    ensures Stripped(e).Name? ==> Stripped(e).name in Spine(env, e, n)
    ensures !Stripped(e).Name? ==> Spine(env, e, n) == {}
    decreases e
  {
    if e.Unary? {
      SpineStripped(env, e.arg, n - 1);
    }
  }

  /** An alias leaves behind what it stands for. */
  lemma {:induction false} SpineAlias(env: Env, e: Expr, n: nat)
    requires Inline(env, e, n).Done? && Stripped(e).Name? && Stripped(e).name in env
    ensures exists m: nat :: m < n && Inline(env, env[Stripped(e).name], m).Done? &&
                             Spine(env, env[Stripped(e).name], m) <= Spine(env, e, n)
    decreases e
  {
    if e.Unary? {
      SpineAlias(env, e.arg, n - 1);
    }
  }

  /** A bare name also stands in the way of every constant it is an alias of. */
  lemma RepeatedAlias(env: Env, elems: seq<Expr>, i: nat, j: nat)
    requires i < j < |elems| && Stripped(elems[i]).Name? && Stripped(elems[i]).name in env
    requires var target := Stripped(env[Stripped(elems[i]).name]);
             target.Name? && target.name in Refs(elems[j])
    ensures ArrayFrom(env, elems, {}) == Fail
  {
    hide Alone, Spine, Looked, ArrayFrom, Inline;
    ArrayExact(env, elems);
    if ArrayFrom(env, elems, {}).Done? {
      AloneInlines(env, elems[i]);
      AloneInlines(env, elems[j]);
      SpineAlias(env, elems[i], Fuel(1));
      var x := env[Stripped(elems[i]).name];
      var m: nat :| m < Fuel(1) && Inline(env, x, m).Done? && Spine(env, x, m) <= Spine(env, elems[i], Fuel(1));
      SpineStripped(env, x, m);
      LookedRefs(env, elems[j], Fuel(1));
    }
  }

  lemma {:induction false} LookedRefs(env: Env, e: Expr, n: nat)
    requires Inline(env, e, n).Done?
    ensures Refs(e) <= Looked(env, e, n)
    decreases e
  {
    match e
    case Unary(_, a) => LookedRefs(env, a, n - 1);
    case Binary(l, _, r) =>
      LookedRefs(env, l, n - 1);
      LookedRefs(env, r, n - 1);
    case _ =>
  }

  /** Operators protect: elements that are no bare names, signs aside, may repeat constants. */
  lemma OperatorsMayRepeat(env: Env, elems: seq<Expr>)
    requires forall e <- elems :: Alone(env, e).Done? && !Stripped(e).Name?
    ensures ArrayFrom(env, elems, {}).Done?
  {
    hide Alone, Spine, Looked, ArrayFrom;
    ArrayExact(env, elems);
    forall i, j | 0 <= i < j < |elems|
      ensures Spine(env, elems[i], Fuel(1)) !! Looked(env, elems[j], Fuel(1))
    {
      assert elems[i] in elems;
      AloneInlines(env, elems[i]);
      SpineStripped(env, elems[i], Fuel(1));
    }
  }

  lemma AloneInlines(env: Env, e: Expr)
    requires Alone(env, e).Done?
    ensures Inline(env, e, Fuel(1)).Done?
  {
  }

  /** A constant written bare, or under signs, may not be mentioned by a later element. */
  lemma RepeatedName(env: Env, elems: seq<Expr>, i: nat, j: nat)
    requires i < j < |elems| && Stripped(elems[i]).Name? && Stripped(elems[i]).name in Refs(elems[j])
    ensures ArrayFrom(env, elems, {}) == Fail
  {
    hide Alone, Spine, Looked, ArrayFrom, Inline;
    ArrayExact(env, elems);
    if ArrayFrom(env, elems, {}).Done? {
      AloneInlines(env, elems[i]);
      AloneInlines(env, elems[j]);
      SpineStripped(env, elems[i], Fuel(1));
      LookedRefs(env, elems[j], Fuel(1));
    }
  }

  /** The same constant twice in one array literal is taken for a cycle. */
  lemma RepeatedConstantRejected()
    ensures var env := map["A" := Int32(1)];
            Calculate(env, Name("A")) == Done(Int32(1)) && ArrayFrom(env, [Name("A"), Name("A")], {}) == Fail
  {
    var env := map["A" := Int32(1)];
    var elems := [Name("A"), Name("A")];
    assert Calc(env, Int32(1), {"A"}, 1) == Done(Int32(1));
    assert Calc(env, Int32(1), {"A"}, 2) == Done(Int32(1));
    assert elems[1..][0] == Name("A");
    assert Calc(env, elems[0], {}, 1) == Done(Int32(1));
    assert "A" in Spine(env, elems[0], Fuel(1));
    assert Calc(env, elems[1], {} + Spine(env, elems[0], Fuel(1)), 1) == Fail;
  }

  /** `pre_process`: the constants of a declaration, each folded against the declarations. */
  method PreProcess(env: Env, constants: seq<string>) returns (folded: Env)
    requires forall x <- constants :: x in env
    ensures folded == PreFolded(env, set x <- constants)
    ensures forall x <- constants :: Calculate(env, env[x]).Done? ==> folded[x] == Calculate(env, env[x]).value && IsValue(folded[x])
    ensures forall x <- env :: x !in constants || Calculate(env, env[x]).Fail? ==> folded[x] == env[x]
  {
    hide Calculate;
    folded := env;
    for i := 0 to |constants|
      invariant folded.Keys == env.Keys
      invariant forall x <- env ::
        folded[x] == if x in constants[..i] && Calculate(env, env[x]).Done? then Calculate(env, env[x]).value else env[x]
    {
      var x := constants[i];
      var v := Calculate(env, env[x]);
      folded := folded[x := if v.Done? then v.value else env[x]];
      assert forall y :: y in constants[..i + 1] <==> y in constants[..i] || y == x;
    }
    assert constants[..|constants|] == constants;
  }
}
