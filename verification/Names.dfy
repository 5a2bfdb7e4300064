/** Names evaluate as if they had been inlined, and folding constants ahead of
    time changes nothing. */
module Names {
  import opened ConstExpr

  // ----- the simple meaning -----

  /** Fold a tree bottom-up; no names are looked up and no depth is counted. */
  function Fold(t: Expr): (r: Outcome<Value>)
  {
    match t
    case Unary(op, a) =>
      var v :- Fold(a);
      FoldUnary(op, v)
    case Binary(l, op, r) =>
      var a :- Fold(l);
      var b :- Fold(r);
      FoldBinary(op, a, b)
    case _ => Done(t)
  }

  /** Replace every defined name by its definition, all the way down; `Fail` when the
      unfolded tree, with each name counting one level, is deeper than `n`. */
  function Inline(env: Env, e: Expr, n: nat): (t: Outcome<Expr>)
    decreases n
  {
    match e
    case Unary(op, a) =>
      if n == 0 then Fail
      else
        var a' :- Inline(env, a, n - 1);
        Done(Unary(op, a'))
    case Binary(l, op, r) =>
      if n == 0 then Fail
      else
        var l' :- Inline(env, l, n - 1);
        var r' :- Inline(env, r, n - 1);
        Done(Binary(l', op, r'))
    case Name(x) =>
      if x !in env then Done(e)
      else if n == 0 then Fail
      else Inline(env, env[x], n - 1)
    case _ => Done(e)
  }

  lemma {:induction false} InlineMonotone(env: Env, e: Expr, m: nat, n: nat)
    requires m <= n && Inline(env, e, m).Done?
    ensures Inline(env, e, n) == Inline(env, e, m)
    decreases m
  {
    match e
    case Unary(_, a) => InlineMonotone(env, a, m - 1, n - 1);
    case Binary(l, _, r) =>
      InlineMonotone(env, l, m - 1, n - 1);
      InlineMonotone(env, r, m - 1, n - 1);
    case Name(x) =>
      if x in env {
        InlineMonotone(env, env[x], m - 1, n - 1);
      }
    case _ =>
  }

  /** The least depth within which `e` unfolds. */
  lemma {:induction false} LeastDepth(env: Env, e: Expr, n: nat) returns (m: nat)
    requires Inline(env, e, n).Done?
    ensures m <= n && Inline(env, e, m) == Inline(env, e, n)
    ensures m > 0 ==> Inline(env, e, m - 1).Fail?
    decreases n
  {
    if n == 0 || Inline(env, e, n - 1).Fail? {
      m := n;
    } else {
      InlineMonotone(env, e, n - 1, n);
      m := LeastDepth(env, e, n - 1);
    }
  }

  /** No name on the path unfolds as shallowly as what is being evaluated. */
  ghost predicate Above(env: Env, visited: set<string>, m: nat) {
    forall v <- visited :: Inline(env, Name(v), m).Fail?
  }

  lemma AboveDown(env: Env, visited: set<string>, m: nat, k: nat)
    requires Above(env, visited, m) && k <= m
    ensures Above(env, visited, k)
  {
    hide Inline;
    forall v <- visited
      ensures Inline(env, Name(v), k).Fail?
    {
      if Inline(env, Name(v), k).Done? {
        InlineMonotone(env, Name(v), k, m);
      }
    }
  }

  /** Within the depth bound the evaluator agrees with folding the inlined tree. */
  lemma {:induction false} CalcOfInline(env: Env, e: Expr, n: nat, visited: set<string>, depth: nat)
    requires Inline(env, e, n).Done? && depth + n <= MAX_EXPR_DEPTH && Above(env, visited, n)
    ensures Calc(env, e, visited, depth) == Fold(Inline(env, e, n).value)
    decreases n
  {
    hide Above, FoldUnary, FoldBinary;
    match e
    case Unary(op, a) =>
      AboveDown(env, visited, n, n - 1);
      CalcOfInline(env, a, n - 1, visited, depth + 1);
    case Binary(l, op, r) =>
      AboveDown(env, visited, n, n - 1);
      CalcOfInline(env, l, n - 1, visited, depth + 1);
      CalcOfInline(env, r, n - 1, visited, depth + 1);
    case Name(x) =>
      NotVisited(env, x, n, visited);
      if x in env {
        var m := LeastDepth(env, e, n);
        AboveDown(env, visited, n, m);
        AboveAdd(env, visited, x, m);
        CalcOfInline(env, env[x], m - 1, visited + {x}, depth + 1);
      }
    case _ =>
  }

  lemma NotVisited(env: Env, x: string, n: nat, visited: set<string>)
    requires Inline(env, Name(x), n).Done? && Above(env, visited, n)
    ensures x !in visited
  {
  }

  lemma AboveAdd(env: Env, visited: set<string>, x: string, m: nat)
    requires m > 0 && Above(env, visited, m) && Inline(env, Name(x), m - 1).Fail?
    ensures Above(env, visited + {x}, m - 1)
  {
    AboveDown(env, visited, m, m - 1);
  }

  /** Conversely, whatever the evaluator returns is the fold of a tree within the bound. */
  lemma {:induction false} InlineOfCalc(env: Env, e: Expr, visited: set<string>, depth: nat)
    requires Calc(env, e, visited, depth).Done?
    ensures depth <= MAX_EXPR_DEPTH && Inline(env, e, MAX_EXPR_DEPTH - depth).Done?
    ensures Fold(Inline(env, e, MAX_EXPR_DEPTH - depth).value) == Calc(env, e, visited, depth)
    decreases MAX_EXPR_DEPTH + 1 - depth
  {
    hide FoldUnary, FoldBinary;
    match e
    case Unary(op, a) => InlineOfCalc(env, a, visited, depth + 1);
    case Binary(l, op, r) =>
      InlineOfCalc(env, l, visited, depth + 1);
      InlineOfCalc(env, r, visited, depth + 1);
    case Name(x) =>
      if x in env {
        InlineOfCalc(env, env[x], visited + {x}, depth + 1);
      }
    case _ =>
  }

  /** Names evaluate as if inlined: the outcome is that of the fully inlined tree when the
      unfolding stays within depth 256, and an error otherwise. */
  lemma NamesAsIfInlined(env: Env, e: Expr)
    ensures Calculate(env, e) == match Inline(env, e, MAX_EXPR_DEPTH)
                                 case Done(t) => Fold(t)
                                 case Fail => Fail
  {
    hide Inline, Calc, Fold;
    if Inline(env, e, MAX_EXPR_DEPTH).Done? {
      CalcOfInline(env, e, MAX_EXPR_DEPTH, {}, 0);
    } else if Calc(env, e, {}, 0).Done? {
      InlineOfCalc(env, e, {}, 0);
    }
  }

  /** A result does not depend on the path or the depth beyond what they forbid. */
  lemma {:induction false} DoneStays(env: Env, e: Expr, va: set<string>, vb: set<string>, da: nat, db: nat)
    requires vb <= va && db <= da && Calc(env, e, va, da).Done?
    ensures Calc(env, e, vb, db) == Calc(env, e, va, da)
    decreases MAX_EXPR_DEPTH + 1 - da
  {
    hide FoldUnary, FoldBinary;
    match e
    case Unary(_, x) => DoneStays(env, x, va, vb, da + 1, db + 1);
    case Binary(l, _, r) =>
      DoneStays(env, l, va, vb, da + 1, db + 1);
      DoneStays(env, r, va, vb, da + 1, db + 1);
    case Name(n) =>
      if n in env {
        DoneStays(env, env[n], va + {n}, vb + {n}, da + 1, db + 1);
      }
    case _ =>
  }

  // ----- cycles -----

  function Refs(e: Expr): set<string> {
    match e
    case Unary(_, a) => Refs(a)
    case Binary(l, _, r) => Refs(l) + Refs(r)
    case Name(x) => {x}
    case _ => {}
  }

  /** `e` mentions `y`, directly or through at most `k` definitions. */
  ghost predicate Reaches(env: Env, e: Expr, y: string, k: nat)
    decreases k
  {
    y in Refs(e) || (k > 0 && exists x <- Refs(e) :: x in env && Reaches(env, env[x], y, k - 1))
  }

  lemma {:induction false} RefsUnfold(env: Env, e: Expr, x: string, n: nat)
    requires Inline(env, e, n).Done? && x in Refs(e)
    ensures Inline(env, Name(x), n).Done?
    decreases e
  {
    match e
    case Unary(_, a) =>
      RefsUnfold(env, a, x, n - 1);
      InlineMonotone(env, Name(x), n - 1, n);
    case Binary(l, _, r) =>
      if x in Refs(l) {
        RefsUnfold(env, l, x, n - 1);
      } else {
        RefsUnfold(env, r, x, n - 1);
      }
      InlineMonotone(env, Name(x), n - 1, n);
    case _ =>
  }

  lemma {:induction false} ReachedUnfold(env: Env, e: Expr, y: string, k: nat, n: nat)
    requires Inline(env, e, n).Done? && Reaches(env, e, y, k)
    ensures Inline(env, Name(y), n).Done?
    decreases k
  {
    if y in Refs(e) {
      RefsUnfold(env, e, y, n);
    } else {
      var x :| x in Refs(e) && x in env && Reaches(env, env[x], y, k - 1);
      RefsUnfold(env, e, x, n);
      ReachedUnfold(env, env[x], y, k - 1, n - 1);
      InlineMonotone(env, Name(y), n - 1, n);
    }
  }

  lemma {:induction false} CycleNeverUnfolds(env: Env, y: string, k: nat, n: nat)
    requires y in env && Reaches(env, env[y], y, k)
    ensures Inline(env, Name(y), n).Fail?
    decreases n
  {
    if Inline(env, Name(y), n).Done? {
      ReachedUnfold(env, env[y], y, k, n - 1);
      CycleNeverUnfolds(env, y, k, n - 1);
    }
  }

  /** A cycle that an expression reaches is always an error, never a value. */
  lemma CyclesAreErrors(env: Env, e: Expr, y: string, j: nat, k: nat)
    requires Reaches(env, e, y, j) && y in env && Reaches(env, env[y], y, k)
    ensures Calculate(env, e) == Fail
  {
    hide Calculate, Reaches;
    NamesAsIfInlined(env, e);
    if Inline(env, e, MAX_EXPR_DEPTH).Done? {
      ReachedUnfold(env, e, y, j, MAX_EXPR_DEPTH);
      CycleNeverUnfolds(env, y, k, MAX_EXPR_DEPTH);
    }
  }

  // ----- folding again, and folding ahead of time -----

  /** A result holds no operator, and evaluating it again returns it. */
  lemma Idempotent(env: Env, e: Expr)
    requires Calculate(env, e).Done?
    ensures IsValue(Calculate(env, e).value)
    ensures Calculate(env, Calculate(env, e).value) == Calculate(env, e)
  {
    hide Fold;
    NamesAsIfInlined(env, e);
    ResultNamesUndefined(env, e, MAX_EXPR_DEPTH);
  }

  lemma {:induction false} ResultNamesUndefined(env: Env, e: Expr, n: nat)
    requires Inline(env, e, n).Done?
    ensures var r := Fold(Inline(env, e, n).value);
            r.Done? && r.value.Name? ==> r.value.name !in env
    decreases n
  {
    hide FoldBinary;
    match e
    case Unary(op, a) => ResultNamesUndefined(env, a, n - 1);
    case Binary(l, op, r) =>
    case Name(x) =>
      if x in env {
        ResultNamesUndefined(env, env[x], n - 1);
      }
    case _ =>
  }

  /** `pre_process`: every listed constant that folds is replaced by its value. */
  function PreFolded(env: Env, names: set<string>): (env': Env)
    ensures env'.Keys == env.Keys
  {
    map x | x in env :: if x in names && Calculate(env, env[x]).Done? then Calculate(env, env[x]).value else env[x]
  }

  lemma {:induction false} PreFoldedUnfolds(env: Env, names: set<string>, e: Expr, n: nat)
    requires n <= MAX_EXPR_DEPTH && Inline(env, e, n).Done? && Fold(Inline(env, e, n).value).Done?
    ensures var env' := PreFolded(env, names);
            Inline(env', e, n).Done? && Fold(Inline(env', e, n).value) == Fold(Inline(env, e, n).value)
    decreases n
  {
    hide FoldUnary, FoldBinary, Calculate;
    match e
    case Unary(op, a) => PreFoldedUnfolds(env, names, a, n - 1);
    case Binary(l, op, r) =>
      PreFoldedUnfolds(env, names, l, n - 1);
      PreFoldedUnfolds(env, names, r, n - 1);
    case Name(x) =>
      if x in env {
        PreFoldedUnfolds(env, names, env[x], n - 1);
        PreFoldedName(env, names, x, n);
      }
    case _ =>
  }

  lemma PreFoldedName(env: Env, names: set<string>, x: string, n: nat)
    requires 0 < n <= MAX_EXPR_DEPTH && x in env
    requires Inline(env, env[x], n - 1).Done? && Fold(Inline(env, env[x], n - 1).value).Done?
    requires var env' := PreFolded(env, names);
             Inline(env', env[x], n - 1).Done? && Fold(Inline(env', env[x], n - 1).value) == Fold(Inline(env, env[x], n - 1).value)
    ensures var env' := PreFolded(env, names);
            Inline(env', Name(x), n).Done? && Fold(Inline(env', Name(x), n).value) == Fold(Inline(env, env[x], n - 1).value)
  {
    hide Calculate, FoldUnary, FoldBinary;
    InlineMonotone(env, env[x], n - 1, MAX_EXPR_DEPTH);
    NamesAsIfInlined(env, env[x]);
    ResultNamesUndefined(env, env[x], n - 1);
  }

  /** Folding the declared constants first changes no evaluation that succeeds. */
  lemma PreFoldingTransparent(env: Env, names: set<string>, e: Expr)
    requires Calculate(env, e).Done?
    ensures Calculate(PreFolded(env, names), e) == Calculate(env, e)
  {
    hide Calculate, PreFolded, Inline, Fold;
    NamesAsIfInlined(env, e);
    PreFoldedUnfolds(env, names, e, MAX_EXPR_DEPTH);
    NamesAsIfInlined(PreFolded(env, names), e);
  }
}
