/** The module tree of the generated file: packages are sorted and modules are opened
    and closed between one package and the next. */
module Modules {
  import W = Wire
  import opened Text

  datatype Package = Package(name: string, body: string)

  datatype Token = OpenMod(name: string) | CloseMod | Body(text: string)

  // ----- names and their segments -----

  /** `split('.')` */
  function Split(s: string): (r: seq<string>)
    ensures |r| > 0
    ensures forall i :: 0 <= i < |r| ==> '.' !in r[i]
    decreases |s|
  {
    if s == [] then [[]]
    else
      var rest := Split(s[1..]);
      if s[0] == '.' then [[]] + rest else [[s[0]] + rest[0]] + rest[1..]
  }

  function Join(u: seq<string>): (s: string)
    requires |u| > 0
  {
    if |u| == 1 then u[0] else u[0] + "." + Join(u[1..])
  }

  /** The modules a package lives in. */
  function Segments(p: string): (r: seq<string>) {
    if p == [] then [] else Split(p)
  }

  predicate Named(p: string) {
    forall i :: 0 <= i < |Segments(p)| ==> Segments(p)[i] != []
  }

  /** The length of the common prefix. */
  function Common(a: seq<string>, b: seq<string>): (n: nat)
    ensures n <= |a| && n <= |b| && a[..n] == b[..n]
    ensures n < |a| && n < |b| ==> a[n] != b[n]
  {
    if a == [] || b == [] || a[0] != b[0] then 0 else 1 + Common(a[1..], b[1..])
  }

  // ----- sorting -----

  predicate PackageLe(a: Package, b: Package) {
    if a.name == b.name then LexLe(a.body, b.body) else LexLe(a.name, b.name)
  }

  predicate Ordered(list: seq<Package>) {
    |list| <= 1 || (LexLe(list[0].name, list[1].name) && Ordered(list[1..]))
  }

  function Insert(p: Package, list: seq<Package>): (r: seq<Package>)
    ensures |r| == |list| + 1 && (r[0] == p || (list != [] && r[0] == list[0]))
  {
    if list == [] || PackageLe(p, list[0]) then [p] + list else [list[0]] + Insert(p, list[1..])
  }

  /** `sort` on the package list. */
  function Sort(list: seq<Package>): (r: seq<Package>) {
    if list == [] then [] else Insert(list[0], Sort(list[1..]))
  }

  lemma SortedCons(p: Package, list: seq<Package>)
    requires Ordered(list) && (list != [] ==> LexLe(p.name, list[0].name))
    ensures Ordered([p] + list)
  {
    assert ([p] + list)[1..] == list;
  }

  /** Packages of one name are ordered by their contents. */
  lemma {:induction false} InsertTies(p: Package, list: seq<Package>)
    requires forall i :: 0 < i < |list| && list[i - 1].name == list[i].name ==> LexLe(list[i - 1].body, list[i].body)
    ensures var r := Insert(p, list);
            forall i :: 0 < i < |r| && r[i - 1].name == r[i].name ==> LexLe(r[i - 1].body, r[i].body)
  {
    var r := Insert(p, list);
    if list != [] && !PackageLe(p, list[0]) {
      InsertTies(p, list[1..]);
      LexTotal(p.body, list[0].body);
      forall i | 0 < i < |r| && r[i - 1].name == r[i].name
        ensures LexLe(r[i - 1].body, r[i].body)
      {
        assert i > 1 ==> r[i - 1] == Insert(p, list[1..])[i - 2];
      }
    }
  }

  lemma {:induction false} InsertSorted(p: Package, list: seq<Package>)
    requires Ordered(list)
    ensures Ordered(Insert(p, list)) && multiset(Insert(p, list)) == multiset{p} + multiset(list)
  {
    hide LexLe;
    if list == [] || PackageLe(p, list[0]) {
      LexTotal(p.name, p.name);
      SortedCons(p, list);
    } else {
      InsertSorted(p, list[1..]);
      LexTotal(p.name, list[0].name);
      LexTotal(p.body, list[0].body);
      assert list == [list[0]] + list[1..];
      SortedCons(list[0], Insert(p, list[1..]));
    }
  }

  lemma {:induction false} SortSorts(list: seq<Package>)
    ensures Ordered(Sort(list)) && multiset(Sort(list)) == multiset(list)
    ensures forall i :: 0 < i < |Sort(list)| && Sort(list)[i - 1].name == Sort(list)[i].name ==>
              LexLe(Sort(list)[i - 1].body, Sort(list)[i].body)
  {
    if list != [] {
      SortSorts(list[1..]);
      InsertTies(list[0], Sort(list[1..]));
      InsertSorted(list[0], Sort(list[1..]));
      assert list == [list[0]] + list[1..];
    }
  }

  lemma {:induction false} SortedAll(list: seq<Package>, j: nat)
    requires Ordered(list) && j < |list|
    ensures LexLe(list[0].name, list[j].name)
  {
    if j == 0 {
      LexTotal(list[0].name, list[0].name);
    } else {
      SortedAll(list[1..], j - 1);
      LexTransitive(list[0].name, list[1].name, list[j].name);
    }
  }

  // ----- what is emitted -----

  function Opens(mods: seq<string>): (t: seq<Token>) {
    if mods == [] then [] else [OpenMod(mods[0])] + Opens(mods[1..])
  }

  function Closes(n: nat): (t: seq<Token>) {
    if n == 0 then [] else [CloseMod] + Closes(n - 1)
  }

  /** From the modules of `p` to those of `q`. */
  function Move(p: string, q: string): (t: seq<Token>) {
    var a, b := Segments(p), Segments(q);
    var n := Common(a, b);
    Closes(|a| - n) + Opens(b[n..])
  }

  function Emit(at: string, list: seq<Package>): (t: seq<Token>)
    decreases list
  {
    if list == [] then Closes(|Segments(at)|)
    else Move(at, list[0].name) + [Body(list[0].body)] + Emit(list[0].name, list[1..])
  }

  // ----- reading the text back as a module tree -----

  /** The open modules, whether the braces matched so far, where each body was found and
      which module paths were opened. */
  datatype Tree = Tree(path: seq<string>, ok: bool, bodies: seq<(seq<string>, string)>, opens: seq<seq<string>>)

  const NOTHING: Tree := Tree([], true, [], [])

  function Visit(t: Tree, k: Token): Tree {
    match k
    case OpenMod(m) => t.(path := t.path + [m], opens := t.opens + [t.path + [m]])
    case CloseMod => if t.path == [] then t.(ok := false) else t.(path := t.path[..|t.path| - 1])
    case Body(b) => t.(bodies := t.bodies + [(t.path, b)])
  }

  function VisitAll(t: Tree, tokens: seq<Token>): Tree
    decreases tokens
  {
    if tokens == [] then t else VisitAll(Visit(t, tokens[0]), tokens[1..])
  }

  lemma VisitOne(t: Tree, k: Token)
    ensures VisitAll(t, [k]) == Visit(t, k)
  {
    assert [k][1..] == [];
  }

  lemma {:induction false} VisitConcat(t: Tree, a: seq<Token>, b: seq<Token>)
    ensures VisitAll(t, a + b) == VisitAll(VisitAll(t, a), b)
    decreases a
  {
    if a == [] {
      assert a + b == b;
    } else {
      assert (a + b)[0] == a[0] && (a + b)[1..] == a[1..] + b;
      VisitConcat(Visit(t, a[0]), a[1..], b);
    }
  }

  lemma {:induction false} VisitCloses(t: Tree, n: nat)
    requires n <= |t.path|
    ensures VisitAll(t, Closes(n)) == t.(path := t.path[..|t.path| - n])
    decreases n
  {
    if n == 0 {
      assert t.path[..|t.path|] == t.path;
    } else {
      var t' := Visit(t, CloseMod);
      VisitCloses(t', n - 1);
      assert t'.path[..|t.path| - n] == t.path[..|t.path| - n];
      assert Closes(n)[0] == CloseMod && Closes(n)[1..] == Closes(n - 1);
    }
  }

  /** The paths from `base` down through `mods`. */
  function PathsTo(base: seq<string>, mods: seq<string>): (r: seq<seq<string>>)
    ensures |r| == |mods| && forall i :: 0 <= i < |mods| ==> r[i] == base + mods[..i + 1]
  {
    seq(|mods|, i requires 0 <= i < |mods| => base + mods[..i + 1])
  }

  lemma PathsToCons(base: seq<string>, m: string, mods: seq<string>)
    ensures PathsTo(base, [m] + mods) == [base + [m]] + PathsTo(base + [m], mods)
  {
    var all := [m] + mods;
    forall i | 0 <= i < |all|
      ensures PathsTo(base, all)[i] == ([base + [m]] + PathsTo(base + [m], mods))[i]
    {
      if i == 0 {
        assert all[..1] == [m];
      } else {
        assert all[..i + 1] == [m] + mods[..i];
        assert base + ([m] + mods[..i]) == base + [m] + mods[..i];
      }
    }
  }

  lemma VisitNothing(t: Tree)
    ensures VisitAll(t, Opens([])) == t
  {
  }

  lemma VisitOpenFirst(t: Tree, m: string, rest: seq<string>)
    ensures VisitAll(t, Opens([m] + rest)) == VisitAll(Visit(t, OpenMod(m)), Opens(rest))
  {
    assert ([m] + rest)[1..] == rest;
    assert Opens([m] + rest)[1..] == Opens(rest);
  }

  lemma {:induction false} VisitOpens(t: Tree, mods: seq<string>)
    ensures VisitAll(t, Opens(mods)) == t.(path := t.path + mods, opens := t.opens + PathsTo(t.path, mods))
    decreases mods
  {
    hide PathsTo, VisitAll, Opens;
    var paths := PathsTo(t.path, mods);
    if mods == [] {
      W.Regroup(t.path, mods, []);
      W.Regroup(t.opens, paths, []);
      VisitNothing(t);
    } else {
      var m, rest := mods[0], mods[1..];
      var t' := Visit(t, OpenMod(m));
      assert mods == [m] + rest;
      VisitOpenFirst(t, m, rest);
      VisitOpens(t', rest);
      PathsToCons(t.path, m, rest);
      W.Regroup(t.path, [m], rest);
      W.Regroup(t.opens, [t'.path], PathsTo(t'.path, rest));
    }
  }

  /** The paths a move opens. */
  function Fresh(p: string, q: string): seq<seq<string>> {
    var a, b := Segments(p), Segments(q);
    var n := Common(a, b);
    PathsTo(b[..n], b[n..])
  }

  lemma VisitMove(t: Tree, p: string, q: string)
    requires t.path == Segments(p)
    ensures VisitAll(t, Move(p, q)) == t.(path := Segments(q), opens := t.opens + Fresh(p, q))
  {
    hide VisitAll, Split, Opens, Closes, PathsTo;
    var a, b := Segments(p), Segments(q);
    var n := Common(a, b);
    VisitConcat(t, Closes(|a| - n), Opens(b[n..]));
    VisitCloses(t, |a| - n);
    VisitOpens(t.(path := a[..n]), b[n..]);
    assert b[..n] + b[n..] == b;
  }

  function Placed(list: seq<Package>): (r: seq<(seq<string>, string)>)
    ensures |r| == |list| && forall i :: 0 <= i < |list| ==> r[i] == (Segments(list[i].name), list[i].body)
  {
    seq(|list|, i requires 0 <= i < |list| => (Segments(list[i].name), list[i].body))
  }

  function Opened(at: string, list: seq<Package>): (r: seq<seq<string>>)
    decreases list
  {
    if list == [] then [] else Fresh(at, list[0].name) + Opened(list[0].name, list[1..])
  }

  lemma {:induction false} VisitEmit(t: Tree, at: string, list: seq<Package>)
    requires t.path == Segments(at)
    ensures VisitAll(t, Emit(at, list)) == Tree([], t.ok, t.bodies + Placed(list), t.opens + Opened(at, list))
    decreases list
  {
    if list == [] {
      VisitCloses(t, |t.path|);
      assert t.bodies + Placed(list) == t.bodies && t.opens + Opened(at, list) == t.opens;
    } else {
      VisitStep(t, at, list);
    }
  }

  lemma PlacedCons(list: seq<Package>)
    requires list != []
    ensures Placed(list) == [(Segments(list[0].name), list[0].body)] + Placed(list[1..])
  {
  }

  lemma {:induction false} VisitStep(t: Tree, at: string, list: seq<Package>)
    requires t.path == Segments(at) && list != []
    ensures VisitAll(t, Emit(at, list)) == Tree([], t.ok, t.bodies + Placed(list), t.opens + Opened(at, list))
    decreases list, 0
  {
    hide Move, Fresh, VisitAll, Split, Placed;
    var q, rest := list[0], list[1..];
    var first := Move(at, q.name) + [Body(q.body)];
    VisitConcat(t, first, Emit(q.name, rest));
    VisitConcat(t, Move(at, q.name), [Body(q.body)]);
    VisitMove(t, at, q.name);
    var t' := VisitAll(t, first);
    var path := Segments(q.name);
    VisitOne(VisitAll(t, Move(at, q.name)), Body(q.body));
    VisitEmit(t', q.name, rest);
    PlacedCons(list);
    W.Regroup(t.bodies, [(path, q.body)], Placed(rest));
    W.Regroup(t.opens, Fresh(at, q.name), Opened(q.name, rest));
  }

  // ----- no module twice -----

  /** No character sorts below the dot. */
  predicate HighChars(p: string) {
    forall i :: 0 <= i < |p| ==> p[i] >= '.'
  }

  predicate Under(u: string, p: string) {
    p == u || (|p| > |u| && p[..|u|] == u && p[|u|] == '.')
  }

  lemma {:induction false} JoinSplit(s: string)
    ensures Join(Split(s)) == s
  {
    if s != [] {
      var rest := Split(s[1..]);
      JoinSplit(s[1..]);
      if s[0] == '.' {
        assert ([[]] + rest)[1..] == rest;
        assert [] + "." + Join(rest) == s;
      } else {
        var r := [[s[0]] + rest[0]] + rest[1..];
        if |rest| == 1 {
          assert r == [[s[0]] + rest[0]];
        } else {
          assert r[1..] == rest[1..];
          assert [s[0]] + (rest[0] + "." + Join(rest[1..])) == r[0] + "." + Join(r[1..]);
        }
      }
    }
  }

  lemma {:induction false} JoinConcat(u: seq<string>, v: seq<string>)
    requires |u| > 0 && |v| > 0
    ensures Join(u + v) == Join(u) + "." + Join(v)
  {
    if |u| == 1 {
      assert (u + v)[1..] == v;
    } else {
      assert (u + v)[1..] == u[1..] + v;
      JoinConcat(u[1..], v);
      assert u[0] + "." + (Join(u[1..]) + "." + Join(v)) == u[0] + "." + Join(u[1..]) + "." + Join(v);
    }
  }

  /** A path of a package's modules is a dotted prefix of its name. */
  lemma PrefixUnder(p: string, k: nat)
    requires 0 < k <= |Split(p)|
    ensures Under(Join(Split(p)[..k]), p)
  {
    var s := Split(p);
    JoinSplit(p);
    if k == |s| {
      assert s[..k] == s;
    } else {
      assert s[..k] + s[k..] == s;
      JoinConcat(s[..k], s[k..]);
    }
  }

  lemma {:induction false} SplitDotted(w: string, rest: string)
    requires '.' !in w
    ensures Split(w + "." + rest) == [w] + Split(rest) && Split(w) == [w]
    decreases w
  {
    if w == [] {
      assert (w + "." + rest)[0] == '.' && (w + "." + rest)[1..] == rest;
    } else {
      var s := w + "." + rest;
      assert s[0] == w[0] && s[1..] == w[1..] + "." + rest;
      SplitDotted(w[1..], rest);
      assert [w[0]] + w[1..] == w;
      assert ([w[1..]] + Split(rest))[1..] == Split(rest);
    }
  }

  /** And back: a dotted prefix gives the same path. */
  lemma {:induction false} UnderPrefix(u: seq<string>, p: string)
    requires |u| > 0 && (forall i :: 0 <= i < |u| ==> '.' !in u[i]) && Under(Join(u), p)
    ensures |u| <= |Split(p)| && Split(p)[..|u|] == u
  {
    var j := Join(u);
    if |u| == 1 {
      if p == j {
        SplitDotted(u[0], []);
      } else {
        SplitDotted(u[0], p[|j| + 1..]);
        assert p == u[0] + "." + p[|j| + 1..];
      }
    } else {
      var m := |u[0]| + 1;
      assert j[..m] == u[0] + "." && j[m..] == Join(u[1..]);
      assert p[..m] == u[0] + "." by {
        assert p[..m] == j[..m];
      }
      assert p == u[0] + "." + p[m..];
      SplitDotted(u[0], p[m..]);
      UnderTail(j, p, m);
      UnderPrefix(u[1..], p[m..]);
      assert u == [u[0]] + u[1..];
    }
  }

  lemma UnderTail(j: string, p: string, m: nat)
    requires Under(j, p) && m <= |j|
    ensures m <= |p| && Under(j[m..], p[m..])
  {
    if p != j {
      assert p[m..][..|j| - m] == j[m..];
    }
  }

  /** Between two names under `u` every name is under `u`, if '.' is the least character. */
  lemma {:induction false} Sandwich(u: string, r: string, p: string, q: string)
    requires Under(u, r) && Under(u, q) && LexLe(r, p) && LexLe(p, q)
    requires HighChars(p)
    ensures Under(u, p)
    decreases u
  {
    if u == [] {
      assert p == [] || p[0] == '.';
    } else {
      UnderTail(u, r, 1);
      UnderTail(u, q, 1);
      assert r[0] == u[0] == q[0] && p != [];
      assert p[0] == u[0];
      Sandwich(u[1..], r[1..], p[1..], q[1..]);
      UnderCons(u, p);
    }
  }

  lemma UnderCons(u: string, p: string)
    requires u != [] && p != [] && u[0] == p[0] && Under(u[1..], p[1..])
    ensures Under(u, p)
  {
    assert u == [u[0]] + u[1..] && p == [p[0]] + p[1..];
    if p != u {
      assert p[..|u|] == [p[0]] + p[1..][..|u| - 1];
    }
  }

  predicate PathOf(u: seq<string>, p: string) {
    0 < |u| <= |Segments(p)| && Segments(p)[..|u|] == u
  }

  lemma PathSandwich(u: seq<string>, r: string, p: string, q: string)
    requires PathOf(u, r) && PathOf(u, q) && LexLe(r, p) && LexLe(p, q)
    requires HighChars(p)
    ensures PathOf(u, p)
  {
    hide Split, Under, LexLe;
    PrefixUnder(r, |u|);
    PrefixUnder(q, |u|);
    Sandwich(Join(u), r, p, q);
    UnderPrefix(u, p);
    NonEmpty(r, p);
  }

  lemma NonEmpty(r: string, p: string)
    requires r != [] && LexLe(r, p)
    ensures p != []
  {
  }

  predicate Distinct<T(==)>(s: seq<T>) {
    forall i, j :: 0 <= i < j < |s| ==> s[i] != s[j]
  }

  lemma FreshIsNew(p: string, q: string, i: nat)
    requires i < |Fresh(p, q)|
    ensures PathOf(Fresh(p, q)[i], q) && !PathOf(Fresh(p, q)[i], p)
    ensures |Fresh(p, q)[i]| == Common(Segments(p), Segments(q)) + i + 1
  {
    hide Split;
    var a, b := Segments(p), Segments(q);
    var n := Common(a, b);
    var w := Fresh(p, q)[i];
    assert w == b[..n + i + 1];
    assert w[n] == b[n];
  }

  /** Between two packages under a module path every package is under it. */
  ghost predicate Contiguous(list: seq<Package>) {
    forall i, j, k, u :: 0 <= i < j < k < |list| && PathOf(u, list[i].name) && PathOf(u, list[k].name) ==> PathOf(u, list[j].name)
  }

  /** Whenever `w` is a path of a package of `list`, it has been one all along since `at`. */
  ghost predicate Unbroken(w: seq<string>, at: string, list: seq<Package>) {
    forall k :: 0 <= k < |list| && PathOf(w, list[k].name) ==>
      PathOf(w, at) && forall j :: 0 <= j < k ==> PathOf(w, list[j].name)
  }

  lemma UnbrokenTail(w: seq<string>, at: string, list: seq<Package>)
    requires list != [] && Unbroken(w, at, list)
    ensures Unbroken(w, list[0].name, list[1..])
  {
    hide PathOf;
    var rest := list[1..];
    forall k | 0 <= k < |rest| && PathOf(w, rest[k].name)
      ensures PathOf(w, list[0].name) && forall j :: 0 <= j < k ==> PathOf(w, rest[j].name)
    {
      assert rest[k] == list[k + 1];
      assert forall j :: 0 <= j < k ==> rest[j] == list[j + 1];
    }
  }

  /** Such a path is not opened again. */
  lemma {:induction false} NotReopened(w: seq<string>, at: string, list: seq<Package>)
    requires Unbroken(w, at, list)
    ensures w !in Opened(at, list)
    decreases list
  {
    hide PathOf, Fresh;
    if list != [] {
      var q := list[0].name;
      UnbrokenTail(w, at, list);
      NotReopened(w, q, list[1..]);
      forall i | 0 <= i < |Fresh(at, q)|
        ensures Fresh(at, q)[i] != w
      {
        FreshIsNew(at, q, i);
      }
    }
  }

  lemma ContiguousTail(list: seq<Package>)
    requires list != [] && Contiguous(list)
    ensures Contiguous(list[1..])
    ensures forall w :: PathOf(w, list[0].name) ==> Unbroken(w, list[0].name, list[1..])
  {
    hide PathOf;
    var rest := list[1..];
    assert forall i :: 0 <= i < |rest| ==> rest[i] == list[i + 1];
  }

  lemma {:induction false} OpenedOnce(at: string, list: seq<Package>)
    requires Contiguous(list)
    ensures Distinct(Opened(at, list))
    decreases list
  {
    hide PathOf, Fresh, Contiguous, Unbroken;
    if list != [] {
      var q := list[0].name;
      var f, o := Fresh(at, q), Opened(q, list[1..]);
      ContiguousTail(list);
      OpenedOnce(q, list[1..]);
      forall i, j | 0 <= i < j < |f + o|
        ensures (f + o)[i] != (f + o)[j]
      {
        if i < |f| {
          FreshIsNew(at, q, i);
          if j < |f| {
            FreshIsNew(at, q, j);
          } else {
            NotReopened(f[i], q, list[1..]);
            assert (f + o)[j] in o;
          }
        }
      }
    }
  }

  lemma ShorterPrefix(a: seq<string>, b: seq<string>, n: nat, m: nat)
    requires m <= n <= |a| && n <= |b| && a[..n] == b[..n]
    ensures a[..m] == b[..m]
  {
    assert a[..m] == a[..n][..m] && b[..m] == b[..n][..m];
  }

  lemma FreshHas(p: string, q: string, u: seq<string>)
    requires PathOf(u, q) && !PathOf(u, p)
    ensures u in Fresh(p, q)
  {
    hide Split;
    var a, b := Segments(p), Segments(q);
    var n := Common(a, b);
    if |u| <= n {
      ShorterPrefix(a, b, n, |u|);
    } else {
      assert Fresh(p, q)[|u| - n - 1] == b[..n] + b[n..][..|u| - n];
      assert b[..n] + b[n..][..|u| - n] == u;
    }
  }

  /** Every path of a package has been opened by then. */
  lemma {:induction false} OpenedBy(at: string, list: seq<Package>, i: nat, u: seq<string>)
    requires i < |list| && PathOf(u, list[i].name) && !PathOf(u, at)
    ensures u in Opened(at, list[..i + 1])
    decreases list
  {
    hide PathOf, Fresh;
    var q, some := list[0].name, list[..i + 1];
    if PathOf(u, q) {
      FreshHas(at, q, u);
    } else {
      OpenedBy(q, list[1..], i - 1, u);
      assert some[1..] == list[1..][..i];
    }
  }

  lemma {:induction false} OpenedSplit(at: string, a: seq<Package>, b: seq<Package>)
    ensures Opened(at, a + b) == Opened(at, a) + Opened(if a == [] then at else a[|a| - 1].name, b)
    decreases a
  {
    hide Fresh;
    if a == [] {
      assert a + b == b;
    } else {
      assert (a + b)[0] == a[0] && (a + b)[1..] == a[1..] + b;
      OpenedSplit(a[0].name, a[1..], b);
      W.Regroup(Fresh(at, a[0].name), Opened(a[0].name, a[1..]), Opened(a[|a| - 1].name, b));
    }
  }

  /** Where a package steps outside a path that comes back later, the path is opened twice. */
  lemma GapReopens(list: seq<Package>, i: nat, j: nat, k: nat, u: seq<string>)
    requires i < j < k < |list|
    requires PathOf(u, list[i].name) && !PathOf(u, list[j].name) && PathOf(u, list[k].name)
    ensures !Distinct(Opened("", list))
  {
    hide PathOf, Fresh;
    hide Opened;
    var front, back := list[..j + 1], list[j + 1..];
    NoPathOfNothing(u);
    assert list == front + back && front[j] == list[j];
    OpenedSplit("", front, back);
    OpenedWithin("", front, i, u);
    OpenedWithin(list[j].name, back, k - j - 1, u);
    TwiceNotDistinct(Opened("", front), Opened(list[j].name, back), u);
  }

  lemma OpenedWithin(at: string, list: seq<Package>, i: nat, u: seq<string>)
    requires i < |list| && PathOf(u, list[i].name) && !PathOf(u, at)
    ensures u in Opened(at, list)
  {
    hide PathOf, Opened;
    OpenedBy(at, list, i, u);
    assert list == list[..i + 1] + list[i + 1..];
    OpenedSplit(at, list[..i + 1], list[i + 1..]);
  }

  lemma NoPathOfNothing(u: seq<string>)
    ensures !PathOf(u, "")
  {
  }

  lemma TwiceNotDistinct<T>(a: seq<T>, b: seq<T>, x: T)
    requires x in a && x in b
    ensures !Distinct(a + b)
  {
    var i :| 0 <= i < |a| && a[i] == x;
    var j :| 0 <= j < |b| && b[j] == x;
    assert (a + b)[i] == x && (a + b)[|a| + j] == x;
  }

  /** No module path is opened twice exactly when the packages under each path lie together. */
  lemma OpensOnceIff(list: seq<Package>)
    ensures Distinct(Opened("", list)) <==> Contiguous(list)
  {
    hide Opened, PathOf;
    if Contiguous(list) {
      OpenedOnce("", list);
    } else {
      var i, j, k, u :| 0 <= i < j < k < |list| && PathOf(u, list[i].name) && PathOf(u, list[k].name) && !PathOf(u, list[j].name);
      GapReopens(list, i, j, k, u);
    }
  }

  lemma InOrder(list: seq<Package>, i: nat, j: nat)
    requires Ordered(list) && i <= j < |list|
    ensures LexLe(list[i].name, list[j].name)
  {
    hide LexLe, Ordered;
    SortedFrom(list, i);
    SortedAll(list[i..], j - i);
  }

  /** Sorting puts them together when no character sorts below the dot. */
  lemma HighIsContiguous(list: seq<Package>)
    requires Ordered(list) && forall i :: 0 <= i < |list| ==> HighChars(list[i].name)
    ensures Contiguous(list)
  {
    hide Ordered, LexLe, HighChars, PathOf;
    forall i, j, k, u | 0 <= i < j < k < |list| && PathOf(u, list[i].name) && PathOf(u, list[k].name)
      ensures PathOf(u, list[j].name)
    {
      InOrder(list, i, j);
      InOrder(list, j, k);
      PathSandwich(u, list[i].name, list[j].name, list[k].name);
    }
  }

  // ----- names the grammar admits -----

  predicate IdentifierChar(c: char) {
    c == '_' || 'a' <= c <= 'z' || 'A' <= c <= 'Z' || '0' <= c <= '9'
  }

  predicate Identifier(s: string) {
    s != [] && !('0' <= s[0] <= '9') && forall i :: 0 <= i < |s| ==> IdentifierChar(s[i])
  }

  /** No package, or identifiers joined by dots. */
  predicate GrammarName(p: string) {
    forall i :: 0 <= i < |Segments(p)| ==> Identifier(Segments(p)[i])
  }

  lemma {:induction false} JoinHigh(u: seq<string>)
    requires |u| > 0 && forall i :: 0 <= i < |u| ==> Identifier(u[i])
    ensures HighChars(Join(u))
  {
    if |u| > 1 {
      JoinHigh(u[1..]);
    }
  }

  lemma GrammarIsHigh(p: string)
    requires GrammarName(p)
    ensures HighChars(p) && Named(p)
  {
    hide Split;
    if p != [] {
      JoinSplit(p);
      assert Segments(p) == Split(p);
      JoinHigh(Split(p));
    }
  }

  /** One well-formed tree: braces match and all close, each body sits in exactly its own
      package's modules, and no module path is opened twice exactly when the packages under
      each path lie together, as they do for all names of the grammar. */
  lemma OneModuleTree(list: seq<Package>)
    ensures var sorted := Sort(list);
            && multiset(sorted) == multiset(list)
            && var t := VisitAll(NOTHING, Emit("", sorted));
            && t.ok && t.path == []
            && |t.bodies| == |sorted|
            && (forall i :: 0 <= i < |sorted| ==> t.bodies[i] == (Segments(sorted[i].name), sorted[i].body))
            && (Distinct(t.opens) <==> Contiguous(sorted))
            && ((forall p <- list :: GrammarName(p.name)) ==> Distinct(t.opens))
  {
    hide Emit, VisitAll, Opened, Ordered, HighChars, Split, Sort, Contiguous, GrammarName;
    var sorted := Sort(list);
    SortSorts(list);
    VisitEmit(NOTHING, "", sorted);
    assert NOTHING.bodies + Placed(sorted) == Placed(sorted);
    assert NOTHING.opens + Opened("", sorted) == Opened("", sorted);
    OpensOnceIff(sorted);
    if forall p <- list :: GrammarName(p.name) {
      forall i | 0 <= i < |sorted|
        ensures HighChars(sorted[i].name)
      {
        assert sorted[i] in multiset(sorted);
        GrammarIsHigh(sorted[i].name);
      }
      HighIsContiguous(sorted);
    }
  }

  // ----- the generator's loop -----

  predicate AllNamed(list: seq<Package>) {
    forall i :: 0 <= i < |list| ==> Named(list[i].name)
  }

  /** How many leading segments two split names share. */
  method SharedSegments(a: seq<string>, b: seq<string>) returns (start: nat)
    ensures start == Common(a, b)
  {
    start := 0;
    var len := if |a| < |b| then |a| else |b|;
    for i := 0 to len
      invariant start == i && a[..i] == b[..i]
    {
      if a[i] == b[i] {
        start := start + 1;
      } else {
        CommonIs(a, b, start);
        return;
      }
    }
    CommonIs(a, b, start);
  }

  lemma {:induction false} CommonIs(a: seq<string>, b: seq<string>, n: nat)
    requires n <= |a| && n <= |b| && a[..n] == b[..n] && (n < |a| && n < |b| ==> a[n] != b[n])
    ensures Common(a, b) == n
  {
    if n > 0 {
      assert a[0] == a[..n][0] && b[0] == b[..n][0];
      assert a[1..][..n - 1] == a[..n][1..] && b[1..][..n - 1] == b[..n][1..];
      CommonIs(a[1..], b[1..], n - 1);
    }
  }

  /** The initial namespace splits into one empty segment, which no package shares. */
  lemma SharedIsCommon(p: string, q: string)
    requires Named(q) && q != []
    ensures Common(Split(p), Split(q)) == Common(Segments(p), Segments(q))
  {
    if p == [] {
      assert Segments(q)[0] != [];
    }
  }

  lemma {:induction false} ClosesMore(n: nat)
    ensures Closes(n) + [CloseMod] == Closes(n + 1)
  {
    if n > 0 {
      ClosesMore(n - 1);
      assert [CloseMod] + Closes(n - 1) + [CloseMod] == [CloseMod] + (Closes(n - 1) + [CloseMod]);
    }
  }

  /** Close the modules from depth `count` down to depth `start`. */
  method CloseDown(content: seq<Token>, start: nat, count: nat) returns (r: seq<Token>)
    requires start <= count
    ensures r == content + Closes(count - start)
  {
    r := content;
    for i := count downto start
      invariant r == content + Closes(count - i)
    {
      ClosesMore(count - i - 1);
      r := r + [CloseMod];
    }
  }

  method MoveTo(content: seq<Token>, namespace: string, modCount: nat, q: string) returns (r: seq<Token>, count: nat)
    requires modCount == |Segments(namespace)| && Named(q) && q != ""
    ensures r == content + Move(namespace, q) && count == |Segments(q)|
  {
    hide Split, Opens, Closes;
    var modList := Split(q);
    var start := SharedSegments(Split(namespace), modList);
    SharedIsCommon(namespace, q);
    r := CloseDown(content, start, modCount);
    r := OpenUp(r, modList[start..]);
    count := start + |modList[start..]|;
    assert content + Closes(modCount - start) + Opens(modList[start..]) ==
           content + (Closes(modCount - start) + Opens(modList[start..]));
  }

  /** Open the modules that follow. */
  method OpenUp(content: seq<Token>, mods: seq<string>) returns (r: seq<Token>)
    ensures r == content + Opens(mods)
  {
    r := content;
    assert mods[0..] == mods;
    for i := 0 to |mods|
      invariant r + Opens(mods[i..]) == content + Opens(mods)
    {
      assert mods[i..][0] == mods[i] && mods[i..][1..] == mods[i + 1..];
      assert r + ([OpenMod(mods[i])] + Opens(mods[i + 1..])) == r + [OpenMod(mods[i])] + Opens(mods[i + 1..]);
      r := r + [OpenMod(mods[i])];
    }
    assert Opens(mods[|mods|..]) == [];
  }

  lemma MoveNowhere(q: string)
    ensures Move(q, q) == []
  {
    hide Split;
    var a := Segments(q);
    CommonIs(a, a, |a|);
    assert a[|a|..] == [];
  }

  lemma EmitStep(content: seq<Token>, at: string, list: seq<Package>, i: nat)
    requires i < |list|
    ensures content + Emit(at, list[i..]) ==
            content + Move(at, list[i].name) + [Body(list[i].body)] + Emit(list[i].name, list[i + 1..])
  {
    hide Move;
    assert list[i..][0] == list[i] && list[i..][1..] == list[i + 1..];
  }

  predicate Above(name: string, list: seq<Package>, i: nat) {
    forall j :: i <= j < |list| ==> LexLe(name, list[j].name)
  }

  lemma {:induction false} SortedFrom(list: seq<Package>, i: nat)
    requires Ordered(list) && i <= |list|
    ensures Ordered(list[i..])
    decreases list
  {
    if i == 0 {
      assert list[i..] == list;
    } else {
      SortedFrom(list[1..], i - 1);
      assert list[1..][i - 1..] == list[i..];
    }
  }

  lemma LaterAbove(list: seq<Package>, i: nat)
    requires Ordered(list) && i < |list|
    ensures Above(list[i].name, list, i)
  {
    hide LexLe, Ordered;
    SortedFrom(list, i);
    forall j | i <= j < |list|
      ensures LexLe(list[i].name, list[j].name)
    {
      SortedAll(list[i..], j - i);
    }
  }

  lemma SortKeepsNamed(list: seq<Package>)
    requires AllNamed(list)
    ensures AllNamed(Sort(list)) && Ordered(Sort(list))
  {
    hide Named, Sort;
    SortSorts(list);
    var sorted := Sort(list);
    forall i | 0 <= i < |sorted|
      ensures Named(sorted[i].name)
    {
      assert sorted[i] in multiset(sorted);
      assert sorted[i] in list;
    }
  }

  /** `generate_all`, up to indentation. */
  method GenerateAll(packages: seq<Package>) returns (content: seq<Token>)
    requires AllNamed(packages)
    ensures content == Emit("", Sort(packages))
  {
    hide Split, Emit, Move, Sort, Named, Ordered, Closes;
    content := [];
    var namespace, modCount := "", 0;
    var list := Sort(packages);
    SortKeepsNamed(packages);
    ghost var whole := Emit("", list);
    assert list[0..] == list && [] + whole == whole;
    for i := 0 to |list|
      invariant modCount == |Segments(namespace)|
      invariant content + Emit(namespace, list[i..]) == whole
      invariant Above(namespace, list, i)
    {
      var q := list[i].name;
      EmitStep(content, namespace, list, i);
      LaterAbove(list, i);
      if namespace != q {
        content, modCount := MoveTo(content, namespace, modCount, q);
        namespace := q;
      } else {
        MoveNowhere(q);
        assert content + Move(q, q) == content;
      }
      content := content + [Body(list[i].body)];
    }
    EmitEnd(namespace, list);
    content := CloseDown(content, 0, modCount);
  }

  lemma EmitEnd(at: string, list: seq<Package>)
    ensures Emit(at, list[|list|..]) == Closes(|Segments(at)|)
  {
  }
}
