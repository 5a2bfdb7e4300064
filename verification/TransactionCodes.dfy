/** Transaction codes: which method lists the generator accepts, the codes it gives
    them, and which arm of the generated dispatcher a code selects. */
module TransactionCodes {
  import opened Wire

  const FIRST_CALL_TRANSACTION: nat := 1
  const MAX_USER_SET_METHOD_ID: nat := 16_777_114
  const GET_INTERFACE_VERSION: nat := 16_777_214
  const GET_INTERFACE_HASH: nat := 16_777_213
  const U32_MAX: nat := 0xffff_ffff

  /** The explicit code of each method, if it has one. */
  type Methods = seq<Option<int>>

  // ----- validation -----

  datatype Verdict =
    | Accepted
    | MixedTransactionIds
    | NegativeTransactionCode(at: nat)
    | TransactionCodeOverflow(at: nat)
    | TransactionCodeReserved(at: nat)
    | DuplicateTransactionCode(first: nat, second: nat)

  predicate AllImplicit(methods: Methods) {
    forall i :: 0 <= i < |methods| ==> methods[i].None?
  }

  predicate AllExplicit(methods: Methods) {
    forall i :: 0 <= i < |methods| ==> methods[i].Some?
  }

  predicate DistinctCodes(methods: Methods) {
    forall i, j :: 0 <= i < j < |methods| ==> methods[i] != methods[j]
  }

  predicate InUserRange(methods: Methods) {
    forall i :: 0 <= i < |methods| && methods[i].Some? ==> 0 <= methods[i].value <= MAX_USER_SET_METHOD_ID
  }

  /** What a developer may write: no codes at all, or one for every method, distinct and
      below the reserved range. */
  predicate WellCoded(methods: Methods) {
    AllImplicit(methods) || (AllExplicit(methods) && InUserRange(methods) && DistinctCodes(methods))
  }

  /** The first offence of an all-explicit list, in source order, by kind. */
  ghost predicate FirstOffence(methods: Methods, v: Verdict) {
    match v
    case NegativeTransactionCode(i) => i < |methods| && Sound(methods[..i]) && methods[i].Some? && methods[i].value < 0
    case TransactionCodeOverflow(i) => i < |methods| && Sound(methods[..i]) && methods[i].Some? && methods[i].value > U32_MAX
    case TransactionCodeReserved(i) =>
      i < |methods| && Sound(methods[..i]) && methods[i].Some? && MAX_USER_SET_METHOD_ID < methods[i].value <= U32_MAX
    case DuplicateTransactionCode(i, j) => i < j < |methods| && Sound(methods[..j]) && methods[i] == methods[j] && methods[j].Some?
    case _ => true
  }

  predicate Sound(methods: Methods) {
    InUserRange(methods) && DistinctCodes(methods)
  }

  /** `validate_transaction_codes` */
  method ValidateTransactionCodes(methods: Methods) returns (v: Verdict)
    ensures v.Accepted? <==> WellCoded(methods)
    ensures v.MixedTransactionIds? <==> !AllImplicit(methods) && !AllExplicit(methods)
    ensures FirstOffence(methods, v)
  {
    var explicitCount := 0;
    for i := 0 to |methods|
      invariant 0 <= explicitCount <= i
      invariant explicitCount == 0 <==> AllImplicit(methods[..i])
      invariant explicitCount == i <==> AllExplicit(methods[..i])
    {
      assert methods[..i + 1] == methods[..i] + [methods[i]];
      if methods[i].Some? {
        explicitCount := explicitCount + 1;
      }
    }
    assert methods[..|methods|] == methods;
    if explicitCount == 0 {
      return Accepted;
    }
    if explicitCount < |methods| {
      return MixedTransactionIds;
    }
    var seen: map<int, nat> := map[];
    for i := 0 to |methods|
      invariant Sound(methods[..i])
      invariant forall c :: c in seen <==> Some(c) in methods[..i]
      invariant forall c :: c in seen ==> seen[c] < i && methods[seen[c]] == Some(c)
    {
      assert methods[..i + 1] == methods[..i] + [methods[i]];
      var code := methods[i].value;
      if code < 0 {
        return NegativeTransactionCode(i);
      }
      if code > U32_MAX {
        return TransactionCodeOverflow(i);
      }
      if code > MAX_USER_SET_METHOD_ID {
        return TransactionCodeReserved(i);
      }
      if code in seen {
        return DuplicateTransactionCode(seen[code], i);
      }
      assert forall j :: 0 <= j < i ==> methods[j] in methods[..i];
      seen := seen[code := i];
    }
    v := Accepted;
  }

  // ----- the codes -----

  function ImplicitBefore(methods: Methods, n: nat): (c: nat)
    requires n <= |methods|
  {
    if n == 0 then 0 else ImplicitBefore(methods, n - 1) + if methods[n - 1].None? then 1 else 0
  }

  /** The code of method `i`. */
  function CodeOf(methods: Methods, i: nat): int
    requires i < |methods|
  {
    FIRST_CALL_TRANSACTION + if methods[i].Some? then methods[i].value else ImplicitBefore(methods, i)
  }

  /** The constants of the `transactions` module, in order. */
  method EmitCodes(methods: Methods) returns (codes: seq<int>)
    ensures |codes| == |methods| && forall i :: 0 <= i < |codes| ==> codes[i] == CodeOf(methods, i)
    ensures forall i :: 0 <= i < |codes| && methods[i].Some? ==> codes[i] == FIRST_CALL_TRANSACTION + methods[i].value
    ensures AllImplicit(methods) ==> forall i :: 0 <= i < |codes| ==> codes[i] == FIRST_CALL_TRANSACTION + i
  {
    codes := [];
    var counter := 0;
    for i := 0 to |methods|
      invariant |codes| == i && counter == ImplicitBefore(methods, i)
      invariant forall j :: 0 <= j < i ==> codes[j] == CodeOf(methods, j)
    {
      match methods[i]
      case Some(code) =>
        codes := codes + [FIRST_CALL_TRANSACTION + code];
      case None =>
        codes := codes + [FIRST_CALL_TRANSACTION + counter];
        counter := counter + 1;
    }
    if AllImplicit(methods) {
      forall i | 0 <= i < |codes|
        ensures codes[i] == FIRST_CALL_TRANSACTION + i
      {
        ImplicitCount(methods, i);
      }
    }
  }

  /** Which code a method gets: the one written, or its place among the methods without one;
      what follows it in the interface does not matter, so appending methods keeps every code. */
  lemma {:induction false} CodesStable(methods: Methods, more: Methods, i: nat)
    requires i < |methods|
    ensures CodeOf(methods + more, i) == CodeOf(methods, i)
    ensures methods[i].Some? ==> CodeOf(methods, i) == FIRST_CALL_TRANSACTION + methods[i].value
    ensures AllImplicit(methods) ==> CodeOf(methods, i) == FIRST_CALL_TRANSACTION + i
  {
    ImplicitPrefix(methods, more, i);
    if AllImplicit(methods) {
      ImplicitCount(methods, i);
    }
  }

  lemma {:induction false} ImplicitPrefix(methods: Methods, more: Methods, n: nat)
    requires n <= |methods|
    ensures ImplicitBefore(methods + more, n) == ImplicitBefore(methods, n)
  {
    if n > 0 {
      ImplicitPrefix(methods, more, n - 1);
    }
  }

  // ----- dispatch -----

  datatype Target = Method(index: nat) | InterfaceVersion | InterfaceHash | Unknown

  /** The arms of `on_transact`, tried in order. */
  function Dispatch(methods: Methods, version: bool, hash: bool, code: int, from: nat): (t: Target)
    requires from <= |methods|
    decreases |methods| - from
  {
    if from < |methods| then
      if code == CodeOf(methods, from) then Method(from) else Dispatch(methods, version, hash, code, from + 1)
    else if version && code == FIRST_CALL_TRANSACTION + GET_INTERFACE_VERSION then InterfaceVersion
    else if hash && code == FIRST_CALL_TRANSACTION + GET_INTERFACE_HASH then InterfaceHash
    else Unknown
  }

  /** The arms there are. */
  predicate Offered(methods: Methods, version: bool, hash: bool, t: Target) {
    match t
    case Method(i) => i < |methods|
    case InterfaceVersion => version
    case InterfaceHash => hash
    case Unknown => false
  }

  function CodeFor(methods: Methods, t: Target): int
    requires t.Method? ==> t.index < |methods|
    requires !t.Unknown?
  {
    match t
    case Method(i) => CodeOf(methods, i)
    case InterfaceVersion => FIRST_CALL_TRANSACTION + GET_INTERFACE_VERSION
    case InterfaceHash => FIRST_CALL_TRANSACTION + GET_INTERFACE_HASH
  }

  /** Every call reaches what it was made for. */
  ghost predicate CallsArrive(methods: Methods, version: bool, hash: bool) {
    forall t :: Offered(methods, version, hash, t) ==> Dispatch(methods, version, hash, CodeFor(methods, t), 0) == t
  }

  /** How many methods fit below the codes the generator adds by itself. */
  predicate RoomForMeta(methods: Methods, version: bool, hash: bool) {
    && (hash ==> |methods| <= 16_777_213)
    && (version ==> |methods| <= 16_777_214)
  }

  predicate Unused(methods: Methods, code: int, from: nat) {
    forall j :: from <= j < |methods| ==> CodeOf(methods, j) != code
  }

  lemma {:induction false} DispatchFirst(methods: Methods, version: bool, hash: bool, code: int, from: nat)
    requires from <= |methods|
    ensures match Dispatch(methods, version, hash, code, from)
            case Method(i) =>
              && from <= i < |methods| && CodeOf(methods, i) == code
              && forall j :: from <= j < i ==> CodeOf(methods, j) != code
            case InterfaceVersion => version && code == FIRST_CALL_TRANSACTION + GET_INTERFACE_VERSION && Unused(methods, code, from)
            case InterfaceHash => hash && code == FIRST_CALL_TRANSACTION + GET_INTERFACE_HASH && Unused(methods, code, from)
            case Unknown =>
              && (version ==> code != FIRST_CALL_TRANSACTION + GET_INTERFACE_VERSION)
              && (hash ==> code != FIRST_CALL_TRANSACTION + GET_INTERFACE_HASH)
              && Unused(methods, code, from)
    decreases |methods| - from
  {
    hide CodeOf;
    if from < |methods| && code != CodeOf(methods, from) {
      DispatchFirst(methods, version, hash, code, from + 1);
    }
  }

  lemma {:induction false} ImplicitCount(methods: Methods, n: nat)
    requires AllImplicit(methods) && n <= |methods|
    ensures ImplicitBefore(methods, n) == n
  {
    if n > 0 {
      ImplicitCount(methods, n - 1);
    }
  }

  lemma CodesDistinct(methods: Methods, i: nat, j: nat)
    requires WellCoded(methods) && i < j < |methods|
    ensures CodeOf(methods, i) != CodeOf(methods, j)
  {
    if AllImplicit(methods) {
      ImplicitCount(methods, i);
      ImplicitCount(methods, j);
    }
  }

  lemma MetaApart(methods: Methods, i: nat)
    requires WellCoded(methods) && i < |methods|
    ensures CodeOf(methods, i) == FIRST_CALL_TRANSACTION + GET_INTERFACE_VERSION <==> AllImplicit(methods) && i == 16_777_214
    ensures CodeOf(methods, i) == FIRST_CALL_TRANSACTION + GET_INTERFACE_HASH <==> AllImplicit(methods) && i == 16_777_213
  {
    if AllImplicit(methods) {
      ImplicitCount(methods, i);
    }
  }

  /** For every accepted list, each call selects its own arm, the meta calls included,
      exactly when the codes are explicit or leave room for the meta codes. */
  lemma CallsArriveIff(methods: Methods, version: bool, hash: bool)
    requires WellCoded(methods)
    ensures CallsArrive(methods, version, hash) <==> (AllExplicit(methods) || RoomForMeta(methods, version, hash))
  {
    hide CodeOf, WellCoded;
    if AllExplicit(methods) || RoomForMeta(methods, version, hash) {
      forall t | Offered(methods, version, hash, t)
        ensures Dispatch(methods, version, hash, CodeFor(methods, t), 0) == t
      {
        Arrives(methods, version, hash, t);
      }
    } else {
      Strays(methods, version, hash);
    }
  }

  lemma Arrives(methods: Methods, version: bool, hash: bool, t: Target)
    requires WellCoded(methods) && Offered(methods, version, hash, t)
    requires AllExplicit(methods) || RoomForMeta(methods, version, hash)
    ensures Dispatch(methods, version, hash, CodeFor(methods, t), 0) == t
  {
    hide CodeOf, WellCoded;
    DispatchFirst(methods, version, hash, CodeFor(methods, t), 0);
    match Dispatch(methods, version, hash, CodeFor(methods, t), 0)
    case Method(i) =>
      MetaApart(methods, i);
      assert AllExplicit(methods) ==> methods[i].Some?;
      if t.Method? && i < t.index {
        CodesDistinct(methods, i, t.index);
      }
    case _ =>
  }

  lemma Strays(methods: Methods, version: bool, hash: bool)
    requires WellCoded(methods) && !AllExplicit(methods) && !RoomForMeta(methods, version, hash)
    ensures !CallsArrive(methods, version, hash)
  {
    hide CodeOf;
    var t, i := if hash then InterfaceHash else InterfaceVersion, if hash then 16_777_213 else 16_777_214;
    MetaApart(methods, i);
    DispatchFirst(methods, version, hash, CodeFor(methods, t), 0);
    assert Offered(methods, version, hash, t);
  }

  /** A code no arm carries is refused, and only such a code. */
  lemma UnknownIff(methods: Methods, version: bool, hash: bool, code: int)
    ensures Dispatch(methods, version, hash, code, 0) == Unknown <==>
            forall t :: Offered(methods, version, hash, t) ==> CodeFor(methods, t) != code
  {
    hide CodeOf;
    DispatchFirst(methods, version, hash, code, 0);
    var t := Dispatch(methods, version, hash, code, 0);
    if !t.Unknown? {
      assert Offered(methods, version, hash, t) && CodeFor(methods, t) == code;
    }
  }
}
