/**
 Whether a type of the program may stand for a type of the kernel, as a whole: the same kinds behind
 modifiers, through pointers, arrays and function prototypes; structs, unions and enums are not looked
 into. It is a loop over pointers, elements and return types that calls itself for the parameters of
 prototypes.
 */
module TypeCompatibility {
  import opened Instructions
  import opened Btf

  /**
   No prototype reaches itself through a parameter: the rank does not grow along pointers, elements and
   return types, and falls into a parameter. With such a cycle the source would not end.
   */
  ghost predicate ParamsEnd(btf: Btf, rank: nat -> nat) {
    forall id :: 0 <= id < |btf.types| ==> EndsAt(btf, rank, id)
  }

  ghost predicate EndsAt(btf: Btf, rank: nat -> nat, id: TypeId)
    requires id < |btf.types|
  {
    match btf.types[id]
    case Ptr(_, to) => RankOf(btf, rank, to) <= rank(id) + 1
    case Array(_, element, _, _) => RankOf(btf, rank, element) <= rank(id) + 1
    case FuncProto(_, ret, params) =>
      && RankOf(btf, rank, ret) <= rank(id) + 1
      && forall i :: 0 <= i < |params| ==> RankOf(btf, rank, params[i].btfType) <= rank(id)
    case _ => true
  }

  ghost function RankOf(btf: Btf, rank: nat -> nat, id: TypeId): nat {
    if Resolve(btf, id).Ok? then rank(Resolve(btf, id).value) + 1 else 0
  }

  // ---------- the comparison ----------

  ghost function Compatible(local: Btf, l: TypeId, target: Btf, t: TypeId, rank: nat -> nat): Result<bool>
    requires ParamsEnd(local, rank)
    decreases RankOf(local, rank, l), 2, 0
  {
    match (TypeById(local, l), TypeById(target, t))
    case (Err(e), _) => Err(e)
    case (_, Err(e)) => Err(e)
    case (Ok(lt), Ok(tt)) =>
      if !lt.IsCompatible(tt) then Ok(false) else CompatibleThrough(local, l, target, t, rank, MAX_RESOLVE_DEPTH)
  }

  /** At most `fuel` more pointers, elements and return types. */
  ghost function CompatibleThrough(local: Btf, l: TypeId, target: Btf, t: TypeId, rank: nat -> nat, fuel: nat): Result<bool>
    requires ParamsEnd(local, rank)
    decreases RankOf(local, rank, l), 1, fuel
  {
    if fuel == 0 then Err(MaximumTypeDepthReached)
    else
      match (Resolve(local, l), Resolve(target, t))
      case (Err(e), _) => Err(e)
      case (_, Err(e)) => Err(e)
      case (Ok(lid), Ok(tid)) =>
        ResolvedType(local, l, MAX_RESOLVE_DEPTH);
        ResolvedType(target, t, MAX_RESOLVE_DEPTH);
        assert EndsAt(local, rank, lid);
        var tt := target.types[tid];
        if !local.types[lid].IsCompatible(tt) then Ok(false)
        else
          match local.types[lid]
          case Int(_, _, data) => Ok(IntOffset(data) == 0 && tt.Int? && IntOffset(tt.data) == 0)
          case Ptr(_, to) => CompatibleThrough(local, to, target, tt.btfType, rank, fuel - 1)
          case Array(_, element, _, _) => CompatibleThrough(local, element, target, tt.elementType, rank, fuel - 1)
          case FuncProto(_, ret, params) =>
            if |params| != |tt.params| then Ok(false)
            else
              (match ParamsCompatible(local, lid, target, tt.params, rank, 0)
               case Err(e) => Err(e)
               case Ok(false) => Ok(false)
               case Ok(true) => CompatibleThrough(local, ret, target, tt.returnType, rank, fuel - 1))
          case Func(_, _, _) => Err(Panic)
          case Var(_, _, _) => Err(Panic)
          case DataSec(_, _, _) => Err(Panic)
          case DeclTag(_, _, _) => Err(Panic)
          case _ => Ok(true)
  }

  /** The parameters from `i` on, one by one; the first that differs or fails decides. */
  ghost function ParamsCompatible(local: Btf, proto: TypeId, target: Btf, others: seq<Param>, rank: nat -> nat,
                                  i: nat): Result<bool>
    requires ParamsEnd(local, rank) && proto < |local.types| && local.types[proto].FuncProto?
    requires |local.types[proto].params| == |others| && i <= |others|
    decreases rank(proto) + 1, 0, |others| - i
  {
    assert EndsAt(local, rank, proto);
    if i == |others| then Ok(true)
    else
      match (Resolve(local, local.types[proto].params[i].btfType), Resolve(target, others[i].btfType))
      case (Err(e), _) => Err(e)
      case (_, Err(e)) => Err(e)
      case (Ok(l), Ok(t)) =>
        ResolvedType(local, local.types[proto].params[i].btfType, MAX_RESOLVE_DEPTH);
        match Compatible(local, l, target, t, rank)
        case Err(e) => Err(e)
        case Ok(false) => Ok(false)
        case Ok(true) => ParamsCompatible(local, proto, target, others, rank, i + 1)
  }

  method TypesAreCompatible(local: Btf, rootLocalId: TypeId, target: Btf, rootTargetId: TypeId, ghost rank: nat -> nat)
    returns (r: Result<bool>)
    requires ParamsEnd(local, rank)
    ensures r == Compatible(local, rootLocalId, target, rootTargetId, rank)
    decreases RankOf(local, rank, rootLocalId)
  {
    hide ResolveWithin;
    if rootLocalId >= |local.types| || rootTargetId >= |target.types| {
      return Err(UnknownBtfType);
    }
    if !local.types[rootLocalId].IsCompatible(target.types[rootTargetId]) {
      return Ok(false);
    }
    var localId, targetId := rootLocalId, rootTargetId;
    for depth := 0 to MAX_RESOLVE_DEPTH
      invariant RankOf(local, rank, localId) <= RankOf(local, rank, rootLocalId)
      invariant Compatible(local, rootLocalId, target, rootTargetId, rank)
             == CompatibleThrough(local, localId, target, targetId, rank, MAX_RESOLVE_DEPTH - depth)
    {
      var l := ResolveType(local, localId);
      if l.Err? {
        return Err(l.error);
      }
      var t := ResolveType(target, targetId);
      if t.Err? {
        return Err(t.error);
      }
      assert EndsAt(local, rank, l.value);
      var tt := target.types[t.value];
      if !local.types[l.value].IsCompatible(tt) {
        return Ok(false);
      }
      match local.types[l.value]
      case Int(_, _, data) =>
        return Ok(IntOffset(data) == 0 && tt.Int? && IntOffset(tt.data) == 0);
      case Ptr(_, to) =>
        localId, targetId := to, tt.btfType;
      case Array(_, element, _, _) =>
        localId, targetId := element, tt.elementType;
      case FuncProto(_, ret, params) =>
        if |params| != |tt.params| {
          return Ok(false);
        }
        for i := 0 to |params|
          invariant ParamsCompatible(local, l.value, target, tt.params, rank, 0)
                 == ParamsCompatible(local, l.value, target, tt.params, rank, i)
        {
          var lp := ResolveType(local, params[i].btfType);
          if lp.Err? {
            return Err(lp.error);
          }
          var tp := ResolveType(target, tt.params[i].btfType);
          if tp.Err? {
            return Err(tp.error);
          }
          ResolvedType(local, params[i].btfType, MAX_RESOLVE_DEPTH);
          var same := TypesAreCompatible(local, lp.value, target, tp.value, rank);
          if same.Err? || !same.value {
            return same;
          }
        }
        localId, targetId := ret, tt.returnType;
      case Func(_, _, _) => return Err(Panic);
      case Var(_, _, _) => return Err(Panic);
      case DataSec(_, _, _) => return Err(Panic);
      case DeclTag(_, _, _) => return Err(Panic);
      case _ => return Ok(true);
    }
    r := Err(MaximumTypeDepthReached);
  }

  // ---------- an equivalence ----------

  lemma EndsHere(btf: Btf, rank: nat -> nat, id: TypeId)
    requires ParamsEnd(btf, rank) && id < |btf.types|
    ensures EndsAt(btf, rank, id)
  {
  }

  /** Compatible kinds are the same but for the two widths of enums. */
  lemma KindsAgree(x: BtfType, y: BtfType)
    requires x.IsCompatible(y)
    ensures y.IsCompatible(x) && (x.Int? <==> y.Int?) && (x.Ptr? <==> y.Ptr?) && (x.Array? <==> y.Array?)
    ensures (x.FuncProto? <==> y.FuncProto?) && (x.Func? <==> y.Func?) && (x.Var? <==> y.Var?)
    ensures (x.DataSec? <==> y.DataSec?) && (x.DeclTag? <==> y.DeclTag?)
  {
  }

  lemma KindsChain(x: BtfType, y: BtfType, z: BtfType)
    requires x.IsCompatible(y) && y.IsCompatible(z)
    ensures x.IsCompatible(z)
  {
  }

  /** No integer type starts inside its bytes; such ones are never compatible, not even with themselves. */
  predicate NoShiftedInts(btf: Btf) {
    forall ty :: ty in btf.types && ty.Int? ==> IntOffset(ty.data) == 0
  }

  /** A type that can be compared with itself is compatible with itself. */
  lemma {:induction false} SelfCompatible(btf: Btf, id: TypeId, rank: nat -> nat)
    requires ParamsEnd(btf, rank) && NoShiftedInts(btf)
    ensures Compatible(btf, id, btf, id, rank).Ok? ==> Compatible(btf, id, btf, id, rank).value
    decreases RankOf(btf, rank, id), 2, 0
  {
    hide ParamsEnd, NoShiftedInts, ResolveWithin;
    if id < |btf.types| {
      SelfThrough(btf, id, rank, MAX_RESOLVE_DEPTH);
    }
  }

  lemma {:induction false} SelfThrough(btf: Btf, id: TypeId, rank: nat -> nat, fuel: nat)
    requires ParamsEnd(btf, rank) && NoShiftedInts(btf)
    ensures CompatibleThrough(btf, id, btf, id, rank, fuel).Ok? ==> CompatibleThrough(btf, id, btf, id, rank, fuel).value
    decreases RankOf(btf, rank, id), 1, fuel
  {
    hide ResolveWithin;
    if fuel > 0 && Resolve(btf, id).Ok? {
      var at := Resolve(btf, id).value;
      ResolvedType(btf, id, MAX_RESOLVE_DEPTH);
      assert EndsAt(btf, rank, at);
      match btf.types[at]
      case Ptr(_, to) => SelfThrough(btf, to, rank, fuel - 1);
      case Array(_, element, _, _) => SelfThrough(btf, element, rank, fuel - 1);
      case FuncProto(_, ret, params) =>
        SelfParams(btf, at, rank, 0);
        SelfThrough(btf, ret, rank, fuel - 1);
      case Int(_, _, _) => assert btf.types[at] in btf.types;
      case _ =>
    }
  }

  lemma {:induction false} SelfParams(btf: Btf, proto: TypeId, rank: nat -> nat, i: nat)
    requires ParamsEnd(btf, rank) && NoShiftedInts(btf)
    requires proto < |btf.types| && btf.types[proto].FuncProto? && i <= |btf.types[proto].params|
    ensures
      var r := ParamsCompatible(btf, proto, btf, btf.types[proto].params, rank, i);
      r.Ok? ==> r.value
    decreases rank(proto) + 1, 0, |btf.types[proto].params| - i
  {
    hide ResolveWithin;
    assert EndsAt(btf, rank, proto);
    var params := btf.types[proto].params;
    if i < |params| && Resolve(btf, params[i].btfType).Ok? {
      ResolvedType(btf, params[i].btfType, MAX_RESOLVE_DEPTH);
      SelfCompatible(btf, Resolve(btf, params[i].btfType).value, rank);
      SelfParams(btf, proto, rank, i + 1);
    }
  }

  /** Compatibility does not depend on which side is the program's. */
  lemma {:induction false} Symmetric(a: Btf, x: TypeId, b: Btf, y: TypeId, rank: nat -> nat, back: nat -> nat)
    requires ParamsEnd(a, rank) && ParamsEnd(b, back) && Compatible(a, x, b, y, rank) == Ok(true)
    ensures Compatible(b, y, a, x, back) == Ok(true)
    decreases RankOf(a, rank, x), 2, 0
  {
    hide ParamsEnd, ResolveWithin, CompatibleThrough;
    SymmetricThrough(a, x, b, y, rank, back, MAX_RESOLVE_DEPTH);
  }

  lemma {:induction false} SymmetricThrough(a: Btf, x: TypeId, b: Btf, y: TypeId, rank: nat -> nat, back: nat -> nat,
                                            fuel: nat)
    requires ParamsEnd(a, rank) && ParamsEnd(b, back) && CompatibleThrough(a, x, b, y, rank, fuel) == Ok(true)
    ensures CompatibleThrough(b, y, a, x, back, fuel) == Ok(true)
    decreases RankOf(a, rank, x), 1, fuel
  {
    hide ResolveWithin, Compatible, ParamsEnd;
    var at, other := Resolve(a, x).value, Resolve(b, y).value;
    ResolvedType(a, x, MAX_RESOLVE_DEPTH);
    ResolvedType(b, y, MAX_RESOLVE_DEPTH);
    EndsHere(a, rank, at);
    EndsHere(b, back, other);
    match a.types[at]
    case Ptr(_, to) => SymmetricThrough(a, to, b, b.types[other].btfType, rank, back, fuel - 1);
    case Array(_, element, _, _) => SymmetricThrough(a, element, b, b.types[other].elementType, rank, back, fuel - 1);
    case FuncProto(_, ret, params) =>
      SymmetricParams(a, at, b, other, rank, back, 0);
      SymmetricThrough(a, ret, b, b.types[other].returnType, rank, back, fuel - 1);
    case _ =>
  }

  lemma {:induction false} SymmetricParams(a: Btf, proto: TypeId, b: Btf, other: TypeId, rank: nat -> nat,
                                           back: nat -> nat, i: nat)
    requires ParamsEnd(a, rank) && ParamsEnd(b, back)
    requires proto < |a.types| && a.types[proto].FuncProto? && other < |b.types| && b.types[other].FuncProto?
    requires |a.types[proto].params| == |b.types[other].params| && i <= |a.types[proto].params|
    requires ParamsCompatible(a, proto, b, b.types[other].params, rank, i) == Ok(true)
    ensures ParamsCompatible(b, other, a, a.types[proto].params, back, i) == Ok(true)
    decreases rank(proto) + 1, 0, |a.types[proto].params| - i
  {
    hide ResolveWithin, Compatible, ParamsEnd;
    EndsHere(a, rank, proto);
    EndsHere(b, back, other);
    var params, others := a.types[proto].params, b.types[other].params;
    if i < |params| {
      ResolvedType(a, params[i].btfType, MAX_RESOLVE_DEPTH);
      Symmetric(a, Resolve(a, params[i].btfType).value, b, Resolve(b, others[i].btfType).value, rank, back);
      SymmetricParams(a, proto, b, other, rank, back, i + 1);
    }
  }

  /** Types compatible with a common one are compatible. */
  lemma {:induction false} Transitive(a: Btf, x: TypeId, b: Btf, y: TypeId, c: Btf, z: TypeId, rank: nat -> nat,
                                      between: nat -> nat)
    requires ParamsEnd(a, rank) && ParamsEnd(b, between)
    requires Compatible(a, x, b, y, rank) == Ok(true) && Compatible(b, y, c, z, between) == Ok(true)
    ensures Compatible(a, x, c, z, rank) == Ok(true)
    decreases RankOf(a, rank, x), 2, 0
  {
    hide ParamsEnd, ResolveWithin, CompatibleThrough;
    TransitiveThrough(a, x, b, y, c, z, rank, between, MAX_RESOLVE_DEPTH);
  }

  lemma {:induction false} TransitiveThrough(a: Btf, x: TypeId, b: Btf, y: TypeId, c: Btf, z: TypeId, rank: nat -> nat,
                                             between: nat -> nat, fuel: nat)
    requires ParamsEnd(a, rank) && ParamsEnd(b, between)
    requires CompatibleThrough(a, x, b, y, rank, fuel) == Ok(true)
    requires CompatibleThrough(b, y, c, z, between, fuel) == Ok(true)
    ensures CompatibleThrough(a, x, c, z, rank, fuel) == Ok(true)
    decreases RankOf(a, rank, x), 1, fuel
  {
    hide ResolveWithin, Compatible, ParamsEnd, BtfType.IsCompatible;
    var at, via, other := Resolve(a, x).value, Resolve(b, y).value, Resolve(c, z).value;
    ResolvedType(a, x, MAX_RESOLVE_DEPTH);
    ResolvedType(b, y, MAX_RESOLVE_DEPTH);
    ResolvedType(c, z, MAX_RESOLVE_DEPTH);
    KindsAgree(a.types[at], b.types[via]);
    KindsAgree(b.types[via], c.types[other]);
    KindsChain(a.types[at], b.types[via], c.types[other]);
    EndsHere(a, rank, at);
    EndsHere(b, between, via);
    match a.types[at]
    case Ptr(_, to) => TransitiveThrough(a, to, b, b.types[via].btfType, c, c.types[other].btfType, rank, between, fuel - 1);
    case Array(_, element, _, _) =>
      TransitiveThrough(a, element, b, b.types[via].elementType, c, c.types[other].elementType, rank, between, fuel - 1);
    case FuncProto(_, ret, params) =>
      TransitiveParams(a, at, b, via, c, c.types[other].params, rank, between, 0);
      TransitiveThrough(a, ret, b, b.types[via].returnType, c, c.types[other].returnType, rank, between, fuel - 1);
    case _ =>
  }

  lemma {:induction false} TransitiveParams(a: Btf, proto: TypeId, b: Btf, via: TypeId, c: Btf, others: seq<Param>,
                                            rank: nat -> nat, between: nat -> nat, i: nat)
    requires ParamsEnd(a, rank) && ParamsEnd(b, between)
    requires proto < |a.types| && a.types[proto].FuncProto? && via < |b.types| && b.types[via].FuncProto?
    requires |a.types[proto].params| == |b.types[via].params| == |others| && i <= |others|
    requires ParamsCompatible(a, proto, b, b.types[via].params, rank, i) == Ok(true)
    requires ParamsCompatible(b, via, c, others, between, i) == Ok(true)
    ensures ParamsCompatible(a, proto, c, others, rank, i) == Ok(true)
    decreases rank(proto) + 1, 0, |others| - i
  {
    hide ResolveWithin, Compatible, ParamsEnd;
    EndsHere(a, rank, proto);
    EndsHere(b, between, via);
    var params, middle := a.types[proto].params, b.types[via].params;
    if i < |params| {
      ResolvedType(a, params[i].btfType, MAX_RESOLVE_DEPTH);
      Transitive(a, Resolve(a, params[i].btfType).value, b, Resolve(b, middle[i].btfType).value,
                 c, Resolve(c, others[i].btfType).value, rank, between);
      TransitiveParams(a, proto, b, via, c, others, rank, between, i + 1);
    }
  }
}
