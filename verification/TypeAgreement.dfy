/**
 What compatible types have in common: the comparison of a program's type with a kernel's says yes,
 when it ends, exactly if the two are built the same way down to every pointee, element, parameter and
 return type.
 */
module TypeAgreement {
  import opened Instructions
  import opened Btf
  import opened KernelLookup
  import opened TypeCompatibility

  /** An integer that starts at the first bit of its bytes: bits 16 to 23 of its description are zero. */
  predicate Unshifted(ty: BtfType) {
    ty.Int? && ty.data % 0x100_0000 < 0x1_0000
  }

  lemma UnshiftedOffset(data: U32)
    ensures IntOffset(data) == 0 <==> data % 0x100_0000 < 0x1_0000
  {
    var low := data % 0x100_0000;
    assert data / 0x1_0000 % 0x100 == low / 0x1_0000;
  }

  predicate AnyEnum(ty: BtfType) {
    ty.Enum? || ty.Enum64?
  }

  /** Both are of a kind that is not looked into. */
  predicate SamePlainKind(x: BtfType, y: BtfType) {
    || (x.Struct? && y.Struct?) || (x.Union? && y.Union?) || (x.Fwd? && y.Fwd?) || (x.Float? && y.Float?)
    || (x.Unknown? && y.Unknown?) || (AnyEnum(x) && AnyEnum(y)) || (Unshifted(x) && Unshifted(y))
  }

  lemma PlainKinds(x: BtfType, y: BtfType)
    requires x.IsCompatible(y) && !x.IsModifier() && !x.Ptr? && !x.Array? && !x.FuncProto? && !x.Int?
    requires !x.Func? && !x.Var? && !x.DataSec? && !x.DeclTag?
    ensures SamePlainKind(x, y)
  {
  }

  /** Behind their modifiers, the two types are built the same way, as far as `depth` steps down can tell. */
  ghost predicate AlikeTo(local: Btf, l: TypeId, target: Btf, t: TypeId, depth: nat)
    decreases depth
  {
    depth > 0 ==>
      && Resolve(local, l).Ok? && Resolve(target, t).Ok?
      && Resolve(local, l).value < |local.types| && Resolve(target, t).value < |target.types|
      && var x, y := local.types[Resolve(local, l).value], target.types[Resolve(target, t).value];
         if x.Ptr? then y.Ptr? && AlikeTo(local, x.btfType, target, y.btfType, depth - 1)
         else if x.Array? then y.Array? && AlikeTo(local, x.elementType, target, y.elementType, depth - 1)
         else if x.FuncProto? then
           && y.FuncProto? && |x.params| == |y.params|
           && (forall i :: 0 <= i < |x.params| ==>
                 AlikeTo(local, x.params[i].btfType, target, y.params[i].btfType, depth - 1))
           && AlikeTo(local, x.returnType, target, y.returnType, depth - 1)
         else SamePlainKind(x, y)
  }

  ghost predicate Alike(local: Btf, l: TypeId, target: Btf, t: TypeId) {
    forall depth: nat :: AlikeTo(local, l, target, t, depth)
  }

  lemma ResolvedAgain(btf: Btf, id: TypeId)
    requires Resolve(btf, id).Ok?
    ensures Resolve(btf, id).value < |btf.types| && Resolve(btf, Resolve(btf, id).value) == Resolve(btf, id)
  {
    ResolvedType(btf, id, MAX_RESOLVE_DEPTH);
  }

  /** Only what is behind the modifiers counts. */
  lemma AlikeBehind(local: Btf, l: TypeId, target: Btf, t: TypeId, depth: nat)
    requires Resolve(local, l).Ok? && Resolve(target, t).Ok?
    ensures AlikeTo(local, l, target, t, depth) <==>
      AlikeTo(local, Resolve(local, l).value, target, Resolve(target, t).value, depth)
  {
    hide ResolveWithin;
    ResolvedAgain(local, l);
    ResolvedAgain(target, t);
  }

  // ---------- yes ----------

  lemma {:induction false} AgreedThrough(local: Btf, l: TypeId, target: Btf, t: TypeId, rank: nat -> nat, fuel: nat,
                                         depth: nat)
    requires ParamsEnd(local, rank) && CompatibleThrough(local, l, target, t, rank, fuel) == Ok(true)
    ensures AlikeTo(local, l, target, t, depth)
    decreases depth
  {
    hide ResolveWithin, ParamsEnd, Compatible;
    if depth > 0 {
      ResolvedAgain(local, l);
      ResolvedAgain(target, t);
      EndsHere(local, rank, Resolve(local, l).value);
      var x, y := local.types[Resolve(local, l).value], target.types[Resolve(target, t).value];
      if x.Ptr? {
        AgreedThrough(local, x.btfType, target, y.btfType, rank, fuel - 1, depth - 1);
      } else if x.Array? {
        AgreedThrough(local, x.elementType, target, y.elementType, rank, fuel - 1, depth - 1);
      } else if x.FuncProto? {
        forall i | 0 <= i < |x.params|
          ensures AlikeTo(local, x.params[i].btfType, target, y.params[i].btfType, depth - 1)
        {
          ParamAgreed(local, Resolve(local, l).value, target, y.params, rank, 0, i);
          var lp, tp := Resolve(local, x.params[i].btfType).value, Resolve(target, y.params[i].btfType).value;
          CompatibleRoot(local, lp, target, tp, rank);
          AgreedThrough(local, lp, target, tp, rank, MAX_RESOLVE_DEPTH, depth - 1);
          AlikeBehind(local, x.params[i].btfType, target, y.params[i].btfType, depth - 1);
        }
        AgreedThrough(local, x.returnType, target, y.returnType, rank, fuel - 1, depth - 1);
      } else if x.Int? {
        UnshiftedOffset(x.data);
        UnshiftedOffset(y.data);
      } else {
        ResolvedType(local, l, MAX_RESOLVE_DEPTH);
        PlainKinds(x, y);
      }
    }
  }

  lemma CompatibleRoot(local: Btf, l: TypeId, target: Btf, t: TypeId, rank: nat -> nat)
    requires ParamsEnd(local, rank) && Compatible(local, l, target, t, rank).Ok?
    ensures l < |local.types| && t < |target.types|
    ensures Compatible(local, l, target, t, rank) ==
      if local.types[l].IsCompatible(target.types[t]) then CompatibleThrough(local, l, target, t, rank, MAX_RESOLVE_DEPTH)
      else Ok(false)
  {
    hide CompatibleThrough, ParamsEnd;
  }

  /** When all parameters from `i` on agree, each of them does. */
  lemma {:induction false} ParamAgreed(local: Btf, proto: TypeId, target: Btf, others: seq<Param>, rank: nat -> nat,
                                       i: nat, j: nat)
    requires ParamsEnd(local, rank) && proto < |local.types| && local.types[proto].FuncProto?
    requires |local.types[proto].params| == |others| && i <= j < |others|
    requires ParamsCompatible(local, proto, target, others, rank, i) == Ok(true)
    ensures
      var l, t := Resolve(local, local.types[proto].params[j].btfType), Resolve(target, others[j].btfType);
      l.Ok? && t.Ok? && Compatible(local, l.value, target, t.value, rank) == Ok(true)
    decreases j - i
  {
    hide ResolveWithin, Compatible, ParamsEnd;
    if i < j {
      ParamAgreed(local, proto, target, others, rank, i + 1, j);
    }
  }

  // ---------- no ----------

  lemma {:induction false} RefusedThrough(local: Btf, l: TypeId, target: Btf, t: TypeId, rank: nat -> nat, fuel: nat)
    returns (depth: nat)
    requires ParamsEnd(local, rank) && CompatibleThrough(local, l, target, t, rank, fuel) == Ok(false)
    ensures !AlikeTo(local, l, target, t, depth)
    decreases RankOf(local, rank, l), 1, fuel
  {
    hide ResolveWithin, ParamsEnd, Compatible;
    ResolvedAgain(local, l);
    ResolvedAgain(target, t);
    var lid := Resolve(local, l).value;
    EndsHere(local, rank, lid);
    var x, y := local.types[lid], target.types[Resolve(target, t).value];
    depth := 1;
    if x.IsCompatible(y) {
      if x.Ptr? {
        depth := RefusedThrough(local, x.btfType, target, y.btfType, rank, fuel - 1);
        depth := depth + 1;
      } else if x.Array? {
        depth := RefusedThrough(local, x.elementType, target, y.elementType, rank, fuel - 1);
        depth := depth + 1;
      } else if x.FuncProto? && |x.params| == |y.params| {
        if ParamsCompatible(local, lid, target, y.params, rank, 0) == Ok(false) {
          var i;
          i, depth := ParamRefused(local, lid, target, y.params, rank, 0);
        } else {
          depth := RefusedThrough(local, x.returnType, target, y.returnType, rank, fuel - 1);
        }
        depth := depth + 1;
      } else if x.Int? {
        UnshiftedOffset(x.data);
        UnshiftedOffset(y.data);
      }
    }
  }

  lemma {:induction false} ParamRefused(local: Btf, proto: TypeId, target: Btf, others: seq<Param>, rank: nat -> nat,
                                        i: nat) returns (j: nat, depth: nat)
    requires ParamsEnd(local, rank) && proto < |local.types| && local.types[proto].FuncProto?
    requires |local.types[proto].params| == |others| && i <= |others|
    requires ParamsCompatible(local, proto, target, others, rank, i) == Ok(false)
    ensures i <= j < |others|
    ensures !AlikeTo(local, local.types[proto].params[j].btfType, target, others[j].btfType, depth)
    decreases rank(proto) + 1, 0, |others| - i
  {
    hide ResolveWithin, ParamsEnd, Compatible;
    EndsHere(local, rank, proto);
    var lp, tp := local.types[proto].params[i].btfType, others[i].btfType;
    ResolvedAgain(local, lp);
    ResolvedAgain(target, tp);
    var l, t := Resolve(local, lp).value, Resolve(target, tp).value;
    if Compatible(local, l, target, t, rank) == Ok(false) {
      CompatibleRoot(local, l, target, t, rank);
      j, depth := i, 1;
      if local.types[l].IsCompatible(target.types[t]) {
        depth := RefusedThrough(local, l, target, t, rank, MAX_RESOLVE_DEPTH);
        AlikeBehind(local, lp, target, tp, depth);
      }
    } else {
      j, depth := ParamRefused(local, proto, target, others, rank, i + 1);
    }
  }

  // ---------- both ----------

  /**
   A comparison that ends says yes exactly when the two types, as they are named, are of one kind and,
   behind their modifiers, built the same way all the way down.
   */
  lemma CompatibleExact(local: Btf, l: TypeId, target: Btf, t: TypeId, rank: nat -> nat)
    requires ParamsEnd(local, rank) && Compatible(local, l, target, t, rank).Ok?
    ensures l < |local.types| && t < |target.types|
    ensures Compatible(local, l, target, t, rank).value <==>
      local.types[l].IsCompatible(target.types[t]) && Alike(local, l, target, t)
  {
    hide CompatibleThrough, AlikeTo, ParamsEnd;
    CompatibleRoot(local, l, target, t, rank);
    if local.types[l].IsCompatible(target.types[t]) {
      if Compatible(local, l, target, t, rank).value {
        forall depth: nat
          ensures AlikeTo(local, l, target, t, depth)
        {
          AgreedThrough(local, l, target, t, rank, MAX_RESOLVE_DEPTH, depth);
        }
      } else {
        var depth := RefusedThrough(local, l, target, t, rank, MAX_RESOLVE_DEPTH);
      }
    }
  }

  /** Two prototypes are alike exactly when they take as many parameters, each alike, and return alike. */
  lemma PrototypesAlike(local: Btf, l: TypeId, target: Btf, t: TypeId)
    requires l < |local.types| && t < |target.types| && local.types[l].FuncProto? && target.types[t].FuncProto?
    ensures
      var x, y := local.types[l], target.types[t];
      Alike(local, l, target, t) <==>
        && |x.params| == |y.params|
        && (forall i :: 0 <= i < |x.params| ==> Alike(local, x.params[i].btfType, target, y.params[i].btfType))
        && Alike(local, x.returnType, target, y.returnType)
  {
    var x, y := local.types[l], target.types[t];
    if Alike(local, l, target, t) {
      assert AlikeTo(local, l, target, t, 1);
      forall i, depth: nat | 0 <= i < |x.params|
        ensures AlikeTo(local, x.params[i].btfType, target, y.params[i].btfType, depth)
      {
        assert AlikeTo(local, l, target, t, depth + 1);
      }
      forall depth: nat
        ensures AlikeTo(local, x.returnType, target, y.returnType, depth)
      {
        assert AlikeTo(local, l, target, t, depth + 1);
      }
    } else {
      var depth: nat :| !AlikeTo(local, l, target, t, depth);
      assert Resolve(local, l) == Ok(l) && Resolve(target, t) == Ok(t);
      assert !AlikeTo(local, x.returnType, target, y.returnType, depth - 1)
        || |x.params| != |y.params|
        || exists i :: 0 <= i < |x.params| && !AlikeTo(local, x.params[i].btfType, target, y.params[i].btfType, depth - 1);
    }
  }

  // ---------- fields ----------

  predicate SameEssence(local: Btf, x: BtfType, target: Btf, y: BtfType) {
    && NameAt(local, x.NameOffset()).Ok? && NameAt(target, y.NameOffset()).Ok?
    && Flavorless(NameAt(local, x.NameOffset()).value) == Flavorless(NameAt(target, y.NameOffset()).value)
  }

  predicate Composite(ty: BtfType) {
    ty.Struct? || ty.Union?
  }

  /** A field of one type may stand for a field of the other, arrays aside. */
  predicate SameFieldKind(local: Btf, x: BtfType, target: Btf, y: BtfType) {
    || (Composite(x) && Composite(y)) || (x.Ptr? && y.Ptr?) || (x.Float? && y.Float?)
    || (Unshifted(x) && Unshifted(y))
    || (((x.Fwd? && y.Fwd?) || (AnyEnum(x) && AnyEnum(y))) && SameEssence(local, x, target, y))
  }

  /** Behind their modifiers the two are of the same kind of field, element by element, at most `depth` arrays down. */
  ghost predicate FieldsAlikeTo(local: Btf, l: TypeId, target: Btf, t: TypeId, depth: nat)
    decreases depth
  {
    depth > 0 ==>
      && Resolve(local, l).Ok? && Resolve(target, t).Ok?
      && Resolve(local, l).value < |local.types| && Resolve(target, t).value < |target.types|
      && var x, y := local.types[Resolve(local, l).value], target.types[Resolve(target, t).value];
         if x.Array? then y.Array? && FieldsAlikeTo(local, x.elementType, target, y.elementType, depth - 1)
         else SameFieldKind(local, x, target, y)
  }

  ghost predicate FieldsAlike(local: Btf, l: TypeId, target: Btf, t: TypeId) {
    forall depth: nat :: FieldsAlikeTo(local, l, target, t, depth)
  }

  /** One level of the comparison of fields. */
  lemma FieldLevel(local: Btf, l: TypeId, target: Btf, t: TypeId, fuel: nat)
    requires fuel > 0 && CompatibleWithin(local, l, target, t, fuel).Ok?
    ensures Resolve(local, l).Ok? && Resolve(target, t).Ok?
    ensures Resolve(local, l).value < |local.types| && Resolve(target, t).value < |target.types|
    ensures
      var x, y := local.types[Resolve(local, l).value], target.types[Resolve(target, t).value];
      CompatibleWithin(local, l, target, t, fuel) ==
        if x.Array? && y.Array? then CompatibleWithin(local, x.elementType, target, y.elementType, fuel - 1)
        else Ok(!x.Array? && SameFieldKind(local, x, target, y))
  {
    hide ResolveWithin, StringAt, Flavorless;
    ResolvedAgain(local, l);
    ResolvedAgain(target, t);
    var x, y := local.types[Resolve(local, l).value], target.types[Resolve(target, t).value];
    if x.Int? {
      UnshiftedOffset(x.data);
      if y.Int? {
        UnshiftedOffset(y.data);
      }
    }
  }

  lemma {:induction false} FieldsAgreed(local: Btf, l: TypeId, target: Btf, t: TypeId, fuel: nat, depth: nat)
    requires CompatibleWithin(local, l, target, t, fuel) == Ok(true)
    ensures FieldsAlikeTo(local, l, target, t, depth)
    decreases depth
  {
    hide ResolveWithin, CompatibleWithin, SameFieldKind;
    if depth > 0 {
      assert fuel > 0 by { NoFuel(local, l, target, t); }
      FieldLevel(local, l, target, t, fuel);
      var x, y := local.types[Resolve(local, l).value], target.types[Resolve(target, t).value];
      if x.Array? {
        FieldsAgreed(local, x.elementType, target, y.elementType, fuel - 1, depth - 1);
      }
    }
  }

  lemma NoFuel(local: Btf, l: TypeId, target: Btf, t: TypeId)
    ensures CompatibleWithin(local, l, target, t, 0).Err?
  {
  }

  lemma {:induction false} FieldsRefused(local: Btf, l: TypeId, target: Btf, t: TypeId, fuel: nat) returns (depth: nat)
    requires CompatibleWithin(local, l, target, t, fuel) == Ok(false)
    ensures !FieldsAlikeTo(local, l, target, t, depth)
    decreases fuel
  {
    hide ResolveWithin, CompatibleWithin, SameFieldKind;
    assert fuel > 0 by { NoFuel(local, l, target, t); }
    FieldLevel(local, l, target, t, fuel);
    var x, y := local.types[Resolve(local, l).value], target.types[Resolve(target, t).value];
    depth := 1;
    if x.Array? && y.Array? {
      depth := FieldsRefused(local, x.elementType, target, y.elementType, fuel - 1);
      depth := depth + 1;
    }
  }

  /** A comparison of two fields that ends says yes exactly when they are of the same kind of field, element by element. */
  lemma FieldsCompatibleExact(local: Btf, l: TypeId, target: Btf, t: TypeId)
    requires FieldsCompatible(local, l, target, t).Ok?
    ensures FieldsCompatible(local, l, target, t).value <==> FieldsAlike(local, l, target, t)
  {
    hide CompatibleWithin, FieldsAlikeTo;
    if FieldsCompatible(local, l, target, t).value {
      forall depth: nat
        ensures FieldsAlikeTo(local, l, target, t, depth)
      {
        FieldsAgreed(local, l, target, t, MAX_RESOLVE_DEPTH, depth);
      }
    } else {
      var depth := FieldsRefused(local, l, target, t, MAX_RESOLVE_DEPTH);
    }
  }

  // ---------- a kernel function with another parameter ----------

  // int f(struct task *) as the program declares it, and int f(u64) in the kernel.
  const NAMES: seq<Byte> := [0, 102, 0]
  const DECLARED: Btf := Btf([Unknown, Int(0, 4, 32), Struct(0, false, 8, []), Ptr(0, 2), FuncProto(0, 1, [Param(0, 3)]),
                              Func(1, 4, 2)], NAMES)
  const DEFINED: Btf := Btf([Unknown, Int(0, 4, 32), Int(0, 8, 64), FuncProto(0, 1, [Param(0, 2)]), Func(1, 3, 1)], NAMES)

  ghost function Order(id: nat): nat { id }

  lemma DeclaredEnds()
    ensures ParamsEnd(DECLARED, Order)
  {
    assert Resolve(DECLARED, 1) == Ok(1) && Resolve(DECLARED, 2) == Ok(2) && Resolve(DECLARED, 3) == Ok(3);
    forall id | 0 <= id < |DECLARED.types|
      ensures EndsAt(DECLARED, Order, id)
    {
    }
  }

  lemma FoundByName()
    ensures SoughtAs(DECLARED, 5, "f") == Some(("f", KIND_FUNC))
    ensures IdByName(DEFINED, "f", KIND_FUNC, 0) == Ok(4)
  {
    assert Essential("f"[1..]) == [];
    assert Essential("f") == "f";
    assert StringAt(NAMES, 2) == Some([]);
    assert [102] + [] == [102];
    assert NameAt(DEFINED, 1) == Ok([102]);
    assert Text([102]) == "f";
    assert Named(DEFINED, "f", KIND_FUNC, 4);
    IdByNameExact(DEFINED, "f", KIND_FUNC, 0, 4);
  }

  lemma PointerIsNoInteger()
    ensures ParamsEnd(DECLARED, Order) && Compatible(DECLARED, 4, DEFINED, 3, Order) == Ok(false)
  {
    DeclaredEnds();
    hide ParamsEnd;
    assert Resolve(DECLARED, 3) == Ok(3) && Resolve(DEFINED, 2) == Ok(2);
    assert Compatible(DECLARED, 3, DEFINED, 2, Order) == Ok(false);
    assert ParamsCompatible(DECLARED, 4, DEFINED, DEFINED.types[3].params, Order, 0) == Ok(false);
  }

  /** The kernel function with the same name and another parameter type is refused. */
  lemma OtherParameterRefused()
    ensures ParamsEnd(DECLARED, Order) && LookupOf(DECLARED, DEFINED, Order, "f", 5, 4) == Incompatible
  {
    hide ParamsEnd, Compatible, IdByName;
    PointerIsNoInteger();
    FoundByName();
  }
}
