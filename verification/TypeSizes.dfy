/**
 The size of a type, as the declarations say it: what the loader computes with a counter of array
 elements is the size that the type's own declaration gives it.
 */
module TypeSizes {
  import opened Instructions
  import opened Btf

  const POINTER_SIZE: nat := 8

  /**
   The type takes `n` bytes, at most `depth` arrays and wrappers down: a pointer eight, an array as
   many as its elements together, a wrapper what it refers to, and everything else what it states.
   */
  ghost predicate Takes(btf: Btf, id: TypeId, n: nat, depth: nat)
    decreases depth
  {
    && id < |btf.types|
    && var ty := btf.types[id];
       if ty.Ptr? then n == POINTER_SIZE
       else if ty.Array? then
         depth > 0 && exists one: nat :: Takes(btf, ty.elementType, one, depth - 1) && n == ty.len * one
       else if Wraps(ty) then depth > 0 && Takes(btf, ty.btfType, n, depth - 1)
       else if ty.FuncProto? then depth > 0 && Takes(btf, ty.returnType, n, depth - 1)
       else States(ty, n)
  }

  predicate Wraps(ty: BtfType) {
    ty.Const? || ty.Volatile? || ty.Restrict? || ty.Typedef? || ty.TypeTag? || ty.DeclTag? || ty.Var?
  }

  /** The size that stands in the declaration. */
  predicate States(ty: BtfType, n: nat) {
    match ty
    case Int(_, size, _) => n == size
    case Float(_, size) => n == size
    case Enum(_, _, size, _) => n == size
    case Enum64(_, _, size, _) => n == size
    case Struct(_, _, size, _) => n == size
    case Union(_, _, size, _, _) => n == size
    case DataSec(_, size, _) => n == size
    case _ => false
  }

  ghost predicate HasSize(btf: Btf, id: TypeId, n: nat) {
    exists depth: nat :: Takes(btf, id, n, depth)
  }

  lemma {:induction false} TakesDeeper(btf: Btf, id: TypeId, n: nat, depth: nat, more: nat)
    requires Takes(btf, id, n, depth) && depth <= more
    ensures Takes(btf, id, n, more)
    decreases depth
  {
    var ty := btf.types[id];
    if ty.Array? {
      var one: nat :| Takes(btf, ty.elementType, one, depth - 1) && n == ty.len * one;
      TakesDeeper(btf, ty.elementType, one, depth - 1, more - 1);
    } else if Wraps(ty) {
      TakesDeeper(btf, ty.btfType, n, depth - 1, more - 1);
    } else if ty.FuncProto? {
      TakesDeeper(btf, ty.returnType, n, depth - 1, more - 1);
    }
  }

  /** A type has one size. */
  lemma {:induction false} OneSize(btf: Btf, id: TypeId, n: nat, depth: nat, other: nat, more: nat)
    requires Takes(btf, id, n, depth) && Takes(btf, id, other, more)
    ensures n == other
    decreases depth
  {
    var ty := btf.types[id];
    if ty.Array? {
      var one: nat :| Takes(btf, ty.elementType, one, depth - 1) && n == ty.len * one;
      var two: nat :| Takes(btf, ty.elementType, two, more - 1) && other == ty.len * two;
      OneSize(btf, ty.elementType, one, depth - 1, two, more - 1);
    } else if Wraps(ty) {
      OneSize(btf, ty.btfType, n, depth - 1, other, more - 1);
    } else if ty.FuncProto? {
      OneSize(btf, ty.returnType, n, depth - 1, other, more - 1);
    }
  }

  lemma SizeIsUnique(btf: Btf, id: TypeId, n: nat, other: nat)
    requires HasSize(btf, id, n) && HasSize(btf, id, other)
    ensures n == other
  {
    hide Takes;
    var depth: nat :| Takes(btf, id, n, depth);
    var more: nat :| Takes(btf, id, other, more);
    OneSize(btf, id, n, depth, other, more);
  }

  lemma Reassociate(a: nat, b: nat, c: nat)
    ensures a * b * c == a * (b * c)
  {
  }

  /** What the loader computes for `elems` values is that many times the size. */
  lemma {:induction false} ComputedIsTaken(btf: Btf, id: TypeId, elems: U32, fuel: nat) returns (n: nat)
    requires SizeWithin(btf, id, elems, fuel).Ok?
    ensures Takes(btf, id, n, fuel - 1) && SizeWithin(btf, id, elems, fuel).value == elems * n
    decreases fuel
  {
    var ty := btf.types[id];
    if ty.Array? {
      var one := ComputedIsTaken(btf, ty.elementType, elems * ty.len, fuel - 1);
      n := ty.len * one;
      Reassociate(elems, ty.len, one);
    } else if Wraps(ty) {
      n := ComputedIsTaken(btf, ty.btfType, elems, fuel - 1);
    } else if ty.FuncProto? {
      n := ComputedIsTaken(btf, ty.returnType, elems, fuel - 1);
    } else {
      n := ty.Size().value;
    }
  }

  lemma ProductsGrow(a: nat, b: nat, c: nat)
    requires a * b * c > 0
    ensures a > 0 && b > 0 && c > 0 && a * b <= a * b * c
  {
  }

  /** And that many times the size, when it is not zero, is computed unless it takes more than 32 bits. */
  lemma {:induction false} TakenIsComputed(btf: Btf, id: TypeId, n: nat, elems: U32, fuel: nat)
    requires fuel > 0 && Takes(btf, id, n, fuel - 1) && elems * n > 0
    ensures SizeWithin(btf, id, elems, fuel) == if elems * n < 0x1_0000_0000 then Ok(elems * n) else Err(InvalidTypeInfo)
    decreases fuel
  {
    var ty := btf.types[id];
    if ty.Array? {
      var one: nat :| Takes(btf, ty.elementType, one, fuel - 2) && n == ty.len * one;
      Reassociate(elems, ty.len, one);
      ProductsGrow(elems, ty.len, one);
      if elems * ty.len < 0x1_0000_0000 {
        TakenIsComputed(btf, ty.elementType, one, elems * ty.len, fuel - 1);
      }
    } else if Wraps(ty) {
      TakenIsComputed(btf, ty.btfType, n, elems, fuel - 1);
    } else if ty.FuncProto? {
      TakenIsComputed(btf, ty.returnType, n, elems, fuel - 1);
    }
  }

  /**
   A computed size is the size of the type; and the size of a type at most 31 arrays and wrappers deep
   is computed, if it is not zero, exactly when it fits into 32 bits. An empty type may have an array
   inside that is too long.
   */
  lemma TypeSizeExact(btf: Btf, id: TypeId, n: nat)
    ensures TypeSize(btf, id) == Ok(n) ==> Takes(btf, id, n, MAX_RESOLVE_DEPTH - 1) && HasSize(btf, id, n)
    ensures Takes(btf, id, n, MAX_RESOLVE_DEPTH - 1) && 0 < n ==>
      TypeSize(btf, id) == if n < 0x1_0000_0000 then Ok(n) else Err(InvalidTypeInfo)
    ensures Takes(btf, id, 0, MAX_RESOLVE_DEPTH - 1) && TypeSize(btf, id).Ok? ==> TypeSize(btf, id) == Ok(0)
  {
    hide Takes, SizeWithin;
    if TypeSize(btf, id).Ok? {
      var m := ComputedIsTaken(btf, id, 1, MAX_RESOLVE_DEPTH);
      if Takes(btf, id, 0, MAX_RESOLVE_DEPTH - 1) {
        OneSize(btf, id, m, MAX_RESOLVE_DEPTH - 1, 0, MAX_RESOLVE_DEPTH - 1);
      }
    }
    if Takes(btf, id, n, MAX_RESOLVE_DEPTH - 1) && 0 < n {
      TakenIsComputed(btf, id, n, 1, MAX_RESOLVE_DEPTH);
    }
  }

  /** Modifiers and typedefs have the size of what is behind them. */
  lemma {:induction false} ResolvedSize(btf: Btf, id: TypeId, fuel: nat, n: nat)
    requires ResolveWithin(btf, id, fuel).Ok? && HasSize(btf, ResolveWithin(btf, id, fuel).value, n)
    ensures HasSize(btf, id, n)
    decreases fuel
  {
    if btf.types[id].IsModifier() {
      var to := btf.types[id].btfType;
      ResolvedSize(btf, to, fuel - 1, n);
      var depth: nat :| Takes(btf, to, n, depth);
      assert Takes(btf, id, n, depth + 1);
    }
  }
}
