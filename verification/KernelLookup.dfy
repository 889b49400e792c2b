/**
 Looking a typed extern up in the kernel's BTF: a function by its name without flavour, a variable by
 its name, and then the comparison of the two types.
 */
module KernelLookup {
  import opened Instructions
  import opened Btf
  import T = TypeCompatibility

  // What the kernel's BTF says about a typed extern. It is broken when the object declares something
  // else than a function or a variable, or when the types cannot be compared.
  datatype Lookup = Found(btfId: nat) | NotFound | Incompatible | Broken

  const KIND_FUNC: nat := 12
  const KIND_VAR: nat := 14

  /** A BTF name as text, byte by byte. */
  function Text(name: Name): string {
    seq(|name|, i requires 0 <= i < |name| => name[i] as char)
  }

  /** The name up to the first "___". */
  function Essential(name: string): string {
    if |name| >= 3 && name[..3] == "___" then []
    else if name == [] then []
    else [name[0]] + Essential(name[1..])
  }

  /** The name as text has no flavour exactly where the name as bytes has none. */
  lemma {:induction false} EssentialExact(name: Name)
    ensures Essential(Text(name)) == Text(Flavorless(name))
  {
    if name != [] {
      EssentialExact(name[1..]);
      assert Text(name)[1..] == Text(name[1..]);
      if |name| >= 3 {
        assert Text(name)[..3] == "___" <==> name[..3] == [95, 95, 95] by {
          assert Text(name)[..3] == [name[0] as char, name[1] as char, name[2] as char];
          assert name[..3] == [name[0], name[1], name[2]];
        }
      }
    }
  }

  /** The first type of the kind and name from `i` on; a name of the kind that cannot be read ends the search. */
  function IdByName(btf: Btf, name: string, kind: nat, i: nat): Result<TypeId>
    requires i <= |btf.types|
    decreases |btf.types| - i
  {
    if i == |btf.types| then Err(UnknownBtfType)
    else if btf.types[i].Kind() != kind then IdByName(btf, name, kind, i + 1)
    else
      match NameAt(btf, btf.types[i].NameOffset())
      case Err(e) => Err(e)
      case Ok(other) => if Text(other) == name then Ok(i) else IdByName(btf, name, kind, i + 1)
  }

  predicate Named(btf: Btf, name: string, kind: nat, id: TypeId) {
    && id < |btf.types| && btf.types[id].Kind() == kind
    && NameAt(btf, btf.types[id].NameOffset()).Ok? && Text(NameAt(btf, btf.types[id].NameOffset()).value) == name
  }

  /** Of the kind, with a name that can be read and is another. */
  predicate NamedElse(btf: Btf, name: string, kind: nat, id: TypeId) {
    && id < |btf.types| && btf.types[id].Kind() == kind
    && NameAt(btf, btf.types[id].NameOffset()).Ok? && Text(NameAt(btf, btf.types[id].NameOffset()).value) != name
  }

  lemma {:induction false} IdByNameExact(btf: Btf, name: string, kind: nat, i: nat, id: TypeId)
    requires i <= |btf.types|
    ensures IdByName(btf, name, kind, i) == Ok(id) <==>
      && i <= id && Named(btf, name, kind, id)
      && forall j: TypeId :: i <= j < id && btf.types[j].Kind() == kind ==> NamedElse(btf, name, kind, j)
    decreases |btf.types| - i
  {
    hide StringAt, Text;
    if i < |btf.types| {
      IdByNameExact(btf, name, kind, i + 1, id);
    }
  }

  method FindByName(btf: Btf, name: string, kind: nat) returns (r: Result<TypeId>)
    ensures r == IdByName(btf, name, kind, 0)
  {
    hide StringAt, Text;
    for id := 0 to |btf.types|
      invariant IdByName(btf, name, kind, 0) == IdByName(btf, name, kind, id)
    {
      if btf.types[id].Kind() == kind {
        var other := NameAt(btf, btf.types[id].NameOffset());
        if other.Err? {
          return Err(other.error);
        }
        if Text(other.value) == name {
          return Ok(id);
        }
      }
    }
    r := Err(UnknownBtfType);
  }

  // ---------- the lookup ----------

  /** The name and the kind a declaration is looked for under. */
  function SoughtAs(obj: Btf, declared: TypeId, name: string): Option<(string, nat)> {
    if declared >= |obj.types| then None
    else if obj.types[declared].Func? then Some((Essential(name), KIND_FUNC))
    else if obj.types[declared].Var? then Some((name, KIND_VAR))
    else None
  }

  /** The kernel's type for an extern the object declares by type `declared`, itself of type `typeId`. */
  ghost function LookupOf(obj: Btf, kernel: Btf, rank: nat -> nat, name: string, declared: TypeId, typeId: TypeId): Lookup
    requires T.ParamsEnd(obj, rank)
  {
    match SoughtAs(obj, declared, name)
    case None => Broken
    case Some((wanted, kind)) =>
      match IdByName(kernel, wanted, kind, 0)
      case Err(_) => NotFound
      case Ok(id) =>
        IdByNameExact(kernel, wanted, kind, 0, id);
        if !kernel.types[id].Func? && !kernel.types[id].Var? then Broken
        else
          match T.Compatible(obj, typeId, kernel, kernel.types[id].btfType, rank)
          case Err(_) => Broken
          case Ok(compatible) => if compatible then Found(id) else Incompatible
  }

  method LookUp(obj: Btf, kernel: Btf, ghost rank: nat -> nat, name: string, declared: TypeId, typeId: TypeId)
    returns (r: Lookup)
    requires T.ParamsEnd(obj, rank)
    ensures r == LookupOf(obj, kernel, rank, name, declared, typeId)
  {
    hide IdByName;
    if declared >= |obj.types| {
      return Broken;
    }
    var found;
    if obj.types[declared].Func? {
      found := FindByName(kernel, Essential(name), KIND_FUNC);
    } else if obj.types[declared].Var? {
      found := FindByName(kernel, name, KIND_VAR);
    } else {
      return Broken;
    }
    if found.Err? {
      return NotFound;
    }
    var wanted := SoughtAs(obj, declared, name).value;
    IdByNameExact(kernel, wanted.0, wanted.1, 0, found.value);
    var ty := kernel.types[found.value];
    if !ty.Func? && !ty.Var? {
      return Broken;
    }
    var compatible := T.TypesAreCompatible(obj, typeId, kernel, ty.btfType, rank);
    if compatible.Err? {
      return Broken;
    }
    r := if compatible.value then Found(found.value) else Incompatible;
  }

  /**
   What is found is the first type of the kind with the name, when no name before it is unreadable and
   when it is compatible; nothing else is found.
   */
  lemma FoundExactly(obj: Btf, kernel: Btf, rank: nat -> nat, name: string, declared: TypeId, typeId: TypeId, id: TypeId)
    requires T.ParamsEnd(obj, rank)
    ensures LookupOf(obj, kernel, rank, name, declared, typeId) == Found(id) <==>
      && SoughtAs(obj, declared, name).Some?
      && var (wanted, kind) := SoughtAs(obj, declared, name).value;
      && Named(kernel, wanted, kind, id) && (kernel.types[id].Func? || kernel.types[id].Var?)
      && (forall j: TypeId :: j < id && kernel.types[j].Kind() == kind ==> NamedElse(kernel, wanted, kind, j))
      && T.Compatible(obj, typeId, kernel, kernel.types[id].btfType, rank) == Ok(true)
  {
    hide IdByName, T.Compatible, T.ParamsEnd, Named, NamedElse;
    if SoughtAs(obj, declared, name).Some? {
      var (wanted, kind) := SoughtAs(obj, declared, name).value;
      IdByNameExact(kernel, wanted, kind, 0, id);
      NamedKind(kernel, wanted, kind, id);
      if IdByName(kernel, wanted, kind, 0).Ok? {
        IdByNameExact(kernel, wanted, kind, 0, IdByName(kernel, wanted, kind, 0).value);
      }
    }
  }

  lemma NamedKind(btf: Btf, name: string, kind: nat, id: TypeId)
    ensures Named(btf, name, kind, id) ==> id < |btf.types| && btf.types[id].Kind() == kind
  {
  }
}
