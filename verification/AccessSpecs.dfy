/**
 CO-RE field relocation: a field access of the program is parsed against the local BTF
 (`AccessSpec.New`), and the same field is looked up in a candidate type of the kernel's BTF
 (`AccessSpec.MatchCandidate`). The specs are objects that grow part by part; `Walk` and `Match`
 are the states they go through. The states hold the exact bit offset; an object holds it as the
 source does, in 64 bits.
 */
module AccessSpecs {
  import opened Instructions
  import opened Btf
  import opened MemberSearch

  datatype Accessor = Accessor(typeId: TypeId, index: nat, name: Option<Name>)

  /** Zero-length arrays at the end of a struct may be indexed beyond their bounds. */
  function IsFlexArray(btf: Btf, len: U32, parent: Accessor): Result<bool> {
    if len != 0 then Ok(false)
    else
      match TypeById(btf, parent.typeId)
      case Err(e) => Err(e)
      case Ok(ty) => Ok(ty.Struct? && parent.index + 1 == |ty.members|)
  }

  // ---------- parsing an access path ----------

  // The path so far: the type reached, the accessors closed and the current one, and the bit
  // offset. `anonymous` are the anonymous members passed since the current accessor, which took
  // the path from type `base`, and `anonymousBits` their offsets.
  datatype Walk = Walk(
    typeId: TypeId, done: seq<Accessor>, last: Accessor, bitOffset: nat,
    base: TypeId, anonymous: seq<nat>, anonymousBits: nat)
  {
    function Accessors(): seq<Accessor> { done + [last] }
  }

  function RootSize(btf: Btf, root: TypeId): nat {
    if Resolve(btf, root).Ok? && TypeSize(btf, Resolve(btf, root).value).Ok?
    then TypeSize(btf, Resolve(btf, root).value).value else 0
  }

  function WalkRoot(btf: Btf, root: TypeId, index: nat): Result<Walk> {
    match Resolve(btf, root)
    case Err(e) => Err(e)
    case Ok(t) =>
      match TypeSize(btf, t)
      case Err(e) => Err(e)
      case Ok(size) => Ok(Walk(t, [], Accessor(t, index, None), index * size, t, [], 0))
  }

  function WalkStep(btf: Btf, w: Walk, index: nat): Result<Walk> {
    match Resolve(btf, w.typeId)
    case Err(e) => Err(e)
    case Ok(t) =>
      ResolvedType(btf, w.typeId, MAX_RESOLVE_DEPTH);
      var ty := btf.types[t];
      if ty.HasMembers() then
        if index >= |ty.members| then Err(InvalidAccessIndex)
        else
          var m := ty.members[index];
          var bits := ty.MemberBitOffset(m);
          if m.nameOffset != 0 then
            match NameAt(btf, m.nameOffset)
            case Err(e) => Err(e)
            case Ok(name) =>
              Ok(Walk(m.btfType, w.Accessors(), Accessor(t, index, Some(name)), w.bitOffset + bits, m.btfType, [], 0))
          else
            Ok(w.(typeId := m.btfType, bitOffset := w.bitOffset + bits,
                  anonymous := w.anonymous + [index], anonymousBits := w.anonymousBits + bits))
      else if ty.Array? then
        match Resolve(btf, ty.elementType)
        case Err(e) => Err(e)
        case Ok(element) =>
          match IsFlexArray(btf, ty.len, w.last)
          case Err(e) => Err(e)
          case Ok(flex) =>
            if !flex && index >= ty.len then Err(InvalidAccessIndex)
            else
              match TypeSize(btf, element)
              case Err(e) => Err(e)
              case Ok(size) =>
                Ok(Walk(element, w.Accessors(), Accessor(element, index, None), w.bitOffset + index * size * 8,
                        element, [], 0))
      else Err(InvalidRelocationKindForType)
  }

  function WalkAll(btf: Btf, root: TypeId, parts: seq<nat>): Result<Walk>
    requires parts != []
  {
    var last := |parts| - 1;
    if last == 0 then WalkRoot(btf, root, parts[0])
    else
      match WalkAll(btf, root, parts[..last])
      case Err(e) => Err(e)
      case Ok(w) => WalkStep(btf, w, parts[last])
  }

  // ---------- matching it against a candidate ----------

  // The target spec so far, and the type the next accessor starts from.
  datatype Match = Match(targetId: TypeId, parts: seq<nat>, accessors: seq<Accessor>, bitOffset: nat)

  function Reversed(path: seq<nat>): seq<nat> {
    if path == [] then [] else Reversed(path[1..]) + [path[0]]
  }

  lemma ReversedLength(path: seq<nat>)
    ensures |Reversed(path)| == |path|
  {
  }

  /** The field a named local accessor stands for. */
  function WantedBy(local: Btf, a: Accessor): Result<Wanted> {
    match TypeById(local, a.typeId)
    case Err(e) => Err(e)
    case Ok(ty) =>
      if !ty.HasMembers() || a.index >= |ty.members| then Err(Panic)
      else
        match NameAt(local, ty.members[a.index].nameOffset)
        case Err(e) => Err(e)
        case Ok(name) => Ok(Wanted(local, name, ty.members[a.index].btfType))
  }

  ghost function MatchNamed(local: Btf, target: Btf, rank: nat -> nat, m: Match, a: Accessor,
                            t: TypeId): Result<Option<Match>>
    requires Contained(target, rank)
  {
    match WantedBy(local, a)
    case Err(e) => Err(e)
    case Ok(w) =>
      match SearchType(w, target, rank, t, |m.parts| == MAX_SPEC_LEN)
      case Err(e) => Err(e)
      case Ok(None) => Ok(None)
      case Ok(Some(h)) => Ok(Some(AddHit(m, w, h)))
  }

  /** A hit adds one accessor; its parts are pushed on the way out, innermost first. */
  ghost function AddHit(m: Match, w: Wanted, h: Hit): Match {
    Match(h.next, m.parts + Reversed(h.path),
          m.accessors + (if h.path == [] then [] else [Accessor(h.typeId, h.path[|h.path| - 1], Some(w.name))]),
          m.bitOffset + h.bitOffset)
  }

  function MatchIndex(target: Btf, m: Match, index: nat, t: TypeId): Result<Option<Match>> {
    if |m.parts| == MAX_SPEC_LEN then Err(MaximumNestingLevelReached)
    else
      match TypeSize(target, t)
      case Err(e) => Err(e)
      case Ok(size) =>
        Ok(Some(Match(t, m.parts + [index], m.accessors + [Accessor(t, index, None)], m.bitOffset + index * size * 8)))
  }

  function MatchElement(target: Btf, m: Match, index: nat, t: TypeId): Result<Option<Match>>
    requires m.accessors != []
  {
    match TypeById(target, t)
    case Err(e) => Err(e)
    case Ok(ty) =>
      if !ty.Array? then Ok(None)
      else
        match IsFlexArray(target, ty.len, m.accessors[|m.accessors| - 1])
        case Err(e) => Err(e)
        case Ok(flex) =>
          if !flex && index >= ty.len then Ok(None)
          else
            match Resolve(target, ty.elementType)
            case Err(e) => Err(e)
            case Ok(element) => MatchIndex(target, m, index, element)
  }

  ghost function MatchStep(local: Btf, target: Btf, rank: nat -> nat, m: Match, a: Accessor): Result<Option<Match>>
    requires Contained(target, rank)
  {
    match Resolve(target, m.targetId)
    case Err(e) => Err(e)
    case Ok(t) =>
      if a.name.Some? then MatchNamed(local, target, rank, m, a, t)
      else if m.accessors == [] then MatchIndex(target, m, a.index, t)
      else MatchElement(target, m, a.index, t)
  }

  ghost function MatchAll(local: Btf, target: Btf, rank: nat -> nat, candidate: TypeId, accessors: seq<Accessor>)
    : Result<Option<Match>>
    requires Contained(target, rank)
  {
    if accessors == [] then Ok(Some(Match(candidate, [], [], 0)))
    else
      var last := |accessors| - 1;
      match MatchAll(local, target, rank, candidate, accessors[..last])
      case Err(e) => Err(e)
      case Ok(None) => Ok(None)
      case Ok(Some(m)) => MatchStep(local, target, rank, m, accessors[last])
  }

  lemma InsideIsSmaller(target: Btf, rank: nat -> nat, sid: TypeId, index: nat)
    requires Contained(target, rank)
    requires sid < |target.types| && target.types[sid].HasMembers() && index < |target.types[sid].members|
    ensures SmallerInside(target, rank, sid, index)
  {
  }

  lemma ReversedOne(index: nat)
    ensures Reversed([index]) == [index]
  {
  }

  lemma ReversedOuter(index: nat, path: seq<nat>)
    ensures Reversed([index] + path) == Reversed(path) + [index]
  {
    assert ([index] + path)[1..] == path;
  }

  lemma WrapSum(a: nat, b: nat)
    ensures WrapU64(WrapU64(a) + b) == WrapU64(a + b)
  {
  }

  // ---------- the objects ----------

  class AccessSpec {
    const btf: Btf
    const rootTypeId: TypeId
    var parts: seq<nat>
    var accessors: seq<Accessor>
    var bitOffset: U64

    constructor (btf: Btf, rootTypeId: TypeId)
      ensures this.btf == btf && this.rootTypeId == rootTypeId
      ensures parts == [] && accessors == [] && bitOffset == 0
    {
      this.btf := btf;
      this.rootTypeId := rootTypeId;
      parts, accessors, bitOffset := [], [], 0;
    }

    /** Parses the path of a field access; the first part indexes the root type. */
    static method New(btf: Btf, rootTypeId: TypeId, parts: seq<nat>) returns (r: Result<AccessSpec>)
      requires parts != []
      ensures r.Ok? <==> WalkAll(btf, rootTypeId, parts).Ok?
      ensures r.Err? ==> r.error == WalkAll(btf, rootTypeId, parts).error
      ensures r.Ok? ==>
        && fresh(r.value) && r.value.btf == btf && r.value.rootTypeId == rootTypeId
        && r.value.parts == parts
        && r.value.accessors == WalkAll(btf, rootTypeId, parts).value.Accessors()
        && r.value.bitOffset == WrapU64(WalkAll(btf, rootTypeId, parts).value.bitOffset)
    {
      hide WalkStep;
      assert parts[..1] == [parts[0]];
      if WalkRoot(btf, rootTypeId, parts[0]).Err? {
        FailsForGood(btf, rootTypeId, parts, 1);
      }
      var root := ResolveType(btf, rootTypeId);
      if root.Err? {
        return Err(root.error);
      }
      var typeId: TypeId := root.value;
      var accessor := Accessor(typeId, parts[0], None);
      var accessors: seq<Accessor> := [];
      var size := TypeSize(btf, typeId);
      if size.Err? {
        return Err(size.error);
      }
      var bitOffset: U64 := WrapU64(accessor.index * size.value);
      ghost var walk := WalkRoot(btf, rootTypeId, parts[0]).value;
      for i := 1 to |parts|
        invariant WalkAll(btf, rootTypeId, parts[..i]) == Ok(walk)
        invariant walk.typeId == typeId && walk.done == accessors && walk.last == accessor
        invariant bitOffset == WrapU64(walk.bitOffset)
      {
        assert parts[..i + 1][..i] == parts[..i];
        var index := parts[i];
        var step := Step(btf, typeId, accessor, index, walk);
        if step.Err? {
          FailsForGood(btf, rootTypeId, parts, i + 1);
          return Err(step.error);
        }
        var (reached, next, bits) := step.value;
        WrapSum(walk.bitOffset, bits);
        typeId, bitOffset := reached, WrapU64(bitOffset + bits);
        if next.Some? {
          accessors := accessors + [accessor];
          accessor := next.value;
        }
        walk := WalkStep(btf, walk, index).value;
      }
      accessors := accessors + [accessor];
      assert parts[..|parts|] == parts;

      var spec := new AccessSpec(btf, rootTypeId);
      spec.parts, spec.accessors, spec.bitOffset := parts, accessors, bitOffset;
      r := Ok(spec);
    }

    /** One part of the path: the type it leads to, the accessor it opens, and its bits. */
    static method Step(btf: Btf, typeId: TypeId, accessor: Accessor, index: nat, ghost walk: Walk)
      returns (r: Result<(TypeId, Option<Accessor>, nat)>)
      requires walk.typeId == typeId && walk.last == accessor
      ensures r.Err? ==> WalkStep(btf, walk, index) == Err(r.error)
      ensures r.Ok? ==>
        && WalkStep(btf, walk, index).Ok?
        && var w := WalkStep(btf, walk, index).value;
        && w.typeId == r.value.0 && w.bitOffset == walk.bitOffset + r.value.2
        && match r.value.1
           case None => w.done == walk.done && w.last == walk.last
           case Some(a) => w.done == walk.Accessors() && w.last == a
    {
      var resolved := ResolveType(btf, typeId);
      if resolved.Err? {
        return Err(resolved.error);
      }
      var t: TypeId := resolved.value;
      var ty := btf.types[t];
      if ty.HasMembers() {
        if index >= |ty.members| {
          return Err(InvalidAccessIndex);
        }
        var m := ty.members[index];
        if m.nameOffset == 0 {
          return Ok((m.btfType, None, ty.MemberBitOffset(m)));
        }
        var name := NameAt(btf, m.nameOffset);
        if name.Err? {
          return Err(name.error);
        }
        return Ok((m.btfType, Some(Accessor(t, index, Some(name.value))), ty.MemberBitOffset(m)));
      }
      if !ty.Array? {
        return Err(InvalidRelocationKindForType);
      }
      var element := ResolveType(btf, ty.elementType);
      if element.Err? {
        return Err(element.error);
      }
      var flex := IsFlexArray(btf, ty.len, accessor);
      if flex.Err? {
        return Err(flex.error);
      }
      if !flex.value && index >= ty.len {
        return Err(InvalidAccessIndex);
      }
      var size := TypeSize(btf, element.value);
      if size.Err? {
        return Err(size.error);
      }
      r := Ok((element.value, Some(Accessor(element.value, index, None)), index * size.value * 8));
    }

    /**
     Looks for the member `accessor` stands for, from type `targetId` of this spec's BTF, and
     records it here. When it is not found nothing is recorded.
     */
    method MatchMember(local: Btf, accessor: Accessor, targetId: TypeId, ghost rank: nat -> nat)
      returns (r: Result<Option<TypeId>>)
      requires Contained(btf, rank)
      modifies this
      ensures WantedBy(local, accessor).Err? ==> r == Err(WantedBy(local, accessor).error)
      ensures WantedBy(local, accessor).Ok? ==>
        match SearchType(WantedBy(local, accessor).value, btf, rank, targetId, |old(parts)| == MAX_SPEC_LEN)
        case Err(e) => r == Err(e)
        case Ok(None) => r == Ok(None)
        case Ok(Some(h)) =>
          && r == Ok(Some(h.next)) && h.path != []
          && parts == old(parts) + Reversed(h.path)
          && accessors == old(accessors) + [Accessor(h.typeId, h.path[|h.path| - 1], Some(WantedBy(local, accessor).value.name))]
          && bitOffset == WrapU64(old(bitOffset) + h.bitOffset)
      ensures !(r.Ok? && r.value.Some?) ==>
        parts == old(parts) && accessors == old(accessors) && bitOffset == old(bitOffset)
      decreases RankOf(btf, rank, targetId)
    {
      hide StringAt, CompatibleWithin, ResolveWithin, FieldsCompatible, WrapU64, Reversed, Contained;
      var wanted := WantedBy(local, accessor);
      if wanted.Err? {
        return Err(wanted.error);
      }
      var w := wanted.value;
      var resolved := ResolveType(btf, targetId);
      if resolved.Err? {
        return Err(resolved.error);
      }
      var sid: TypeId := resolved.value;
      var ty := btf.types[sid];
      if !ty.HasMembers() {
        return Ok(None);
      }
      ghost var full := |parts| == MAX_SPEC_LEN;
      for index := 0 to |ty.members|
        invariant parts == old(parts) && accessors == old(accessors) && bitOffset == old(bitOffset)
        invariant SearchFrom(w, btf, rank, sid, 0, full) == SearchFrom(w, btf, rank, sid, index, full)
      {
        var m := ty.members[index];
        if |parts| == MAX_SPEC_LEN {
          return Err(MaximumNestingLevelReached);
        }
        var name := NameAt(btf, m.nameOffset);
        if name.Err? {
          return Err(name.error);
        }
        if name.value == [] {
          InsideIsSmaller(btf, rank, sid, index);
          var inner := MatchMember(local, accessor, m.btfType, rank);
          if inner.Err? {
            return inner;
          }
          if inner.value.Some? {
            ghost var path := SearchType(w, btf, rank, m.btfType, full).value.value.path;
            ReversedOuter(index, path);
            WrapSum(old(bitOffset) + SearchType(w, btf, rank, m.btfType, full).value.value.bitOffset, ty.MemberBitOffset(m));
            bitOffset := WrapU64(bitOffset + ty.MemberBitOffset(m));
            parts := parts + [index];
            return inner;
          }
        } else if name.value == w.name {
          var compatible := FieldsCompatible(local, w.btfType, btf, m.btfType);
          if compatible.Err? {
            return Err(compatible.error);
          }
          if !compatible.value {
            return Ok(None);
          }
          bitOffset := WrapU64(bitOffset + ty.MemberBitOffset(m));
          parts := parts + [index];
          accessors := accessors + [Accessor(sid, index, Some(name.value))];
          ReversedOne(index);
          return Ok(Some(m.btfType));
        }
      }
      r := Ok(None);
    }

    /** This spec is the given state of a match. */
    ghost predicate Holds(m: Match, targetId: TypeId)
      reads this
    {
      m.targetId == targetId && m.parts == parts && m.accessors == accessors && WrapU64(m.bitOffset) == bitOffset
    }

    /** Matches the accessors of a local field access against type `candidate` of `target`. */
    static method MatchCandidate(local: AccessSpec, target: Btf, candidate: TypeId, ghost rank: nat -> nat)
      returns (r: Result<Option<AccessSpec>>)
      requires Contained(target, rank)
      ensures
        match MatchAll(local.btf, target, rank, candidate, local.accessors)
        case Err(e) => r == Err(e)
        case Ok(None) => r == Ok(None)
        case Ok(Some(m)) =>
          && r.Ok? && r.value.Some?
          && var spec := r.value.value;
          && fresh(spec) && spec.btf == target && spec.rootTypeId == candidate
          && spec.parts == m.parts && spec.accessors == m.accessors
          && spec.bitOffset == WrapU64(m.bitOffset)
    {
      hide MatchStep;
      var spec := new AccessSpec(target, candidate);
      var targetId := candidate;
      var accessors := local.accessors;
      ghost var reached := Match(candidate, [], [], 0);
      for i := 0 to |accessors|
        invariant accessors == local.accessors == old(local.accessors)
        invariant fresh(spec) && spec.btf == target && spec.rootTypeId == candidate
        invariant MatchAll(local.btf, target, rank, candidate, accessors[..i]) == Ok(Some(reached))
        invariant spec.Holds(reached, targetId)
      {
        assert accessors[..i + 1][..i] == accessors[..i];
        var step := spec.MatchAccessor(local.btf, accessors[i], targetId, rank, reached);
        if step.Err? || step.value.None? {
          MatchFailsForGood(local.btf, target, rank, candidate, accessors, i + 1);
          return if step.Err? then Err(step.error) else Ok(None);
        }
        targetId := step.value.value;
        reached := MatchStep(local.btf, target, rank, reached, accessors[i]).value.value;
      }
      assert accessors[..|accessors|] == accessors;
      r := Ok(Some(spec));
    }

    /** One accessor of the local spec: a named member, the root index, or an array element. */
    method MatchAccessor(local: Btf, accessor: Accessor, from: TypeId, ghost rank: nat -> nat, ghost reached: Match)
      returns (r: Result<Option<TypeId>>)
      requires Contained(btf, rank) && Holds(reached, from)
      modifies this
      ensures
        match MatchStep(local, btf, rank, reached, accessor)
        case Err(e) => r == Err(e)
        case Ok(None) => r == Ok(None)
        case Ok(Some(m)) => r == Ok(Some(m.targetId)) && Holds(m, m.targetId)
    {
      hide SearchType, SearchFrom, WantedBy, SizeWithin, Reversed, ResolveWithin, WrapU64;
      var resolved := ResolveType(btf, from);
      if resolved.Err? {
        return Err(resolved.error);
      }
      var targetId: TypeId := resolved.value;
      if accessor.name.Some? {
        r := MatchMember(local, accessor, targetId, rank);
        if r.Ok? && r.value.Some? {
          WrapSum(reached.bitOffset, SearchType(WantedBy(local, accessor).value, btf, rank, targetId,
                                                |old(parts)| == MAX_SPEC_LEN).value.value.bitOffset);
        }
        return;
      }
      if accessors != [] {
        var ty := btf.types[targetId];
        if !ty.Array? {
          return Ok(None);
        }
        var flex := IsFlexArray(btf, ty.len, accessors[|accessors| - 1]);
        if flex.Err? {
          return Err(flex.error);
        }
        if !flex.value && accessor.index >= ty.len {
          return Ok(None);
        }
        var element := ResolveType(btf, ty.elementType);
        if element.Err? {
          return Err(element.error);
        }
        targetId := element.value;
      }
      if |parts| == MAX_SPEC_LEN {
        return Err(MaximumNestingLevelReached);
      }
      parts := parts + [accessor.index];
      accessors := accessors + [Accessor(targetId, accessor.index, None)];
      var size := TypeSize(btf, targetId);
      if size.Err? {
        return Err(size.error);
      }
      WrapSum(reached.bitOffset, accessor.index * size.value * 8);
      bitOffset := WrapU64(bitOffset + accessor.index * size.value * 8);
      r := Ok(Some(targetId));
    }
  }

  /** Once a prefix of the path fails, the whole path fails the same way. */
  lemma {:induction false} FailsForGood(btf: Btf, root: TypeId, parts: seq<nat>, k: nat)
    requires 1 <= k <= |parts| && WalkAll(btf, root, parts[..k]).Err?
    ensures WalkAll(btf, root, parts) == WalkAll(btf, root, parts[..k])
    decreases |parts|
  {
    if k == |parts| {
      assert parts[..k] == parts;
    } else {
      var shorter := parts[..|parts| - 1];
      assert shorter[..k] == parts[..k];
      FailsForGood(btf, root, shorter, k);
    }
  }

  lemma {:induction false} MatchFailsForGood(
    local: Btf, target: Btf, rank: nat -> nat, candidate: TypeId, accessors: seq<Accessor>, k: nat)
    requires Contained(target, rank) && k <= |accessors|
    requires var m := MatchAll(local, target, rank, candidate, accessors[..k]); m.Err? || m.value.None?
    ensures MatchAll(local, target, rank, candidate, accessors) == MatchAll(local, target, rank, candidate, accessors[..k])
    decreases |accessors|
  {
    if k == |accessors| {
      assert accessors[..k] == accessors;
    } else {
      var shorter := accessors[..|accessors| - 1];
      assert shorter[..k] == accessors[..k];
      MatchFailsForGood(local, target, rank, candidate, shorter, k);
    }
  }
}
