/**
 Finding the member of a target type that a field of a local type corresponds to, through
 anonymous structs and unions.

 `SearchType` is what the code computes. Its meaning is stated on chains: index paths that lead
 through anonymous members to a named one. The search returns the first chain, in depth-first
 order, that ends at a compatible member of the wanted name and is not blocked at any level by an
 earlier member of that name.
 */
module MemberSearch {
  import opened Instructions
  import opened Btf

  // The field looked for: its name and its type in the local BTF.
  datatype Wanted = Wanted(btf: Btf, name: Name, btfType: TypeId)

  // A member found: the indices from the outermost type inwards, the type that holds it, its bit
  // offset from the start of the outermost type, and the type it has.
  datatype Hit = Hit(path: seq<nat>, typeId: TypeId, bitOffset: nat, next: TypeId)

  /** Containment by value ends: an anonymous member has a smaller type than the one it is in. */
  ghost predicate Contained(target: Btf, rank: nat -> nat) {
    forall id, i :: 0 <= id < |target.types| && target.types[id].HasMembers() && 0 <= i < |target.types[id].members| ==>
      SmallerInside(target, rank, id, i)
  }

  ghost predicate SmallerInside(target: Btf, rank: nat -> nat, id: nat, i: nat)
    requires id < |target.types| && target.types[id].HasMembers() && i < |target.types[id].members|
  {
    var m := target.types[id].members[i];
    NameAt(target, m.nameOffset) == Ok([]) && Resolve(target, m.btfType).Ok? ==>
      rank(Resolve(target, m.btfType).value) < rank(id)
  }

  ghost function RankOf(target: Btf, rank: nat -> nat, id: TypeId): nat {
    if Resolve(target, id).Ok? then rank(Resolve(target, id).value) + 1 else 0
  }

  // ---------- the search ----------

  /** The search from a type; `full` says the spec being built can take no more parts. */
  ghost function SearchType(w: Wanted, target: Btf, rank: nat -> nat, id: TypeId, full: bool): Result<Option<Hit>>
    requires Contained(target, rank)
    decreases RankOf(target, rank, id), 1, 0
  {
    match Resolve(target, id)
    case Err(e) => Err(e)
    case Ok(sid) =>
      ResolvedType(target, id, MAX_RESOLVE_DEPTH);
      if target.types[sid].HasMembers() then SearchFrom(w, target, rank, sid, 0, full) else Ok(None)
  }

  /** The search among members `i` and later of one struct or union. */
  ghost function SearchFrom(w: Wanted, target: Btf, rank: nat -> nat, sid: TypeId, i: nat,
                            full: bool): Result<Option<Hit>>
    requires Contained(target, rank)
    requires sid < |target.types| && target.types[sid].HasMembers() && i <= |target.types[sid].members|
    decreases rank(sid) + 1, 0, |target.types[sid].members| - i
  {
    var ty := target.types[sid];
    if i == |ty.members| then Ok(None)
    else if full then Err(MaximumNestingLevelReached)
    else
      var m := ty.members[i];
      match NameAt(target, m.nameOffset)
      case Err(e) => Err(e)
      case Ok(name) =>
        if name == [] then
          assert SmallerInside(target, rank, sid, i);
          match SearchType(w, target, rank, m.btfType, full)
          case Err(e) => Err(e)
          case Ok(Some(h)) => Ok(Some(h.(path := [i] + h.path, bitOffset := h.bitOffset + ty.MemberBitOffset(m))))
          case Ok(None) => SearchFrom(w, target, rank, sid, i + 1, full)
        else if name == w.name then
          match FieldsCompatible(w.btf, w.btfType, target, m.btfType)
          case Err(e) => Err(e)
          case Ok(true) => Ok(Some(Hit([i], sid, ty.MemberBitOffset(m), m.btfType)))
          case Ok(false) => Ok(None)
        else SearchFrom(w, target, rank, sid, i + 1, full)
  }

  // ---------- chains ----------

  /** `path` leads from the type through anonymous members to a named one. */
  ghost predicate Chain(target: Btf, id: TypeId, path: seq<nat>)
    decreases |path|
  {
    && path != []
    && Resolve(target, id).Ok?
    && var sid := Resolve(target, id).value;
    && sid < |target.types| && target.types[sid].HasMembers()
    && path[0] < |target.types[sid].members|
    && var m := target.types[sid].members[path[0]];
    && NameAt(target, m.nameOffset).Ok?
    && if |path| == 1 then NameAt(target, m.nameOffset).value != []
       else NameAt(target, m.nameOffset).value == [] && Chain(target, m.btfType, path[1..])
  }

  /** The type holding the last member of the chain. */
  ghost function ChainType(target: Btf, id: TypeId, path: seq<nat>): TypeId
    requires Chain(target, id, path)
    ensures ChainType(target, id, path) < |target.types|
    ensures target.types[ChainType(target, id, path)].HasMembers()
    ensures path[|path| - 1] < |target.types[ChainType(target, id, path)].members|
    decreases |path|
  {
    var sid := Resolve(target, id).value;
    if |path| == 1 then sid else ChainType(target, target.types[sid].members[path[0]].btfType, path[1..])
  }

  ghost function ChainMember(target: Btf, id: TypeId, path: seq<nat>): Member
    requires Chain(target, id, path)
  {
    target.types[ChainType(target, id, path)].members[path[|path| - 1]]
  }

  /** The bit offsets of the members along the chain, added up. */
  ghost function ChainOffset(target: Btf, id: TypeId, path: seq<nat>): nat
    requires Chain(target, id, path)
    decreases |path|
  {
    var ty := target.types[Resolve(target, id).value];
    var m := ty.members[path[0]];
    ty.MemberBitOffset(m) + if |path| == 1 then 0 else ChainOffset(target, m.btfType, path[1..])
  }

  /** The chain ends at a member of the wanted name with a compatible type. */
  ghost predicate Matches(w: Wanted, target: Btf, id: TypeId, path: seq<nat>) {
    && Chain(target, id, path)
    && NameAt(target, ChainMember(target, id, path).nameOffset) == Ok(w.name)
    && FieldsCompatible(w.btf, w.btfType, target, ChainMember(target, id, path).btfType) == Ok(true)
  }

  /** At no level does a member of the wanted name come before the chain; at the top, from `from` on. */
  ghost predicate Unblocked(w: Wanted, target: Btf, id: TypeId, path: seq<nat>, from: nat)
    requires Chain(target, id, path)
    decreases |path|
  {
    var members := target.types[Resolve(target, id).value].members;
    && (forall e :: from <= e < path[0] ==> NameAt(target, members[e].nameOffset) != Ok(w.name))
    && (|path| > 1 ==> Unblocked(w, target, members[path[0]].btfType, path[1..], 0))
  }

  predicate LexLess(p: seq<nat>, q: seq<nat>) {
    p != [] && q != [] && (p[0] < q[0] || (p[0] == q[0] && LexLess(p[1..], q[1..])))
  }

  // ---------- what the search finds ----------

  /** Soundness: the result is an unblocked chain to a compatible member, with its offset. */
  lemma {:induction false} SearchSound(w: Wanted, target: Btf, rank: nat -> nat, id: TypeId, full: bool)
    requires Contained(target, rank)
    requires SearchType(w, target, rank, id, full).Ok? && SearchType(w, target, rank, id, full).value.Some?
    ensures
      var h := SearchType(w, target, rank, id, full).value.value;
      && !full
      && Matches(w, target, id, h.path) && Unblocked(w, target, id, h.path, 0)
      && h.typeId == ChainType(target, id, h.path)
      && h.bitOffset == ChainOffset(target, id, h.path)
      && h.next == ChainMember(target, id, h.path).btfType
    decreases RankOf(target, rank, id), 1, 0
  {
    ResolvedType(target, id, MAX_RESOLVE_DEPTH);
    SearchFromSound(w, target, rank, id, Resolve(target, id).value, 0, full);
  }

  lemma {:induction false} SearchFromSound(w: Wanted, target: Btf, rank: nat -> nat, id: TypeId, sid: TypeId,
                                           i: nat, full: bool)
    requires Contained(target, rank)
    requires Resolve(target, id) == Ok(sid)
    requires sid < |target.types| && target.types[sid].HasMembers() && i <= |target.types[sid].members|
    requires SearchFrom(w, target, rank, sid, i, full).Ok? && SearchFrom(w, target, rank, sid, i, full).value.Some?
    ensures
      var h := SearchFrom(w, target, rank, sid, i, full).value.value;
      && !full
      && Matches(w, target, id, h.path) && Unblocked(w, target, id, h.path, i) && i <= h.path[0]
      && h.typeId == ChainType(target, id, h.path)
      && h.bitOffset == ChainOffset(target, id, h.path)
      && h.next == ChainMember(target, id, h.path).btfType
    decreases rank(sid) + 1, 0, |target.types[sid].members| - i
  {
    var m := target.types[sid].members[i];
    var name := NameAt(target, m.nameOffset).value;
    if name == [] {
      assert SmallerInside(target, rank, sid, i);
      if SearchType(w, target, rank, m.btfType, full).value.Some? {
        SearchSound(w, target, rank, m.btfType, full);
        var inner := SearchType(w, target, rank, m.btfType, full).value.value;
        assert ([i] + inner.path)[1..] == inner.path;
      } else {
        SearchFromSound(w, target, rank, id, sid, i + 1, full);
        if w.name == [] { NeverNameless(w, target, id, SearchFrom(w, target, rank, sid, i + 1, full).value.value.path); }
      }
    } else if name != w.name {
      SearchFromSound(w, target, rank, id, sid, i + 1, full);
    }
  }

  lemma {:induction false} ChainEndsNamed(target: Btf, id: TypeId, path: seq<nat>)
    requires Chain(target, id, path)
    ensures NameAt(target, ChainMember(target, id, path).nameOffset).Ok?
    ensures NameAt(target, ChainMember(target, id, path).nameOffset).value != []
    decreases |path|
  {
    if |path| > 1 {
      ChainEndsNamed(target, target.types[Resolve(target, id).value].members[path[0]].btfType, path[1..]);
    }
  }

  lemma NeverNameless(w: Wanted, target: Btf, id: TypeId, path: seq<nat>)
    ensures Matches(w, target, id, path) ==> w.name != []
  {
    if Matches(w, target, id, path) { ChainEndsNamed(target, id, path); }
  }

  // ---------- when the search succeeds ----------

  ghost function EndName(target: Btf, id: TypeId, path: seq<nat>): Result<Name>
    requires Chain(target, id, path)
  {
    NameAt(target, ChainMember(target, id, path).nameOffset)
  }

  /** A name that can be read and, for an anonymous member, a type that can be resolved. */
  ghost predicate MemberReadable(target: Btf, id: nat, i: nat)
    requires id < |target.types| && target.types[id].HasMembers() && i < |target.types[id].members|
  {
    var m := target.types[id].members[i];
    && NameAt(target, m.nameOffset).Ok?
    && (NameAt(target, m.nameOffset).value == [] ==> Resolve(target, m.btfType).Ok?)
  }

  ghost predicate MembersReadable(target: Btf) {
    forall id, i :: 0 <= id < |target.types| && target.types[id].HasMembers() && 0 <= i < |target.types[id].members| ==>
      MemberReadable(target, id, i)
  }

  /** Every member of the wanted name can be compared. */
  ghost predicate Comparable(w: Wanted, target: Btf, id: TypeId) {
    forall q :: Chain(target, id, q) && EndName(target, id, q) == Ok(w.name) ==>
      FieldsCompatible(w.btf, w.btfType, target, ChainMember(target, id, q).btfType).Ok?
  }

  /**
   Where names, types and comparisons give no error, the search fails exactly when the spec is full and
   there is a member to look at.
   */
  lemma {:induction false} SearchSucceeds(w: Wanted, target: Btf, rank: nat -> nat, id: TypeId, full: bool)
    requires Contained(target, rank) && Resolve(target, id).Ok? && MembersReadable(target) && Comparable(w, target, id)
    ensures Resolve(target, id).value < |target.types|
    ensures SearchType(w, target, rank, id, full).Ok? <==>
      var ty := target.types[Resolve(target, id).value];
      !full || !ty.HasMembers() || ty.members == []
    decreases RankOf(target, rank, id), 1, 0
  {
    ResolvedType(target, id, MAX_RESOLVE_DEPTH);
    if target.types[Resolve(target, id).value].HasMembers() && !full {
      SearchFromSucceeds(w, target, rank, id, Resolve(target, id).value, 0);
    }
  }

  lemma {:induction false} SearchFromSucceeds(w: Wanted, target: Btf, rank: nat -> nat, id: TypeId, sid: TypeId, i: nat)
    requires Contained(target, rank) && MembersReadable(target) && Comparable(w, target, id) && Resolve(target, id) == Ok(sid)
    requires sid < |target.types| && target.types[sid].HasMembers() && i <= |target.types[sid].members|
    ensures SearchFrom(w, target, rank, sid, i, false).Ok?
    decreases rank(sid) + 1, 0, |target.types[sid].members| - i
  {
    if i < |target.types[sid].members| {
      assert MemberReadable(target, sid, i) && SmallerInside(target, rank, sid, i);
      var m := target.types[sid].members[i];
      var name := NameAt(target, m.nameOffset).value;
      if name == [] {
        forall q | Chain(target, m.btfType, q) && EndName(target, m.btfType, q) == Ok(w.name)
          ensures FieldsCompatible(w.btf, w.btfType, target, ChainMember(target, m.btfType, q).btfType).Ok?
        {
          var longer := [i] + q;
          assert longer[1..] == q;
          assert Chain(target, id, longer) && ChainMember(target, id, longer) == ChainMember(target, m.btfType, q);
        }
        SearchSucceeds(w, target, rank, m.btfType, false);
        SearchFromSucceeds(w, target, rank, id, sid, i + 1);
      } else if name == w.name {
        assert Chain(target, id, [i]) && EndName(target, id, [i]) == Ok(w.name);
      } else {
        SearchFromSucceeds(w, target, rank, id, sid, i + 1);
      }
    }
  }

  /**
   Completeness: any other unblocked match comes later in depth-first order, and when the search
   finds nothing there is none.
   */
  lemma {:induction false} SearchComplete(w: Wanted, target: Btf, rank: nat -> nat, id: TypeId, full: bool,
                                          other: seq<nat>)
    requires Contained(target, rank)
    requires SearchType(w, target, rank, id, full).Ok?
    requires Matches(w, target, id, other) && Unblocked(w, target, id, other, 0)
    ensures SearchType(w, target, rank, id, full).value.Some?
    ensures
      var h := SearchType(w, target, rank, id, full).value.value;
      h.path == other || LexLess(h.path, other)
    decreases RankOf(target, rank, id), 1, 0
  {
    SearchFromComplete(w, target, rank, id, Resolve(target, id).value, 0, full, other);
  }

  lemma {:induction false} SearchFromComplete(
    w: Wanted, target: Btf, rank: nat -> nat, id: TypeId, sid: TypeId, i: nat, full: bool, other: seq<nat>)
    requires Contained(target, rank)
    requires Resolve(target, id) == Ok(sid)
    requires sid < |target.types| && target.types[sid].HasMembers() && i <= |target.types[sid].members|
    requires SearchFrom(w, target, rank, sid, i, full).Ok?
    requires Matches(w, target, id, other) && Unblocked(w, target, id, other, i) && i <= other[0]
    ensures SearchFrom(w, target, rank, sid, i, full).value.Some?
    ensures
      var h := SearchFrom(w, target, rank, sid, i, full).value.value;
      h.path == other || LexLess(h.path, other)
    decreases rank(sid) + 1, 0, |target.types[sid].members| - i
  {
    var m := target.types[sid].members[i];
    var name := NameAt(target, m.nameOffset).value;
    if name == [] {
      assert SmallerInside(target, rank, sid, i);
      var inner := SearchType(w, target, rank, m.btfType, full);
      if i == other[0] {
        assert |other| > 1;
        SearchComplete(w, target, rank, m.btfType, full, other[1..]);
        var h := inner.value.value;
        assert ([i] + h.path)[1..] == h.path && other == [i] + other[1..];
      } else if inner.value.None? {
        SearchFromComplete(w, target, rank, id, sid, i + 1, full, other);
      }
    } else if name == w.name {
      assert i == other[0];
    } else {
      assert i < other[0];
      SearchFromComplete(w, target, rank, id, sid, i + 1, full, other);
    }
  }
}
