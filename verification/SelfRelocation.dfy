/**
 Relocating a field access against the very BTF it was compiled with gives the access back: the
 same accessors, and the same bit offset except for the root index, which one side scales to bytes
 and the other to bits.
 */
module SelfRelocation {
  import opened Instructions
  import opened Btf
  import opened MemberSearch
  import opened AccessSpecs

  // ---------- what is asked of the BTF ----------

  /**
   A member as compilers emit it: readable name, name offset 0 exactly when it has no name, type
   within the resolution depth; anonymous members are structs or unions, and a named member's type
   is compatible with itself.
   */
  ghost predicate MemberWellFormed(btf: Btf, id: nat, i: nat)
    requires id < |btf.types| && btf.types[id].HasMembers() && i < |btf.types[id].members|
  {
    var m := btf.types[id].members[i];
    && NameAt(btf, m.nameOffset).Ok?
    && (m.nameOffset == 0 <==> NameAt(btf, m.nameOffset).value == [])
    && Resolve(btf, m.btfType).Ok? && Resolve(btf, m.btfType).value < |btf.types|
    && (m.nameOffset == 0 ==> btf.types[Resolve(btf, m.btfType).value].HasMembers())
    && (m.nameOffset != 0 ==> FieldsCompatible(btf, m.btfType, btf, m.btfType) == Ok(true))
  }

  ghost predicate WellFormed(btf: Btf, rank: nat -> nat) {
    && Contained(btf, rank)
    && forall id, i :: 0 <= id < |btf.types| && btf.types[id].HasMembers() && 0 <= i < |btf.types[id].members| ==>
         MemberWellFormed(btf, id, i)
  }

  /** Within one type, anonymous members included, a name names one member only. */
  ghost predicate DistinctNames(btf: Btf) {
    forall id, p, q :: Chain(btf, id, p) && Chain(btf, id, q) && EndName(btf, id, p) == EndName(btf, id, q) ==> p == q
  }

  // ---------- the search finds the member it came from ----------

  lemma WellFormedReads(btf: Btf, rank: nat -> nat)
    requires WellFormed(btf, rank)
    ensures MembersReadable(btf)
  {
    forall id, i | 0 <= id < |btf.types| && btf.types[id].HasMembers() && 0 <= i < |btf.types[id].members|
      ensures MemberReadable(btf, id, i)
    {
      assert MemberWellFormed(btf, id, i);
    }
  }

  /** A named member is a chain of one. */
  lemma DirectMember(btf: Btf, id: TypeId, e: nat)
    requires Resolve(btf, id).Ok? && Resolve(btf, id).value < |btf.types|
    requires var ty := btf.types[Resolve(btf, id).value];
      && ty.HasMembers() && e < |ty.members|
      && NameAt(btf, ty.members[e].nameOffset).Ok? && NameAt(btf, ty.members[e].nameOffset).value != []
    ensures Chain(btf, id, [e])
    ensures ChainMember(btf, id, [e]) == btf.types[Resolve(btf, id).value].members[e]
  {
  }

  /** With distinct names nothing comes before the one member of that name. */
  lemma {:induction false} DistinctMeansUnblocked(w: Wanted, btf: Btf, id: TypeId, path: seq<nat>)
    requires DistinctNames(btf) && Chain(btf, id, path) && EndName(btf, id, path) == Ok(w.name)
    ensures Unblocked(w, btf, id, path, 0)
    decreases |path|
  {
    var members := btf.types[Resolve(btf, id).value].members;
    ChainEndsNamed(btf, id, path);
    forall e | 0 <= e < path[0]
      ensures NameAt(btf, members[e].nameOffset) != Ok(w.name)
    {
      if NameAt(btf, members[e].nameOffset) == Ok(w.name) {
        DirectMember(btf, id, e);
        assert false;
      }
    }
    if |path| > 1 {
      DistinctMeansUnblocked(w, btf, members[path[0]].btfType, path[1..]);
    }
  }

  lemma SearchFindsItself(btf: Btf, rank: nat -> nat, id: TypeId, path: seq<nat>)
    requires WellFormed(btf, rank) && DistinctNames(btf) && Chain(btf, id, path)
    ensures
      var m := ChainMember(btf, id, path);
      && NameAt(btf, m.nameOffset).Ok?
      && var w := Wanted(btf, NameAt(btf, m.nameOffset).value, m.btfType);
      SearchType(w, btf, rank, id, false)
        == Ok(Some(Hit(path, ChainType(btf, id, path), ChainOffset(btf, id, path), m.btfType)))
  {
    ChainEndsNamed(btf, id, path);
    var m := ChainMember(btf, id, path);
    var w := Wanted(btf, NameAt(btf, m.nameOffset).value, m.btfType);
    assert MemberWellFormed(btf, ChainType(btf, id, path), path[|path| - 1]);
    forall q | Chain(btf, id, q) && EndName(btf, id, q) == Ok(w.name)
      ensures FieldsCompatible(w.btf, w.btfType, btf, ChainMember(btf, id, q).btfType).Ok?
    {
      assert EndName(btf, id, q) == EndName(btf, id, path);
    }
    WellFormedReads(btf, rank);
    SearchSucceeds(w, btf, rank, id, false);
    DistinctMeansUnblocked(w, btf, id, path);
    SearchComplete(w, btf, rank, id, false, path);
    SearchSound(w, btf, rank, id, false);
    var h := SearchType(w, btf, rank, id, false).value.value;
    assert EndName(btf, id, h.path) == EndName(btf, id, path);
  }

  // ---------- anonymous stretches of a path ----------

  /** `path` leads from one type through anonymous members only to another, `bits` further on. */
  ghost predicate Leads(btf: Btf, from: TypeId, path: seq<nat>, to: TypeId, bits: nat)
    decreases |path|
  {
    if path == [] then from == to && bits == 0
    else
      && Resolve(btf, from).Ok?
      && var sid := Resolve(btf, from).value;
      && sid < |btf.types| && btf.types[sid].HasMembers() && path[0] < |btf.types[sid].members|
      && var m := btf.types[sid].members[path[0]];
      && NameAt(btf, m.nameOffset) == Ok([])
      && var own := btf.types[sid].MemberBitOffset(m);
      && own <= bits && Leads(btf, m.btfType, path[1..], to, bits - own)
  }

  lemma {:induction false} LeadsOn(btf: Btf, from: TypeId, path: seq<nat>, to: TypeId, bits: nat, i: nat)
    requires Leads(btf, from, path, to, bits)
    requires Resolve(btf, to).Ok? && Resolve(btf, to).value < |btf.types|
    requires var ty := btf.types[Resolve(btf, to).value];
      ty.HasMembers() && i < |ty.members| && NameAt(btf, ty.members[i].nameOffset) == Ok([])
    ensures
      var ty := btf.types[Resolve(btf, to).value];
      Leads(btf, from, path + [i], ty.members[i].btfType, bits + ty.MemberBitOffset(ty.members[i]))
    decreases |path|
  {
    if path == [] {
      assert (path + [i])[1..] == [];
    } else {
      var ty := btf.types[Resolve(btf, from).value];
      var m := ty.members[path[0]];
      LeadsOn(btf, m.btfType, path[1..], to, bits - ty.MemberBitOffset(m), i);
      assert (path + [i])[1..] == path[1..] + [i];
    }
  }

  lemma {:induction false} LeadsToMember(btf: Btf, from: TypeId, path: seq<nat>, to: TypeId, bits: nat, i: nat)
    requires Leads(btf, from, path, to, bits)
    requires Resolve(btf, to).Ok? && Resolve(btf, to).value < |btf.types|
    requires var ty := btf.types[Resolve(btf, to).value];
      && ty.HasMembers() && i < |ty.members|
      && NameAt(btf, ty.members[i].nameOffset).Ok? && NameAt(btf, ty.members[i].nameOffset).value != []
    ensures Chain(btf, from, path + [i])
    ensures ChainType(btf, from, path + [i]) == Resolve(btf, to).value
    ensures
      var ty := btf.types[Resolve(btf, to).value];
      ChainOffset(btf, from, path + [i]) == bits + ty.MemberBitOffset(ty.members[i])
    decreases |path|
  {
    if path != [] {
      var ty := btf.types[Resolve(btf, from).value];
      var m := ty.members[path[0]];
      LeadsToMember(btf, m.btfType, path[1..], to, bits - ty.MemberBitOffset(m), i);
      assert (path + [i])[1..] == path[1..] + [i];
    }
  }

  /** After an anonymous member the path is inside a struct or union. */
  lemma {:induction false} LeadsInside(btf: Btf, rank: nat -> nat, from: TypeId, path: seq<nat>, to: TypeId, bits: nat)
    requires WellFormed(btf, rank) && Leads(btf, from, path, to, bits) && path != []
    ensures Resolve(btf, to).Ok? && Resolve(btf, to).value < |btf.types|
    ensures btf.types[Resolve(btf, to).value].HasMembers()
    decreases |path|
  {
    var sid := Resolve(btf, from).value;
    assert MemberWellFormed(btf, sid, path[0]);
    if |path| > 1 {
      var m := btf.types[sid].members[path[0]];
      LeadsInside(btf, rank, m.btfType, path[1..], to, bits - btf.types[sid].MemberBitOffset(m));
    }
  }

  // ---------- the two walks side by side ----------

  /** Matching the accessors so far got exactly to where the last of them left the path. */
  ghost predicate Abreast(btf: Btf, root: TypeId, parts: seq<nat>, w: Walk, m: Match)
    requires parts != []
  {
    && m.accessors == w.Accessors()
    && m.targetId == w.base
    && |m.parts| + |w.anonymous| == |parts|
    && m.bitOffset + w.anonymousBits == w.bitOffset + 7 * (parts[0] * RootSize(btf, root))
    && Leads(btf, w.base, w.anonymous, w.typeId, w.anonymousBits)
  }

  lemma NamedStepAbreast(btf: Btf, rank: nat -> nat, root: TypeId, parts: seq<nat>, w: Walk, m: Match, index: nat,
                         w': Walk)
    requires WellFormed(btf, rank) && DistinctNames(btf)
    requires parts != [] && |m.parts| != MAX_SPEC_LEN && Abreast(btf, root, parts, w, m)
    requires WalkStep(btf, w, index) == Ok(w') && w'.last.name.Some? && w'.done == w.Accessors()
    ensures
      var step := MatchStep(btf, btf, rank, m, w'.last);
      step.Ok? && step.value.Some? && Abreast(btf, root, parts + [index], w', step.value.value)
  {
    hide SearchType, SearchFrom, SizeWithin, DistinctNames, IsFlexArray, StringAt, CompatibleWithin, ChainType, ChainOffset;
    var t := Resolve(btf, w.typeId).value;
    ResolvedType(btf, w.typeId, MAX_RESOLVE_DEPTH);
    assert MemberWellFormed(btf, t, index);
    var path := w.anonymous + [index];
    LeadsToMember(btf, w.base, w.anonymous, w.typeId, w.anonymousBits, index);
    var base := Resolve(btf, w.base).value;
    ResolvedType(btf, w.base, MAX_RESOLVE_DEPTH);
    SameChain(btf, w.base, base, path);
    SearchFindsItself(btf, rank, base, path);
    ReversedLength(path);
  }

  /** A chain from a type is a chain from the type it resolves to. */
  lemma SameChain(btf: Btf, id: TypeId, resolved: TypeId, path: seq<nat>)
    requires Chain(btf, id, path) && Resolve(btf, id) == Ok(resolved) && Resolve(btf, resolved) == Ok(resolved)
    ensures Chain(btf, resolved, path)
    ensures ChainType(btf, resolved, path) == ChainType(btf, id, path)
    ensures ChainOffset(btf, resolved, path) == ChainOffset(btf, id, path)
  {
  }

  lemma AnonymousStepAbreast(btf: Btf, rank: nat -> nat, root: TypeId, parts: seq<nat>, w: Walk, m: Match,
                             index: nat, w': Walk)
    requires WellFormed(btf, rank)
    requires parts != [] && Abreast(btf, root, parts, w, m)
    requires WalkStep(btf, w, index) == Ok(w') && w'.done == w.done
    ensures w'.last == w.last && Abreast(btf, root, parts + [index], w', m)
  {
    hide SizeWithin;
    var t := Resolve(btf, w.typeId).value;
    ResolvedType(btf, w.typeId, MAX_RESOLVE_DEPTH);
    assert |w.Accessors()| == |w.done| + 1;
    assert MemberWellFormed(btf, t, index);
    LeadsOn(btf, w.base, w.anonymous, w.typeId, w.anonymousBits, index);
  }

  lemma ElementStepAbreast(btf: Btf, rank: nat -> nat, root: TypeId, parts: seq<nat>, w: Walk, m: Match, index: nat,
                           w': Walk)
    requires WellFormed(btf, rank)
    requires parts != [] && |m.parts| != MAX_SPEC_LEN && Abreast(btf, root, parts, w, m)
    requires WalkStep(btf, w, index) == Ok(w') && w'.last.name.None? && w'.done == w.Accessors()
    ensures
      var step := MatchStep(btf, btf, rank, m, w'.last);
      step.Ok? && step.value.Some? && Abreast(btf, root, parts + [index], w', step.value.value)
  {
    hide SizeWithin, SearchType, SearchFrom;
    var t := Resolve(btf, w.typeId).value;
    ResolvedType(btf, w.typeId, MAX_RESOLVE_DEPTH);
    assert |w.Accessors()| == |w.done| + 1;
    if w.anonymous != [] {
      LeadsInside(btf, rank, w.base, w.anonymous, w.typeId, w.anonymousBits);
    }
  }

  // ---------- paths longer than a spec ----------

  /** How many parts the accessors stand for: all but the anonymous members at the end. */
  ghost function Closed(btf: Btf, root: TypeId, parts: seq<nat>): int
    requires parts != [] && WalkAll(btf, root, parts).Ok?
  {
    |parts| - |WalkAll(btf, root, parts).value.anonymous|
  }

  /**
   The source refuses a spec of exactly 64 parts that is to grow. A longer path gets past when its
   64th part is an anonymous member: the parts of a chain are pushed together.
   */
  ghost predicate FitsSpec(btf: Btf, root: TypeId, parts: seq<nat>)
    requires parts != [] && WalkAll(btf, root, parts).Ok?
  {
    Closed(btf, root, parts) > MAX_SPEC_LEN ==>
      && |parts| > MAX_SPEC_LEN
      && WalkAll(btf, root, parts[..MAX_SPEC_LEN]).Ok?
      && WalkAll(btf, root, parts[..MAX_SPEC_LEN]).value.anonymous != []
  }

  lemma WalkPrefix(btf: Btf, root: TypeId, parts: seq<nat>, k: nat)
    requires 1 <= k <= |parts| && WalkAll(btf, root, parts).Ok?
    ensures WalkAll(btf, root, parts[..k]).Ok?
  {
    if WalkAll(btf, root, parts[..k]).Err? {
      FailsForGood(btf, root, parts, k);
    }
  }

  /** A step goes through one more anonymous member, or closes everything so far. */
  lemma StepCloses(btf: Btf, w: Walk, index: nat)
    requires WalkStep(btf, w, index).Ok?
    ensures
      var w' := WalkStep(btf, w, index).value;
      if w'.done == w.done then w'.last == w.last && |w'.anonymous| == |w.anonymous| + 1
      else w'.done == w.Accessors() && w'.anonymous == []
  {
    assert |w.Accessors()| == |w.done| + 1;
  }

  /** Up to there, nothing is anonymous at the end. */
  lemma {:induction false} ClosedThere(btf: Btf, root: TypeId, parts: seq<nat>)
    requires parts != [] && WalkAll(btf, root, parts).Ok?
    ensures
      var k := Closed(btf, root, parts);
      && 1 <= k <= |parts| && WalkAll(btf, root, parts[..k]).Ok?
      && WalkAll(btf, root, parts[..k]).value.anonymous == []
    decreases |parts|
  {
    hide WalkStep;
    var last := |parts| - 1;
    if last == 0 {
      assert parts[..1] == parts;
    } else {
      var before := parts[..last];
      ClosedThere(btf, root, before);
      StepCloses(btf, WalkAll(btf, root, before).value, parts[last]);
      var k := Closed(btf, root, parts);
      assert parts[..|parts|] == parts;
      assert k <= last ==> before[..k] == parts[..k];
    }
  }

  /** What is closed stays closed. */
  lemma {:induction false} ClosedStays(btf: Btf, root: TypeId, parts: seq<nat>, k: nat)
    requires 1 <= k <= |parts| && WalkAll(btf, root, parts).Ok? && WalkAll(btf, root, parts[..k]).Ok?
    requires WalkAll(btf, root, parts[..k]).value.anonymous == []
    ensures Closed(btf, root, parts) >= k
    decreases |parts|
  {
    hide WalkStep;
    if k == |parts| {
      assert parts[..k] == parts;
    } else {
      var before := parts[..|parts| - 1];
      assert before[..k] == parts[..k];
      ClosedStays(btf, root, before, k);
      StepCloses(btf, WalkAll(btf, root, before).value, parts[|parts| - 1]);
    }
  }

  /** One part less: whether the path fits, and that the spec is not full when it grows. */
  lemma FitsBefore(btf: Btf, root: TypeId, parts: seq<nat>)
    requires |parts| > 1 && WalkAll(btf, root, parts).Ok? && FitsSpec(btf, root, parts)
    ensures
      var before := parts[..|parts| - 1];
      && WalkAll(btf, root, before).Ok? && FitsSpec(btf, root, before)
      && (Closed(btf, root, before) == MAX_SPEC_LEN ==> Closed(btf, root, parts) == Closed(btf, root, before))
  {
    hide WalkAll;
    var before := parts[..|parts| - 1];
    WalkPrefix(btf, root, parts, |parts| - 1);
    ClosedThere(btf, root, before);
    LastStep(btf, root, parts);
    if |before| >= MAX_SPEC_LEN {
      assert before[..MAX_SPEC_LEN] == parts[..MAX_SPEC_LEN];
    }
  }

  lemma LastStep(btf: Btf, root: TypeId, parts: seq<nat>)
    requires |parts| > 1 && WalkAll(btf, root, parts).Ok? && WalkAll(btf, root, parts[..|parts| - 1]).Ok?
    ensures
      var w, w' := WalkAll(btf, root, parts[..|parts| - 1]).value, WalkAll(btf, root, parts).value;
      && WalkStep(btf, w, parts[|parts| - 1]) == Ok(w')
      && if w'.done == w.done
         then w'.last == w.last && Closed(btf, root, parts) == Closed(btf, root, parts[..|parts| - 1])
         else w'.done == w.Accessors() && w'.anonymous == [] && Closed(btf, root, parts) == |parts|
  {
    hide WalkStep;
    StepCloses(btf, WalkAll(btf, root, parts[..|parts| - 1]).value, parts[|parts| - 1]);
  }

  /** The accessors of the access, matched against its own BTF, stay abreast of the path. */
  lemma {:induction false} MatchingKeepsAbreast(btf: Btf, rank: nat -> nat, root: TypeId, parts: seq<nat>)
    requires WellFormed(btf, rank) && DistinctNames(btf)
    requires parts != [] && WalkAll(btf, root, parts).Ok? && FitsSpec(btf, root, parts)
    ensures
      var w := WalkAll(btf, root, parts).value;
      var m := MatchAll(btf, btf, rank, root, w.Accessors());
      m.Ok? && m.value.Some? && Abreast(btf, root, parts, w, m.value.value)
    decreases |parts|
  {
    hide SearchType, SearchFrom, DistinctNames, Abreast, MatchStep, WalkStep, RootSize, FitsSpec;
    var last := |parts| - 1;
    var w' := WalkAll(btf, root, parts).value;
    if last == 0 {
      RootAbreast(btf, rank, root, parts);
    } else {
      var before := parts[..last];
      FitsBefore(btf, root, parts);
      var w := WalkAll(btf, root, before).value;
      MatchingKeepsAbreast(btf, rank, root, before);
      var m := MatchAll(btf, btf, rank, root, w.Accessors()).value.value;
      assert parts == before + [parts[last]];
      LastStep(btf, root, parts);
      if w'.done == w.done {
        AnonymousStepAbreast(btf, rank, root, before, w, m, parts[last], w');
      } else {
        MatchOneMore(btf, rank, root, w.Accessors(), w'.last);
        AbreastLength(btf, root, before, w, m);
        if w'.last.name.Some? {
          NamedStepAbreast(btf, rank, root, before, w, m, parts[last], w');
        } else {
          ElementStepAbreast(btf, rank, root, before, w, m, parts[last], w');
        }
      }
    }
  }

  lemma AbreastLength(btf: Btf, root: TypeId, parts: seq<nat>, w: Walk, m: Match)
    requires parts != [] && Abreast(btf, root, parts, w, m)
    ensures |m.parts| == |parts| - |w.anonymous|
  {
  }

  lemma MatchOneMore(btf: Btf, rank: nat -> nat, candidate: TypeId, accessors: seq<Accessor>, a: Accessor)
    requires Contained(btf, rank)
    requires MatchAll(btf, btf, rank, candidate, accessors).Ok?
    requires MatchAll(btf, btf, rank, candidate, accessors).value.Some?
    ensures MatchAll(btf, btf, rank, candidate, accessors + [a])
         == MatchStep(btf, btf, rank, MatchAll(btf, btf, rank, candidate, accessors).value.value, a)
  {
  }

  lemma RootAbreast(btf: Btf, rank: nat -> nat, root: TypeId, parts: seq<nat>)
    requires Contained(btf, rank)
    requires |parts| == 1 && WalkAll(btf, root, parts).Ok?
    ensures
      var w := WalkAll(btf, root, parts).value;
      var m := MatchAll(btf, btf, rank, root, w.Accessors());
      m.Ok? && m.value.Some? && Abreast(btf, root, parts, w, m.value.value)
  {
  }

  lemma FullSearch(w: Wanted, btf: Btf, rank: nat -> nat, id: TypeId)
    requires Contained(btf, rank) && Resolve(btf, id) == Ok(id)
    requires id < |btf.types| && btf.types[id].HasMembers() && btf.types[id].members != []
    ensures SearchType(w, btf, rank, id, true) == Err(MaximumNestingLevelReached)
  {
  }

  /** A full spec refuses the next member or element. */
  lemma StepRefused(btf: Btf, rank: nat -> nat, root: TypeId, parts: seq<nat>, w: Walk, m: Match, index: nat, w': Walk)
    requires WellFormed(btf, rank)
    requires parts != [] && |m.parts| == MAX_SPEC_LEN && Abreast(btf, root, parts, w, m)
    requires WalkStep(btf, w, index) == Ok(w') && w'.done == w.Accessors()
    ensures MatchStep(btf, btf, rank, m, w'.last) == Err(MaximumNestingLevelReached)
  {
    hide SizeWithin, StringAt, CompatibleWithin, ResolveWithin;
    var t := Resolve(btf, w.typeId).value;
    ResolvedType(btf, w.typeId, MAX_RESOLVE_DEPTH);
    ResolvedType(btf, w.base, MAX_RESOLVE_DEPTH);
    assert |w.Accessors()| == |w.done| + 1;
    if w'.last.name.Some? {
      assert MemberWellFormed(btf, t, index);
      assert WantedBy(btf, w'.last).Ok?;
      var base := Resolve(btf, w.base).value;
      assert btf.types[base].HasMembers() && btf.types[base].members != [];
      FullSearch(WantedBy(btf, w'.last).value, btf, rank, base);
    } else if w.anonymous != [] {
      LeadsInside(btf, rank, w.base, w.anonymous, w.typeId, w.anonymousBits);
    }
  }

  /** An access that does not fit fails where its 65th part would be recorded. */
  lemma {:induction false} OutgrowsSpec(btf: Btf, rank: nat -> nat, root: TypeId, parts: seq<nat>)
    requires WellFormed(btf, rank) && DistinctNames(btf)
    requires parts != [] && WalkAll(btf, root, parts).Ok? && !FitsSpec(btf, root, parts)
    ensures MatchAll(btf, btf, rank, root, WalkAll(btf, root, parts).value.Accessors()) == Err(MaximumNestingLevelReached)
    decreases |parts|
  {
    hide SearchType, SearchFrom, DistinctNames, WellFormed, Contained, Abreast, MatchStep, WalkStep, RootSize, FitsSpec;
    var last := |parts| - 1;
    LastDoesNotFit(btf, root, parts);
    var before := parts[..last];
    LastStep(btf, root, parts);
    var w, w' := WalkAll(btf, root, before).value, WalkAll(btf, root, parts).value;
    WellFormedContains(btf, rank);
    if FitsSpec(btf, root, before) {
      MatchingKeepsAbreast(btf, rank, root, before);
      var m := MatchAll(btf, btf, rank, root, w.Accessors()).value.value;
      AbreastLength(btf, root, before, w, m);
      MatchOneMore(btf, rank, root, w.Accessors(), w'.last);
      StepRefused(btf, rank, root, before, w, m, parts[last], w');
    } else {
      OutgrowsSpec(btf, rank, root, before);
      if w'.done != w.done {
        FailedBefore(btf, rank, root, w.Accessors(), w'.last);
      }
    }
  }

  lemma WellFormedContains(btf: Btf, rank: nat -> nat)
    requires WellFormed(btf, rank)
    ensures Contained(btf, rank)
  {
  }

  lemma FailedBefore(btf: Btf, rank: nat -> nat, candidate: TypeId, accessors: seq<Accessor>, a: Accessor)
    requires Contained(btf, rank) && MatchAll(btf, btf, rank, candidate, accessors).Err?
    ensures MatchAll(btf, btf, rank, candidate, accessors + [a]) == MatchAll(btf, btf, rank, candidate, accessors)
  {
  }

  /** A path that does not fit, while one part less did, closes a member or element after 64 parts. */
  lemma LastDoesNotFit(btf: Btf, root: TypeId, parts: seq<nat>)
    requires parts != [] && WalkAll(btf, root, parts).Ok? && !FitsSpec(btf, root, parts)
    ensures |parts| > MAX_SPEC_LEN
    ensures
      var before := parts[..|parts| - 1];
      && WalkAll(btf, root, before).Ok?
      && (FitsSpec(btf, root, before) ==>
            Closed(btf, root, before) == MAX_SPEC_LEN < Closed(btf, root, parts))
  {
    hide WalkAll;
    var before := parts[..|parts| - 1];
    ClosedThere(btf, root, parts);
    WalkPrefix(btf, root, parts, |parts| - 1);
    WalkPrefix(btf, root, parts, MAX_SPEC_LEN);
    LastStep(btf, root, parts);
    assert before[..MAX_SPEC_LEN] == parts[..MAX_SPEC_LEN];
    ClosedStays(btf, root, before, MAX_SPEC_LEN);
  }

  /**
   Relocating an access against its own BTF gives back its accessors, and its bit offset shifted by
   7/8 of the root index; an access that stops at an anonymous member misses that stretch's bits. It
   succeeds exactly when the access fits into a spec.
   */
  lemma SelfMatch(btf: Btf, rank: nat -> nat, root: TypeId, parts: seq<nat>)
    requires WellFormed(btf, rank) && DistinctNames(btf)
    requires parts != [] && WalkAll(btf, root, parts).Ok?
    ensures
      var w := WalkAll(btf, root, parts).value;
      var m := MatchAll(btf, btf, rank, root, w.Accessors());
      if FitsSpec(btf, root, parts) then
        && m.Ok? && m.value.Some?
        && m.value.value.accessors == w.Accessors()
        && m.value.value.bitOffset + w.anonymousBits == w.bitOffset + 7 * (parts[0] * RootSize(btf, root))
        && (w.anonymous == [] ==> w.anonymousBits == 0)
      else m == Err(MaximumNestingLevelReached)
  {
    hide MatchAll, WalkAll, RootSize, SearchType, SearchFrom, WellFormed, DistinctNames, FitsSpec;
    if FitsSpec(btf, root, parts) {
      MatchingKeepsAbreast(btf, rank, root, parts);
    } else {
      OutgrowsSpec(btf, rank, root, parts);
    }
  }

  /** A path that ends at a named member or element fits when it is no longer than a spec, or steps over its end. */
  lemma FitsExactly(btf: Btf, root: TypeId, parts: seq<nat>)
    requires parts != [] && WalkAll(btf, root, parts).Ok? && WalkAll(btf, root, parts).value.anonymous == []
    ensures |parts| > MAX_SPEC_LEN ==> WalkAll(btf, root, parts[..MAX_SPEC_LEN]).Ok?
    ensures FitsSpec(btf, root, parts) <==>
      |parts| <= MAX_SPEC_LEN || WalkAll(btf, root, parts[..MAX_SPEC_LEN]).value.anonymous != []
  {
    hide WalkAll;
    if |parts| > MAX_SPEC_LEN {
      WalkPrefix(btf, root, parts, MAX_SPEC_LEN);
    }
  }

  /**
   For an access that ends at a named member or an array element, self-relocation succeeds exactly when
   the path has at most 64 parts or its 64th is an anonymous member; it is then the identity, in the 64
   bits of a spec, exactly when the byte offset of the root index is zero in 64 bits; so, short of an
   overflow, when the root index is zero or the root type is empty.
   */
  lemma SelfRelocationIsIdentity(btf: Btf, rank: nat -> nat, root: TypeId, parts: seq<nat>)
    requires WellFormed(btf, rank) && DistinctNames(btf)
    requires parts != [] && WalkAll(btf, root, parts).Ok?
    requires WalkAll(btf, root, parts).value.anonymous == []
    ensures |parts| > MAX_SPEC_LEN ==> WalkAll(btf, root, parts[..MAX_SPEC_LEN]).Ok?
    ensures
      var w := WalkAll(btf, root, parts).value;
      var m := MatchAll(btf, btf, rank, root, w.Accessors());
      var bytes := parts[0] * RootSize(btf, root);
      if |parts| <= MAX_SPEC_LEN || WalkAll(btf, root, parts[..MAX_SPEC_LEN]).value.anonymous != [] then
        && m.Ok? && m.value.Some?
        && m.value.value.accessors == w.Accessors()
        && (WrapU64(m.value.value.bitOffset) == WrapU64(w.bitOffset) <==> WrapU64(bytes) == 0)
        && (bytes < 0x1_0000_0000_0000_0000 ==> (WrapU64(bytes) == 0 <==> parts[0] == 0 || RootSize(btf, root) == 0))
      else m == Err(MaximumNestingLevelReached)
  {
    hide *;
    SelfMatch(btf, rank, root, parts);
    FitsExactly(btf, root, parts);
    SevenTimes(WalkAll(btf, root, parts).value.bitOffset, parts[0] * RootSize(btf, root));
    ProductIsZero(parts[0], RootSize(btf, root));
    SmallIsItself(parts[0] * RootSize(btf, root));
  }

  lemma SmallIsItself(x: nat)
    ensures x < 0x1_0000_0000_0000_0000 ==> WrapU64(x) == x
  {
  }

  /** Seven is odd, so seven times a number vanishes in 64 bits only when the number does. */
  lemma SevenTimes(a: nat, x: nat)
    ensures WrapU64(a + 7 * x) == WrapU64(a) <==> WrapU64(x) == 0
  {
    var q, r := x / 0x1_0000_0000_0000_0000, WrapU64(x);
    assert x == q * 0x1_0000_0000_0000_0000 + r;
    assert WrapU64(a + 7 * x) == WrapU64(a + 7 * r);
  }

  lemma ProductIsZero(a: nat, b: nat)
    ensures a * b == 0 <==> a == 0 || b == 0
  {
  }

  /** The second of two four-byte values: four bits in, by the local spec, and 32 by the target's. */
  lemma RootIndexShows()
    ensures
      var btf, rank := Btf([Unknown, Struct(0, false, 4, [])], []), _ => 0;
      && WellFormed(btf, rank) && DistinctNames(btf)
      && WalkAll(btf, 1, [1]).Ok? && WalkAll(btf, 1, [1]).value.bitOffset == 4
      && var m := MatchAll(btf, btf, rank, 1, WalkAll(btf, 1, [1]).value.Accessors());
      && m.Ok? && m.value.Some? && m.value.value.bitOffset == 32
  {
    var btf, rank: nat -> nat := Btf([Unknown, Struct(0, false, 4, [])], []), _ => 0;
    assert Resolve(btf, 1) == Ok(1);
    assert TypeSize(btf, 1) == Ok(4);
    assert WalkAll(btf, 1, [1]) == WalkRoot(btf, 1, 1);
    SelfMatch(btf, rank, 1, [1]);
  }

  // ---------- a path that is too long ----------

  // Structs nested 64 deep, each in a member x of the one before it, with an integer inside the last.
  const DEPTH: nat := 64

  function LevelAt(i: nat): BtfType {
    if i == 0 then Unknown
    else if i == DEPTH + 1 then Int(0, 4, 32)
    else Struct(0, false, 4, [Member(1, i + 1, 0)])
  }

  function Nest(): Btf {
    Btf(seq(DEPTH + 2, i requires 0 <= i < DEPTH + 2 => LevelAt(i)), [0, 120, 0])
  }

  ghost function Flat(id: nat): nat { 0 }

  lemma NameInNest()
    ensures NameAt(Nest(), 1) == Ok([120])
  {
    assert StringAt([0, 120, 0], 2) == Some([]);
    assert [120] + [] == [120];
  }

  lemma LevelResolves(i: nat)
    requires i < DEPTH + 2
    ensures Resolve(Nest(), i) == Ok(i) && Nest().types[i] == LevelAt(i)
    ensures i > 0 ==> TypeSize(Nest(), i) == Ok(4) && FieldsCompatible(Nest(), i, Nest(), i) == Ok(true)
  {
    hide StringAt;
  }

  lemma NestIsWellFormed()
    ensures WellFormed(Nest(), Flat) && DistinctNames(Nest())
  {
    hide StringAt, ResolveWithin, CompatibleWithin, Nest;
    NameInNest();
    forall id, i | 0 <= id < |Nest().types| && Nest().types[id].HasMembers() && 0 <= i < |Nest().types[id].members|
      ensures SmallerInside(Nest(), Flat, id, i) && MemberWellFormed(Nest(), id, i)
    {
      NestLength();
      LevelResolves(id);
      LevelResolves(id + 1);
    }
    forall id, p, q | Chain(Nest(), id, p) && Chain(Nest(), id, q)
      ensures p == q
    {
      OnlyOneChain(id, p);
      OnlyOneChain(id, q);
    }
  }

  lemma NestLength()
    ensures |Nest().types| == DEPTH + 2
  {
  }

  lemma OnlyOneChain(id: TypeId, p: seq<nat>)
    requires Chain(Nest(), id, p)
    ensures p == [0]
  {
    hide StringAt, ResolveWithin, Nest;
    var sid := Resolve(Nest(), id).value;
    NestLength();
    LevelResolves(sid);
    NameInNest();
  }

  /** The path that goes down one level with every part. */
  function Down(n: nat): seq<nat> {
    seq(n, _ => 0)
  }

  lemma {:induction false} WalkDown(n: nat)
    requires 1 <= n <= DEPTH + 1
    ensures
      var w := WalkAll(Nest(), 1, Down(n));
      && w.Ok? && w.value.typeId == n && w.value.anonymous == []
    decreases n
  {
    hide StringAt, ResolveWithin, SizeWithin, Nest;
    NestLength();
    LevelResolves(1);
    if n > 1 {
      WalkDown(n - 1);
      assert Down(n)[..n - 1] == Down(n - 1);
      LevelResolves(n - 1);
      NameInNest();
    }
  }

  /** 65 parts, none anonymous: the access is read, and not found in the very BTF it was read from. */
  lemma TooLongShows()
    ensures WellFormed(Nest(), Flat) && DistinctNames(Nest())
    ensures
      var w := WalkAll(Nest(), 1, Down(65));
      && w.Ok? && w.value.anonymous == []
      && MatchAll(Nest(), Nest(), Flat, 1, w.value.Accessors()) == Err(MaximumNestingLevelReached)
  {
    hide WalkAll, MatchAll, WellFormed, DistinctNames, Nest;
    NestIsWellFormed();
    WalkDown(65);
    WalkDown(64);
    assert Down(65)[..64] == Down(64);
    SelfRelocationIsIdentity(Nest(), Flat, 1, Down(65));
  }
}
