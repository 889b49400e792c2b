/**
 A kernel with two structs of one name, whose member x has four bytes in one and eight in the other.
 Both are candidates for the program's struct and put x at offset 0, so they do not conflict; which
 load the program is left with is decided by the order of the two in the kernel's table.
 */
module AmbiguousCandidates {
  import opened Instructions
  import opened Btf
  import opened MemberSearch
  import opened AccessSpecs
  import opened CoreRelocation
  import opened CoreProperties
  import B = Bitfields

  // The string section: "s" at 1, "x" at 3.
  const NAMES: seq<Byte> := [0, 115, 0, 120, 0]

  /** A struct s with one member x at offset 0. */
  function OneMember(size: U32, member: TypeId): BtfType {
    Struct(1, false, size, [Member(3, member, 0)])
  }

  /** A table with u32 as type 1, u64 as type 2, and two structs s. */
  function TwoStructs(first: BtfType, second: BtfType): Btf {
    Btf([Unknown, Int(0, 4, 32), Int(0, 8, 64), first, second], NAMES)
  }

  // The program's own s has a u32.
  const OWN: Btf := Btf([Unknown, Int(0, 4, 32), Int(0, 8, 64), OneMember(4, 1)], NAMES)

  function Against(target: Btf): Env {
    Env(OWN, target, B.LittleEndian)
  }

  // The offset of x in s, for a load of four bytes.
  const OFFSET_OF_X: Reloc := Reloc(Field(B.FieldByteOffset), 0, 3, 0, Some(Path(0, [0])))
  const OWN_ACCESS: Spec := Spec(3, [Accessor(3, 0, None), Accessor(3, 0, Some([120]))], 0)
  const LOAD_WORD: Insn := Insn(0x61, 0, 1, 0, 0)
  const LOAD_DOUBLE: Insn := Insn(0x79, 0, 1, 0, 0)

  lemma NamesRead(types: seq<BtfType>)
    ensures NameAt(Btf(types, NAMES), 0) == Ok([])
    ensures NameAt(Btf(types, NAMES), 1) == Ok([115])
    ensures NameAt(Btf(types, NAMES), 3) == Ok([120])
  {
    assert StringAt(NAMES, 2) == Some([]) && StringAt(NAMES, 4) == Some([]);
    assert [115] + [] == [115] && [120] + [] == [120];
    assert StringAt(NAMES, 1) == Some([115]) && StringAt(NAMES, 3) == Some([120]);
  }

  lemma OwnAccess()
    ensures LocalSpec(OWN, OFFSET_OF_X) == Ok(OWN_ACCESS)
  {
    hide StringAt;
    NamesRead(OWN.types);
    assert Resolve(OWN, 3) == Ok(3) && TypeSize(OWN, 3) == Ok(4);
    assert [0, 0][..1] == [0];
    assert WalkAll(OWN, 3, [0]) == WalkRoot(OWN, 3, 0);
    var root := Walk(3, [], Accessor(3, 0, None), 0, 3, [], 0);
    assert WalkRoot(OWN, 3, 0) == Ok(root);
    assert root.Accessors() == [Accessor(3, 0, None)];
    var x := Walk(1, [Accessor(3, 0, None)], Accessor(3, 0, Some([120])), 0, 1, [], 0);
    assert WalkStep(OWN, root, 0) == Ok(x);
    assert WalkAll(OWN, 3, [0, 0]) == WalkStep(OWN, root, 0);
    assert x.Accessors() == OWN_ACCESS.accessors;
    assert OFFSET_OF_X.path.value.Parts() == [0, 0];
  }

  ghost function NoRank(id: nat): nat { 0 }

  ghost function NoRanks(): Ranks { Ranks(NoRank, NoRank) }

  // The members have names and there are no prototypes, so both searches end.
  lemma TablesContained(target: Btf, size: U32, member: TypeId, otherSize: U32, other: TypeId)
    requires target == TwoStructs(OneMember(size, member), OneMember(otherSize, other))
    ensures Grounded(Against(target), NoRanks())
  {
    hide StringAt;
    NamesRead(target.types);
  }

  predicate IsS(target: Btf, candidate: TypeId, size: U32, member: TypeId) {
    && candidate in {3, 4} && |target.types| == 5 && target.strings == NAMES
    && target.types[1] == Int(0, 4, 32) && target.types[2] == Int(0, 8, 64)
    && target.types[candidate] == OneMember(size, member)
    && (member, size) in {(1, 4), (2, 8)}
  }

  lemma RootMatches(target: Btf, candidate: TypeId, size: U32, member: TypeId)
    requires IsS(target, candidate, size, member) && Contained(target, NoRank)
    ensures MatchAll(OWN, target, NoRank, candidate, [Accessor(3, 0, None)])
      == Ok(Some(Match(candidate, [0], [Accessor(candidate, 0, None)], 0)))
  {
    hide StringAt, Contained, SearchType;
    assert Resolve(target, candidate) == Ok(candidate) && TypeSize(target, candidate) == Ok(size);
    var root, start := Accessor(3, 0, None), Match(candidate, [], [], 0);
    OneMore(target, candidate, [], root);
    assert [] + [root] == [root];
    assert MatchStep(OWN, target, NoRank, start, root) == MatchIndex(target, start, 0, candidate);
    assert start.parts + [0] == [0];
    assert start.accessors + [Accessor(candidate, 0, None)] == [Accessor(candidate, 0, None)];
    assert 0 * size * 8 == 0;
  }

  /** The access, matched against either struct. */
  lemma AccessMatches(target: Btf, candidate: TypeId, size: U32, member: TypeId)
    requires IsS(target, candidate, size, member) && Contained(target, NoRank)
    ensures MatchAll(OWN, target, NoRank, candidate, OWN_ACCESS.accessors)
      == Ok(Some(Match(member, [0, 0], [Accessor(candidate, 0, None), Accessor(candidate, 0, Some([120]))], 0)))
  {
    hide StringAt, Contained, SearchType, MatchAll;
    NamesRead(OWN.types);
    assert Resolve(target, candidate) == Ok(candidate);
    var root, x := Accessor(3, 0, None), Accessor(3, 0, Some([120]));
    var m := Match(candidate, [0], [Accessor(candidate, 0, None)], 0);
    RootMatches(target, candidate, size, member);
    OneMore(target, candidate, [root], x);
    assert [root] + [x] == OWN_ACCESS.accessors;
    MemberFound(target, candidate, size, member);
    assert MatchStep(OWN, target, NoRank, m, x) == MatchNamed(OWN, target, NoRank, m, x, candidate);
    ReversedOne(0);
    assert WantedBy(OWN, x) == Ok(Wanted(OWN, [120], 1));
    assert m.parts + [0] == [0, 0];
    assert m.accessors + [Accessor(candidate, 0, Some([120]))]
        == [Accessor(candidate, 0, None), Accessor(candidate, 0, Some([120]))];
  }

  lemma OneMore(target: Btf, candidate: TypeId, accessors: seq<Accessor>, a: Accessor)
    requires Contained(target, NoRank)
    requires MatchAll(OWN, target, NoRank, candidate, accessors).Ok?
    requires MatchAll(OWN, target, NoRank, candidate, accessors).value.Some?
    ensures MatchAll(OWN, target, NoRank, candidate, accessors + [a])
         == MatchStep(OWN, target, NoRank, MatchAll(OWN, target, NoRank, candidate, accessors).value.value, a)
  {
  }

  lemma MemberFound(target: Btf, candidate: TypeId, size: U32, member: TypeId)
    requires IsS(target, candidate, size, member) && Contained(target, NoRank)
    ensures SearchType(Wanted(OWN, [120], 1), target, NoRank, candidate, false) == Ok(Some(Hit([0], candidate, 0, member)))
  {
    hide StringAt;
    NamesRead(target.types);
    assert target == Btf(target.types, NAMES);
    assert Resolve(target, candidate) == Ok(candidate);
    assert Resolve(OWN, 1) == Ok(1) && Resolve(target, member) == Ok(member);
    assert FieldsCompatible(OWN, 1, target, member) == Ok(true);
  }

  /** What the relocation would write if only this struct matched. */
  function ValuesFor(size: U32, member: TypeId): Values {
    Values(B.Computed(0, 4, Some(1)), Some(B.Computed(0, size, Some(member))))
  }

  lemma OffsetOfX(btf: Btf, candidate: TypeId, size: U32, member: TypeId)
    requires IsS(btf, candidate, size, member)
    ensures
      var spec := Spec(candidate, [Accessor(candidate, 0, None), Accessor(candidate, 0, Some([120]))], 0);
      ComputeField(btf, B.LittleEndian, Field(B.FieldByteOffset), Some(spec)) == Ok(B.Computed(0, size, Some(member)))
  {
    assert Resolve(btf, member) == Ok(member) && TypeSize(btf, member) == Ok(size);
    assert B.PlanOf(btf, candidate, 0, 0) == Ok(B.Plan(member, 0, size, size * 8, false));
  }

  lemma OwnOffset()
    ensures ComputeField(OWN, B.LittleEndian, Field(B.FieldByteOffset), Some(OWN_ACCESS)) == Ok(B.Computed(0, 4, Some(1)))
  {
    assert Resolve(OWN, 1) == Ok(1) && TypeSize(OWN, 1) == Ok(4);
    assert B.PlanOf(OWN, 3, 0, 0) == Ok(B.Plan(1, 0, 4, 32, false));
  }

  lemma Contributes(target: Btf, candidate: TypeId, size: U32, member: TypeId)
    requires IsS(target, candidate, size, member) && Grounded(Against(target), NoRanks())
    ensures Contribution(Against(target), NoRanks(), Field(B.FieldByteOffset), OWN_ACCESS, candidate)
      == Ok([Found(0, ValuesFor(size, member))])
  {
    hide MatchAll, ComputeField;
    AccessMatches(target, candidate, size, member);
    assert ComputeField(OWN, B.LittleEndian, Field(B.FieldByteOffset), Some(OWN_ACCESS)) == Ok(B.Computed(0, 4, Some(1))) by {
      OwnOffset();
    }
    OffsetOfX(target, candidate, size, member);
  }

  /** Of two structs s, the first decides what is written. */
  lemma FirstIsWritten(target: Btf, a: TypeId, size: U32, member: TypeId, b: TypeId, otherSize: U32, other: TypeId)
    requires IsS(target, a, size, member) && IsS(target, b, otherSize, other) && Grounded(Against(target), NoRanks())
    ensures WrittenFor(Against(target), NoRanks(), Field(B.FieldByteOffset), OWN_ACCESS, [a, b]) == Ok(ValuesFor(size, member))
  {
    hide Contribution, MatchesOf;
    var env, kind := Against(target), Field(B.FieldByteOffset);
    Contributes(target, a, size, member);
    Contributes(target, b, otherSize, other);
    NoMatches(env, NoRanks(), kind, OWN_ACCESS);
    MatchesStep(env, NoRanks(), kind, OWN_ACCESS, [], a);
    MatchesStep(env, NoRanks(), kind, OWN_ACCESS, [a], b);
    assert [] + [a] == [a] && [a] + [b] == [a, b];
  }

  lemma BothAreCandidates(target: Btf, size: U32, member: TypeId, otherSize: U32, other: TypeId)
    requires target == TwoStructs(OneMember(size, member), OneMember(otherSize, other))
    ensures Candidates(Against(target), 3) == Ok([3, 4])
  {
    hide StringAt;
    NamesRead(target.types);
    NamesRead(OWN.types);
    assert target == Btf(target.types, NAMES);
    var s := OneMember(4, 1);
    assert !KindFits(s, target.types[0]) && !KindFits(s, target.types[1]) && !KindFits(s, target.types[2]);
    assert KindFits(s, target.types[3]) && KindFits(s, target.types[4]);
    assert CandidatesIn(target, s, [115], 0) == Ok([]);
    assert CandidatesIn(target, s, [115], 1) == Ok([]);
    assert CandidatesIn(target, s, [115], 2) == Ok([]);
    assert CandidatesIn(target, s, [115], 3) == Ok([]);
    assert [] + [3] == [3] && [3] + [4] == [3, 4];
    assert CandidatesIn(target, s, [115], 4) == Ok([3]);
    assert CandidatesIn(target, s, [115], 5) == Ok([3, 4]);
  }

  /** The load that a choice of struct leaves behind. */
  lemma LoadLeft(target: Btf, candidate: TypeId, size: U32, member: TypeId)
    requires IsS(target, candidate, size, member)
    ensures Applied(Against(target), ValuesFor(size, member), [LOAD_WORD], 0)
      == Ok([if size == 4 then LOAD_WORD else LOAD_DOUBLE])
  {
    var left := if size == 4 then LOAD_WORD else LOAD_DOUBLE;
    assert 0x61 & 0x07 == 1 as bv8;
    assert (0x61 & 0xE0) | 0x18 | (0x61 & 0x07) == 0x79 as bv8;
    assert Resized(Against(target), ValuesFor(size, member), B.Computed(0, size, Some(member)), LOAD_WORD) == Ok(left);
    assert [LOAD_WORD][0 := left] == [left];
  }

  /** What becomes of the program's load. */
  function Loaded(target: Btf, written: Result<Values>): Result<seq<Insn>> {
    match written
    case Err(e) => Err(e)
    case Ok(v) => Applied(Against(target), v, [LOAD_WORD], 0)
  }

  /**
   In one kernel, the two orders of the candidates leave two different loads; and so do two kernels
   that differ in the order of the two structs only.
   */
  lemma SizeShows()
    ensures
      var narrow, wide := OneMember(4, 1), OneMember(8, 2);
      var one, two := TwoStructs(narrow, wide), TwoStructs(wide, narrow);
      && Grounded(Against(one), NoRanks()) && Grounded(Against(two), NoRanks())
      && Candidates(Against(one), 3) == Ok([3, 4])
      && Loaded(one, WrittenFor(Against(one), NoRanks(), OFFSET_OF_X.kind, OWN_ACCESS, [3, 4])) == Ok([LOAD_WORD])
      && Loaded(one, WrittenFor(Against(one), NoRanks(), OFFSET_OF_X.kind, OWN_ACCESS, [4, 3])) == Ok([LOAD_DOUBLE])
      && Loaded(one, Decision(Against(one), NoRanks(), OFFSET_OF_X)) == Ok([LOAD_WORD])
      && Loaded(two, Decision(Against(two), NoRanks(), OFFSET_OF_X)) == Ok([LOAD_DOUBLE])
  {
    hide WrittenFor, Candidates, LocalSpec, Grounded, StringAt, Applied;
    var narrow, wide := OneMember(4, 1), OneMember(8, 2);
    var one, two := TwoStructs(narrow, wide), TwoStructs(wide, narrow);
    TablesContained(one, 4, 1, 8, 2);
    TablesContained(two, 8, 2, 4, 1);
    BothAreCandidates(one, 4, 1, 8, 2);
    BothAreCandidates(two, 8, 2, 4, 1);
    OwnAccess();
    NamesRead(OWN.types);
    FirstIsWritten(one, 3, 4, 1, 4, 8, 2);
    FirstIsWritten(one, 4, 8, 2, 3, 4, 1);
    FirstIsWritten(two, 3, 8, 2, 4, 4, 1);
    LoadLeft(one, 3, 4, 1);
    LoadLeft(one, 4, 8, 2);
    LoadLeft(two, 3, 8, 2);
  }
}
