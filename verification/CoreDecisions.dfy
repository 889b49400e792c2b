/**
 What a CO-RE relocation decides and where it is applied: the value is the one on the first candidate
 that the access has a meaning on, when all others agree; without one, existence is denied and any other
 instruction is poisoned; and only the instruction at the relocation's offset is touched.
 */
module CoreDecisions {
  import opened Instructions
  import opened Btf
  import opened AccessSpecs
  import opened CoreRelocation
  import opened CoreProperties
  import B = Bitfields
  import A = TypeAgreement
  import T = TypeCompatibility
  import V = VariantValues

  /** The access means `spec` on the candidate at `k`, and nothing on those before it. */
  ghost predicate FirstHit(env: Env, rank: Ranks, kind: Kind, local: Spec, cs: seq<TypeId>, k: nat, spec: Spec)
    requires Grounded(env, rank)
  {
    && k < |cs| && TargetSpec(env, rank, kind, local, cs[k]) == Ok(Some(spec))
    && forall j :: 0 <= j < k ==> TargetSpec(env, rank, kind, local, cs[j]) == Ok(None)
  }

  lemma ContributionOf(env: Env, rank: Ranks, kind: Kind, local: Spec, c: TypeId)
    requires Grounded(env, rank) && Contribution(env, rank, kind, local, c).Ok?
    ensures TargetSpec(env, rank, kind, local, c).Ok?
    ensures
      var found := Contribution(env, rank, kind, local, c).value;
      match TargetSpec(env, rank, kind, local, c).value
      case None => found == []
      case Some(spec) =>
        && Compute(env, kind, local, Some(spec)).Ok?
        && found == [Found(spec.bitOffset, Compute(env, kind, local, Some(spec)).value)]
  {
    hide TargetSpec, Compute, Grounded;
  }

  /** The first of the matches is that of the first candidate with a meaning. */
  lemma {:induction false} FirstOfMatches(env: Env, rank: Ranks, kind: Kind, local: Spec, cs: seq<TypeId>)
    requires Grounded(env, rank) && MatchesOf(env, rank, kind, local, cs).Ok?
    ensures
      var ms := MatchesOf(env, rank, kind, local, cs).value;
      if ms == [] then forall c :: c in cs ==> TargetSpec(env, rank, kind, local, c) == Ok(None)
      else exists k, spec ::
        && FirstHit(env, rank, kind, local, cs, k, spec) && ms[0].bitOffset == spec.bitOffset
        && Compute(env, kind, local, Some(spec)) == Ok(ms[0].values)
    decreases |cs|
  {
    hide TargetSpec, Compute, Grounded, Contribution, MatchesOf;
    if cs == [] {
      NoMatches(env, rank, kind, local);
    } else {
      var front, last := cs[..|cs| - 1], cs[|cs| - 1];
      assert cs == front + [last];
      assert forall c :: c in cs <==> c in front || c == last;
      MatchesStep(env, rank, kind, local, front, last);
      FirstOfMatches(env, rank, kind, local, front);
      ContributionOf(env, rank, kind, local, last);
      if MatchesOf(env, rank, kind, local, front).value == [] {
        if TargetSpec(env, rank, kind, local, last).value.Some? {
          assert FirstHit(env, rank, kind, local, cs, |front|, TargetSpec(env, rank, kind, local, last).value.value);
        }
      } else {
        var ms := MatchesOf(env, rank, kind, local, front).value;
        var k, spec :| FirstHit(env, rank, kind, local, front, k, spec) && ms[0].bitOffset == spec.bitOffset
          && Compute(env, kind, local, Some(spec)) == Ok(ms[0].values);
        assert FirstHit(env, rank, kind, local, cs, k, spec);
      }
    }
  }

  /** Every candidate with a meaning is among the matches. */
  lemma {:induction false} MeaningIsMatch(env: Env, rank: Ranks, kind: Kind, local: Spec, cs: seq<TypeId>, c: TypeId,
                                          spec: Spec)
    requires Grounded(env, rank) && MatchesOf(env, rank, kind, local, cs).Ok?
    requires c in cs && TargetSpec(env, rank, kind, local, c) == Ok(Some(spec))
    ensures Compute(env, kind, local, Some(spec)).Ok?
    ensures Found(spec.bitOffset, Compute(env, kind, local, Some(spec)).value)
      in MatchesOf(env, rank, kind, local, cs).value
    decreases |cs|
  {
    hide TargetSpec, Compute, Grounded, Contribution, MatchesOf;
    var front, last := cs[..|cs| - 1], cs[|cs| - 1];
    assert cs == front + [last];
    MatchesStep(env, rank, kind, local, front, last);
    ContributionOf(env, rank, kind, local, last);
    if c != last {
      MeaningIsMatch(env, rank, kind, local, front, c, spec);
    }
  }

  /** What is written was computed on the first candidate with a meaning, and every other one agrees. */
  ghost predicate AgreedOn(env: Env, rank: Ranks, kind: Kind, local: Spec, cs: seq<TypeId>, k: nat, spec: Spec,
                           values: Values)
    requires Grounded(env, rank)
  {
    && FirstHit(env, rank, kind, local, cs, k, spec)
    && Compute(env, kind, local, Some(spec)) == Ok(values)
    && forall c, other: Spec :: c in cs && TargetSpec(env, rank, kind, local, c) == Ok(Some(other)) ==>
      && other.bitOffset == spec.bitOffset && Compute(env, kind, local, Some(other)).Ok?
      && var theirs := Compute(env, kind, local, Some(other)).value.target;
         values.target.Some? && theirs.Some? ==> theirs.value.value == values.target.value.value
  }

  /**
   What a relocation writes, when it succeeds: the values on the first candidate that its access has a
   meaning on, all of which agree; or, when it has none on any, those without a target.
   */
  lemma WrittenMeans(env: Env, rank: Ranks, kind: Kind, local: Spec, cs: seq<TypeId>, values: Values)
    requires Grounded(env, rank) && WrittenFor(env, rank, kind, local, cs) == Ok(values)
    ensures
      || (exists k, spec :: AgreedOn(env, rank, kind, local, cs, k, spec, values))
      || ((forall c :: c in cs ==> TargetSpec(env, rank, kind, local, c) == Ok(None))
          && Compute(env, kind, local, None) == Ok(values))
  {
    hide TargetSpec, Compute, Grounded, MatchesOf;
    FirstOfMatches(env, rank, kind, local, cs);
    var ms := MatchesOf(env, rank, kind, local, cs).value;
    if ms != [] {
      var k, spec :| FirstHit(env, rank, kind, local, cs, k, spec) && ms[0].bitOffset == spec.bitOffset
        && Compute(env, kind, local, Some(spec)) == Ok(ms[0].values);
      forall c, other: Spec | c in cs && TargetSpec(env, rank, kind, local, c) == Ok(Some(other))
        ensures other.bitOffset == spec.bitOffset && Compute(env, kind, local, Some(other)).Ok?
        ensures
          var theirs := Compute(env, kind, local, Some(other)).value.target;
          values.target.Some? && theirs.Some? ==> theirs.value.value == values.target.value.value
      {
        MeaningIsMatch(env, rank, kind, local, cs, c, other);
        var m := Found(other.bitOffset, Compute(env, kind, local, Some(other)).value);
        var i :| 0 <= i < |ms| && ms[i] == m;
        assert i >= 1 ==> !Conflict(ms[0], ms[i]);
      }
      assert AgreedOn(env, rank, kind, local, cs, k, spec, values);
    }
  }

  // ---------- what a relocation asks for ----------

  /**
   When a relocation can be read: its access string is there and is a list of numbers, and its type
   resolves; a type relocation has the single number 0, a variant relocation the number of a variant, and
   a field relocation a path that leads somewhere.
   */
  lemma ReadableExactly(local: Btf, rel: Reloc)
    ensures LocalSpec(local, rel).Ok? <==>
      && NameAt(local, rel.accessOffset).Ok? && rel.path.Some? && Resolve(local, rel.typeId).Ok?
      && var path := rel.path.value;
         if rel.kind.OfType() then path == Path(0, [])
         else if rel.kind.OfField() then WalkAll(local, rel.typeId, path.Parts()).Ok?
         else
           && path.rest == [] && Resolve(local, rel.typeId).value < |local.types|
           && var cs := V.Constants(local.types[Resolve(local, rel.typeId).value]);
              cs.Some? && path.first < |cs.value| && NameAt(local, cs.value[path.first].nameOffset).Ok?
    ensures LocalSpec(local, rel).Ok? ==> LocalSpec(local, rel).value.rootTypeId == rel.typeId
    ensures LocalSpec(local, rel).Ok? && rel.kind.OfType() ==> LocalSpec(local, rel).value == Spec(rel.typeId, [], 0)
  {
    hide StringAt, ResolveWithin, WalkAll;
    if Resolve(local, rel.typeId).Ok? {
      ResolvedType(local, rel.typeId, MAX_RESOLVE_DEPTH);
      if rel.path.Some? {
        PathParts(rel.path.value);
        V.VariantsAreConstants(local.types[Resolve(local, rel.typeId).value], rel.path.value.first);
      }
    }
  }

  lemma PathParts(path: Path)
    ensures |path.Parts()| == 1 + |path.rest| && path.Parts()[0] == path.first
    ensures path.Parts() == [0] <==> path == Path(0, [])
  {
    if path.Parts() == [0] {
      assert |path.rest| == 0 && path.Parts()[0] == 0;
    }
  }

  /** A type relocation has a meaning on exactly the candidates that are built like its type. */
  lemma TypeMeans(env: Env, rank: Ranks, kind: Kind, local: Spec, candidate: TypeId)
    requires Grounded(env, rank) && kind.OfType() && TargetSpec(env, rank, kind, local, candidate).Ok?
    ensures local.rootTypeId < |env.local.types| && candidate < |env.target.types|
    ensures TargetSpec(env, rank, kind, local, candidate).value ==
      if env.local.types[local.rootTypeId].IsCompatible(env.target.types[candidate])
         && A.Alike(env.local, local.rootTypeId, env.target, candidate)
      then Some(Spec(candidate, [], 0)) else None
  {
    hide T.Compatible, A.Alike;
    A.CompatibleExact(env.local, local.rootTypeId, env.target, candidate, rank.local);
  }

  /** The id of a local type is written whatever the kernel's types are. */
  lemma LocalIdNeedsNoKernel(env: Env, other: Env, rank: Ranks, ranks: Ranks, rel: Reloc)
    requires Grounded(env, rank) && Grounded(other, ranks) && env.local == other.local && rel.kind.TypeIdLocal?
    ensures Decision(env, rank, rel) == Decision(other, ranks, rel)
    ensures Decision(env, rank, rel).Ok? ==>
      Decision(env, rank, rel).value.target == Some(B.Computed(WrapU64(rel.typeId), 0, None))
  {
    hide LocalSpec, Grounded, WrittenFor, Candidates;
    ReadableExactly(env.local, rel);
  }

  /** Every other relocation is decided on the candidates of its local type. */
  lemma DecidedOnCandidates(env: Env, rank: Ranks, rel: Reloc)
    requires Grounded(env, rank) && !rel.kind.TypeIdLocal? && Decision(env, rank, rel).Ok?
    ensures LocalSpec(env.local, rel).Ok? && Candidates(env, rel.typeId).Ok?
    ensures WrittenFor(env, rank, rel.kind, LocalSpec(env.local, rel).value, Candidates(env, rel.typeId).value)
         == Decision(env, rank, rel)
    ensures
      && rel.typeId < |env.local.types| && NameAt(env.local, env.local.types[rel.typeId].NameOffset()).Ok?
      && var ty, name := env.local.types[rel.typeId], NameAt(env.local, env.local.types[rel.typeId].NameOffset()).value;
         forall id: TypeId :: id in Candidates(env, rel.typeId).value <==> IsCandidate(env.target, ty, name, id)
  {
    hide LocalSpec, Grounded, WrittenFor, CandidatesIn, StringAt;
    var ty, name := env.local.types[rel.typeId], NameAt(env.local, env.local.types[rel.typeId].NameOffset()).value;
    CandidatesExact(env.target, ty, name, |env.target.types|);
  }

  // ---------- kinds ----------

  /** The two types are of the same kind. */
  predicate SameForm(x: BtfType, y: BtfType) {
    || (x.Unknown? && y.Unknown?) || (x.Fwd? && y.Fwd?) || (x.Const? && y.Const?) || (x.Volatile? && y.Volatile?)
    || (x.Restrict? && y.Restrict?) || (x.Ptr? && y.Ptr?) || (x.Typedef? && y.Typedef?) || (x.TypeTag? && y.TypeTag?)
    || (x.Func? && y.Func?) || (x.Int? && y.Int?) || (x.Float? && y.Float?) || (x.Enum? && y.Enum?)
    || (x.Array? && y.Array?) || (x.Struct? && y.Struct?) || (x.Union? && y.Union?) || (x.FuncProto? && y.FuncProto?)
    || (x.Var? && y.Var?) || (x.DataSec? && y.DataSec?) || (x.DeclTag? && y.DeclTag?) || (x.Enum64? && y.Enum64?)
  }

  /** Kinds have different numbers. */
  lemma KindsDiffer(x: BtfType, y: BtfType)
    ensures x.Kind() == y.Kind() <==> SameForm(x, y)
  {
  }

  /** A candidate is of the kind of the local type; what was a 64-bit enum, a union by now, may also find one. */
  lemma KindFitsExactly(local: BtfType, ty: BtfType)
    ensures KindFits(local, ty) <==> SameForm(local, ty) || (local.Union? && local.fallback.Some? && ty.Enum64?)
    ensures local.IsCompatible(ty) <==>
      SameForm(local, ty) || ((local.Enum? || local.Enum64?) && (ty.Enum? || ty.Enum64?))
  {
    KindsDiffer(local, ty);
    hide BtfType.Kind;
  }

  // ---------- sides ----------

  /** The values of a field come each from its own side's types; one that cannot be computed there is missing. */
  lemma FieldSides(env: Env, kind: Kind, local: Spec, target: Option<Spec>, v: Values)
    requires kind.OfField() && Compute(env, kind, local, target) == Ok(v)
    ensures ComputeField(env.local, env.endian, kind, Some(local)) == Ok(v.local)
    ensures match ComputeField(env.target, env.endian, kind, target)
            case Ok(c) => v.target == Some(c)
            case Err(_) => v.target.None?
  {
    hide ComputeField;
  }

  lemma VariantSides(env: Env, kind: Kind, local: Spec, target: Option<Spec>, v: Values)
    requires !kind.OfField() && !kind.OfType() && Compute(env, kind, local, target) == Ok(v)
    ensures ComputeVariant(env.local, kind, Some(local)) == Ok(v.local)
    ensures match ComputeVariant(env.target, kind, target)
            case Ok(c) => v.target == Some(c)
            case Err(_) => v.target.None?
  {
    hide ComputeVariant;
  }

  /** Type relocations write one value, on both sides. */
  lemma TypeSides(env: Env, kind: Kind, local: Spec, target: Option<Spec>, v: Values)
    requires kind.OfType() && Compute(env, kind, local, target) == Ok(v)
    ensures ComputeType(env.target, kind, local, target) == Ok(v.local) && v.target == Some(v.local)
  {
    hide ComputeType;
  }

  /**
   Without a candidate: existence is denied with the value 0, the id of a local type is still known, and
   of the rest fields and variants have no target value, so that their instruction is poisoned, and type
   relocations fail.
   */
  lemma Unmatched(env: Env, kind: Kind, local: Spec)
    ensures
      match kind
      case Field(_) => Compute(env, kind, local, None).Ok? ==> Compute(env, kind, local, None).value.target.None?
      case VariantValue => Compute(env, kind, local, None).Ok? ==> Compute(env, kind, local, None).value.target.None?
      case TypeIdTarget => Compute(env, kind, local, None) == Err(MissingTarget)
      case TypeSizeOf => Compute(env, kind, local, None) == Err(MissingTarget)
      case TypeIdLocal => Compute(env, kind, local, None).Ok?
      case _ =>
        && Compute(env, kind, local, None).Ok?
        && Compute(env, kind, local, None).value.target == Some(B.Computed(0, 0, None))
  {
    hide ComputeVariant, B.PlanOf, B.ValueOf;
    NoVariant(env.local, env.target, kind, local);
  }

  lemma NoVariant(local: Btf, target: Btf, kind: Kind, spec: Spec)
    ensures kind.VariantExists? ==> ComputeVariant(local, kind, Some(spec)).Ok?
    ensures kind.VariantExists? ==> ComputeVariant(target, kind, None) == Ok(B.Computed(0, 0, None))
    ensures kind.VariantValue? ==> ComputeVariant(target, kind, None).Err?
  {
  }

  // ---------- the place ----------

  /** The relocation is for instruction `at` of function `f`. */
  predicate IsFor(section: nat, shapes: seq<Shape>, rel: Reloc, f: nat, at: nat) {
    && f < |shapes| && shapes[f].section == section && at < shapes[f].size
    && shapes[f].offset + at * INS_SIZE <= rel.insOffset < shapes[f].offset + (at + 1) * INS_SIZE
  }

  /**
   A relocation is applied to the instruction its offset falls into, of the only function that has one
   there; every other function is left as it was.
   */
  lemma AppliedInPlace(env: Env, rank: Ranks, section: nat, shapes: seq<Shape>, codes: seq<seq<Insn>>, rel: Reloc)
    requires Grounded(env, rank) && Fits(shapes, codes) && Tidy(shapes)
    requires SimpleStep(env, rank, section, shapes, codes, rel).Ok?
    ensures Decision(env, rank, rel).Ok?
    ensures exists f: nat, at: nat ::
      && IsFor(section, shapes, rel, f, at)
      && (forall g: nat, i: nat :: IsFor(section, shapes, rel, g, i) ==> g == f && i == at)
      && Applied(env, Decision(env, rank, rel).value, codes[f], at).Ok?
      && SimpleStep(env, rank, section, shapes, codes, rel).value ==
         codes[f := Applied(env, Decision(env, rank, rel).value, codes[f], at).value]
  {
    hide Decision, Grounded, Applied, Tidy;
    var f := Lookup(section, shapes, rel, 0).value;
    var at := (rel.insOffset - shapes[f].offset) / INS_SIZE;
    SlotOf(rel.insOffset - shapes[f].offset);
    assert IsFor(section, shapes, rel, f, at);
    forall g: nat, i: nat | IsFor(section, shapes, rel, g, i)
      ensures g == f && i == at
    {
      OnePlace(section, shapes, rel, f, at, g, i);
    }
  }

  lemma SlotOf(distance: nat)
    ensures distance / INS_SIZE * INS_SIZE <= distance < (distance / INS_SIZE + 1) * INS_SIZE
  {
  }

  lemma OnePlace(section: nat, shapes: seq<Shape>, rel: Reloc, f: nat, at: nat, g: nat, i: nat)
    requires Tidy(shapes) && IsFor(section, shapes, rel, f, at) && IsFor(section, shapes, rel, g, i)
    ensures g == f && i == at
  {
    NotApart(shapes[f], at, shapes[g], i, rel.insOffset);
    NotApart(shapes[g], i, shapes[f], at, rel.insOffset);
  }

  lemma NotApart(a: Shape, at: nat, b: Shape, i: nat, offset: nat)
    requires at < a.size && a.offset + at * INS_SIZE <= offset < a.offset + (at + 1) * INS_SIZE
    requires i < b.size && b.offset + i * INS_SIZE <= offset < b.offset + (i + 1) * INS_SIZE
    ensures !Apart(a, b)
  {
    Reaches(a, at);
    Reaches(b, i);
  }

  lemma Reaches(f: Shape, at: nat)
    requires at < f.size
    ensures f.offset + (at + 1) * INS_SIZE <= f.offset + f.size * INS_SIZE
  {
  }

  /** A relocation that fails does so because no function has an instruction there, or in deciding or applying it. */
  lemma FailsInPlace(env: Env, rank: Ranks, section: nat, shapes: seq<Shape>, codes: seq<seq<Insn>>, rel: Reloc)
    requires Grounded(env, rank) && Fits(shapes, codes) && Tidy(shapes)
    ensures (forall f: nat, at: nat :: !IsFor(section, shapes, rel, f, at)) ==>
      SimpleStep(env, rank, section, shapes, codes, rel) == Err(FunctionNotFound)
    ensures Decision(env, rank, rel).Err? && (exists f: nat, at: nat :: IsFor(section, shapes, rel, f, at)) ==>
      SimpleStep(env, rank, section, shapes, codes, rel) == Err(Decision(env, rank, rel).error)
    ensures Decision(env, rank, rel).Ok? ==> forall f: nat, at: nat :: IsFor(section, shapes, rel, f, at) ==>
      var applied := Applied(env, Decision(env, rank, rel).value, codes[f], at);
      applied.Err? ==> SimpleStep(env, rank, section, shapes, codes, rel) == Err(applied.error)
  {
    hide Decision, Grounded, Applied;
    match Lookup(section, shapes, rel, 0)
    case None =>
      forall f: nat, at: nat | f < |shapes|
        ensures !IsFor(section, shapes, rel, f, at)
      {
        NotInside(section, shapes, rel, f, at);
      }
    case Some(g) =>
      IndexInRange(section, shapes, rel, g);
      var i := (rel.insOffset - shapes[g].offset) / INS_SIZE;
      SlotOf(rel.insOffset - shapes[g].offset);
      assert IsFor(section, shapes, rel, g, i);
      forall f: nat, at: nat | IsFor(section, shapes, rel, f, at)
        ensures f == g && at == i
      {
        OnePlace(section, shapes, rel, g, i, f, at);
      }
  }

  lemma NotInside(section: nat, shapes: seq<Shape>, rel: Reloc, f: nat, at: nat)
    requires Tidy(shapes) && f < |shapes| && !Inside(section, shapes[f], rel)
    ensures !IsFor(section, shapes, rel, f, at)
  {
  }
}
