/**
 What fixing and sanitizing BTF keeps and achieves: the image stays well formed and can be parsed
 back, old ids and old name offsets keep their meaning, and nothing the kernel rejected is left.
 */
module SanitizerProperties {
  import opened Instructions
  import opened Btf
  import opened BtfImage
  import opened Sanitizer

  // ---------- strings ----------

  /** Adding strings at the end does not change what an offset reads. */
  lemma {:induction false} StringKept(strings: seq<Byte>, more: seq<Byte>, offset: nat)
    requires StringAt(strings, offset).Some?
    ensures StringAt(strings + more, offset) == StringAt(strings, offset)
    decreases |strings| - offset
  {
    if strings[offset] != 0 {
      StringKept(strings, more, offset + 1);
    }
  }

  /** A string just added is read back at its offset. */
  lemma {:induction false} StringAdded(strings: seq<Byte>, name: Name, k: nat)
    requires 0 !in name && k <= |name|
    ensures StringAt(strings + name + [0], |strings| + k) == Some(name[k..])
    decreases |name| - k
  {
    var all := strings + name + [0];
    if k < |name| {
      assert all[|strings| + k] == name[k] && name[k] in name;
      StringAdded(strings, name, k + 1);
      assert name[k..] == [name[k]] + name[k + 1..];
    }
  }

  // ---------- the image ----------

  /** Every type `t` refers to has an id below `n`. */
  ghost predicate RefsBelow(t: BtfType, n: nat) {
    match t
    case Const(_, b) => b < n
    case Volatile(_, b) => b < n
    case Restrict(_, b) => b < n
    case Ptr(_, b) => b < n
    case Typedef(_, b) => b < n
    case TypeTag(_, b) => b < n
    case Func(_, b, _) => b < n
    case Array(_, e, i, _) => e < n && i < n
    case Struct(_, _, _, ms) => forall m :: m in ms ==> m.btfType < n
    case Union(_, _, _, ms, _) => forall m :: m in ms ==> m.btfType < n
    case FuncProto(_, ret, ps) => ret < n && forall p :: p in ps ==> p.btfType < n
    case Var(_, b, _) => b < n
    case DataSec(_, _, es) => forall e :: e in es ==> e.btfType < n
    case DeclTag(_, b, _) => b < n
    case _ => true
  }

  ghost predicate RefsInRange(types: seq<BtfType>) {
    forall j :: 0 <= j < |types| ==> RefsBelow(types[j], |types|)
  }

  ghost predicate AllKnown(types: seq<BtfType>) {
    forall j :: 1 <= j < |types| ==> !types[j].Unknown?
  }

  /** The header agrees with the types and strings, and references stay inside the table. */
  ghost predicate WellFormed(s: State) {
    Canonical(s.header, s.types, s.strings) && RefsInRange(s.types) && AllKnown(s.types)
  }

  /** From `s` to `s'` only type `i` was replaced; otherwise strings and types were added at the end. */
  ghost predicate OnlyChanged(s: State, s': State, i: nat) {
    && s.strings <= s'.strings
    && |s.types| <= |s'.types|
    && (forall j :: 0 <= j < |s.types| && j != i ==> s'.types[j] == s.types[j])
    && (s.placeholder.Some? ==> s'.placeholder == s.placeholder)
    && (s.filler.Some? ==> s'.filler == s.filler)
  }

  lemma RefsMonotone(t: BtfType, n: nat, m: nat)
    requires RefsBelow(t, n) && n <= m
    ensures RefsBelow(t, m)
  {
  }

  lemma {:induction false} SectionSizeUpdate(types: seq<BtfType>, i: nat, t: BtfType)
    requires i < |types|
    ensures SectionSize(types[i := t]) == SectionSize(types) - EncodedSize(types[i]) + EncodedSize(t)
    decreases |types|
  {
    var last := |types| - 1;
    if i == last {
      assert types[i := t][..last] == types[..last];
    } else {
      SectionSizeUpdate(types[..last], i, t);
      assert types[i := t][..last] == types[..last][i := t];
    }
  }

  lemma SectionSizeAppend(types: seq<BtfType>, t: BtfType)
    requires types != []
    ensures SectionSize((types + [t])[1..]) == SectionSize(types[1..]) + EncodedSize(t)
  {
    assert (types + [t])[1..] == types[1..] + [t];
    assert (types[1..] + [t])[..|types| - 1] == types[1..];
  }

  lemma WithStringWellFormed(s: State, name: Name)
    requires WellFormed(s)
    ensures WellFormed(WithString(s, name)) && OnlyChanged(s, WithString(s, name), |s.types|)
  {
  }

  lemma WithTypeWellFormed(s: State, t: BtfType)
    requires WellFormed(s) && RefsBelow(t, |s.types|) && !t.Unknown?
    ensures WellFormed(WithType(s, t)) && OnlyChanged(s, WithType(s, t), |s.types|)
  {
    hide SectionSize, EncodedSize, RefsBelow;
    SectionSizeAppend(s.types, t);
    var types := WithType(s, t).types;
    forall j | 0 <= j < |types|
      ensures RefsBelow(types[j], |types|)
    {
      RefsMonotone(types[j], |s.types|, |types|);
    }
  }

  /** Replacing a type by one of any size, with the header adjusted, keeps the image well formed. */
  lemma ResizedWellFormed(s: State, i: nat, t: BtfType)
    requires WellFormed(s) && 0 < i < |s.types| && RefsBelow(t, |s.types|) && !t.Unknown?
    ensures WellFormed(Resized(s, i, t)) && OnlyChanged(s, Resized(s, i, t), i)
  {
    hide SectionSize, EncodedSize, RefsBelow;
    SectionSizeUpdate(s.types[1..], i - 1, t);
    assert s.types[i := t][1..] == s.types[1..][i - 1 := t];
  }

  lemma SetTypeWellFormed(s: State, i: nat, t: BtfType)
    requires WellFormed(s) && 0 < i < |s.types| && RefsBelow(t, |s.types|) && !t.Unknown?
    requires EncodedSize(t) == EncodedSize(s.types[i])
    ensures WellFormed(SetType(s, i, t)) && OnlyChanged(s, SetType(s, i, t), i)
  {
    hide SectionSize, EncodedSize, RefsBelow;
    ResizedWellFormed(s, i, t);
  }

  // ---------- what a run adds ----------

  /** Types shared by a run: at most one placeholder and the two filler types, after the original `n`. */
  ghost predicate SharedTypes(n: nat, s: State) {
    && n <= |s.types|
    && |s.types| == n + (if s.placeholder.Some? then 1 else 0) + (if s.filler.Some? then 2 else 0)
    && (s.placeholder.Some? ==> n <= s.placeholder.value < |s.types|)
    && (s.filler.Some? ==>
          && n <= s.filler.value < |s.types|
          && s.types[s.filler.value].Var? && s.types[s.filler.value].linkage == STATIC)
    && (forall j :: n <= j < |s.types| ==> s.types[j].Int? || (s.filler.Some? && s.types[j].Var?))
  }

  lemma WithFillerWellFormed(n: nat, s: State)
    requires WellFormed(s) && SharedTypes(n, s)
    ensures var s' := WithFiller(s);
      WellFormed(s') && SharedTypes(n, s') && s'.filler.Some? && OnlyChanged(s, s', |s.types|)
  {
    hide Canonical, EncodedSize, Bytes;
    if s.filler.None? {
      var s1 := WithString(s, Bytes("__aya_datasec_filler_type"));
      WithStringWellFormed(s, Bytes("__aya_datasec_filler_type"));
      var s2 := WithType(s1, OneByteInt(|s.strings|));
      WithTypeWellFormed(s1, OneByteInt(|s.strings|));
      var s3 := WithString(s2, Bytes("__aya_datasec_filler"));
      WithStringWellFormed(s2, Bytes("__aya_datasec_filler"));
      WithTypeWellFormed(s3, Var(|s2.strings|, |s.types|, STATIC));
    }
  }

  lemma WithPlaceholderWellFormed(n: nat, s: State)
    requires WellFormed(s) && SharedTypes(n, s)
    ensures var s' := WithPlaceholder(s);
      WellFormed(s') && SharedTypes(n, s') && s'.placeholder.Some? && OnlyChanged(s, s', |s.types|)
  {
    hide Canonical, EncodedSize, Bytes;
    if s.placeholder.None? {
      var s1 := WithString(s, Bytes("enum64_placeholder"));
      WithStringWellFormed(s, Bytes("enum64_placeholder"));
      WithTypeWellFormed(s1, OneByteInt(|s.strings|));
    }
  }

  lemma RenamedWellFormed(n: nat, s: State, offset: StringOffset, name: Name, from: Byte, to: Byte)
    requires WellFormed(s) && SharedTypes(n, s)
    ensures var (s', _) := Renamed(s, offset, name, from, to);
      WellFormed(s') && SharedTypes(n, s') && s'.types == s.types && OnlyChanged(s, s', |s.types|)
      && s'.filler == s.filler && s'.placeholder == s.placeholder
  {
  }

  lemma {:induction false} MembersInRange(types: seq<BtfType>, entries: seq<Entry>)
    requires MembersOf(types, entries).Done?
    ensures
      var ms := MembersOf(types, entries).value;
      |ms| == |entries| && forall m :: m in ms ==> m.btfType < |types|
  {
    if entries != [] {
      MembersInRange(types, entries[1..]);
    }
  }

  lemma {:induction false} EntriesInRange(elf: Elf, s: State, entries: seq<Entry>)
    requires EntriesFixed(elf, s, entries).Done?
    ensures
      var es := EntriesFixed(elf, s, entries).value;
      && |es| == |entries| && (forall e :: e in es ==> e.btfType < |s.types|)
      && forall k :: 0 <= k < |es| ==> es[k].btfType == entries[k].btfType
  {
    if entries != [] {
      EntriesInRange(elf, s, entries[1..]);
    }
  }

  lemma {:induction false} ParamsNamedWellFormed(n: nat, s: State, params: seq<Param>, k: nat)
    requires WellFormed(s) && SharedTypes(n, s) && k <= |params|
    requires forall p :: p in params ==> p.btfType < |s.types|
    ensures
      var (s', named) := ParamsNamed(s, params, k);
      && WellFormed(s') && SharedTypes(n, s') && s'.types == s.types && OnlyChanged(s, s', |s.types|)
      && |named| == |params| && forall p :: p in named ==> p.btfType < |s.types|
    decreases |params| - k
  {
    hide Bytes, Decimal, SectionSize;
    if k < |params| {
      var p := params[k];
      if p.nameOffset == 0 && p.btfType != 0 {
        var name := Bytes("param") + Decimal(k);
        WithStringWellFormed(s, name);
        var renamed := params[k := p.(nameOffset := |s.strings|)];
        forall q | q in renamed
          ensures q.btfType < |s.types|
        {
          assert q in params || q == p.(nameOffset := |s.strings|);
        }
        ParamsNamedWellFormed(n, WithString(s, name), renamed, k + 1);
      } else {
        ParamsNamedWellFormed(n, s, params, k + 1);
      }
    }
  }

  ghost predicate StepKeeps(n: nat, s: State, s': State, i: nat) {
    WellFormed(s') && SharedTypes(n, s') && OnlyChanged(s, s', i)
  }

  /** A swap for a type of the same size keeps everything. */
  lemma SwapKeeps(n: nat, s: State, i: nat, t: BtfType)
    requires WellFormed(s) && SharedTypes(n, s) && 0 < i < n <= |s.types|
    requires RefsBelow(t, |s.types|) && !t.Unknown? && EncodedSize(t) == EncodedSize(s.types[i])
    ensures StepKeeps(n, s, SetType(s, i, t), i)
  {
    hide WellFormed, EncodedSize, RefsBelow;
    SetTypeWellFormed(s, i, t);
  }

  lemma DataSecToStructKeeps(n: nat, s: State, i: nat)
    requires WellFormed(s) && SharedTypes(n, s) && 0 < i < n <= |s.types| && s.types[i].DataSec?
    requires DataSecToStruct(s, i).Done?
    ensures StepKeeps(n, s, DataSecToStruct(s, i).value, i)
  {
    hide WellFormed, MembersOf, StringAt, Renamed, SharedTypes;
    var d := s.types[i];
    var name := StringAt(s.strings, d.nameOffset).value;
    var (s1, offset) := Renamed(s, d.nameOffset, name, DOT, UNDERSCORE);
    RenamedWellFormed(n, s, d.nameOffset, name, DOT, UNDERSCORE);
    MembersInRange(s.types, d.entries);
    SwapKeeps(n, s1, i, Struct(offset, false, WrapU32(|d.entries|), MembersOf(s.types, d.entries).value));
  }

  lemma SizeDataSecKeeps(n: nat, elf: Elf, answers: Answers, s: State, i: nat, name: Name, offset: StringOffset)
    requires WellFormed(s) && SharedTypes(n, s) && 0 < i < n <= |s.types| && s.types[i].DataSec?
    requires SizeDataSec(elf, answers, s, i, name, offset).Done?
    ensures StepKeeps(n, s, SizeDataSec(elf, answers, s, i, name, offset).value, i)
  {
    hide WellFormed, EntriesFixed, WithFiller;
    WithFillerWellFormed(n, s);
    var size := WrapU32(elf.sectionSizes[name]);
    var d := s.types[i];
    var fill := d.entries == [] && (size == 0 || Rejects(answers, FDataSecZero));
    var s1 := if fill then WithFiller(s) else s;
    var full := if fill && size == 0 then 1 else size;
    var entries := if fill then [Entry(s1.filler.value, 0, full)] else d.entries;
    EntriesInRange(elf, s1, entries);
    ResizedWellFormed(s1, i, DataSec(offset, full, EntriesFixed(elf, s1, entries).value));
  }

  lemma FixDataSecKeeps(n: nat, elf: Elf, answers: Answers, s: State, i: nat)
    requires WellFormed(s) && SharedTypes(n, s) && 0 < i < n <= |s.types| && s.types[i].DataSec?
    requires FixDataSec(elf, answers, s, i).Done?
    ensures StepKeeps(n, s, FixDataSec(elf, answers, s, i).value, i)
  {
    hide WellFormed, SizeDataSec, StringAt, Renamed, SharedTypes;
    var d := s.types[i];
    var name := StringAt(s.strings, d.nameOffset).value;
    var (s1, offset) := Renamed(s, d.nameOffset, name, SLASH, DOT);
    RenamedWellFormed(n, s, d.nameOffset, name, SLASH, DOT);
    if d.size > 0 {
      RefsOf(s1, i);
      SwapKeeps(n, s1, i, DataSec(offset, d.size, d.entries));
    } else {
      SizeDataSecKeeps(n, elf, answers, s1, i, name, offset);
    }
  }

  lemma RefsOf(s: State, i: nat)
    requires WellFormed(s) && i < |s.types|
    ensures RefsBelow(s.types[i], |s.types|)
  {
  }

  lemma Enum64ToUnionKeeps(n: nat, s: State, i: nat)
    requires WellFormed(s) && SharedTypes(n, s) && 0 < i < n <= |s.types| && s.types[i].Enum64?
    ensures StepKeeps(n, s, Enum64ToUnion(s, i), i)
  {
    hide WellFormed, WithPlaceholder;
    var t, s1 := s.types[i], WithPlaceholder(s);
    WithPlaceholderWellFormed(n, s);
    SwapKeeps(n, s1, i, Union(t.nameOffset, false, t.size, UnionMembers(t.variants64, s1.placeholder.value), Some(FallbackOf(t))));
  }

  lemma FuncProtoKeeps(n: nat, elf: Elf, answers: Answers, s: State, i: nat)
    requires WellFormed(s) && SharedTypes(n, s) && 0 < i < n <= |s.types| && s.types[i].FuncProto?
    ensures StepOf(elf, answers, s, i).Done?
    ensures StepKeeps(n, s, StepOf(elf, answers, s, i).value, i)
  {
    hide WellFormed, ParamsNamed;
    var t := s.types[i];
    RefsOf(s, i);
    if Rejects(answers, FFunc) {
      SwapKeeps(n, s, i, Enum(t.nameOffset, false, 4, VariantsOf(t.params)));
    } else {
      ParamsNamedWellFormed(n, s, t.params, 0);
      var (s1, named) := ParamsNamed(s, t.params, 0);
      SwapKeeps(n, s1, i, FuncProto(t.nameOffset, t.returnType, named));
    }
  }

  /** Rewriting one type keeps the image well formed and touches no other type. */
  lemma StepKeepsImage(n: nat, elf: Elf, answers: Answers, s: State, i: nat)
    requires WellFormed(s) && SharedTypes(n, s) && i < n <= |s.types|
    requires StepOf(elf, answers, s, i).Done?
    ensures StepKeeps(n, s, StepOf(elf, answers, s, i).value, i)
  {
    hide WellFormed, SharedTypes, StringAt, FixDataSec, DataSecToStruct, Enum64ToUnion, ParamsNamed, SetType;
    var t := s.types[i];
    var s' := StepOf(elf, answers, s, i).value;
    if i == 0 {
      FirstIsUnknown(s);
    } else {
      RefsOf(s, i);
      match t
      case DataSec(_, _, _) =>
        if Rejects(answers, FDataSec) { DataSecToStructKeeps(n, s, i); } else { FixDataSecKeeps(n, elf, answers, s, i); }
      case FuncProto(_, _, _) => FuncProtoKeeps(n, elf, answers, s, i);
      case Enum64(_, _, _, _) => Enum64ToUnionKeeps(n, s, i);
      case _ => SmallSwapKeeps(n, elf, answers, s, i);
    }
  }

  lemma FirstIsUnknown(s: State)
    requires WellFormed(s)
    ensures s.types != [] && s.types[0] == Unknown
  {
  }

  /** The kinds that are swapped for another of the same size. */
  lemma SmallSwapKeeps(n: nat, elf: Elf, answers: Answers, s: State, i: nat)
    requires WellFormed(s) && SharedTypes(n, s) && 0 < i < n <= |s.types|
    requires !s.types[i].DataSec? && !s.types[i].FuncProto? && !s.types[i].Enum64?
    requires StepOf(elf, answers, s, i).Done?
    ensures StepKeeps(n, s, StepOf(elf, answers, s, i).value, i)
  {
    hide WellFormed, SharedTypes, StringAt, FixDataSec, DataSecToStruct, Enum64ToUnion, ParamsNamed;
    var s' := StepOf(elf, answers, s, i).value;
    RefsOf(s, i);
    if s' != s {
      assert s' == SetType(s, i, s'.types[i]);
      SwapKeeps(n, s, i, s'.types[i]);
    }
  }

  // ---------- the whole table ----------

  /** A run starts without shared types. */
  ghost predicate Fresh(s: State) {
    WellFormed(s) && s.placeholder.None? && s.filler.None?
  }

  /** After `i` types: still well formed, the rest of the old table untouched, at most three types added. */
  lemma {:induction false} RunKeepsImage(elf: Elf, answers: Answers, s: State, i: nat)
    requires Fresh(s) && i <= |s.types| && Run(elf, answers, s, i).Done?
    ensures
      var s' := Run(elf, answers, s, i).value;
      && WellFormed(s') && SharedTypes(|s.types|, s') && |s'.types| <= |s.types| + 3
      && s.strings <= s'.strings
      && forall j :: i <= j < |s.types| ==> s'.types[j] == s.types[j]
  {
    hide WellFormed, StepOf;
    if i > 0 {
      RunKeepsImage(elf, answers, s, i - 1);
      StepKeepsImage(|s.types|, elf, answers, Run(elf, answers, s, i - 1).value, i - 1);
    }
  }

  /**
   Ids are stable: the type with id `j` is, in the end, what rewriting made of it at its turn, and
   until then it was what it had been.
   */
  lemma {:induction false} IdsStable(elf: Elf, answers: Answers, s: State, i: nat, j: nat)
    requires Fresh(s) && j < i <= |s.types| && Run(elf, answers, s, i).Done?
    ensures Run(elf, answers, s, j).Done?
    ensures
      var before := Run(elf, answers, s, j).value;
      && before.types[j] == s.types[j]
      && StepOf(elf, answers, before, j).Done?
      && j < |StepOf(elf, answers, before, j).value.types|
      && Run(elf, answers, s, i).value.types[j] == StepOf(elf, answers, before, j).value.types[j]
  {
    hide WellFormed, StepOf;
    var last := Run(elf, answers, s, i - 1).value;
    RunKeepsImage(elf, answers, s, i - 1);
    StepKeepsImage(|s.types|, elf, answers, last, i - 1);
    if j < i - 1 {
      IdsStable(elf, answers, s, i - 1, j);
    }
  }

  /** Every name offset that could be read still reads the same string. */
  lemma NamesKept(elf: Elf, answers: Answers, s: State, i: nat, offset: StringOffset)
    requires Fresh(s) && i <= |s.types| && Run(elf, answers, s, i).Done?
    requires StringAt(s.strings, offset).Some?
    ensures StringAt(Run(elf, answers, s, i).value.strings, offset) == StringAt(s.strings, offset)
  {
    hide WellFormed, StepOf, StringAt;
    RunKeepsImage(elf, answers, s, i);
    var after := Run(elf, answers, s, i).value.strings;
    assert after == s.strings + after[|s.strings|..];
    StringKept(s.strings, after[|s.strings|..], offset);
  }

  // ---------- completeness ----------

  /** A type the kernel accepts, by its answers: no kind, signedness or linkage it rejected. */
  ghost predicate Accepted(answers: Answers, t: BtfType) {
    match t
    case Var(_, _, _) => Allows(answers, FDataSec)
    case DataSec(_, _, _) => Allows(answers, FDataSec)
    case FuncProto(_, _, _) => Allows(answers, FFunc)
    case Func(_, _, linkage) => Allows(answers, FFunc) && (linkage == GLOBAL ==> Allows(answers, FFuncGlobal))
    case Float(_, _) => Allows(answers, FFloat)
    case DeclTag(_, _, _) => Allows(answers, FDeclTag)
    case TypeTag(_, _) => Allows(answers, FTypeTag)
    case Enum(_, signed, _, _) => signed ==> Allows(answers, FEnum64)
    case Enum64(_, _, _, _) => Allows(answers, FEnum64)
    case _ => true
  }

  lemma DataSecAccepted(elf: Elf, answers: Answers, s: State, i: nat)
    requires i < |s.types| && s.types[i].DataSec? && FDataSec in answers
    requires StepOf(elf, answers, s, i).Done?
    ensures i < |StepOf(elf, answers, s, i).value.types|
    ensures Accepted(answers, StepOf(elf, answers, s, i).value.types[i])
    ensures StepOf(elf, answers, s, i).value.filler.Some? ==> s.filler.Some? || Allows(answers, FDataSec)
  {
    hide StringAt, EntriesFixed, MembersOf, EncodedSize;
  }

  /** Once rewritten, a type is accepted. */
  lemma StepAccepted(elf: Elf, answers: Answers, s: State, i: nat)
    requires i < |s.types| && Asked(answers, elf, s, i) && StepOf(elf, answers, s, i).Done?
    ensures i < |StepOf(elf, answers, s, i).value.types|
    ensures Accepted(answers, StepOf(elf, answers, s, i).value.types[i])
    ensures StepOf(elf, answers, s, i).value.filler.Some? ==> s.filler.Some? || Allows(answers, FDataSec)
  {
    hide StringAt, ParamsNamed, FixDataSec, DataSecToStruct;
    if s.types[i].DataSec? {
      DataSecAccepted(elf, answers, s, i);
    } else if s.types[i].FuncProto? {
      ParamsNamedKeeps(s, s.types[i].params, 0);
    }
  }

  lemma {:induction false} RunAccepted(elf: Elf, answers: Answers, s: State, i: nat)
    requires Fresh(s) && i <= |s.types| && AllAsked(answers, elf, s, i) && Run(elf, answers, s, i).Done?
    ensures forall j :: 0 <= j < i ==> Accepted(answers, Run(elf, answers, s, i).value.types[j])
    ensures Run(elf, answers, s, i).value.filler.Some? ==> Allows(answers, FDataSec)
  {
    hide WellFormed, StepOf, Asked, Accepted;
    if i > 0 {
      var s1 := Run(elf, answers, s, i - 1).value;
      RunAccepted(elf, answers, s, i - 1);
      RunKeepsImage(elf, answers, s, i - 1);
      StepKeepsImage(|s.types|, elf, answers, s1, i - 1);
      StepAccepted(elf, answers, s1, i - 1);
    }
  }

  /** Completeness: after a run no type, old or added, is of a form the kernel rejected. */
  lemma SanitizingIsComplete(elf: Elf, answers: Answers, s: State)
    requires Fresh(s) && AllAsked(answers, elf, s, |s.types|) && Run(elf, answers, s, |s.types|).Done?
    ensures
      var s' := Run(elf, answers, s, |s.types|).value;
      forall j :: 0 <= j < |s'.types| ==> Accepted(answers, s'.types[j])
  {
    hide WellFormed, StepOf, Asked;
    RunAccepted(elf, answers, s, |s.types|);
    RunKeepsImage(elf, answers, s, |s.types|);
  }

  // ---------- writing the result out ----------

  ghost predicate AllEncodable(types: seq<BtfType>) {
    forall j :: 1 <= j < |types| ==> Encodable(types[j])
  }

  /** Offsets into the strings and ids of types fit 32 bits. */
  ghost predicate Small(s: State) {
    |s.strings| < 0x1_0000_0000 && |s.types| < 0x1_0000_0000
  }

  lemma NameOffsetFits(types: seq<BtfType>, j: nat)
    requires AllEncodable(types) && j < |types| && types[0] == Unknown
    ensures Fits32(types[j].NameOffset())
  {
  }

  lemma {:induction false} MembersEncodable(types: seq<BtfType>, entries: seq<Entry>)
    requires types != [] && AllEncodable(types) && types[0] == Unknown && |types| < 0x1_0000_0000
    requires MembersOf(types, entries).Done?
    ensures forall m :: m in MembersOf(types, entries).value ==> Fits32(m.nameOffset) && Fits32(m.btfType)
  {
    hide AllEncodable;
    if entries != [] {
      MembersEncodable(types, entries[1..]);
      NameOffsetFits(types, entries[0].btfType);
    }
  }

  lemma {:induction false} ParamsEncodable(s: State, params: seq<Param>, k: nat)
    requires k <= |params| && |ParamsNamed(s, params, k).0.strings| < 0x1_0000_0000
    requires forall p :: p in params ==> Fits32(p.nameOffset) && Fits32(p.btfType)
    ensures s.strings <= ParamsNamed(s, params, k).0.strings
    ensures forall p :: p in ParamsNamed(s, params, k).1 ==> Fits32(p.nameOffset) && Fits32(p.btfType)
    decreases |params| - k
  {
    hide Bytes, Decimal;
    if k < |params| {
      var p := params[k];
      if p.nameOffset == 0 && p.btfType != 0 {
        var named := params[k := p.(nameOffset := |s.strings|)];
        ParamsNamedGrows(WithString(s, Bytes("param") + Decimal(k)), named, k + 1);
        forall q | q in named
          ensures Fits32(q.nameOffset) && Fits32(q.btfType)
        {
          assert q in params || q == p.(nameOffset := |s.strings|);
        }
        ParamsEncodable(WithString(s, Bytes("param") + Decimal(k)), named, k + 1);
      } else {
        ParamsEncodable(s, params, k + 1);
      }
    }
  }

  lemma {:induction false} ParamsNamedGrows(s: State, params: seq<Param>, k: nat)
    requires k <= |params|
    ensures s.strings <= ParamsNamed(s, params, k).0.strings
    decreases |params| - k
  {
    hide Bytes, Decimal;
    if k < |params| {
      var p := params[k];
      if p.nameOffset == 0 && p.btfType != 0 {
        ParamsNamedGrows(WithString(s, Bytes("param") + Decimal(k)), params[k := p.(nameOffset := |s.strings|)], k + 1);
      } else {
        ParamsNamedGrows(s, params, k + 1);
      }
    }
  }

  lemma SharedEncodable(s: State)
    requires s.types != [] && AllEncodable(s.types)
    ensures Small(WithFiller(s)) ==> AllEncodable(WithFiller(s).types)
    ensures Small(WithPlaceholder(s)) ==> AllEncodable(WithPlaceholder(s).types)
  {
    hide Bytes, EncodedSize;
  }

  lemma SwapEncodable(s: State, i: nat, t: BtfType)
    requires i < |s.types| && AllEncodable(s.types) && Encodable(t)
    ensures AllEncodable(s.types[i := t])
  {
  }

  lemma StructEncodable(s: State, i: nat)
    requires WellFormed(s) && 0 < i < |s.types| && s.types[i].DataSec?
    requires AllEncodable(s.types) && DataSecToStruct(s, i).Done? && Small(DataSecToStruct(s, i).value)
    ensures AllEncodable(DataSecToStruct(s, i).value.types)
  {
    hide AllEncodable, StringAt, MembersOf, Replaced, RefsInRange, AllKnown;
    var d, s' := s.types[i], DataSecToStruct(s, i).value;
    EncodableAt(s.types, i);
    MembersEncodable(s.types, d.entries);
    MembersInRange(s.types, d.entries);
    SwapEncodable(s, i, s'.types[i]);
  }

  lemma SizedEncodable(n: nat, elf: Elf, answers: Answers, s: State, i: nat, name: Name, offset: StringOffset)
    requires WellFormed(s) && SharedTypes(n, s) && 0 < i < n <= |s.types| && s.types[i].DataSec?
    requires AllEncodable(s.types) && offset < 0x1_0000_0000
    requires SizeDataSec(elf, answers, s, i, name, offset).Done?
    requires Small(SizeDataSec(elf, answers, s, i, name, offset).value)
    ensures AllEncodable(SizeDataSec(elf, answers, s, i, name, offset).value.types)
  {
    hide AllEncodable, WithFiller, EntriesFixed, EncodedSize, WellFormed, SharedTypes;
    var d, s' := s.types[i], SizeDataSec(elf, answers, s, i, name, offset).value;
    EncodableAt(s.types, i);
    SharedEncodable(s);
    FillerStrings(s);
    var fill := d.entries == [] && (WrapU32(elf.sectionSizes[name]) == 0 || Rejects(answers, FDataSecZero));
    var s1 := if fill then WithFiller(s) else s;
    EntriesInRange(elf, s1, if fill then [Entry(s1.filler.value, 0, s'.types[i].size)] else d.entries);
    SwapEncodable(s1, i, s'.types[i]);
  }

  lemma SectionEncodable(n: nat, elf: Elf, answers: Answers, s: State, i: nat)
    requires WellFormed(s) && SharedTypes(n, s) && 0 < i < n <= |s.types| && s.types[i].DataSec?
    requires AllEncodable(s.types) && FixDataSec(elf, answers, s, i).Done? && Small(FixDataSec(elf, answers, s, i).value)
    ensures AllEncodable(FixDataSec(elf, answers, s, i).value.types)
  {
    hide AllEncodable, StringAt, Replaced, SizeDataSec, WellFormed, SharedTypes;
    var d, s' := s.types[i], FixDataSec(elf, answers, s, i).value;
    EncodableAt(s.types, i);
    var name := StringAt(s.strings, d.nameOffset).value;
    var (s1, offset) := Renamed(s, d.nameOffset, name, SLASH, DOT);
    RenamedWellFormed(n, s, d.nameOffset, name, SLASH, DOT);
    if d.size > 0 {
      SwapEncodable(s1, i, s'.types[i]);
    } else {
      SizeDataSecKeeps(n, elf, answers, s1, i, name, offset);
      SizedEncodable(n, elf, answers, s1, i, name, offset);
    }
  }

  lemma UnionEncodable(n: nat, s: State, i: nat)
    requires WellFormed(s) && SharedTypes(n, s) && 0 < i < n <= |s.types| && s.types[i].Enum64?
    requires AllEncodable(s.types) && Small(Enum64ToUnion(s, i))
    ensures AllEncodable(Enum64ToUnion(s, i).types)
  {
    hide AllEncodable, WellFormed, WithPlaceholder;
    WithPlaceholderWellFormed(n, s);
    EncodableAt(s.types, i);
    SharedEncodable(s);
    SwapEncodable(WithPlaceholder(s), i, Enum64ToUnion(s, i).types[i]);
  }

  lemma FillerStrings(s: State)
    ensures s.strings <= WithFiller(s).strings && s.types <= WithFiller(s).types && WithFiller(s).filler.Some?
  {
  }

  lemma EncodableAt(types: seq<BtfType>, i: nat)
    requires AllEncodable(types) && 1 <= i < |types|
    ensures Encodable(types[i])
  {
  }

  /** Rewriting keeps every type encodable while the image stays below 4 GiB. */
  lemma StepEncodable(n: nat, elf: Elf, answers: Answers, s: State, i: nat)
    requires WellFormed(s) && SharedTypes(n, s) && i < n <= |s.types|
    requires AllEncodable(s.types) && StepOf(elf, answers, s, i).Done? && Small(StepOf(elf, answers, s, i).value)
    ensures AllEncodable(StepOf(elf, answers, s, i).value.types)
  {
    hide AllEncodable, StringAt, FixDataSec, DataSecToStruct, ParamsNamed, WellFormed, Enum64ToUnion, SharedTypes;
    if i == 0 {
      FirstIsUnknown(s);
    } else {
      EncodableAt(s.types, i);
      var t, s' := s.types[i], StepOf(elf, answers, s, i).value;
      match t
      case DataSec(_, _, _) =>
        if Rejects(answers, FDataSec) { StructEncodable(s, i); } else { SectionEncodable(n, elf, answers, s, i); }
      case FuncProto(name, ret, ps) =>
        if Rejects(answers, FFunc) {
          SwapEncodable(s, i, s'.types[i]);
        } else {
          ParamsNamedKeeps(s, ps, 0);
          ParamsEncodable(s, ps, 0);
          var (s1, named) := ParamsNamed(s, ps, 0);
          SwapEncodable(s1, i, FuncProto(name, ret, named));
        }
      case Enum64(_, _, _, _) =>
        if Rejects(answers, FEnum64) { UnionEncodable(n, s, i); }
      case _ => SmallSwapEncodable(elf, answers, s, i);
    }
  }

  lemma SmallSwapEncodable(elf: Elf, answers: Answers, s: State, i: nat)
    requires 0 < i < |s.types| && AllEncodable(s.types)
    requires !s.types[i].DataSec? && !s.types[i].FuncProto? && !s.types[i].Enum64?
    requires StepOf(elf, answers, s, i).Done?
    ensures AllEncodable(StepOf(elf, answers, s, i).value.types)
  {
  }

  lemma {:induction false} RunEncodable(elf: Elf, answers: Answers, s: State, i: nat)
    requires Fresh(s) && AllEncodable(s.types) && i <= |s.types|
    requires Run(elf, answers, s, i).Done? && Small(Run(elf, answers, s, i).value)
    ensures AllEncodable(Run(elf, answers, s, i).value.types)
  {
    hide WellFormed, StepOf, AllEncodable;
    if i > 0 {
      var s1 := Run(elf, answers, s, i - 1).value;
      RunKeepsImage(elf, answers, s, i - 1);
      StepKeepsImage(|s.types|, elf, answers, s1, i - 1);
      RunEncodable(elf, answers, s, i - 1);
      StepEncodable(|s.types|, elf, answers, s1, i - 1);
    }
  }

  /**
   The sanitized image, written out and parsed, gives back its header, its types and its strings;
   only the values of the 64-bit enums it replaced are not in the image.
   */
  lemma SanitizedImageParses(elf: Elf, answers: Answers, s: State)
    requires Fresh(s) && AllEncodable(s.types) && Run(elf, answers, s, |s.types|).Done?
    requires var s' := Run(elf, answers, s, |s.types|).value;
      Small(s') && s'.header.strOff + s'.header.strLen < 0x1_0000_0000
    ensures
      var s' := Run(elf, answers, s, |s.types|).value;
      && s'.types != []
      && Parse(ToBytes(s'.header, s'.types, s'.strings)) == Ok(Image(s'.header, PlainTypes(s'.types), s'.strings))
  {
    hide StepOf, Encodable;
    var s' := Run(elf, answers, s, |s.types|).value;
    RunKeepsImage(elf, answers, s, |s.types|);
    RunEncodable(elf, answers, s, |s.types|);
    forall t | t in s'.types[1..]
      ensures Encodable(t)
    {
      var k :| 0 <= k < |s'.types[1..]| && s'.types[1..][k] == t;
      assert s'.types[k + 1] == t;
    }
    ParseBack(s'.header, s'.types, s'.strings);
  }
}
