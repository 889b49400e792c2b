/**
 What fixing the section of extern kernel symbols achieves: the image stays well formed, the section
 is tiled by global integer variables, later sanitizing leaves its layout alone, and a second fixup
 changes nothing.
 */
module KsymsProperties {
  import opened Instructions
  import opened Btf
  import opened BtfImage
  import opened Sanitizer
  import opened SanitizerProperties
  import opened Ksyms

  // ---------- the image ----------

  lemma {:induction false} SameSizes(types: seq<BtfType>, others: seq<BtfType>)
    requires |types| == |others| && forall j :: 0 <= j < |types| ==> EncodedSize(types[j]) == EncodedSize(others[j])
    ensures SectionSize(types) == SectionSize(others)
  {
    hide EncodedSize;
    if types != [] {
      SameSizes(types[..|types| - 1], others[..|others| - 1]);
    }
  }

  /** A fixed type takes the same room as before and refers to types that exist. */
  lemma TypeAfterKeeps(p: Plan, types: seq<BtfType>, entries: seq<Entry>, size: U32, j: TypeId)
    requires j < |types| && RefsBelow(types[j], |types|) && p.intId < |types|
    requires p.section < |types| && types[p.section].DataSec? && types[p.section].entries == entries
    requires p.placeholder.Some? ==> p.placeholder.value < |types|
    ensures
      var now := TypeAfter(p, types, entries, |entries|, size, j);
      && EncodedSize(now) == EncodedSize(types[j])
      && RefsBelow(now, |types|)
      && (now.Unknown? <==> types[j].Unknown?)
  {
  }

  lemma PlanKeeps(s: State, section: TypeId, placeholder: Option<TypeId>)
    requires WellFormed(s) && KsymsPlan(s, section, placeholder).Done?
    ensures
      var (s1, plan) := KsymsPlan(s, section, placeholder).value;
      && WellFormed(s1) && OnlyChanged(s, s1, |s.types|) && plan.intId < |s1.types|
      && plan.section == section && plan.placeholder == placeholder
      && (plan.placeholder.Some? ==> plan.placeholder.value < |s1.types|)
      && (placeholder.None? ==> IsInt4(s1.types[plan.intId]))
  {
    hide Canonical, Bytes, EncodedSize, AllKnown;
    if placeholder.Some? {
      RefsOf(s, placeholder.value);
    } else {
      Int4Keeps(s);
    }
  }

  lemma Int4Keeps(s: State)
    requires WellFormed(s)
    ensures
      var (s1, id) := WithInt4(s);
      && WellFormed(s1) && OnlyChanged(s, s1, |s.types|) && id < |s1.types| && IsInt4(s1.types[id])
      && FindInt4(s1.types, 0) == Some(id)
  {
    hide Canonical, Bytes, EncodedSize, AllKnown;
    if FindInt4(s.types, 0).None? {
      var t := Int(|s.strings|, 4, SIGNED_INT);
      WithStringWellFormed(s, Bytes("int"));
      WithTypeWellFormed(WithString(s, Bytes("int")), t);
    }
  }

  /** The section, a type it lists, or the prototype of a function it lists. */
  ghost predicate Concerned(types: seq<BtfType>, section: TypeId, j: TypeId)
    requires section < |types| && types[section].DataSec?
  {
    var entries := types[section].entries;
    j == section || Listed(entries, |entries|, j) || ListedProto(types, entries, |entries|, j)
  }

  /** Every id keeps its kind and its name, and all but the ones concerned their whole type. */
  lemma FixupMovesNothing(s: State, section: TypeId, placeholder: Option<TypeId>, j: TypeId)
    requires KsymsFixable(s, section, placeholder) && j < |s.types|
    ensures section < |s.types| && s.types[section].DataSec? && j < |KsymsFixed(s, section, placeholder).types|
    ensures
      var now := KsymsFixed(s, section, placeholder).types[j];
      && now.Kind() == s.types[j].Kind() && now.NameOffset() == s.types[j].NameOffset()
      && (!Concerned(s.types, section, j) ==> now == s.types[j])
  {
    hide EntriesOk, StringAt, Bytes, NamedAlike, EntriesAfter;
    var (s1, plan) := KsymsPlan(s, section, placeholder).value;
    assert forall i :: 0 <= i < |s.types| ==> s1.types[i] == s.types[i];
    var entries := s.types[section].entries;
    assert forall e :: IsFuncOf(s1.types, e, j) <==> IsFuncOf(s.types, e, j);
    assert ListedProto(s1.types, entries, |entries|, j) <==> ListedProto(s.types, entries, |entries|, j);
  }

  /** The fixed image is well formed; strings are only added, and no id moves. */
  lemma FixupKeepsImage(s: State, section: TypeId, placeholder: Option<TypeId>)
    requires WellFormed(s) && KsymsFixable(s, section, placeholder)
    ensures
      var s' := KsymsFixed(s, section, placeholder);
      && WellFormed(s') && s.strings <= s'.strings && |s.types| <= |s'.types| <= |s.types| + 1
      && s'.filler == s.filler && s'.placeholder == s.placeholder
    ensures section < |s.types| && s.types[section].DataSec?
    ensures forall j: TypeId :: j < |s.types| ==>
      var now := KsymsFixed(s, section, placeholder).types[j];
      && now.Kind() == s.types[j].Kind() && now.NameOffset() == s.types[j].NameOffset()
      && (!Concerned(s.types, section, j) ==> now == s.types[j])
  {
    hide TypeAfter, EncodedSize, Bytes, EntriesOk, StringAt, SectionSize, Concerned;
    FixupMovesNothing(s, section, placeholder, section);
    forall j: TypeId | j < |s.types|
      ensures KsymsFixed(s, section, placeholder).types[j].Kind() == s.types[j].Kind()
      ensures KsymsFixed(s, section, placeholder).types[j].NameOffset() == s.types[j].NameOffset()
      ensures !Concerned(s.types, section, j) ==> KsymsFixed(s, section, placeholder).types[j] == s.types[j]
    {
      FixupMovesNothing(s, section, placeholder, j);
    }
    var (s1, plan) := KsymsPlan(s, section, placeholder).value;
    PlanKeeps(s, section, placeholder);
    var s' := KsymsFixed(s, section, placeholder);
    var entries := s1.types[section].entries;
    forall j | 0 <= j < |s1.types|
      ensures EncodedSize(s'.types[j]) == EncodedSize(s1.types[j])
      ensures RefsBelow(s'.types[j], |s1.types|)
      ensures s'.types[j].Unknown? <==> s1.types[j].Unknown?
    {
      TypeAfterKeeps(plan, s1.types, entries, WrapU32(|entries| * ENTRY_SIZE), j);
    }
    SameSizes(s'.types[1..], s1.types[1..]);
  }

  // ---------- what the kernel gets ----------

  /** A placeholder as `create_ksym_func_placeholder` makes it. */
  ghost predicate PlaceholderOk(s: State, placeholder: Option<TypeId>) {
    placeholder.Some? ==>
      && placeholder.value < |s.types|
      && var v := s.types[placeholder.value];
         && v.Var? && v.linkage == LINKAGE_GLOBAL
         && v.btfType < |s.types| && IsInt4(s.types[v.btfType])
         && StringAt(s.strings, v.nameOffset).Some?
  }

  /** Creating the placeholder keeps the image and gives one. */
  lemma PlaceholderMade(s: State)
    requires WellFormed(s)
    ensures var (s', id) := WithKsymPlaceholder(s);
      WellFormed(s') && OnlyChanged(s, s', |s.types|) && PlaceholderOk(s', Some(id))
  {
    hide Canonical, EncodedSize, AllKnown, WithInt4, Bytes, StringAt;
    var (s1, int4) := WithInt4(s);
    Int4Keeps(s);
    var name := Bytes("ksym_func_placeholder");
    PlaceholderNameReads(s1);
    WithStringWellFormed(s1, name);
    WithTypeWellFormed(WithString(s1, name), Var(|s1.strings|, int4, GLOBAL));
  }

  lemma PlaceholderNameReads(s: State)
    ensures StringAt(WithString(s, Bytes("ksym_func_placeholder")).strings, |s.strings|).Some?
  {
    hide StringAt;
    var text := "ksym_func_placeholder";
    assert forall i :: 0 <= i < |text| ==> 0 < text[i] as int < 256;
    StringAdded(s.strings, Bytes(text), 0);
  }

  /** A section entry the kernel takes: a global variable of a four-byte integer. */
  ghost predicate KernelTakes(types: seq<BtfType>, e: Entry) {
    && e.btfType < |types|
    && var v := types[e.btfType];
       && v.Var? && v.linkage == LINKAGE_GLOBAL && v.btfType < |types|
       && types[v.btfType].Int? && types[v.btfType].size == 4
  }

  /** The section is covered by its entries, four bytes each, with no gap and no overlap. */
  ghost predicate SectionTiled(d: BtfType) {
    && d.DataSec?
    && d.size == |d.entries| * ENTRY_SIZE
    && forall k :: 0 <= k < |d.entries| ==> d.entries[k].offset == k * ENTRY_SIZE && d.entries[k].size == ENTRY_SIZE
  }

  /** One entry, fixed: a variable, or a function with a placeholder, becomes what the kernel takes. */
  lemma EntryTaken(p: Plan, types: seq<BtfType>, strings: seq<Byte>, entries: seq<Entry>, size: U32, k: nat)
    requires k < |entries| && EntryOk(p, types, strings, entries[k].btfType)
    requires p.intId < |types| && IsInt4(types[p.intId])
    requires p.placeholder.Some? ==>
      p.placeholder.value < |types| && var v := types[p.placeholder.value];
      v.Var? && v.linkage == LINKAGE_GLOBAL && v.btfType == p.intId
    ensures KernelTakes(TypesAfter(p, types, entries, |entries|, size), EntryAfter(p, types, entries[k], k)) <==>
      p.placeholder.Some? || types[entries[k].btfType].Var?
  {
  }

  /** The plan works with the types there are, and its integer is one. */
  lemma PlanSound(s: State, section: TypeId, placeholder: Option<TypeId>)
    requires WellFormed(s) && PlaceholderOk(s, placeholder) && KsymsFixable(s, section, placeholder)
    ensures
      var (s1, plan) := KsymsPlan(s, section, placeholder).value;
      && section < |s.types| && s.types[section].DataSec? && s1.types[section] == s.types[section]
      && s.types <= s1.types && s.strings <= s1.strings
      && plan.section == section && plan.placeholder == placeholder && (plan.placeholderName.Some? <==> placeholder.Some?)
      && plan.intId < |s1.types| && IsInt4(s1.types[plan.intId])
      && (placeholder.Some? ==> s1 == s && s.types[placeholder.value].btfType == plan.intId)
  {
    hide StringAt, EntryOk, Canonical, EncodedSize, AllKnown, Bytes;
    PlanKeeps(s, section, placeholder);
  }

  /**
   After the fixup the entries tile the section, unless there are so many that 32-bit offsets wrap
   around, and the kernel takes all of them exactly when there is a placeholder or no entry was a
   function.
   */
  lemma FixupSatisfiesKernel(s: State, section: TypeId, placeholder: Option<TypeId>)
    requires WellFormed(s) && PlaceholderOk(s, placeholder) && KsymsFixable(s, section, placeholder)
    ensures
      var s' := KsymsFixed(s, section, placeholder);
      && section < |s.types| && s.types[section].DataSec? && section < |s'.types|
      && (SectionTiled(s'.types[section]) <==> |s.types[section].entries| < 0x4000_0000)
      && |s'.types[section].entries| == |s.types[section].entries|
      && ((forall k :: 0 <= k < |s.types[section].entries| ==> KernelTakes(s'.types, s'.types[section].entries[k])) <==>
            placeholder.Some? || forall k :: 0 <= k < |s.types[section].entries| ==> IsVariable(s.types, s.types[section].entries[k]))
  {
    hide StringAt, EntryOk, WellFormed, KsymsPlan, KernelTakes, PlaceholderOk;
    PlanSound(s, section, placeholder);
    var (s1, plan) := KsymsPlan(s, section, placeholder).value;
    var entries := s1.types[section].entries;
    var size := WrapU32(|entries| * ENTRY_SIZE);
    var now := KsymsFixed(s, section, placeholder).types;
    assert now[section] == TypeAfter(plan, s1.types, entries, |entries|, size, section);
    forall k | 0 <= k < |entries|
      ensures KernelTakes(now, now[section].entries[k]) <==> placeholder.Some? || IsVariable(s.types, entries[k])
    {
      assert now[section].entries[k] == EntryAfter(plan, s1.types, entries[k], k);
      EntryInTable(s, section, k);
      if placeholder.Some? {
        PlaceholderPlanned(s, placeholder);
      }
      EntryTaken(plan, s1.types, s1.strings, entries, size, k);
    }
  }

  predicate IsVariable(types: seq<BtfType>, e: Entry) {
    e.btfType < |types| && types[e.btfType].Var?
  }

  lemma EntryInTable(s: State, section: TypeId, k: nat)
    requires WellFormed(s) && section < |s.types| && s.types[section].DataSec? && k < |s.types[section].entries|
    ensures s.types[section].entries[k].btfType < |s.types|
  {
  }

  lemma PlaceholderPlanned(s: State, placeholder: Option<TypeId>)
    requires PlaceholderOk(s, placeholder) && placeholder.Some?
    ensures placeholder.value < |s.types|
    ensures s.types[placeholder.value].Var? && s.types[placeholder.value].linkage == LINKAGE_GLOBAL
  {
  }

  // ---------- what becomes of the types ----------

  /** The type is that of an entry. */
  ghost predicate IsEntry(entries: seq<Entry>, j: TypeId) {
    exists k :: 0 <= k < |entries| && entries[k].btfType == j
  }

  /** The prototype is that of a function among the entries. */
  ghost predicate IsEntryProto(types: seq<BtfType>, entries: seq<Entry>, j: TypeId) {
    exists k :: 0 <= k < |entries| && var id := entries[k].btfType;
      id < |types| && types[id].Func? && types[id].btfType == j
  }

  /** A parameter with a type and no name takes the given one. */
  ghost predicate ParamsGivenName(was: seq<Param>, now: seq<Param>, name: StringOffset) {
    && |now| == |was|
    && forall i :: 0 <= i < |was| ==>
      now[i] == Param(if was[i].btfType != 0 && was[i].nameOffset == 0 then name else was[i].nameOffset, was[i].btfType)
  }

  /**
   What the fixup makes of one type: functions among the entries become global, variables global
   integers; with a placeholder, the parameters of those functions get its name where they have none, and
   it takes the place of every function in the section.
   */
  ghost predicate FixedForm(s: State, placeholder: Option<TypeId>, section: TypeId, types: seq<BtfType>, j: TypeId)
    requires section < |s.types| && s.types[section].DataSec? && j < |s.types| <= |types|
    requires placeholder.Some? ==> placeholder.value < |s.types| && s.types[placeholder.value].Var?
  {
    var was, now, entries := s.types[j], types[j], s.types[section].entries;
    if was.Func? then now == (if IsEntry(entries, j) then Func(was.nameOffset, was.btfType, LINKAGE_GLOBAL) else was)
    else if was.Var? then
      if IsEntry(entries, j)
      then now.Var? && now.nameOffset == was.nameOffset && now.linkage == LINKAGE_GLOBAL
           && now.btfType < |types| && types[now.btfType].Int? && types[now.btfType].size == 4
      else now == was
    else if was.FuncProto? && placeholder.Some? && IsEntryProto(s.types, entries, j) then
      && now.FuncProto? && now.nameOffset == was.nameOffset && now.returnType == was.returnType
      && ParamsGivenName(was.params, now.params, s.types[placeholder.value].nameOffset)
    else if j == section then
      && now.DataSec? && |now.entries| == |entries|
      && forall k :: 0 <= k < |entries| ==>
        now.entries[k].btfType == if placeholder.Some? && entries[k].btfType < |s.types| && s.types[entries[k].btfType].Func?
                                  then placeholder.value else entries[k].btfType
    else now == was
  }

  lemma NamedIsGiven(params: seq<Param>, name: StringOffset)
    ensures ParamsGivenName(params, NamedAlike(params, name), name)
  {
  }

  lemma EntriesListed(entries: seq<Entry>, j: TypeId)
    ensures Listed(entries, |entries|, j) <==> IsEntry(entries, j)
  {
  }

  lemma ProtosListed(types: seq<BtfType>, others: seq<BtfType>, entries: seq<Entry>, j: TypeId)
    requires types <= others && forall e :: e in entries ==> e.btfType < |types|
    ensures ListedProto(others, entries, |entries|, j) <==> IsEntryProto(types, entries, j)
  {
    if ListedProto(others, entries, |entries|, j) {
      var k :| 0 <= k < |entries| && IsFuncOf(others, entries[k], j);
      assert entries[k] in entries;
    }
    if IsEntryProto(types, entries, j) {
      var k :| 0 <= k < |entries| && var id := entries[k].btfType; id < |types| && types[id].Func? && types[id].btfType == j;
      assert IsFuncOf(others, entries[k], j);
    }
  }

  /** After the fixup every type of the image is its fixed form. */
  lemma TypesFixed(s: State, section: TypeId, placeholder: Option<TypeId>, j: TypeId)
    requires WellFormed(s) && PlaceholderOk(s, placeholder) && KsymsFixable(s, section, placeholder) && j < |s.types|
    ensures section < |s.types| && s.types[section].DataSec? && j < |KsymsFixed(s, section, placeholder).types|
    ensures |s.types| <= |KsymsFixed(s, section, placeholder).types|
    ensures FixedForm(s, placeholder, section, KsymsFixed(s, section, placeholder).types, j)
  {
    hide StringAt, EntriesOk, WellFormed, KsymsPlan, Listed, ListedProto, NamedAlike, EntryAfter, IsEntry, IsEntryProto;
    PlanSound(s, section, placeholder);
    var (s1, plan) := KsymsPlan(s, section, placeholder).value;
    var entries := s.types[section].entries;
    var now := KsymsFixed(s, section, placeholder).types;
    assert s1.types[j] == s.types[j];
    forall e | e in entries
      ensures e.btfType < |s.types|
    {
      var k :| 0 <= k < |entries| && entries[k] == e;
      EntryInTable(s, section, k);
    }
    EntriesListed(entries, j);
    ProtosListed(s.types, s1.types, entries, j);
    if placeholder.Some? {
      PlaceholderNamed(s, section, placeholder);
    }
    if s.types[j].FuncProto? && placeholder.Some? {
      NamedIsGiven(s.types[j].params, s.types[placeholder.value].nameOffset);
    }
    IntStays(plan, s1.types, entries, WrapU32(|entries| * ENTRY_SIZE));
    if j == section {
      forall k | 0 <= k < |entries|
        ensures now[j].entries[k].btfType ==
          if placeholder.Some? && entries[k].btfType < |s.types| && s.types[entries[k].btfType].Func?
          then placeholder.value else entries[k].btfType
      {
        EntryPlaced(plan, s1.types, entries[k], k);
        EntryInTable(s, section, k);
      }
    }
  }

  lemma EntryPlaced(p: Plan, types: seq<BtfType>, e: Entry, k: nat)
    ensures EntryAfter(p, types, e, k).btfType ==
      if e.btfType < |types| && types[e.btfType].Func? && p.placeholder.Some? then p.placeholder.value else e.btfType
  {
  }

  lemma IntStays(p: Plan, types: seq<BtfType>, entries: seq<Entry>, size: U32)
    requires p.intId < |types| && IsInt4(types[p.intId])
    ensures TypesAfter(p, types, entries, |entries|, size)[p.intId] == types[p.intId]
  {
  }

  lemma PlaceholderNamed(s: State, section: TypeId, placeholder: Option<TypeId>)
    requires placeholder.Some? && KsymsPlan(s, section, placeholder).Done?
    ensures placeholder.value < |s.types| && s.types[placeholder.value].Var?
    ensures KsymsPlan(s, section, placeholder).value.1.placeholderName == Some(s.types[placeholder.value].nameOffset)
  {
  }

  /** What is wrong with an entry that cannot be fixed: its type is neither, its name cannot be read, or a type is missing. */
  lemma EntryErrorExactly(p: Plan, types: seq<BtfType>, strings: seq<Byte>, id: TypeId)
    requires !EntryOk(p, types, strings, id)
    ensures EntryError(p, types, strings, id) == InvalidDatasec <==> id < |types| && !types[id].Func? && !types[id].Var?
    ensures EntryError(p, types, strings, id) == UnreadableName <==>
      id < |types| && (types[id].Func? || types[id].Var?) && StringAt(strings, types[id].nameOffset).None?
    ensures EntryError(p, types, strings, id) == DanglingType <==>
      id >= |types|
      || (types[id].Func? && StringAt(strings, types[id].nameOffset).Some? && types[id].btfType >= |types|)
  {
  }

  // ---------- the passes after it ----------

  /** Variables, integers and sized sections come through sanitizing, when the kernel knows sections. */
  lemma Survives(elf: Elf, answers: Answers, s: State, j: nat)
    requires Fresh(s) && j < |s.types| && Run(elf, answers, s, |s.types|).Done? && Allows(answers, FDataSec)
    requires s.types[j].Var? || s.types[j].Int? || (s.types[j].DataSec? && s.types[j].size > 0)
    ensures |s.types| <= |Run(elf, answers, s, |s.types|).value.types|
    ensures
      var now := Run(elf, answers, s, |s.types|).value.types[j];
      if s.types[j].DataSec?
      then now.DataSec? && now.size == s.types[j].size && now.entries == s.types[j].entries
      else now == s.types[j]
  {
    hide WellFormed, StringAt, ParamsNamed, EncodedSize, Run;
    IdsStable(elf, answers, s, |s.types|, j);
  }

  /** The layout of the section and what the kernel takes of it are still there after sanitizing. */
  lemma LayoutSurvives(elf: Elf, answers: Answers, s: State, section: TypeId)
    requires Fresh(s) && Run(elf, answers, s, |s.types|).Done? && Allows(answers, FDataSec)
    requires section < |s.types| && SectionTiled(s.types[section]) && s.types[section].entries != []
    ensures
      var s' := Run(elf, answers, s, |s.types|).value;
      && section < |s'.types| && SectionTiled(s'.types[section]) && s'.types[section].entries == s.types[section].entries
      && forall e :: e in s.types[section].entries && KernelTakes(s.types, e) ==> KernelTakes(s'.types, e)
  {
    hide WellFormed, Run;
    Survives(elf, answers, s, section);
    var s' := Run(elf, answers, s, |s.types|).value;
    forall e | e in s.types[section].entries && KernelTakes(s.types, e)
      ensures KernelTakes(s'.types, e)
    {
      Survives(elf, answers, s, e.btfType);
      Survives(elf, answers, s, s.types[e.btfType].btfType);
    }
  }

  /** A section with entries keeps them, and what the kernel takes of it, whatever becomes of its size. */
  lemma EntriesSurvive(elf: Elf, answers: Answers, s: State, section: TypeId)
    requires Fresh(s) && Run(elf, answers, s, |s.types|).Done? && Allows(answers, FDataSec)
    requires section < |s.types| && s.types[section].DataSec? && s.types[section].entries != []
    requires forall e :: e in s.types[section].entries ==> KernelTakes(s.types, e)
    ensures
      var s' := Run(elf, answers, s, |s.types|).value;
      && section < |s'.types| && s'.types[section].DataSec?
      && |s'.types[section].entries| == |s.types[section].entries|
      && forall e :: e in s'.types[section].entries ==> KernelTakes(s'.types, e)
  {
    hide WellFormed, Run, StepOf, StringAt;
    var s' := Run(elf, answers, s, |s.types|).value;
    var entries := s.types[section].entries;
    assert s'.types[section].DataSec? && SameVariables(entries, s'.types[section].entries) by {
      IdsStable(elf, answers, s, |s.types|, section);
      var before := Run(elf, answers, s, section).value;
      StepKeepsVariables(elf, answers, before, section);
    }
    forall k | 0 <= k < |entries|
      ensures KernelTakes(s'.types, s'.types[section].entries[k])
    {
      assert KernelTakes(s.types, entries[k]);
      Survives(elf, answers, s, entries[k].btfType);
      Survives(elf, answers, s, s.types[entries[k].btfType].btfType);
    }
  }

  /** The entries are for the same variables, in the same order. */
  ghost predicate SameVariables(entries: seq<Entry>, others: seq<Entry>) {
    |entries| == |others| && forall k :: 0 <= k < |entries| ==> entries[k].btfType == others[k].btfType
  }

  lemma StepKeepsVariables(elf: Elf, answers: Answers, s: State, i: nat)
    requires i < |s.types| && s.types[i].DataSec? && s.types[i].entries != [] && Allows(answers, FDataSec)
    requires StepOf(elf, answers, s, i).Done?
    ensures
      var s' := StepOf(elf, answers, s, i).value;
      i < |s'.types| && s'.types[i].DataSec? && SameVariables(s.types[i].entries, s'.types[i].entries)
  {
    hide StringAt, EntriesFixed, EncodedSize, WithFiller;
    var d := s.types[i];
    if d.size == 0 {
      var s1 := Renamed(s, d.nameOffset, StringAt(s.strings, d.nameOffset).value, SLASH, DOT).0;
      EntriesInRange(elf, s1, d.entries);
    }
  }

  // ---------- a second fixup ----------

  lemma {:induction false} SameFirstInt(types: seq<BtfType>, others: seq<BtfType>, i: nat)
    requires |types| == |others| && i <= |types|
    requires forall j :: 0 <= j < |types| && (types[j].Int? || others[j].Int?) ==> types[j] == others[j]
    ensures FindInt4(types, i) == FindInt4(others, i)
    decreases |types| - i
  {
  }

  /** A type that was fixed is left as it is by another fixup. */
  lemma TypeAfterTwice(p: Plan, types: seq<BtfType>, entries: seq<Entry>, size: U32, j: TypeId)
    requires j < |types| && p.section < |types| && types[p.section].DataSec? && types[p.section].entries == entries
    requires p.placeholder.Some? <==> p.placeholderName.Some?
    requires p.placeholder.Some? ==> IsVariableOf(types, p.placeholder.value, p.intId)
    requires forall k :: 0 <= k < |entries| ==> entries[k].btfType < |types|
    ensures
      var once := TypesAfter(p, types, entries, |entries|, size);
      TypeAfter(p, once, EntriesAfter(p, types, entries, |entries|), |entries|, size, j) == once[j]
  {
  }

  /** The type is a global variable of the given type. */
  ghost predicate IsVariableOf(types: seq<BtfType>, id: TypeId, of: TypeId) {
    id < |types| && types[id].Var? && types[id].linkage == LINKAGE_GLOBAL && types[id].btfType == of
  }

  lemma EntryOkAgain(p: Plan, types: seq<BtfType>, strings: seq<Byte>, entries: seq<Entry>, size: U32, k: nat)
    requires k < |entries| && EntryOk(p, types, strings, entries[k].btfType)
    requires p.placeholder.Some? <==> p.placeholderName.Some?
    requires p.placeholder.Some? ==>
      IsVariableOf(types, p.placeholder.value, p.intId) && StringAt(strings, types[p.placeholder.value].nameOffset).Some?
    ensures EntryOk(p, TypesAfter(p, types, entries, |entries|, size), strings,
                    EntriesAfter(p, types, entries, |entries|)[k].btfType)
  {
  }

  lemma PlanAgain(s: State, section: TypeId, placeholder: Option<TypeId>)
    requires WellFormed(s) && PlaceholderOk(s, placeholder) && KsymsFixable(s, section, placeholder)
    ensures
      var s' := KsymsFixed(s, section, placeholder);
      KsymsPlan(s', section, placeholder) == Done((s', KsymsPlan(s, section, placeholder).value.1))
  {
    hide StringAt, EntriesOk, NamedAlike, ListedProto, Canonical, EntriesAfter, WithInt4, RefsInRange;
    PlanSound(s, section, placeholder);
    var (s1, plan) := KsymsPlan(s, section, placeholder).value;
    var s' := KsymsFixed(s, section, placeholder);
    if placeholder.None? {
      Int4Found(s);
      SameFirstInt(s'.types, s1.types, 0);
      Int4There(s', plan.intId);
    } else {
      PlaceholderPlanned(s, placeholder);
    }
  }

  lemma Int4Found(s: State)
    requires WellFormed(s)
    ensures FindInt4(WithInt4(s).0.types, 0) == Some(WithInt4(s).1)
  {
    Int4Keeps(s);
  }

  lemma Int4There(s: State, id: TypeId)
    requires FindInt4(s.types, 0) == Some(id)
    ensures WithInt4(s) == (s, id)
  {
  }

  /** Fixing the section again changes nothing. */
  lemma SecondFixupChangesNothing(s: State, section: TypeId, placeholder: Option<TypeId>)
    requires WellFormed(s) && PlaceholderOk(s, placeholder) && KsymsFixable(s, section, placeholder)
    ensures KsymsFixable(KsymsFixed(s, section, placeholder), section, placeholder)
    ensures KsymsFixed(KsymsFixed(s, section, placeholder), section, placeholder) == KsymsFixed(s, section, placeholder)
  {
    hide StringAt, EntryOk, TypeAfter, EntriesAfter, WellFormed;
    PlanSound(s, section, placeholder);
    PlanAgain(s, section, placeholder);
    var (s1, plan) := KsymsPlan(s, section, placeholder).value;
    var s' := KsymsFixed(s, section, placeholder);
    var entries := s1.types[section].entries;
    var size := WrapU32(|entries| * ENTRY_SIZE);
    SectionAfter(plan, s1.types, entries, size);
    var es := s'.types[section].entries;
    forall k | 0 <= k < |es|
      ensures EntryOk(plan, s'.types, s'.strings, es[k].btfType)
    {
      EntryOkAgain(plan, s1.types, s1.strings, entries, size, k);
    }
    forall k | 0 <= k < |entries|
      ensures entries[k].btfType < |s1.types|
    {
      EntryInTable(s, section, k);
    }
    forall j | 0 <= j < |s1.types|
      ensures TypeAfter(plan, s'.types, es, |es|, size, j) == s'.types[j]
    {
      TypeAfterTwice(plan, s1.types, entries, size, j);
    }
    assert TypesAfter(plan, s'.types, es, |es|, size) == s'.types;
  }

  lemma SectionAfter(p: Plan, types: seq<BtfType>, entries: seq<Entry>, size: U32)
    requires p.section < |types| && types[p.section].DataSec?
    ensures TypesAfter(p, types, entries, |entries|, size)[p.section] ==
      DataSec(types[p.section].nameOffset, size, EntriesAfter(p, types, entries, |entries|))
  {
  }

  /** A section of that many entries is larger than its 32-bit size can say. */
  lemma TooManyEntries(d: BtfType)
    requires d.DataSec? && |d.entries| >= 0x4000_0000
    ensures !SectionTiled(d)
  {
  }

  /**
   Both passes together, started on a well-formed image: it stays well formed, nothing the kernel
   rejected is left, and the section of extern symbols is tiled by what the kernel takes.
   */
  lemma PreparedForKernel(elf: Elf, answers: Answers, s: State, section: TypeId, placeholder: Option<TypeId>)
    requires Fresh(s) && PlaceholderOk(s, placeholder) && KsymsFixable(s, section, placeholder)
    requires section < |s.types| && s.types[section].DataSec? && s.types[section].entries != []
    requires placeholder.Some? || forall e :: e in s.types[section].entries ==> IsVariable(s.types, e)
    requires var fixed := KsymsFixed(s, section, placeholder);
      && AllAsked(answers, elf, fixed, |fixed.types|)
      && Run(elf, answers, fixed, |fixed.types|).Done? && Allows(answers, FDataSec)
    ensures
      var fixed := KsymsFixed(s, section, placeholder);
      var s' := Run(elf, answers, fixed, |fixed.types|).value;
      && WellFormed(s') && s.strings <= s'.strings
      && (forall j :: 0 <= j < |s'.types| ==> Accepted(answers, s'.types[j]))
      && section < |s'.types| && s'.types[section].DataSec?
      && (SectionTiled(s'.types[section]) <==> |s.types[section].entries| < 0x4000_0000)
      && forall e :: e in s'.types[section].entries ==> KernelTakes(s'.types, e)
  {
    hide WellFormed, Run, AllAsked, KsymsFixable, KsymsFixed, KernelTakes, SectionTiled, Accepted, PlaceholderOk;
    var fixed := KsymsFixed(s, section, placeholder);
    FixupKeepsImage(s, section, placeholder);
    FixupSatisfiesKernel(s, section, placeholder);
    SanitizingIsComplete(elf, answers, fixed);
    RunKeepsImage(elf, answers, fixed, |fixed.types|);
    var d := fixed.types[section];
    assert d.DataSec?;
    EntriesSurvive(elf, answers, fixed, section);
    if |d.entries| < 0x4000_0000 {
      LayoutSurvives(elf, answers, fixed, section);
    } else {
      TooManyEntries(Run(elf, answers, fixed, |fixed.types|).value.types[section]);
    }
  }
}
