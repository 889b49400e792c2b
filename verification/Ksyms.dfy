/**
 Fixing the section of extern kernel symbols, so that the kernel accepts it: every entry becomes a
 global variable of a four-byte integer, and the entries tile the section. Functions are not
 allowed in sections; a placeholder variable stands in for each.
 */
module Ksyms {
  import opened Instructions
  import opened Btf

  // What a fixup works with: the section, the variable that stands for functions, with its name,
  // and the integer that becomes the type of all variables.
  datatype Plan = Plan(section: TypeId, placeholder: Option<TypeId>, placeholderName: Option<StringOffset>, intId: TypeId)

  const LINKAGE_GLOBAL: U32 := 1
  // The size of every entry.
  const ENTRY_SIZE: U32 := 4
  // The description word of a signed four-byte integer: encoding 1, offset 0, 32 bits.
  const SIGNED_INT: U32 := 0x0100_0020

  predicate IsInt4(t: BtfType) {
    t.Int? && t.size == 4
  }

  /** The first four-byte integer from `i` on. */
  function FindInt4(types: seq<BtfType>, i: nat): (r: Option<TypeId>)
    requires i <= |types|
    ensures r.Some? ==> i <= r.value < |types| && IsInt4(types[r.value])
    ensures r.Some? ==> forall j :: i <= j < r.value ==> !IsInt4(types[j])
    ensures r.None? ==> forall j :: i <= j < |types| ==> !IsInt4(types[j])
    decreases |types| - i
  {
    if i == |types| then None
    else if IsInt4(types[i]) then Some(i)
    else FindInt4(types, i + 1)
  }

  // ---------- when the fixup succeeds ----------

  predicate EntryOk(p: Plan, types: seq<BtfType>, strings: seq<Byte>, id: TypeId) {
    && id < |types|
    && (types[id].Func? || types[id].Var?)
    && StringAt(strings, types[id].nameOffset).Some?
    && (types[id].Func? && p.placeholderName.Some? ==> types[id].btfType < |types|)
  }

  ghost predicate EntriesOk(p: Plan, types: seq<BtfType>, strings: seq<Byte>, entries: seq<Entry>, k: nat)
    requires k <= |entries|
  {
    forall i :: 0 <= i < k ==> EntryOk(p, types, strings, entries[i].btfType)
  }

  // ---------- what it makes of the types ----------

  /** One of the first `k` entries is the type. */
  ghost predicate Listed(entries: seq<Entry>, k: nat, id: TypeId)
    requires k <= |entries|
  {
    exists i :: 0 <= i < k && entries[i].btfType == id
  }

  predicate IsFuncOf(types: seq<BtfType>, e: Entry, proto: TypeId) {
    e.btfType < |types| && types[e.btfType].Func? && types[e.btfType].btfType == proto
  }

  /** One of the first `k` entries is a function with the prototype. */
  ghost predicate ListedProto(types: seq<BtfType>, entries: seq<Entry>, k: nat, proto: TypeId)
    requires k <= |entries|
  {
    exists i :: 0 <= i < k && IsFuncOf(types, entries[i], proto)
  }

  function NamedAlike(params: seq<Param>, name: StringOffset): seq<Param> {
    seq(|params|, i requires 0 <= i < |params| =>
      if params[i].btfType != 0 && params[i].nameOffset == 0 then params[i].(nameOffset := name) else params[i])
  }

  function EntryAfter(p: Plan, types: seq<BtfType>, e: Entry, i: nat): Entry {
    Entry(if e.btfType < |types| && types[e.btfType].Func? && p.placeholder.Some? then p.placeholder.value else e.btfType,
          WrapU32(i * ENTRY_SIZE), ENTRY_SIZE)
  }

  function EntriesAfter(p: Plan, types: seq<BtfType>, entries: seq<Entry>, k: nat): (r: seq<Entry>)
    requires k <= |entries|
    ensures |r| == |entries|
  {
    seq(|entries|, i requires 0 <= i < |entries| => if i < k then EntryAfter(p, types, entries[i], i) else entries[i])
  }

  /** The type with id `j`, after the first `k` entries were fixed. */
  ghost function TypeAfter(p: Plan, types: seq<BtfType>, entries: seq<Entry>, k: nat, size: U32, j: TypeId): BtfType
    requires k <= |entries| && j < |types|
  {
    match types[j]
    case Func(n, b, _) => if Listed(entries, k, j) then Func(n, b, LINKAGE_GLOBAL) else types[j]
    case Var(n, _, _) => if Listed(entries, k, j) then Var(n, p.intId, LINKAGE_GLOBAL) else types[j]
    case FuncProto(n, ret, ps) =>
      if p.placeholderName.Some? && ListedProto(types, entries, k, j)
      then FuncProto(n, ret, NamedAlike(ps, p.placeholderName.value)) else types[j]
    case DataSec(n, _, _) =>
      if j == p.section then DataSec(n, size, EntriesAfter(p, types, entries, k)) else types[j]
    case _ => types[j]
  }

  ghost function TypesAfter(p: Plan, types: seq<BtfType>, entries: seq<Entry>, k: nat, size: U32): (r: seq<BtfType>)
    requires k <= |entries|
    ensures |r| == |types|
  {
    seq(|types|, j requires 0 <= j < |types| => TypeAfter(p, types, entries, k, size, j))
  }

  lemma NamedTwice(params: seq<Param>, name: StringOffset)
    ensures NamedAlike(NamedAlike(params, name), name) == NamedAlike(params, name)
  {
  }

  /** What the fixup decides by is not what it changes. */
  lemma ShapeKept(p: Plan, types: seq<BtfType>, entries: seq<Entry>, k: nat, size: U32, id: TypeId)
    requires k <= |entries| && id < |types|
    ensures
      var now := TypesAfter(p, types, entries, k, size)[id];
      && (now.Func? <==> types[id].Func?) && (now.Var? <==> types[id].Var?) && (now.DataSec? <==> types[id].DataSec?)
      && now.NameOffset() == types[id].NameOffset()
      && (now.Func? ==> now.btfType == types[id].btfType)
  {
  }

  lemma NothingListed(p: Plan, types: seq<BtfType>, entries: seq<Entry>)
    requires p.section < |types| && types[p.section].DataSec? && types[p.section].entries == entries
    ensures TypesAfter(p, types, entries, 0, types[p.section].size) == types
  {
    assert EntriesAfter(p, types, entries, 0) == entries;
  }

  lemma ListedStep(types: seq<BtfType>, entries: seq<Entry>, k: nat, j: TypeId)
    requires k < |entries|
    ensures Listed(entries, k + 1, j) <==> Listed(entries, k, j) || entries[k].btfType == j
    ensures ListedProto(types, entries, k + 1, j) <==> ListedProto(types, entries, k, j) || IsFuncOf(types, entries[k], j)
  {
  }

  /** The section, one entry further. */
  function SectionStep(p: Plan, section: BtfType, k: nat, isFunc: bool): BtfType
    requires section.DataSec? && k < |section.entries|
  {
    var id := if isFunc && p.placeholder.Some? then p.placeholder.value else section.entries[k].btfType;
    DataSec(section.nameOffset, section.size, section.entries[k := Entry(id, WrapU32(k * ENTRY_SIZE), ENTRY_SIZE)])
  }

  lemma SectionStepped(p: Plan, types: seq<BtfType>, entries: seq<Entry>, k: nat, size: U32)
    requires k < |entries| && p.section < |types| && types[p.section].DataSec?
    requires entries[k].btfType < |types|
    ensures
      var now := TypeAfter(p, types, entries, k, size, p.section);
      && now.DataSec? && |now.entries| == |entries|
      && SectionStep(p, now, k, types[entries[k].btfType].Func?) == TypeAfter(p, types, entries, k + 1, size, p.section)
  {
  }

  /** One function entry: three types change, the function, its prototype and the section. */
  lemma FuncStep(p: Plan, types: seq<BtfType>, entries: seq<Entry>, k: nat, size: U32, named: seq<BtfType>,
                 now: seq<BtfType>)
    requires k < |entries| && p.section < |types| && types[p.section].DataSec?
    requires entries[k].btfType < |types| && types[entries[k].btfType].Func?
    requires p.placeholderName.Some? ==> types[entries[k].btfType].btfType < |types|
    requires
      var sofar := TypesAfter(p, types, entries, k, size);
      var id, proto := entries[k].btfType, types[entries[k].btfType].btfType;
      && named == sofar[id := Func(types[id].nameOffset, proto, LINKAGE_GLOBAL)]
      && now == (if p.placeholderName.Some? && named[proto].FuncProto?
                 then named[proto := named[proto].(params := NamedAlike(named[proto].params, p.placeholderName.value))]
                 else named)
    ensures |now| == |types| && now[p.section].DataSec? && k < |now[p.section].entries|
    ensures now[p.section := SectionStep(p, now[p.section], k, true)] == TypesAfter(p, types, entries, k + 1, size)
  {
    hide IsFuncOf, NamedAlike, Listed, ListedProto, EntriesAfter, SectionStep;
    var id, proto := entries[k].btfType, types[entries[k].btfType].btfType;
    SectionStepped(p, types, entries, k, size);
    var after := TypesAfter(p, types, entries, k + 1, size);
    var got := now[p.section := SectionStep(p, now[p.section], k, true)];
    forall j | 0 <= j < |types|
      ensures got[j] == after[j]
    {
      ListedStep(types, entries, k, j);
      FuncOnly(types, entries[k], j);
      if types[j].FuncProto? && p.placeholderName.Some? {
        NamedTwice(types[j].params, p.placeholderName.value);
      }
    }
    assert got == after;
  }

  lemma FuncOnly(types: seq<BtfType>, e: Entry, j: TypeId)
    requires e.btfType < |types|
    ensures IsFuncOf(types, e, j) <==> types[e.btfType].Func? && types[e.btfType].btfType == j
  {
  }

  /** One variable entry: the variable and the section change. */
  lemma VarStep(p: Plan, types: seq<BtfType>, entries: seq<Entry>, k: nat, size: U32, now: seq<BtfType>)
    requires k < |entries| && p.section < |types| && types[p.section].DataSec?
    requires entries[k].btfType < |types| && types[entries[k].btfType].Var?
    requires
      var sofar := TypesAfter(p, types, entries, k, size);
      var id := entries[k].btfType;
      now == sofar[id := Var(types[id].nameOffset, p.intId, LINKAGE_GLOBAL)]
    ensures |now| == |types| && now[p.section].DataSec? && k < |now[p.section].entries|
    ensures now[p.section := SectionStep(p, now[p.section], k, false)] == TypesAfter(p, types, entries, k + 1, size)
  {
    hide IsFuncOf, NamedAlike, Listed, ListedProto, EntriesAfter, SectionStep;
    SectionStepped(p, types, entries, k, size);
    var after := TypesAfter(p, types, entries, k + 1, size);
    var got := now[p.section := SectionStep(p, now[p.section], k, false)];
    forall j | 0 <= j < |types|
      ensures got[j] == after[j]
    {
      ListedStep(types, entries, k, j);
      FuncOnly(types, entries[k], j);
    }
    assert got == after;
  }

  lemma Sized(p: Plan, types: seq<BtfType>, entries: seq<Entry>, k: nat, before: U32, after: U32)
    requires k <= |entries| && p.section < |types| && types[p.section].DataSec?
    ensures
      var sofar := TypesAfter(p, types, entries, k, before);
      sofar[p.section].DataSec?
      && sofar[p.section := DataSec(types[p.section].nameOffset, after, sofar[p.section].entries)] == TypesAfter(p, types, entries, k, after)
  {
  }
}
