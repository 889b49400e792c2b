/**
 Fixing and sanitizing BTF twice. A first run settles every type but sections that have entries and
 stay without a size; what becomes of those in a second run is decided by the ELF file it is given.
 */
module SecondRun {
  import opened Instructions
  import opened Btf
  import opened BtfImage
  import opened Sanitizer
  import opened SanitizerProperties

  // ---------- what a run settles ----------

  /** A type a run would leave as it is. */
  ghost predicate Settled(answers: Answers, strings: seq<Byte>, t: BtfType) {
    && Accepted(answers, t)
    && match t
       case Ptr(n, _) => n == 0
       case DataSec(n, size, _) =>
         StringAt(strings, n).Some? && SLASH !in StringAt(strings, n).value && size > 0
       case FuncProto(_, _, ps) => forall p :: p in ps ==> p.nameOffset != 0 || p.btfType == 0
       case Func(n, _, linkage) =>
         StringAt(strings, n).Some? && (linkage == GLOBAL ==> !IsMemoryBuiltin(StringAt(strings, n).value))
       case _ => true
  }

  /** A section with entries that a run leaves without a size. */
  ghost predicate Sizeless(answers: Answers, strings: seq<Byte>, t: BtfType) {
    && t.DataSec? && t.size == 0 && t.entries != [] && Allows(answers, FDataSec)
    && StringAt(strings, t.nameOffset).Some? && SLASH !in StringAt(strings, t.nameOffset).value
  }

  /** Two kernels, or two runs on one, that do not contradict each other. */
  ghost predicate Agree(a: Answers, b: Answers) {
    forall f :: f in a && f in b ==> a[f] == b[f]
  }

  lemma {:induction false} NothingToName(s: State, params: seq<Param>, k: nat)
    requires k <= |params| && forall p :: p in params ==> p.nameOffset != 0 || p.btfType == 0
    ensures ParamsNamed(s, params, k) == (s, params)
    decreases |params| - k
  {
    if k < |params| {
      assert params[k] in params;
      NothingToName(s, params, k + 1);
    }
  }

  lemma NothingToReplace(name: Name, from: Byte, to: Byte)
    requires from !in name
    ensures Replaced(name, from, to) == name
  {
  }

  lemma SettledStaysPut(elf: Elf, answers: Answers, again: Answers, s: State, i: nat)
    requires i < |s.types| && Settled(answers, s.strings, s.types[i]) && Agree(answers, again)
    ensures StepOf(elf, again, s, i) == Done(s)
  {
    hide StringAt, SizeDataSec, DataSecToStruct, Replaced, IsMemoryBuiltin;
    assert s.types[i := s.types[i]] == s.types;
    match s.types[i]
    case DataSec(n, _, _) => NothingToReplace(StringAt(s.strings, n).value, SLASH, DOT);
    case FuncProto(_, _, ps) => NothingToName(s, ps, 0);
    case _ =>
  }

  /** Rewriting settles a type, except for a section that stays without a size. */
  lemma StepSettles(elf: Elf, answers: Answers, s: State, i: nat)
    requires i < |s.types| && s.strings != [] && Asked(answers, elf, s, i) && StepOf(elf, answers, s, i).Done?
    ensures
      var s' := StepOf(elf, answers, s, i).value;
      && i < |s'.types|
      && (Sizeless(answers, s'.strings, s'.types[i]) || Settled(answers, s'.strings, s'.types[i]))
  {
    hide StringAt, ParamsNamed, FixDataSec, DataSecToStruct, IsMemoryBuiltin;
    StepAccepted(elf, answers, s, i);
    match s.types[i]
    case DataSec(_, _, _) => SectionSettles(elf, answers, s, i);
    case FuncProto(_, _, ps) => NamedParamsSettle(s, ps, 0);
    case _ =>
  }

  lemma {:induction false} NamedParamsSettle(s: State, params: seq<Param>, k: nat)
    requires k <= |params| && s.strings != []
    ensures
      var (s', named) := ParamsNamed(s, params, k);
      && s'.types == s.types && |named| == |params|
      && (forall j :: 0 <= j < k ==> named[j] == params[j])
      && forall j :: k <= j < |named| ==> named[j].nameOffset != 0 || named[j].btfType == 0
    decreases |params| - k
  {
    hide Bytes, Decimal;
    if k < |params| {
      var p := params[k];
      if p.nameOffset == 0 && p.btfType != 0 {
        NamedParamsSettle(WithString(s, Bytes("param") + Decimal(k)), params[k := p.(nameOffset := |s.strings|)], k + 1);
      } else {
        NamedParamsSettle(s, params, k + 1);
      }
    }
  }

  lemma {:induction false} NoNul(strings: seq<Byte>, offset: nat)
    requires StringAt(strings, offset).Some?
    ensures 0 !in StringAt(strings, offset).value
    decreases |strings| - offset
  {
    if strings[offset] != 0 {
      NoNul(strings, offset + 1);
    }
  }

  /** The new name of a section is the old one with the byte replaced, and is read back. */
  lemma RenamedReads(s: State, offset: StringOffset, name: Name, from: Byte, to: Byte)
    requires StringAt(s.strings, offset) == Some(name) && to != 0 && to != from
    ensures
      var (s', renamed) := Renamed(s, offset, name, from, to);
      && StringAt(s'.strings, renamed) == Some(Replaced(name, from, to))
      && from !in Replaced(name, from, to)
  {
    var replaced := Replaced(name, from, to);
    NoNul(s.strings, offset);
    if replaced != name {
      forall k | 0 <= k < |replaced|
        ensures replaced[k] != 0
      {
        assert name[k] in name;
      }
      StringAdded(s.strings, replaced, 0);
      assert replaced[0..] == replaced;
    }
  }

  lemma FillerKeepsName(s: State, offset: StringOffset)
    requires StringAt(s.strings, offset).Some?
    ensures StringAt(WithFiller(s).strings, offset) == StringAt(s.strings, offset)
  {
    hide StringAt, Bytes;
    if s.filler.None? {
      var a, b := Bytes("__aya_datasec_filler_type"), Bytes("__aya_datasec_filler");
      assert s.strings + a + [0] + b + [0] == s.strings + (a + [0] + b + [0]);
      StringKept(s.strings, a + [0] + b + [0], offset);
    }
  }

  lemma SectionSettles(elf: Elf, answers: Answers, s: State, i: nat)
    requires i < |s.types| && s.types[i].DataSec? && FDataSec in answers && StepOf(elf, answers, s, i).Done?
    ensures
      var s' := StepOf(elf, answers, s, i).value;
      && i < |s'.types|
      && (Sizeless(answers, s'.strings, s'.types[i]) || Settled(answers, s'.strings, s'.types[i]))
  {
    hide StringAt, EntriesFixed, MembersOf, EncodedSize, WithFiller, Renamed, Replaced;
    if !Rejects(answers, FDataSec) {
      var d := s.types[i];
      var name := StringAt(s.strings, d.nameOffset).value;
      var (s1, offset) := Renamed(s, d.nameOffset, name, SLASH, DOT);
      RenamedReads(s, d.nameOffset, name, SLASH, DOT);
      RenamedTypes(s, d.nameOffset, name, SLASH, DOT);
      FillerKeepsName(s1, offset);
      FillerTypes(s1);
      EntriesKeepCount(elf, s1, d.entries);
    } else {
      var d := s.types[i];
      RenamedTypes(s, d.nameOffset, StringAt(s.strings, d.nameOffset).value, DOT, UNDERSCORE);
    }
  }

  lemma EntriesKeepCount(elf: Elf, s: State, entries: seq<Entry>)
    ensures EntriesFixed(elf, s, entries).Done? ==> |EntriesFixed(elf, s, entries).value| == |entries|
  {
    if EntriesFixed(elf, s, entries).Done? {
      EntriesInRange(elf, s, entries);
    }
  }

  lemma RenamedTypes(s: State, offset: StringOffset, name: Name, from: Byte, to: Byte)
    ensures Renamed(s, offset, name, from, to).0.types == s.types
  {
  }

  lemma FillerTypes(s: State)
    ensures s.types <= WithFiller(s).types
  {
  }

  /** Settled types stay settled when strings are added. */
  lemma SettledKept(answers: Answers, strings: seq<Byte>, more: seq<Byte>, t: BtfType)
    requires strings <= more
    ensures Settled(answers, strings, t) ==> Settled(answers, more, t)
    ensures Sizeless(answers, strings, t) ==> Sizeless(answers, more, t)
  {
    hide StringAt, IsMemoryBuiltin, Accepted;
    assert more == strings + more[|strings|..];
    if (t.DataSec? || t.Func?) && StringAt(strings, t.nameOffset).Some? {
      StringKept(strings, more[|strings|..], t.nameOffset);
    }
  }

  /** Every type a run has passed is settled, except sections that stayed without a size. */
  lemma {:induction false} RunSettles(elf: Elf, answers: Answers, s: State, i: nat)
    requires Fresh(s) && s.strings != [] && i <= |s.types|
    requires AllAsked(answers, elf, s, i) && Run(elf, answers, s, i).Done?
    ensures
      var s' := Run(elf, answers, s, i).value;
      forall j :: 0 <= j < i ==>
        Sizeless(answers, s'.strings, s'.types[j]) || Settled(answers, s'.strings, s'.types[j])
  {
    hide WellFormed, StepOf, Asked, Settled, Sizeless;
    if i > 0 {
      var s1, s2 := Run(elf, answers, s, i - 1).value, Run(elf, answers, s, i).value;
      RunSettles(elf, answers, s, i - 1);
      RunKeepsImage(elf, answers, s, i - 1);
      StepKeepsImage(|s.types|, elf, answers, s1, i - 1);
      StepSettles(elf, answers, s1, i - 1);
      forall j | 0 <= j < i
        ensures Sizeless(answers, s2.strings, s2.types[j]) || Settled(answers, s2.strings, s2.types[j])
      {
        if j < i - 1 {
          SettledKept(answers, s1.strings, s2.strings, s1.types[j]);
        }
      }
    }
  }

  // ---------- sections that stayed without a size ----------

  /** The ELF file has the section under the name it now has, with size 0 in 32 bits, and its symbols where they are. */
  ghost predicate StaysSizeless(elf: Elf, s: State, j: nat)
    requires j < |s.types| && s.types[j].DataSec?
  {
    var d := s.types[j];
    && StringAt(s.strings, d.nameOffset).Some?
    && var name := StringAt(s.strings, d.nameOffset).value;
    && name in elf.sectionSizes && WrapU32(elf.sectionSizes[name]) == 0
    && EntriesFixed(elf, s, d.entries) == Done(d.entries)
  }

  /** Rewriting such a section again leaves it alone, changes it, or fails on its name. */
  lemma SizelessAgain(elf: Elf, answers: Answers, again: Answers, s: State, j: nat)
    requires j < |s.types| && Sizeless(answers, s.strings, s.types[j]) && Agree(answers, again)
    ensures StepOf(elf, again, s, j) == Done(s) <==> StaysSizeless(elf, s, j)
    ensures
      var next := StepOf(elf, again, s, j);
      next.Done? && j < |next.value.types| && next.value.types[j] == s.types[j] ==> next == Done(s)
    ensures elf.sectionSizes == map[] ==> StepOf(elf, again, s, j) == Failed(UnknownSectionSize)
  {
    hide StringAt, EntriesFixed, Replaced, WithFiller, EncodedSize;
    var d := s.types[j];
    NothingToReplace(StringAt(s.strings, d.nameOffset).value, SLASH, DOT);
    assert s.types[j := d] == s.types;
  }

  /** A type a run has passed: settled, or a section without a size. */
  ghost predicate Passed(answers: Answers, s: State) {
    forall j :: 0 <= j < |s.types| ==> Sizeless(answers, s.strings, s.types[j]) || Settled(answers, s.strings, s.types[j])
  }

  lemma SettledHasSize(answers: Answers, strings: seq<Byte>, t: BtfType)
    ensures Settled(answers, strings, t) ==> !(t.DataSec? && t.size == 0)
    ensures Sizeless(answers, strings, t) ==> t.DataSec? && t.size == 0
  {
  }

  /** A step on what was passed that leaves the type as it is leaves everything as it is. */
  lemma PassedStep(elf: Elf, answers: Answers, again: Answers, s: State, j: nat)
    requires Passed(answers, s) && Agree(answers, again) && j < |s.types|
    ensures StepOf(elf, again, s, j) == Done(s) <==>
      (s.types[j].DataSec? && s.types[j].size == 0 ==> StaysSizeless(elf, s, j))
    ensures
      var next := StepOf(elf, again, s, j);
      next.Done? && j < |next.value.types| && next.value.types[j] == s.types[j] ==> next == Done(s)
  {
    hide StepOf, Sizeless, Settled, StaysSizeless;
    SettledHasSize(answers, s.strings, s.types[j]);
    if Sizeless(answers, s.strings, s.types[j]) {
      SizelessAgain(elf, answers, again, s, j);
    } else {
      SettledStaysPut(elf, answers, again, s, j);
    }
  }

  /** A run over what was passed changes nothing exactly when every section without a size stays as it is. */
  lemma {:induction false} PassedRun(elf: Elf, answers: Answers, again: Answers, s: State, i: nat)
    requires Fresh(s) && Passed(answers, s) && Agree(answers, again) && i <= |s.types|
    ensures Run(elf, again, s, i) == Done(s) <==>
      forall j :: 0 <= j < i && s.types[j].DataSec? && s.types[j].size == 0 ==> StaysSizeless(elf, s, j)
  {
    hide StepOf, StaysSizeless, Passed, WellFormed;
    if i > 0 {
      PassedRun(elf, answers, again, s, i - 1);
      PassedStep(elf, answers, again, s, i - 1);
      if Run(elf, again, s, i) == Done(s) {
        EarlierSame(elf, answers, again, s, i, i - 1);
      }
    }
  }

  /** A run that ends where it began was there all along: no later step undoes a change. */
  lemma {:induction false} EarlierSame(elf: Elf, answers: Answers, again: Answers, s: State, i: nat, j: nat)
    requires Fresh(s) && Passed(answers, s) && Agree(answers, again) && j <= i <= |s.types|
    requires Run(elf, again, s, i) == Done(s)
    ensures Run(elf, again, s, j) == Done(s)
    decreases j
  {
    hide StepOf, Passed, WellFormed;
    if j > 0 {
      EarlierSame(elf, answers, again, s, i, j - 1);
      IdsStable(elf, again, s, i, j - 1);
      PassedStep(elf, answers, again, s, j - 1);
    }
  }

  // The result of a run as a later one starts from it.
  ghost function Result(elf: Elf, answers: Answers, s: State): State
    requires Run(elf, answers, s, |s.types|).Done?
  {
    Run(elf, answers, s, |s.types|).value.(placeholder := None, filler := None)
  }

  lemma ResultPassed(elf: Elf, answers: Answers, s: State)
    requires Fresh(s) && s.strings != []
    requires AllAsked(answers, elf, s, |s.types|) && Run(elf, answers, s, |s.types|).Done?
    ensures Fresh(Result(elf, answers, s)) && Passed(answers, Result(elf, answers, s))
  {
    hide WellFormed, StepOf, Asked;
    var n := |s.types|;
    var s' := Run(elf, answers, s, n).value;
    RunSettles(elf, answers, s, n);
    RunAccepted(elf, answers, s, n);
    RunKeepsImage(elf, answers, s, n);
    WellFormedWithout(s');
  }

  lemma WellFormedWithout(s: State)
    requires WellFormed(s)
    ensures WellFormed(s.(placeholder := None, filler := None))
  {
  }

  ghost predicate AllSized(s: State) {
    forall t :: t in s.types && t.DataSec? ==> t.size > 0
  }

  /** For any one ELF file, a second run changes nothing exactly when it finds each section without a size as it is. */
  lemma SecondRunExact(elf: Elf, answers: Answers, s: State, elf2: Elf, again: Answers)
    requires Fresh(s) && s.strings != [] && Agree(answers, again)
    requires AllAsked(answers, elf, s, |s.types|) && Run(elf, answers, s, |s.types|).Done?
    ensures
      var s' := Result(elf, answers, s);
      Run(elf2, again, s', |s'.types|) == Done(s') <==>
        forall j :: 0 <= j < |s'.types| && s'.types[j].DataSec? && s'.types[j].size == 0 ==> StaysSizeless(elf2, s', j)
  {
    hide WellFormed, StepOf, Asked, Passed, StaysSizeless;
    ResultPassed(elf, answers, s);
    PassedRun(elf2, answers, again, Result(elf, answers, s), |Result(elf, answers, s).types|);
  }

  /**
   Idempotence: run again, with a kernel that does not contradict its answers, and nothing changes
   whatever the ELF file, exactly when every section ended with a size.
   */
  lemma SecondRunChangesNothing(elf: Elf, answers: Answers, s: State, again: Answers)
    requires Fresh(s) && s.strings != [] && Agree(answers, again)
    requires AllAsked(answers, elf, s, |s.types|) && Run(elf, answers, s, |s.types|).Done?
    ensures
      var s' := Result(elf, answers, s);
      (forall elf2 :: Run(elf2, again, s', |s'.types|) == Done(s')) <==> AllSized(s')
  {
    hide WellFormed, StepOf, Asked, Run, Result, AllAsked;
    var s' := Result(elf, answers, s);
    forall elf2
      ensures Run(elf2, again, s', |s'.types|) == Done(s') <==>
        forall j :: 0 <= j < |s'.types| && s'.types[j].DataSec? && s'.types[j].size == 0 ==> StaysSizeless(elf2, s', j)
    {
      SecondRunExact(elf, answers, s, elf2, again);
    }
    if AllSized(s') {
      assert forall j :: 0 <= j < |s'.types| ==> s'.types[j] in s'.types;
    } else {
      var t :| t in s'.types && t.DataSec? && t.size == 0;
      var j :| 0 <= j < |s'.types| && s'.types[j] == t;
      var none := Elf(map[], map[]);
      NotInThere(none, s', j);
      assert Run(none, again, s', |s'.types|) != Done(s');
    }
  }

  lemma NotInThere(elf: Elf, s: State, j: nat)
    requires j < |s.types| && s.types[j].DataSec? && elf.sectionSizes == map[]
    ensures !StaysSizeless(elf, s, j)
  {
  }

  // ---------- the same ELF file again ----------

  /** The name of a section when its turn came; a name that could be read at the start is that one. */
  ghost function SectionName(elf: Elf, answers: Answers, s: State, j: nat): Option<Name>
    requires Run(elf, answers, s, |s.types|).Done? && j < |s.types|
  {
    StringAt(Result(elf, answers, s).strings, s.types[j].NameOffset())
  }

  /** A section with entries and without a size, which the ELF file has with size 0 in 32 bits. */
  ghost predicate NoSizeFound(elf: Elf, answers: Answers, t: BtfType, name: Option<Name>) {
    && t.DataSec? && Allows(answers, FDataSec) && t.size == 0 && t.entries != []
    && name.Some? && name.value in elf.sectionSizes && WrapU32(elf.sectionSizes[name.value]) == 0
  }

  /** The ELF file also has a section under the new name, and that is empty in 32 bits too. */
  predicate EmptyToo(elf: Elf, name: Name) {
    var now := Replaced(name, SLASH, DOT);
    now in elf.sectionSizes && WrapU32(elf.sectionSizes[now]) == 0
  }

  /** What one step makes of a section, as far as its size goes. */
  lemma SectionStep(elf: Elf, answers: Answers, s: State, j: nat)
    requires j < |s.types| && s.types[j].DataSec? && FDataSec in answers && StepOf(elf, answers, s, j).Done?
    ensures
      var s' := StepOf(elf, answers, s, j).value;
      var name := StringAt(s.strings, s.types[j].nameOffset);
      && name.Some? && j < |s'.types| && s.strings <= s'.strings
      && (s'.types[j].DataSec? && s'.types[j].size == 0 <==> NoSizeFound(elf, answers, s.types[j], name))
      && (NoSizeFound(elf, answers, s.types[j], name) ==>
            && StringAt(s'.strings, s'.types[j].nameOffset) == Some(Replaced(name.value, SLASH, DOT))
            && EntriesFixed(elf, s.(strings := s'.strings), s.types[j].entries) == Done(s'.types[j].entries))
  {
    hide StringAt, EntriesFixed, MembersOf, EncodedSize, WithFiller, Renamed, Replaced;
    var d := s.types[j];
    var name := StringAt(s.strings, d.nameOffset).value;
    var (s1, offset) := Renamed(s, d.nameOffset, name, SLASH, DOT);
    RenamedGrows(s, d.nameOffset, name, SLASH, DOT);
    RenamedGrows(s, d.nameOffset, name, DOT, UNDERSCORE);
    if !Rejects(answers, FDataSec) {
      RenamedReads(s, d.nameOffset, name, SLASH, DOT);
      FillerTypes(s1);
      FillerStrings(s1);
      SameEntries(elf, s1, s.(strings := s1.strings), d.entries);
    }
  }

  lemma RenamedGrows(s: State, offset: StringOffset, name: Name, from: Byte, to: Byte)
    ensures var s' := Renamed(s, offset, name, from, to).0; s'.types == s.types && s.strings <= s'.strings
  {
  }

  lemma FillerStrings(s: State)
    ensures s.strings <= WithFiller(s).strings
  {
  }

  /** Only types and strings matter for entries. */
  lemma {:induction false} SameEntries(elf: Elf, s: State, other: State, entries: seq<Entry>)
    requires s.types == other.types && s.strings == other.strings
    ensures EntriesFixed(elf, s, entries) == EntriesFixed(elf, other, entries)
  {
    hide StringAt;
    if entries != [] {
      SameEntries(elf, s, other, entries[1..]);
    }
  }

  /** Entries that were fixed stay as they are, as long as their variables and names do. */
  lemma {:induction false} EntriesAgain(elf: Elf, s: State, later: State, entries: seq<Entry>)
    requires EntriesFixed(elf, s, entries).Done? && s.strings <= later.strings && |s.types| <= |later.types|
    requires forall e :: e in entries && e.btfType < |s.types| && s.types[e.btfType].Var? ==>
      later.types[e.btfType] == s.types[e.btfType]
    ensures EntriesFixed(elf, later, EntriesFixed(elf, s, entries).value) == EntriesFixed(elf, s, entries)
  {
    hide StringAt;
    if entries != [] {
      EntriesAgain(elf, s, later, entries[1..]);
      var e, rest := EntryFixed(elf, s, entries[0]).value, EntriesFixed(elf, s, entries[1..]).value;
      var v := s.types[entries[0].btfType];
      assert entries[0] in entries;
      assert later.strings == s.strings + later.strings[|s.strings|..];
      StringKept(s.strings, later.strings[|s.strings|..], v.nameOffset);
      assert EntriesFixed(elf, s, entries).value == [e] + rest;
      assert ([e] + rest)[1..] == rest;
    }
  }

  lemma {:induction false} StringsGrow(elf: Elf, answers: Answers, s: State, i: nat, k: nat)
    requires Fresh(s) && i <= k <= |s.types| && Run(elf, answers, s, k).Done?
    ensures Run(elf, answers, s, i).Done?
    ensures Run(elf, answers, s, i).value.strings <= Run(elf, answers, s, k).value.strings
    decreases k
  {
    hide WellFormed, StepOf;
    if i < k {
      StringsGrow(elf, answers, s, i, k - 1);
      RunKeepsImage(elf, answers, s, k - 1);
      StepKeepsImage(|s.types|, elf, answers, Run(elf, answers, s, k - 1).value, k - 1);
    }
  }

  /** A variable is the same at the turn of a section and at the end. */
  lemma VariableKept(elf: Elf, answers: Answers, s: State, j: nat, k: nat)
    requires Fresh(s) && Run(elf, answers, s, |s.types|).Done? && j < |s.types| && k < |s.types| && k != j
    requires !Rejects(answers, FDataSec)
    requires Run(elf, answers, s, j).Done? && Run(elf, answers, s, j).value.types[k].Var?
    ensures Run(elf, answers, s, |s.types|).value.types[k] == Run(elf, answers, s, j).value.types[k]
  {
    hide WellFormed;
    var n := |s.types|;
    RunKeepsImage(elf, answers, s, j);
    IdsStable(elf, answers, s, n, k);
    if k < j {
      IdsStable(elf, answers, s, j, k);
    }
  }

  /** Which sections are left without a size, and which of them a second run with the same file leaves alone. */
  lemma SizelessFrom(elf: Elf, answers: Answers, s: State, j: nat)
    requires Fresh(s) && s.strings != [] && j < |s.types|
    requires AllAsked(answers, elf, s, |s.types|) && Run(elf, answers, s, |s.types|).Done?
    ensures
      var s', name := Result(elf, answers, s), SectionName(elf, answers, s, j);
      && j < |s'.types|
      && (s'.types[j].DataSec? && s'.types[j].size == 0 <==> NoSizeFound(elf, answers, s.types[j], name))
      && (NoSizeFound(elf, answers, s.types[j], name) ==> (StaysSizeless(elf, s', j) <==> EmptyToo(elf, name.value)))
  {
    hide WellFormed, StepOf, StringAt, EntriesFixed, Replaced, Asked;
    var n := |s.types|;
    var last := Run(elf, answers, s, n).value;
    IdsStable(elf, answers, s, n, j);
    RunKeepsImage(elf, answers, s, n);
    var before := Run(elf, answers, s, j).value;
    var after := StepOf(elf, answers, before, j).value;
    if s.types[j].DataSec? {
      AskedSection(answers, elf, before, j);
      SectionStep(elf, answers, before, j);
      StringsGrow(elf, answers, s, j, n);
      StringsGrow(elf, answers, s, j + 1, n);
      assert Run(elf, answers, s, j + 1).value == after;
      ReadLater(before.strings, last.strings, s.types[j].nameOffset);
      if NoSizeFound(elf, answers, s.types[j], StringAt(before.strings, s.types[j].nameOffset)) {
        ReadLater(after.strings, last.strings, after.types[j].nameOffset);
        SizelessEntries(elf, answers, s, j);
      }
    } else {
      NoNewSection(elf, answers, before, j);
    }
  }

  lemma AskedSection(answers: Answers, elf: Elf, s: State, j: nat)
    requires j < |s.types| && s.types[j].DataSec? && Asked(answers, elf, s, j)
    ensures FDataSec in answers
  {
  }

  lemma NoNewSection(elf: Elf, answers: Answers, s: State, j: nat)
    requires j < |s.types| && !s.types[j].DataSec? && StepOf(elf, answers, s, j).Done?
    ensures j < |StepOf(elf, answers, s, j).value.types|
    ensures !StepOf(elf, answers, s, j).value.types[j].DataSec?
  {
    hide StringAt, ParamsNamed, EncodedSize;
    if s.types[j].FuncProto? {
      ParamsNamedKeeps(s, s.types[j].params, 0);
    }
  }

  lemma ReadLater(strings: seq<Byte>, later: seq<Byte>, offset: nat)
    requires strings <= later && StringAt(strings, offset).Some?
    ensures StringAt(later, offset) == StringAt(strings, offset)
  {
    assert later == strings + later[|strings|..];
    StringKept(strings, later[|strings|..], offset);
  }

  /** The entries of a section left without a size have the offsets the same file gives them again. */
  lemma SizelessEntries(elf: Elf, answers: Answers, s: State, j: nat)
    requires Fresh(s) && j < |s.types| && s.types[j].DataSec? && Run(elf, answers, s, |s.types|).Done?
    requires Run(elf, answers, s, j).Done? && FDataSec in answers
    requires
      var before := Run(elf, answers, s, j).value;
      && before.types[j] == s.types[j] && StepOf(elf, answers, before, j).Done?
      && NoSizeFound(elf, answers, s.types[j], StringAt(before.strings, s.types[j].nameOffset))
    ensures
      var s', after := Result(elf, answers, s), StepOf(elf, answers, Run(elf, answers, s, j).value, j).value;
      j < |after.types| && after.types[j].DataSec?
      && EntriesFixed(elf, s', after.types[j].entries) == Done(after.types[j].entries)
  {
    hide WellFormed, StepOf, StringAt, EntriesFixed, Replaced, Asked;
    var n := |s.types|;
    var before, last := Run(elf, answers, s, j).value, Run(elf, answers, s, n).value;
    var after := StepOf(elf, answers, before, j).value;
    SectionStep(elf, answers, before, j);
    StringsGrow(elf, answers, s, j + 1, n);
    assert Run(elf, answers, s, j + 1).value == after;
    RunKeepsImage(elf, answers, s, j);
    TypesGrow(elf, answers, s, j, n);
    RefsOf(s, j);
    var atTurn := before.(strings := after.strings);
    forall e | e in s.types[j].entries && e.btfType < |atTurn.types| && atTurn.types[e.btfType].Var?
      ensures last.types[e.btfType] == atTurn.types[e.btfType]
    {
      VariableKept(elf, answers, s, j, e.btfType);
    }
    EntriesAgain(elf, atTurn, Result(elf, answers, s), s.types[j].entries);
  }

  lemma {:induction false} TypesGrow(elf: Elf, answers: Answers, s: State, i: nat, k: nat)
    requires i <= k <= |s.types| && Run(elf, answers, s, k).Done?
    ensures Run(elf, answers, s, i).Done?
    ensures |Run(elf, answers, s, i).value.types| <= |Run(elf, answers, s, k).value.types|
    decreases k
  {
    hide StepOf;
    if i < k {
      TypesGrow(elf, answers, s, i, k - 1);
      StepGrows(elf, answers, Run(elf, answers, s, k - 1).value, k - 1);
    }
  }

  /**
   With the same ELF file a second run changes nothing exactly when every section that has entries and
   no size, and is empty in the file, is there and empty under its name without slashes too.
   */
  lemma SecondRunSameFile(elf: Elf, answers: Answers, s: State, again: Answers)
    requires Fresh(s) && s.strings != [] && Agree(answers, again)
    requires AllAsked(answers, elf, s, |s.types|) && Run(elf, answers, s, |s.types|).Done?
    ensures forall j :: 0 <= j < |s.types| && StringAt(s.strings, s.types[j].NameOffset()).Some? ==>
      SectionName(elf, answers, s, j) == StringAt(s.strings, s.types[j].NameOffset())
    ensures
      var s' := Result(elf, answers, s);
      Run(elf, again, s', |s'.types|) == Done(s') <==>
        forall j :: 0 <= j < |s.types| && NoSizeFound(elf, answers, s.types[j], SectionName(elf, answers, s, j)) ==>
          EmptyToo(elf, SectionName(elf, answers, s, j).value)
  {
    hide WellFormed, StepOf, StringAt, StaysSizeless, Asked, Replaced, NoSizeFound;
    var s' := Result(elf, answers, s);
    forall j | 0 <= j < |s.types| && StringAt(s.strings, s.types[j].NameOffset()).Some?
      ensures SectionName(elf, answers, s, j) == StringAt(s.strings, s.types[j].NameOffset())
    {
      NamesKept(elf, answers, s, |s.types|, s.types[j].NameOffset());
    }
    SecondRunExact(elf, answers, s, elf, again);
    NoAddedSection(elf, answers, s);
    forall j | 0 <= j < |s.types|
      ensures
        var name := SectionName(elf, answers, s, j);
        && (s'.types[j].DataSec? && s'.types[j].size == 0 <==> NoSizeFound(elf, answers, s.types[j], name))
        && (NoSizeFound(elf, answers, s.types[j], name) ==>
              name.Some? && (StaysSizeless(elf, s', j) <==> EmptyToo(elf, name.value)))
    {
      SizelessFrom(elf, answers, s, j);
      FoundHasName(elf, answers, s.types[j], SectionName(elf, answers, s, j));
    }
  }

  lemma FoundHasName(elf: Elf, answers: Answers, t: BtfType, name: Option<Name>)
    ensures NoSizeFound(elf, answers, t, name) ==> name.Some?
  {
  }

  lemma NoAddedSection(elf: Elf, answers: Answers, s: State)
    requires Fresh(s) && Run(elf, answers, s, |s.types|).Done?
    ensures |Result(elf, answers, s).types| >= |s.types|
    ensures forall j :: |s.types| <= j < |Result(elf, answers, s).types| ==> !Result(elf, answers, s).types[j].DataSec?
  {
    hide WellFormed, StepOf;
    RunKeepsImage(elf, answers, s, |s.types|);
  }

  // ---------- a section that is lost ----------

  // The strings "a/b" at 1 and "v" at 5, and afterwards "a.b" at 7.
  const NAMES: seq<Byte> := [0, 97, 47, 98, 0, 118, 0]
  const NAMES_AFTER: seq<Byte> := [0, 97, 47, 98, 0, 118, 0, 97, 46, 98, 0]

  const NEVER_SIZED: seq<Entry> := [Entry(2, 0, 4)]

  /** Section a/b of size 0 with one static variable v. */
  function Table(nameOffset: StringOffset): seq<BtfType> {
    [Unknown, Int(0, 4, 32), Var(5, 1, STATIC), DataSec(nameOffset, 0, NEVER_SIZED)]
  }

  const START: State := State(Header(24, 0, 56, 56, 7), NAMES, Table(1), None, None)
  const END: State := State(Header(24, 0, 56, 56, 11), NAMES_AFTER, Table(7), None, None)

  // The file has the section, with size 0.
  const FILE: Elf := Elf(map[[97, 47, 98] := 0], map[])
  const ANSWERS: Answers := map[FDataSec := true]

  lemma StartIsFresh()
    ensures Fresh(START)
  {
    var rest := START.types[1..];
    assert rest == [Int(0, 4, 32), Var(5, 1, STATIC), DataSec(1, 0, NEVER_SIZED)];
    SectionSizeFront(rest);
    assert rest[1..] == [Var(5, 1, STATIC), DataSec(1, 0, NEVER_SIZED)];
    SectionSizeFront(rest[1..]);
    assert rest[1..][1..] == [DataSec(1, 0, NEVER_SIZED)];
    SectionSizeFront(rest[1..][1..]);
  }

  lemma NamesRead(strings: seq<Byte>)
    requires strings == NAMES || strings == NAMES_AFTER
    ensures StringAt(strings, 1) == Some([97, 47, 98]) && StringAt(strings, 5) == Some([118])
    ensures strings == NAMES_AFTER ==> StringAt(strings, 7) == Some([97, 46, 98])
  {
    assert StringAt(strings, 4) == Some([]) && StringAt(strings, 6) == Some([]);
    assert [98] + [] == [98] && [47] + [98] == [47, 98] && [97] + [47, 98] == [97, 47, 98] && [118] + [] == [118];
    assert StringAt(strings, 3) == Some([98]) && StringAt(strings, 2) == Some([47, 98]);
    if strings == NAMES_AFTER {
      assert StringAt(strings, 10) == Some([]) && StringAt(strings, 9) == Some([98]);
      assert [46] + [98] == [46, 98] && [97] + [46, 98] == [97, 46, 98];
      assert StringAt(strings, 8) == Some([46, 98]);
    }
  }

  /** The first three types are left alone. */
  lemma FirstThree(s: State)
    requires s == START || s == END
    ensures |s.types| == 4 && Run(FILE, ANSWERS, s, 3) == Done(s)
  {
    hide FixDataSec, StringAt;
    assert StepOf(FILE, ANSWERS, s, 0) == Done(s) && StepOf(FILE, ANSWERS, s, 1) == Done(s);
    assert StepOf(FILE, ANSWERS, s, 2) == Done(s);
    assert Run(FILE, ANSWERS, s, 0) == Done(s) && Run(FILE, ANSWERS, s, 1) == Done(s) && Run(FILE, ANSWERS, s, 2) == Done(s);
  }

  lemma NameReplaced()
    ensures Replaced([97, 47, 98], SLASH, DOT) == [97, 46, 98] && Replaced([97, 46, 98], SLASH, DOT) == [97, 46, 98]
  {
  }

  lemma FirstTime()
    ensures FixDataSec(FILE, ANSWERS, START, 3) == Done(END)
  {
    hide StringAt, Replaced;
    NamesRead(NAMES);
    NamesRead(NAMES_AFTER);
    NameReplaced();
    assert NAMES + [97, 46, 98] + [0] == NAMES_AFTER;
    var s1 := START.(strings := NAMES_AFTER, header := END.header);
    assert Renamed(START, 1, [97, 47, 98], SLASH, DOT) == (s1, 7);
    assert EntryFixed(FILE, s1, Entry(2, 0, 4)) == Done(Entry(2, 0, 4));
    assert NEVER_SIZED[1..] == [] && [Entry(2, 0, 4)] + [] == NEVER_SIZED;
    assert EntriesFixed(FILE, s1, NEVER_SIZED) == Done(NEVER_SIZED);
    assert START.types[3 := DataSec(7, 0, NEVER_SIZED)] == END.types;
    assert EncodedSize(DataSec(1, 0, NEVER_SIZED)) == EncodedSize(DataSec(7, 0, NEVER_SIZED));
    assert SizeDataSec(FILE, ANSWERS, s1, 3, [97, 47, 98], 7) == Done(END);
  }

  lemma SecondTime()
    ensures FixDataSec(FILE, ANSWERS, END, 3) == Failed(UnknownSectionSize)
  {
    hide StringAt, Replaced;
    NamesRead(NAMES_AFTER);
    NameReplaced();
    assert [97, 46, 98] != [97, 47, 98] by { assert [97, 46, 98][1] != [97, 47, 98][1]; }
  }

  /** The first run succeeds; the second, with the same file and the same answers, looks up a name that the first made. */
  lemma SecondRunShows()
    ensures Fresh(START) && AllAsked(ANSWERS, FILE, START, 4)
    ensures Run(FILE, ANSWERS, START, 4) == Done(END)
    ensures Run(FILE, ANSWERS, END, 4) == Failed(UnknownSectionSize)
  {
    hide *;
    StartIsFresh();
    FirstThree(START);
    FirstThree(END);
    FirstTime();
    SecondTime();
    LastIsSection(START);
    LastIsSection(END);
    AllAskedThere();
  }

  lemma LastIsSection(s: State)
    requires (s == START || s == END) && Run(FILE, ANSWERS, s, 3) == Done(s)
    ensures Run(FILE, ANSWERS, s, 4) == FixDataSec(FILE, ANSWERS, s, 3)
  {
    hide FixDataSec, StringAt;
    assert s.types[3].DataSec?;
  }

  lemma AllAskedThere()
    ensures AllAsked(ANSWERS, FILE, START, 4)
  {
    hide Run, Asked;
    forall j | 0 <= j < 4 && Run(FILE, ANSWERS, START, j).Done?
      ensures Asked(ANSWERS, FILE, Run(FILE, ANSWERS, START, j).value, j)
    {
      AskedAt(j);
    }
  }

  lemma AskedAt(j: nat)
    requires j < 4
    ensures Run(FILE, ANSWERS, START, j) == Done(START) && Asked(ANSWERS, FILE, START, j)
  {
    hide FixDataSec, StringAt;
    FirstThree(START);
    assert Run(FILE, ANSWERS, START, 0) == Done(START) && Run(FILE, ANSWERS, START, 1) == Done(START);
    assert Run(FILE, ANSWERS, START, 2) == Done(START);
  }
}
