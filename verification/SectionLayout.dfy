/**
 What a run makes of the sections of an image: a section the compiler left without a size gets the one
 of the ELF file, and its global variables the offsets of their symbols; everything else stays where
 it was.
 */
module SectionLayout {
  import opened Instructions
  import opened Btf
  import opened BtfImage
  import opened Sanitizer
  import opened SanitizerProperties
  import opened Again = SecondRun

  // ---------- the turn of a type ----------

  /** The states before and after the turn of type `j`, and at the end. */
  lemma Turn(elf: Elf, answers: Answers, s: State, j: nat)
    requires Fresh(s) && j < |s.types| && Run(elf, answers, s, |s.types|).Done?
    ensures Run(elf, answers, s, j).Done? && Run(elf, answers, s, j + 1).Done?
    ensures
      var before, after := Run(elf, answers, s, j).value, Run(elf, answers, s, j + 1).value;
      var last := Run(elf, answers, s, |s.types|).value;
      && before.types[j] == s.types[j] && StepOf(elf, answers, before, j) == Done(after)
      && last.types[j] == after.types[j]
      && s.strings <= before.strings <= after.strings <= last.strings
  {
    hide StepOf, WellFormed;
    var n := |s.types|;
    IdsStable(elf, answers, s, n, j);
    StringsGrow(elf, answers, s, 0, j);
    StringsGrow(elf, answers, s, j + 1, n);
    StringsGrow(elf, answers, s, j, j + 1);
  }

  /** Rewriting makes no variables. */
  lemma NoNewVariable(elf: Elf, answers: Answers, s: State, j: nat)
    requires j < |s.types| && StepOf(elf, answers, s, j).Done?
    ensures j < |StepOf(elf, answers, s, j).value.types|
    ensures StepOf(elf, answers, s, j).value.types[j].Var? ==>
      s.types[j].Var? && StepOf(elf, answers, s, j).value.types[j] == s.types[j]
    ensures s.types[j].Var? && !Rejects(answers, FDataSec) ==> StepOf(elf, answers, s, j) == Done(s)
  {
    hide StringAt, ParamsNamed, EncodedSize, EntriesFixed, MembersOf, Replaced;
    StepGrows(elf, answers, s, j);
    if s.types[j].FuncProto? {
      ParamsNamedKeeps(s, s.types[j].params, 0);
    }
  }

  /** A variable is the same at every turn as at the start, and nothing else becomes one. */
  lemma VariableAtTurn(elf: Elf, answers: Answers, s: State, j: nat, id: TypeId)
    requires Fresh(s) && j <= |s.types| && id < |s.types| && Run(elf, answers, s, j).Done? && !Rejects(answers, FDataSec)
    ensures
      var before := Run(elf, answers, s, j).value;
      && (before.types[id].Var? <==> s.types[id].Var?) && (s.types[id].Var? ==> before.types[id] == s.types[id])
  {
    hide StepOf, WellFormed;
    if j <= id {
      RunKeepsImage(elf, answers, s, j);
    } else {
      IdsStable(elf, answers, s, j, id);
      NoNewVariable(elf, answers, Run(elf, answers, s, id).value, id);
    }
  }

  // ---------- offsets of variables ----------

  /**
   The entry is for the same variable, of the same size: a static one where it was, any other at the
   offset of the symbol with its name.
   */
  ghost predicate Placed(elf: Elf, strings: seq<Byte>, types: seq<BtfType>, was: Entry, now: Entry) {
    && was.btfType < |types| && types[was.btfType].Var?
    && now.btfType == was.btfType && now.size == was.size
    && var v := types[was.btfType];
       && StringAt(strings, v.nameOffset).Some?
       && var name := StringAt(strings, v.nameOffset).value;
          if v.linkage == STATIC then now.offset == was.offset
          else name in elf.symbolOffsets && now.offset == elf.symbolOffsets[name] % 0x1_0000_0000
  }

  ghost predicate AllPlaced(elf: Elf, strings: seq<Byte>, types: seq<BtfType>, was: seq<Entry>, now: seq<Entry>) {
    |now| == |was| && forall k :: 0 <= k < |was| ==> Placed(elf, strings, types, was[k], now[k])
  }

  lemma {:induction false} EntriesPlaced(elf: Elf, s: State, entries: seq<Entry>)
    requires EntriesFixed(elf, s, entries).Done?
    ensures AllPlaced(elf, s.strings, s.types, entries, EntriesFixed(elf, s, entries).value)
  {
    hide StringAt;
    if entries != [] {
      EntriesPlaced(elf, s, entries[1..]);
      var e, rest := EntryFixed(elf, s, entries[0]).value, EntriesFixed(elf, s, entries[1..]).value;
      assert Placed(elf, s.strings, s.types, entries[0], e);
      forall k | 0 <= k < |entries|
        ensures Placed(elf, s.strings, s.types, entries[k], ([e] + rest)[k])
      {
        if k > 0 {
          assert entries[k] == entries[1..][k - 1] && ([e] + rest)[k] == rest[k - 1];
        }
      }
    }
  }

  /** Entries stay in place as long as their variables and names are the same. */
  lemma PlacedStill(elf: Elf, strings: seq<Byte>, types: seq<BtfType>, later: seq<Byte>, others: seq<BtfType>,
                    was: seq<Entry>, now: seq<Entry>)
    requires AllPlaced(elf, strings, types, was, now) && strings <= later
    requires forall k :: 0 <= k < |was| ==>
      was[k].btfType < |others| && (types[was[k].btfType].Var? ==> others[was[k].btfType] == types[was[k].btfType])
    ensures AllPlaced(elf, later, others, was, now)
  {
    hide StringAt;
    forall k | 0 <= k < |was|
      ensures Placed(elf, later, others, was[k], now[k])
    {
      assert Placed(elf, strings, types, was[k], now[k]);
      ReadLater(strings, later, types[was[k].btfType].nameOffset);
    }
  }

  // ---------- the filler ----------

  /** The shared filler is a static variable of a one-byte integer. */
  ghost predicate FillerOk(n: nat, s: State) {
    s.filler.Some? ==>
      && n < s.filler.value < |s.types|
      && var v := s.types[s.filler.value];
         && v.Var? && v.linkage == STATIC && n <= v.btfType < |s.types|
         && s.types[v.btfType].Int? && s.types[v.btfType].size == 1
         && StringAt(s.strings, v.nameOffset) == Some(Bytes("__aya_datasec_filler"))
  }

  lemma FillerName()
    ensures 0 !in Bytes("__aya_datasec_filler")
  {
    var text := "__aya_datasec_filler";
    assert forall i :: 0 <= i < |text| ==> 0 < text[i] as int < 256;
  }

  lemma FillerMade(n: nat, s: State)
    requires FillerOk(n, s) && n <= |s.types|
    ensures FillerOk(n, WithFiller(s)) && WithFiller(s).filler.Some?
  {
    hide StringAt, EncodedSize, Bytes;
    if s.filler.None? {
      var s2 := WithType(WithString(s, Bytes("__aya_datasec_filler_type")), OneByteInt(|s.strings|));
      FillerName();
      StringAdded(s2.strings, Bytes("__aya_datasec_filler"), 0);
      var name := Bytes("__aya_datasec_filler");
      assert name[0..] == name;
    }
  }

  /** What other types are replaced by, and which strings are added, does not matter to the filler. */
  lemma FillerStays(n: nat, s: State, s': State, i: nat)
    requires FillerOk(n, s) && i < n && OnlyChanged(s, s', i) && s'.filler == s.filler
    ensures FillerOk(n, s')
  {
    hide StringAt;
    if s.filler.Some? {
      ReadLater(s.strings, s'.strings, s.types[s.filler.value].nameOffset);
    }
  }

  /** Only sections make a filler. */
  lemma SameFiller(elf: Elf, answers: Answers, s: State, i: nat)
    requires i < |s.types| && StepOf(elf, answers, s, i).Done? && !(s.types[i].DataSec? && !Rejects(answers, FDataSec))
    ensures StepOf(elf, answers, s, i).value.filler == s.filler
  {
    hide StringAt, ParamsNamed, MembersOf, Replaced, EncodedSize;
    if s.types[i].FuncProto? {
      ParamsNamedKeeps(s, s.types[i].params, 0);
    }
  }

  lemma SectionFiller(n: nat, elf: Elf, answers: Answers, s: State, i: nat)
    requires FillerOk(n, s) && i < n <= |s.types| && s.types[i].DataSec? && FixDataSec(elf, answers, s, i).Done?
    ensures FillerOk(n, FixDataSec(elf, answers, s, i).value)
  {
    hide StringAt, EntriesFixed, EncodedSize, WithFiller, Replaced, Bytes;
    var d := s.types[i];
    var s1 := Renamed(s, d.nameOffset, StringAt(s.strings, d.nameOffset).value, SLASH, DOT).0;
    RenamedGrows(s, d.nameOffset, StringAt(s.strings, d.nameOffset).value, SLASH, DOT);
    assert s1.filler == s.filler;
    FillerStays(n, s, s1, i);
    FillerMade(n, s1);
    FillerTypes(s1);
  }

  lemma {:induction false} RunFiller(elf: Elf, answers: Answers, s: State, i: nat)
    requires Fresh(s) && i <= |s.types| && Run(elf, answers, s, i).Done?
    ensures FillerOk(|s.types|, Run(elf, answers, s, i).value)
  {
    hide WellFormed, StepOf, FillerOk;
    if i == 0 {
      assert FillerOk(|s.types|, s) by { NoFiller(|s.types|, s); }
    } else {
      var n, before := |s.types|, Run(elf, answers, s, i - 1).value;
      RunFiller(elf, answers, s, i - 1);
      RunKeepsImage(elf, answers, s, i - 1);
      StepKeepsImage(n, elf, answers, before, i - 1);
      if before.types[i - 1].DataSec? && !Rejects(answers, FDataSec) {
        FixesSection(elf, answers, before, i - 1);
        SectionFiller(n, elf, answers, before, i - 1);
      } else {
        SameFiller(elf, answers, before, i - 1);
        FillerStays(n, before, StepOf(elf, answers, before, i - 1).value, i - 1);
      }
    }
  }

  lemma NoFiller(n: nat, s: State)
    requires s.filler.None?
    ensures FillerOk(n, s)
  {
  }

  lemma FixesSection(elf: Elf, answers: Answers, s: State, i: nat)
    requires i < |s.types| && s.types[i].DataSec? && !Rejects(answers, FDataSec)
    ensures StepOf(elf, answers, s, i) == FixDataSec(elf, answers, s, i)
  {
    hide FixDataSec;
  }

  lemma {:induction false} FillerKept(elf: Elf, answers: Answers, s: State, i: nat, k: nat)
    requires Fresh(s) && i <= k <= |s.types| && Run(elf, answers, s, k).Done?
    ensures Run(elf, answers, s, i).Done?
    ensures Run(elf, answers, s, i).value.filler.Some? ==>
      Run(elf, answers, s, k).value.filler == Run(elf, answers, s, i).value.filler
    decreases k
  {
    hide WellFormed, StepOf;
    if i < k {
      FillerKept(elf, answers, s, i, k - 1);
      RunKeepsImage(elf, answers, s, k - 1);
      StepKeepsImage(|s.types|, elf, answers, Run(elf, answers, s, k - 1).value, k - 1);
    }
  }

  // ---------- sections ----------

  /** What is left of a section, when the kernel knows sections, from what the image and the ELF file said. */
  ghost predicate FilledIn(elf: Elf, answers: Answers, s: State, s': State, j: nat)
    requires j < |s.types| <= |s'.types| && s.types[j].DataSec?
  {
    var was, now, read := s.types[j], s'.types[j], StringAt(s'.strings, s.types[j].nameOffset);
    && now.DataSec? && read.Some?
    && StringAt(s'.strings, now.nameOffset) == Some(Replaced(read.value, SLASH, DOT))
    && if was.size > 0 then now.size == was.size && now.entries == was.entries
       else
         && read.value in elf.sectionSizes
         && var size := elf.sectionSizes[read.value] % 0x1_0000_0000;
            if was.entries != [] then now.size == size && AllPlaced(elf, s'.strings, s.types, was.entries, now.entries)
            else if size > 0 && !Rejects(answers, FDataSecZero) then now.size == size && now.entries == []
            else
              && now.size == (if size == 0 then 1 else size)
              && s'.filler.Some? && now.entries == [Entry(s'.filler.value, 0, now.size)]
  }

  /** One step on a section, at its turn. */
  lemma SectionAtTurn(n: nat, elf: Elf, answers: Answers, s: State, j: nat)
    requires FillerOk(n, s) && j < n <= |s.types| && s.types[j].DataSec? && !Rejects(answers, FDataSec)
    requires StepOf(elf, answers, s, j).Done?
    ensures j < |s.types| <= |StepOf(elf, answers, s, j).value.types|
    ensures FilledIn(elf, answers, s, StepOf(elf, answers, s, j).value, j)
  {
    hide StringAt, EntriesFixed, EncodedSize, WithFiller, Renamed, Replaced;
    var d, s' := s.types[j], StepOf(elf, answers, s, j).value;
    var name := StringAt(s.strings, d.nameOffset).value;
    var (s1, offset) := Renamed(s, d.nameOffset, name, SLASH, DOT);
    RenamedGrows(s, d.nameOffset, name, SLASH, DOT);
    RenamedReads(s, d.nameOffset, name, SLASH, DOT);
    RenamedKeeps(s, d.nameOffset, name, SLASH, DOT, j);
    StepGrows(elf, answers, s, j);
    if d.size > 0 {
      ReadLater(s.strings, s'.strings, d.nameOffset);
    } else {
      FillerTypes(s1);
      Again.FillerStrings(s1);
      FillerThere(s1);
      ReadLater(s.strings, s1.strings, d.nameOffset);
      ReadLater(s1.strings, s'.strings, d.nameOffset);
      ReadLater(s1.strings, s'.strings, offset);
      if d.entries != [] {
        EntriesPlaced(elf, s1, d.entries);
        SamePlaces(elf, s1, s, s'.strings, d.entries, EntriesFixed(elf, s1, d.entries).value);
      } else {
        FillerStays(n, s, s1, j);
        FillerMade(n, s1);
        FillerEntry(n, elf, WithFiller(s1), if WrapU32(elf.sectionSizes[name]) == 0 then 1 else WrapU32(elf.sectionSizes[name]));
        NoEntries(elf, s1);
      }
    }
  }

  lemma RenamedKeeps(s: State, offset: StringOffset, name: Name, from: Byte, to: Byte, i: nat)
    ensures var s' := Renamed(s, offset, name, from, to).0; OnlyChanged(s, s', i) && s'.filler == s.filler
  {
  }

  lemma FillerThere(s: State)
    ensures WithFiller(s).filler.Some?
  {
  }

  lemma NoEntries(elf: Elf, s: State)
    ensures EntriesFixed(elf, s, []) == Done([])
  {
  }

  /** The filler's own entry is not moved: it is a static variable. */
  lemma FillerEntry(n: nat, elf: Elf, s: State, size: U32)
    requires FillerOk(n, s) && s.filler.Some?
    ensures
      var fixed := EntriesFixed(elf, s, [Entry(s.filler.value, 0, size)]);
      fixed.Done? ==> fixed.value == [Entry(s.filler.value, 0, size)]
  {
    hide StringAt;
    assert [Entry(s.filler.value, 0, size)][1..] == [];
    NoEntries(elf, s);
  }

  lemma SamePlaces(elf: Elf, s1: State, s: State, later: seq<Byte>, was: seq<Entry>, now: seq<Entry>)
    requires AllPlaced(elf, s1.strings, s1.types, was, now) && s1.types == s.types && s1.strings <= later
    ensures AllPlaced(elf, later, s.types, was, now)
  {
    forall k | 0 <= k < |was|
      ensures was[k].btfType < |s.types|
    {
      assert Placed(elf, s1.strings, s1.types, was[k], now[k]);
    }
    PlacedStill(elf, s1.strings, s1.types, later, s.types, was, now);
  }

  /**
   After a whole run, when the kernel knows sections: every section of the input is still one, under its
   name with dots for slashes. One that had a size is as it was; one without has the size of the ELF file
   and its variables, static ones aside, the offsets of their symbols; and one that is empty, or has no
   entries where the kernel wants some, has the filler for its only entry.
   */
  lemma SectionsFilledIn(elf: Elf, answers: Answers, s: State, j: nat)
    requires Fresh(s) && Run(elf, answers, s, |s.types|).Done? && Allows(answers, FDataSec)
    requires j < |s.types| && s.types[j].DataSec?
    ensures
      var s' := Run(elf, answers, s, |s.types|).value;
      FilledIn(elf, answers, s, s', j) && FillerOk(|s.types|, s')
  {
    hide StepOf, WellFormed, StringAt, Replaced, FillerOk, FilledIn;
    var n := |s.types|;
    Turn(elf, answers, s, j);
    var before, after := Run(elf, answers, s, j).value, Run(elf, answers, s, j + 1).value;
    var last := Run(elf, answers, s, n).value;
    RunFiller(elf, answers, s, j);
    RunFiller(elf, answers, s, n);
    RunKeepsImage(elf, answers, s, j);
    SectionAtTurn(n, elf, answers, before, j);
    FillerKept(elf, answers, s, j + 1, n);
    RefsOf(s, j);
    forall k | 0 <= k < |s.types[j].entries|
      ensures
        var id := s.types[j].entries[k].btfType;
        id < |s.types| && (before.types[id].Var? ==> s.types[id] == before.types[id])
    {
      assert s.types[j].entries[k] in s.types[j].entries;
      VariableAtTurn(elf, answers, s, j, s.types[j].entries[k].btfType);
    }
    FilledInStill(elf, answers, before, after, s, last, j);
  }

  /** What was filled in at its turn is so at the end, by the types of the start. */
  lemma FilledInStill(elf: Elf, answers: Answers, before: State, after: State, s: State, last: State, j: nat)
    requires j < |s.types| <= |last.types| && j < |before.types| <= |after.types|
    requires before.types[j] == s.types[j] && last.types[j] == after.types[j] && s.types[j].DataSec?
    requires FilledIn(elf, answers, before, after, j)
    requires after.strings <= last.strings && (after.filler.Some? ==> last.filler == after.filler)
    requires forall k :: 0 <= k < |s.types[j].entries| ==>
      var id := s.types[j].entries[k].btfType;
      id < |s.types| && id < |before.types| && (before.types[id].Var? ==> s.types[id] == before.types[id])
    ensures FilledIn(elf, answers, s, last, j)
  {
    hide StringAt, Replaced, AllPlaced;
    var was, now := s.types[j], after.types[j];
    ReadLater(after.strings, last.strings, was.nameOffset);
    ReadLater(after.strings, last.strings, now.nameOffset);
    if was.size == 0 && was.entries != [] {
      PlacedStill(elf, after.strings, before.types, last.strings, s.types, was.entries, now.entries);
    }
  }
}
