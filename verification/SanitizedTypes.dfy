/**
 What a run makes of every other type of an image: each is left alone, or replaced by a type the kernel
 knows that keeps its name, its size and what it is made of.
 */
module SanitizedTypes {
  import opened Instructions
  import opened Btf
  import opened BtfImage
  import opened Sanitizer
  import opened SanitizerProperties
  import opened Again = SecondRun
  import opened SectionLayout

  // ---------- parameters ----------

  /** The number that decimal digits denote. */
  function Denoted(digits: Name): nat {
    if digits == [] then 0
    else
      var last := digits[|digits| - 1];
      Denoted(digits[..|digits| - 1]) * 10 + (if last < 48 then 0 else last - 48)
  }

  lemma {:induction false} DecimalReads(n: nat)
    ensures Denoted(Decimal(n)) == n
    ensures Decimal(n) != [] && forall i :: 0 <= i < |Decimal(n)| ==> 48 <= Decimal(n)[i] <= 57
    decreases n
  {
    if n < 10 {
      assert Decimal(n)[..0] == [];
    } else {
      DecimalReads(n / 10);
      var front := Decimal(n / 10);
      assert (front + [Digit(n % 10)])[..|front|] == front;
    }
  }

  lemma ParamName(k: nat)
    ensures 0 !in Bytes("param") + Decimal(k)
  {
    hide Decimal;
    DecimalReads(k);
    var text := "param";
    assert forall i :: 0 <= i < |text| ==> 0 < text[i] as int < 256;
  }

  /** A parameter with a name or without a type stays; any other is called "param" and its position. */
  ghost predicate ParamKept(strings: seq<Byte>, was: Param, now: Param, k: nat) {
    && now.btfType == was.btfType
    && if was.nameOffset == 0 && was.btfType != 0
       then StringAt(strings, now.nameOffset) == Some(Bytes("param") + Decimal(k))
       else now.nameOffset == was.nameOffset
  }

  ghost predicate ParamsKept(strings: seq<Byte>, was: seq<Param>, now: seq<Param>) {
    |now| == |was| && forall k :: 0 <= k < |was| ==> ParamKept(strings, was[k], now[k], k)
  }

  lemma {:induction false} NamesParams(s: State, params: seq<Param>, k: nat)
    requires k <= |params|
    ensures
      var (s', named) := ParamsNamed(s, params, k);
      && |named| == |params| && s.strings <= s'.strings
      && (forall j :: 0 <= j < k ==> named[j] == params[j])
      && forall j :: k <= j < |params| ==> ParamKept(s'.strings, params[j], named[j], j)
    decreases |params| - k
  {
    hide Bytes, Decimal, StringAt;
    if k < |params| {
      var p := params[k];
      if p.nameOffset == 0 && p.btfType != 0 {
        var name := Bytes("param") + Decimal(k);
        var s1, renamed := WithString(s, name), params[k := p.(nameOffset := |s.strings|)];
        NamesParams(s1, renamed, k + 1);
        ParamName(k);
        StringAdded(s.strings, name, 0);
        assert name[0..] == name;
        var (s', named) := ParamsNamed(s1, renamed, k + 1);
        ReadLater(s1.strings, s'.strings, |s.strings|);
        forall j | k <= j < |params|
          ensures ParamKept(s'.strings, params[j], named[j], j)
        {
          assert j > k ==> renamed[j] == params[j];
        }
      } else {
        NamesParams(s, params, k + 1);
      }
    }
  }

  lemma ParamsKeptStill(strings: seq<Byte>, later: seq<Byte>, was: seq<Param>, now: seq<Param>)
    requires ParamsKept(strings, was, now) && strings <= later
    ensures ParamsKept(later, was, now)
  {
    hide StringAt, Decimal, Bytes;
    forall k | 0 <= k < |was|
      ensures ParamKept(later, was[k], now[k], k)
    {
      assert ParamKept(strings, was[k], now[k], k);
      if was[k].nameOffset == 0 && was[k].btfType != 0 {
        ReadLater(strings, later, now[k].nameOffset);
      }
    }
  }

  // ---------- sections the kernel does not know ----------

  /** A member for an entry: of the same variable, under its name, at eight bits for every byte. */
  predicate MemberFor(types: seq<BtfType>, e: Entry, m: Member) {
    && e.btfType < |types| && m.btfType == e.btfType && m.offset == e.offset * 8 % 0x1_0000_0000
    && (types[e.btfType].Var? ==> m.nameOffset == types[e.btfType].nameOffset)
  }

  ghost predicate MembersFor(types: seq<BtfType>, entries: seq<Entry>, members: seq<Member>) {
    |members| == |entries| && forall k :: 0 <= k < |entries| ==> MemberFor(types, entries[k], members[k])
  }

  lemma {:induction false} MakesMembers(types: seq<BtfType>, others: seq<BtfType>, entries: seq<Entry>)
    requires MembersOf(types, entries).Done?
    requires forall e :: e in entries && e.btfType < |types| ==>
      e.btfType < |others| && (others[e.btfType].Var? ==> types[e.btfType].NameOffset() == others[e.btfType].nameOffset)
    ensures MembersFor(others, entries, MembersOf(types, entries).value)
  {
    if entries != [] {
      assert entries[0] in entries;
      MakesMembers(types, others, entries[1..]);
      var m, rest := MembersOf(types, entries).value[0], MembersOf(types, entries[1..]).value;
      assert MembersOf(types, entries).value == [m] + rest;
      forall k | 0 <= k < |entries|
        ensures MemberFor(others, entries[k], ([m] + rest)[k])
      {
        if k > 0 {
          assert entries[k] == entries[1..][k - 1] && ([m] + rest)[k] == rest[k - 1];
        }
      }
    }
  }

  /** A variable keeps its name at every turn, whether or not the kernel knows variables. */
  lemma NameAtTurn(elf: Elf, answers: Answers, s: State, j: nat, id: TypeId)
    requires Fresh(s) && j <= |s.types| && id < |s.types| && Run(elf, answers, s, j).Done? && s.types[id].Var?
    ensures id < |Run(elf, answers, s, j).value.types|
    ensures Run(elf, answers, s, j).value.types[id].NameOffset() == s.types[id].nameOffset
  {
    hide StepOf, WellFormed;
    RunKeepsImage(elf, answers, s, j);
    if id < j {
      IdsStable(elf, answers, s, j, id);
      VariableKeepsName(elf, answers, Run(elf, answers, s, id).value, id);
    }
  }

  lemma VariableKeepsName(elf: Elf, answers: Answers, s: State, i: nat)
    requires i < |s.types| && s.types[i].Var?
    ensures StepOf(elf, answers, s, i).Done?
    ensures StepOf(elf, answers, s, i).value.types[i].NameOffset() == s.types[i].nameOffset
  {
  }

  // ---------- 64-bit enums ----------

  /** A member for each variant under its name, and every variant's value beside them. */
  ghost predicate UnionFor(t: BtfType, u: BtfType)
    requires t.Enum64?
  {
    && u.Union? && u.nameOffset == t.nameOffset && !u.kflag && u.size == t.size && u.fallback.Some?
    && |u.members| == |t.variants64| == |u.fallback.value.variants| && u.fallback.value.signed == t.signed
    && forall k :: 0 <= k < |t.variants64| ==>
         var v, f := t.variants64[k], u.fallback.value.variants[k];
         && u.members[k].nameOffset == f.nameOffset == v.nameOffset && u.members[k].offset == 0
         && f.value % 0x1_0000_0000 == v.valueLow && f.value / 0x1_0000_0000 == v.valueHigh
  }

  lemma MakesUnion(s: State, i: nat)
    requires i < |s.types| && s.types[i].Enum64?
    ensures i < |Enum64ToUnion(s, i).types| && UnionFor(s.types[i], Enum64ToUnion(s, i).types[i])
  {
    hide Bytes, EncodedSize;
  }

  // ---------- all kinds ----------

  /** What is left of a type that is no section of a kernel that knows them. */
  ghost predicate Becomes(answers: Answers, s: State, strings: seq<Byte>, was: BtfType, now: BtfType) {
    match was
    case Ptr(_, to) => now == Ptr(0, to)
    case Var(n, _, _) => if Rejects(answers, FDataSec) then now == Int(n, 1, 8) else now == was
    case DataSec(n, _, entries) =>
      Rejects(answers, FDataSec) ==>
        && now.Struct? && !now.kflag && now.size == |entries| % 0x1_0000_0000 && MembersFor(s.types, entries, now.members)
        && StringAt(strings, n).Some?
        && StringAt(strings, now.nameOffset) == Some(Replaced(StringAt(strings, n).value, DOT, UNDERSCORE))
    case FuncProto(n, ret, params) =>
      if Rejects(answers, FFunc) then
        && now.Enum? && now.nameOffset == n && !now.signed && now.size == 4 && |now.variants| == |params|
        && forall k :: 0 <= k < |params| ==>
             now.variants[k] == Variant(params[k].nameOffset, params[k].btfType % 0x1_0000_0000)
      else now.FuncProto? && now.nameOffset == n && now.returnType == ret && ParamsKept(strings, params, now.params)
    case Func(n, to, linkage) =>
      && StringAt(strings, n).Some?
      && var name := StringAt(strings, n).value;
         if Rejects(answers, FFunc) then now == Typedef(n, to)
         else if linkage == GLOBAL && (Rejects(answers, FFuncGlobal)
                || name == Bytes("memset") || name == Bytes("memcpy") || name == Bytes("memmove") || name == Bytes("memcmp"))
         then now == Func(n, to, STATIC)
         else now == was
    case Float(_, size) => if Rejects(answers, FFloat) then now == Struct(0, false, size, []) else now == was
    case DeclTag(n, _, _) => if Rejects(answers, FDeclTag) then now == Int(n, 1, 8) else now == was
    case TypeTag(_, to) => if Rejects(answers, FTypeTag) then now == Const(0, to) else now == was
    case Enum(n, _, size, variants) =>
      if Rejects(answers, FEnum64) then now == Enum(n, false, size, variants) else now == was
    case Enum64(_, _, _, _) => if Rejects(answers, FEnum64) then UnionFor(was, now) else now == was
    case _ => now == was
  }

  lemma StepBecomes(elf: Elf, answers: Answers, s: State, i: nat, start: State)
    requires i < |s.types| && StepOf(elf, answers, s, i).Done?
    requires s.types[i].DataSec? && Rejects(answers, FDataSec) ==>
      forall e :: e in s.types[i].entries && e.btfType < |s.types| ==>
        e.btfType < |start.types|
        && (start.types[e.btfType].Var? ==> s.types[e.btfType].NameOffset() == start.types[e.btfType].nameOffset)
    ensures
      var s' := StepOf(elf, answers, s, i).value;
      i < |s'.types| && Becomes(answers, start, s'.strings, s.types[i], s'.types[i])
  {
    hide StringAt, ParamsNamed, FixDataSec, MembersOf, Renamed, Replaced, EncodedSize, Enum64ToUnion, Bytes;
    StepGrows(elf, answers, s, i);
    match s.types[i]
    case DataSec(n, _, entries) =>
      if Rejects(answers, FDataSec) {
        var name := StringAt(s.strings, n).value;
        RenamedReads(s, n, name, DOT, UNDERSCORE);
        RenamedGrows(s, n, name, DOT, UNDERSCORE);
        var (s1, _) := Renamed(s, n, name, DOT, UNDERSCORE);
        ReadLater(s.strings, s1.strings, n);
        MakesMembers(s.types, start.types, entries);
      }
    case FuncProto(_, _, params) => NamesParams(s, params, 0); ParamsNamedKeeps(s, params, 0);
    case Enum64(_, _, _, _) => MakesUnion(s, i);
    case _ =>
  }

  lemma BecomesStill(answers: Answers, s: State, strings: seq<Byte>, later: seq<Byte>, was: BtfType, now: BtfType)
    requires Becomes(answers, s, strings, was, now) && strings <= later
    ensures Becomes(answers, s, later, was, now)
  {
    hide StringAt, MembersFor, Replaced, UnionFor, Bytes, ParamsKept;
    match was
    case DataSec(n, _, _) =>
      if Rejects(answers, FDataSec) {
        ReadLater(strings, later, n);
        ReadLater(strings, later, now.nameOffset);
      }
    case FuncProto(_, _, params) =>
      if !Rejects(answers, FFunc) {
        ParamsKeptStill(strings, later, params, now.params);
      }
    case Func(n, _, _) => ReadLater(strings, later, n);
    case _ =>
  }

  /** After a whole run, every type of the input is what its kind becomes under the kernel's answers. */
  lemma TypesBecome(elf: Elf, answers: Answers, s: State, j: nat)
    requires Fresh(s) && Run(elf, answers, s, |s.types|).Done? && j < |s.types|
    ensures
      var s' := Run(elf, answers, s, |s.types|).value;
      Becomes(answers, s, s'.strings, s.types[j], s'.types[j])
  {
    hide StepOf, WellFormed, StringAt, Becomes;
    Turn(elf, answers, s, j);
    var before, after := Run(elf, answers, s, j).value, Run(elf, answers, s, j + 1).value;
    if s.types[j].DataSec? {
      RefsOf(s, j);
      forall e | e in s.types[j].entries
        ensures
          && e.btfType < |s.types|
          && (s.types[e.btfType].Var? ==>
                e.btfType < |before.types| && before.types[e.btfType].NameOffset() == s.types[e.btfType].nameOffset)
      {
        if s.types[e.btfType].Var? {
          NameAtTurn(elf, answers, s, j, e.btfType);
        }
      }
    }
    StepBecomes(elf, answers, before, j, s);
    BecomesStill(answers, s, after.strings, Run(elf, answers, s, |s.types|).value.strings, s.types[j], after.types[j]);
  }
}
