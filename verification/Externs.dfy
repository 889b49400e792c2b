/**
 Resolving extern kernel symbols: typed ones against the kernel's BTF, untyped ones against
 /proc/kallsyms. A resolved extern has a BTF id or an address; an unresolved one must be weak.
 */
module Externs {
  import opened Instructions
  import opened KernelLookup
  import B = Btf
  import T = TypeCompatibility

  datatype ExternDesc = ExternDesc(
    isWeak: bool, isResolved: bool, kernelBtfId: Option<nat>, ksymAddr: Option<U64>,
    btfId: nat,           // the declaration
    typeId: Option<nat>)  // none for symbols declared without a type

  // A line of kallsyms, split into fields; the address is none when it is not a 64-bit hex number.
  datatype Line = Short | Symbol(address: Option<U64>, name: string)

  datatype KsymsError =
    | TypedKsymRequiresKernelBtf | UnusableType(name: string) | BtfError
    | KallsymsParseError | AmbiguousResolution(name: string) | VariableNotFound(name: string)

  datatype Outcome = Resolved | Failed(error: KsymsError)

  type Table = map<string, ExternDesc>

  // ---------- kallsyms ----------

  /** The line gives `name` the non-zero address. */
  predicate Gives(line: Line, name: string, address: U64) {
    line == Symbol(Some(address), name) && address != 0
  }

  /** The address of the first line that gives the name one. */
  function FirstAddress(lines: seq<Line>, name: string): Option<U64> {
    if lines == [] then None
    else if lines[0].Symbol? && lines[0].name == name && lines[0].address.Some? && lines[0].address.value != 0
    then lines[0].address
    else FirstAddress(lines[1..], name)
  }

  /** Lines that name a wanted symbol have an address that can be read. */
  ghost predicate Readable(wanted: set<string>, lines: seq<Line>) {
    forall l :: l in lines && l.Symbol? && l.name in wanted ==> l.address.Some?
  }

  /** No two lines give one wanted extern different addresses, nor one it already has. */
  ghost predicate Unambiguous(externs: Table, wanted: set<string>, lines: seq<Line>) {
    forall name, k, a :: name in wanted && name in externs && k in lines && Gives(k, name, a) ==>
      AgreesWithAll(externs[name], lines, name, a)
  }

  ghost predicate AgreesWithAll(ext: ExternDesc, lines: seq<Line>, name: string, a: U64) {
    if ext.isResolved then ext.ksymAddr.None? || ext.ksymAddr.value == a
    else forall l, b :: l in lines && Gives(l, name, b) ==> b == a
  }

  /** What the lines make of one extern. */
  function AfterLines(ext: ExternDesc, name: string, wanted: set<string>, lines: seq<Line>): ExternDesc {
    if name in wanted && !ext.isResolved && FirstAddress(lines, name).Some?
    then ext.(ksymAddr := FirstAddress(lines, name), isResolved := true)
    else ext
  }

  function TableAfter(externs: Table, wanted: set<string>, lines: seq<Line>): Table {
    map name | name in externs :: AfterLines(externs[name], name, wanted, lines)
  }

  ghost predicate NoStrongUnresolved(externs: Table) {
    forall name :: name in externs ==> externs[name].isResolved || externs[name].isWeak
  }

  /** When the pass over the lines succeeds, in terms of which lines there are, not their order. */
  ghost predicate KallsymsOk(externs: Table, wanted: set<string>, lines: seq<Line>) {
    && Readable(wanted, lines)
    && Unambiguous(externs, wanted, lines)
    && NoStrongUnresolved(TableAfter(externs, wanted, lines))
  }

  lemma {:induction false} FirstAddressGiven(lines: seq<Line>, name: string)
    ensures FirstAddress(lines, name).Some? ==>
      exists l :: l in lines && Gives(l, name, FirstAddress(lines, name).value)
    ensures FirstAddress(lines, name).None? ==> forall l, a :: l in lines ==> !Gives(l, name, a)
  {
    if lines != [] {
      if Gives(lines[0], name, if lines[0].Symbol? && lines[0].address.Some? then lines[0].address.value else 0) {
        assert lines[0] in lines;
      } else {
        FirstAddressGiven(lines[1..], name);
        assert forall l :: l in lines <==> l == lines[0] || l in lines[1..];
      }
    }
  }

  lemma {:induction false} FirstAddressAppend(lines: seq<Line>, line: Line, name: string)
    ensures FirstAddress(lines + [line], name) ==
      if FirstAddress(lines, name).Some? then FirstAddress(lines, name)
      else FirstAddress([line], name)
  {
    if lines == [] {
      assert lines + [line] == [line];
    } else {
      assert (lines + [line])[1..] == lines[1..] + [line];
      FirstAddressAppend(lines[1..], line, name);
    }
  }

  /** The outcome, and the result on success, depend only on which lines there are. */
  lemma LineOrderIrrelevant(externs: Table, wanted: set<string>, lines: seq<Line>, others: seq<Line>)
    requires forall l :: l in lines <==> l in others
    ensures KallsymsOk(externs, wanted, lines) <==> KallsymsOk(externs, wanted, others)
    ensures KallsymsOk(externs, wanted, lines) ==>
      TableAfter(externs, wanted, lines) == TableAfter(externs, wanted, others)
  {
    if Unambiguous(externs, wanted, lines) {
      SameAddresses(externs, wanted, lines, others);
    }
    if Unambiguous(externs, wanted, others) {
      SameAddresses(externs, wanted, others, lines);
    }
  }

  lemma SameAddresses(externs: Table, wanted: set<string>, lines: seq<Line>, others: seq<Line>)
    requires forall l :: l in lines <==> l in others
    requires Unambiguous(externs, wanted, lines)
    ensures Unambiguous(externs, wanted, others)
    ensures TableAfter(externs, wanted, lines) == TableAfter(externs, wanted, others)
  {
    forall name, k, a | name in wanted && name in externs && k in others && Gives(k, name, a)
      ensures AgreesWithAll(externs[name], others, name, a)
    {
      assert AgreesWithAll(externs[name], lines, name, a);
    }
    forall name | name in externs
      ensures AfterLines(externs[name], name, wanted, lines) == AfterLines(externs[name], name, wanted, others)
    {
      if name in wanted && !externs[name].isResolved {
        FirstAddressGiven(lines, name);
        FirstAddressGiven(others, name);
        if FirstAddress(lines, name).Some? {
          var a := FirstAddress(lines, name).value;
          var l :| l in lines && Gives(l, name, a);
          assert AgreesWithAll(externs[name], lines, name, a);
        }
      }
    }
  }

  // ---------- one line ----------

  /** What one more line does when everything before it was fine. */
  lemma OneMoreLine(externs: Table, wanted: set<string>, lines: seq<Line>, line: Line)
    requires line.Short? || line.name !in wanted || line.address == Some(0) || (line.address.Some? && line.name !in externs)
    requires Readable(wanted, lines) && Unambiguous(externs, wanted, lines)
    ensures Readable(wanted, lines + [line]) && Unambiguous(externs, wanted, lines + [line])
    ensures TableAfter(externs, wanted, lines + [line]) == TableAfter(externs, wanted, lines)
  {
    forall name, k, a | name in wanted && name in externs && k in lines + [line] && Gives(k, name, a)
      ensures AgreesWithAll(externs[name], lines + [line], name, a)
    {
      assert k in lines;
      assert AgreesWithAll(externs[name], lines, name, a);
    }
    forall name | name in externs
      ensures AfterLines(externs[name], name, wanted, lines + [line]) == AfterLines(externs[name], name, wanted, lines)
    {
      FirstAddressAppend(lines, line, name);
    }
  }

  /** A line that gives a wanted extern an address it can have. */
  lemma AddressTaken(externs: Table, wanted: set<string>, lines: seq<Line>, line: Line)
    requires line.Symbol? && line.name in wanted && line.name in externs && line.address.Some? && line.address.value != 0
    requires Readable(wanted, lines) && Unambiguous(externs, wanted, lines)
    requires var now := AfterLines(externs[line.name], line.name, wanted, lines);
      now.isResolved ==> now.ksymAddr.None? || now.ksymAddr == line.address
    ensures Readable(wanted, lines + [line]) && Unambiguous(externs, wanted, lines + [line])
    ensures
      var now := AfterLines(externs[line.name], line.name, wanted, lines);
      TableAfter(externs, wanted, lines + [line]) == TableAfter(externs, wanted, lines)[line.name :=
        if now.isResolved then now else now.(ksymAddr := line.address, isResolved := true)]
  {
    var ext := externs[line.name];
    FirstAddressGiven(lines, line.name);
    forall name, k, a | name in wanted && name in externs && k in lines + [line] && Gives(k, name, a)
      ensures AgreesWithAll(externs[name], lines + [line], name, a)
    {
      if k in lines {
        assert AgreesWithAll(externs[name], lines, name, a);
      }
      if name == line.name && !ext.isResolved {
        forall l, b | l in lines + [line] && Gives(l, name, b)
          ensures b == line.address.value
        {
          if l in lines {
            assert AgreesWithAll(ext, lines, name, b);
          }
        }
      }
    }
    forall name | name in externs
      ensures AfterLines(externs[name], name, wanted, lines + [line]) ==
        if name == line.name && !AfterLines(ext, name, wanted, lines).isResolved
        then ext.(ksymAddr := line.address, isResolved := true)
        else AfterLines(externs[name], name, wanted, lines)
    {
      FirstAddressAppend(lines, line, name);
    }
  }

  /** A line whose address cannot be read, or contradicts one before it, spoils any continuation. */
  lemma LineSpoils(externs: Table, wanted: set<string>, lines: seq<Line>, line: Line, all: seq<Line>)
    requires line in all && (forall l :: l in lines ==> l in all)
    requires line.Symbol? && line.name in wanted
    requires line.address.None? ||
      (&& line.name in externs && line.address.value != 0
       && var now := AfterLines(externs[line.name], line.name, wanted, lines);
       && now.isResolved && now.ksymAddr.Some? && now.ksymAddr != line.address)
    ensures !KallsymsOk(externs, wanted, all)
  {
    if line.address.Some? && Unambiguous(externs, wanted, all) {
      var name, a := line.name, line.address.value;
      assert Gives(line, name, a);
      assert AgreesWithAll(externs[name], all, name, a);
      FirstAddressGiven(lines, name);
    }
  }

  // ---------- the collection ----------

  class ExternCollection {
    var externs: Table
    var hasTypedKsyms: bool
    var hasStrongTypedKsyms: bool

    constructor ()
      ensures externs == map[] && !hasTypedKsyms && !hasStrongTypedKsyms
    {
      externs, hasTypedKsyms, hasStrongTypedKsyms := map[], false, false;
    }

    /** The flag never misses a strong typed extern. */
    ghost predicate Valid()
      reads this
    {
      forall name :: name in externs && externs[name].typeId.Some? && !externs[name].isWeak ==> hasStrongTypedKsyms
    }

    /** Nothing was resolved yet. */
    ghost predicate Untouched()
      reads this
    {
      forall name :: name in externs ==>
        !externs[name].isResolved && externs[name].kernelBtfId.None? && externs[name].ksymAddr.None?
    }

    method Insert(name: string, desc: ExternDesc)
      requires Valid()
      modifies this
      ensures Valid() && externs == old(externs)[name := desc]
    {
      if desc.typeId.Some? {
        hasTypedKsyms := true;
        if !desc.isWeak {
          hasStrongTypedKsyms := true;
        }
      }
      externs := externs[name := desc];
    }

    /** Gives untyped externs the addresses kallsyms lists, and rejects strong ones it does not list. */
    method ResolveKallsyms(lines: seq<Line>, wanted: set<string>) returns (r: Outcome)
      modifies this`externs
      ensures r.Resolved? <==> KallsymsOk(old(externs), wanted, lines)
      ensures r.Resolved? ==> externs == TableAfter(old(externs), wanted, lines)
    {
      ghost var first := externs;
      for i := 0 to |lines|
        invariant Readable(wanted, lines[..i]) && Unambiguous(first, wanted, lines[..i])
        invariant externs == TableAfter(first, wanted, lines[..i])
      {
        var line := lines[i];
        ghost var before := lines[..i];
        assert lines[..i + 1] == before + [line];
        if line.Short? || line.name !in wanted {
          OneMoreLine(first, wanted, before, line);
          continue;
        }
        if line.address.None? {
          LineSpoils(first, wanted, before, line, lines);
          return Failed(KallsymsParseError);
        }
        if line.address.value == 0 || line.name !in externs {
          OneMoreLine(first, wanted, before, line);
          continue;
        }
        var ext := externs[line.name];
        if ext.isResolved {
          if ext.ksymAddr.Some? && ext.ksymAddr.value != line.address.value {
            LineSpoils(first, wanted, before, line, lines);
            return Failed(AmbiguousResolution(line.name));
          }
          AddressTaken(first, wanted, before, line);
          continue;
        }
        externs := externs[line.name := ext.(ksymAddr := line.address, isResolved := true)];
        AddressTaken(first, wanted, before, line);
      }
      assert lines[..|lines|] == lines;
      if exists name :: name in externs && !externs[name].isResolved && !externs[name].isWeak {
        var name :| name in externs && !externs[name].isResolved && !externs[name].isWeak;
        return Failed(VariableNotFound(name));
      }
      r := Resolved;
    }

    /** Looks every typed extern up in the kernel's BTF; weak ones may be missing. */
    method ResolveTyped(obj: B.Btf, kernel: B.Btf, ghost rank: nat -> nat, ghost lookup: (string, ExternDesc) -> Lookup)
      returns (r: Outcome)
      requires T.ParamsEnd(obj, rank) && lookup == InKernel(obj, kernel, rank)
      modifies this`externs
      ensures r.Resolved? <==> TypedOk(old(externs), lookup)
      ensures r.Resolved? ==> externs == TypedAfter(old(externs), lookup)
    {
      hide LookupOf, T.ParamsEnd, InKernel;
      var resolutions: map<string, nat> := map[];
      var names := externs.Keys;
      while names != {}
        invariant externs == old(externs) && names <= externs.Keys
        invariant forall name :: name in externs && name !in names ==> TypedNameOk(externs[name], lookup(name, externs[name]))
        invariant forall name :: name in resolutions <==>
          name in externs && name !in names && externs[name].typeId.Some? && lookup(name, externs[name]).Found?
        invariant forall name :: name in resolutions ==> resolutions[name] == lookup(name, externs[name]).btfId
      {
        var name :| name in names;
        var desc := externs[name];
        names := names - {name};
        if desc.typeId.Some? {
          var found := LookUp(obj, kernel, rank, name, desc.btfId, desc.typeId.value);
          LookedUp(obj, kernel, rank, name, desc);
          match found {
            case Found(id) =>
              resolutions := resolutions[name := id];
            case Broken =>
              return Failed(BtfError);
            case _ =>
              if !desc.isWeak {
                return Failed(UnusableType(name));
              }
          }
        }
      }
      externs := map name | name in externs ::
        if name in resolutions then externs[name].(kernelBtfId := Some(resolutions[name]), isResolved := true)
        else externs[name];
      r := Resolved;
    }

    /** Resolves all externs, or says which one cannot be. */
    method ResolveExterns(obj: B.Btf, kernelBtf: Option<B.Btf>, kallsyms: seq<Line>, ghost rank: nat -> nat)
      returns (r: Outcome)
      requires Valid() && Untouched() && T.ParamsEnd(obj, rank)
      modifies this`externs
      ensures r.Resolved? <==> ResolvableFrom(old(externs), hasStrongTypedKsyms, InSome(obj, kernelBtf, rank), kallsyms)
      ensures r.Resolved? ==> AllSettled(externs) && externs.Keys == old(externs).Keys
      ensures r.Resolved? ==> forall name :: name in externs ==>
        externs[name] == Final(old(externs), InSome(obj, kernelBtf, rank), kallsyms, name)
    {
      hide LookupOf, T.ParamsEnd, InKernel;
      ghost var kernel := InSome(obj, kernelBtf, rank);
      if kernelBtf.Some? {
        var typed := ResolveTyped(obj, kernelBtf.value, rank, InKernel(obj, kernelBtf.value, rank));
        if typed.Failed? {
          return typed;
        }
      } else if hasStrongTypedKsyms {
        return Failed(TypedKsymRequiresKernelBtf);
      }
      hide KallsymsOk, Settled, AfterLines, TypedOk, TypedAfter, TableAfter;
      ghost var afterTyped := externs;
      r := ResolveTypeless(kallsyms);
      if r.Failed? {
        return;
      }
      forall name | name in old(externs)
        ensures name in externs && externs[name] == Final(old(externs), kernel, kallsyms, name)
        ensures Settled(Final(old(externs), kernel, kallsyms, name))
      {
        FinalSettled(old(externs), hasStrongTypedKsyms, kernel, kallsyms, name);
        TableAt(afterTyped, Wanted(afterTyped), kallsyms);
        TypedKeys(old(externs), kernel);
      }
      TableAt(afterTyped, Wanted(afterTyped), kallsyms);
      TypedKeys(old(externs), kernel);
    }

    /** Looks the untyped externs up in kallsyms, when there are any left; weak ones may stay null. */
    method ResolveTypeless(kallsyms: seq<Line>) returns (r: Outcome)
      modifies this`externs
      ensures r.Resolved? <==>
        (Wanted(old(externs)) != {} ==> KallsymsOk(old(externs), Wanted(old(externs)), kallsyms))
      ensures r.Resolved? ==> externs == NulledTable(TableAfter(old(externs), Wanted(old(externs)), kallsyms))
    {
      hide KallsymsOk, TableAfter;
      var wanted := set name | name in externs && !externs[name].isResolved && externs[name].typeId.None?;
      assert wanted == Wanted(externs);
      if wanted == {} {
        NothingWanted(externs, kallsyms);
      } else {
        var found := ResolveKallsyms(kallsyms, wanted);
        if found.Failed? {
          return found;
        }
      }
      externs := map name | name in externs :: Nulled(externs[name]);
      r := Resolved;
    }
  }

  /** A weak extern that was not found is null. */
  function Nulled(ext: ExternDesc): ExternDesc {
    if !ext.isResolved && ext.isWeak then ext.(ksymAddr := Some(0)) else ext
  }

  function NulledTable(externs: Table): Table {
    map name | name in externs :: Nulled(externs[name])
  }

  lemma TableAt(externs: Table, wanted: set<string>, lines: seq<Line>)
    ensures TableAfter(externs, wanted, lines).Keys == externs.Keys
    ensures forall name :: name in externs ==>
      TableAfter(externs, wanted, lines)[name] == AfterLines(externs[name], name, wanted, lines)
  {
  }

  lemma TypedKeys(externs: Table, kernel: Option<(string, ExternDesc) -> Lookup>)
    ensures AfterBtf(externs, kernel).Keys == externs.Keys
  {
  }

  /** What an untouched extern ends up as, when all can be resolved, is settled. */
  lemma FinalSettled(externs: Table, strongTyped: bool, kernel: Option<(string, ExternDesc) -> Lookup>,
                     kallsyms: seq<Line>,
                     name: string)
    requires ResolvableFrom(externs, strongTyped, kernel, kallsyms)
    requires name in externs
    requires !externs[name].isResolved && externs[name].kernelBtfId.None? && externs[name].ksymAddr.None?
    requires externs[name].typeId.Some? && !externs[name].isWeak ==> strongTyped
    ensures Settled(Final(externs, kernel, kallsyms, name))
  {
    hide FirstAddress, Readable, Unambiguous;
    var after := AfterBtf(externs, kernel);
    assert name in after;
    if name in Wanted(after) {
      assert name in TableAfter(after, Wanted(after), kallsyms);
    }
  }

  lemma NothingWanted(externs: Table, lines: seq<Line>)
    ensures TableAfter(externs, {}, lines) == externs
    ensures Readable({}, lines) && Unambiguous(externs, {}, lines)
  {
  }

  // ---------- the whole resolution ----------

  /** What the kernel's BTF says about each extern. */
  ghost function InKernel(obj: B.Btf, kernel: B.Btf, rank: nat -> nat): (string, ExternDesc) -> Lookup
    requires T.ParamsEnd(obj, rank)
  {
    (name: string, ext: ExternDesc) =>
      if ext.typeId.Some? then LookupOf(obj, kernel, rank, name, ext.btfId, ext.typeId.value) else NotFound
  }

  lemma LookedUp(obj: B.Btf, kernel: B.Btf, rank: nat -> nat, name: string, ext: ExternDesc)
    requires T.ParamsEnd(obj, rank) && ext.typeId.Some?
    ensures InKernel(obj, kernel, rank)(name, ext) == LookupOf(obj, kernel, rank, name, ext.btfId, ext.typeId.value)
  {
  }

  ghost function InSome(obj: B.Btf, kernel: Option<B.Btf>, rank: nat -> nat): Option<(string, ExternDesc) -> Lookup>
    requires T.ParamsEnd(obj, rank)
  {
    if kernel.Some? then Some(InKernel(obj, kernel.value, rank)) else None
  }

  predicate TypedNameOk(ext: ExternDesc, found: Lookup) {
    ext.typeId.Some? ==> found.Found? || (ext.isWeak && !found.Broken?)
  }

  ghost predicate TypedOk(externs: Table, lookup: (string, ExternDesc) -> Lookup) {
    forall name :: name in externs ==> TypedNameOk(externs[name], lookup(name, externs[name]))
  }

  ghost function TypedAfter(externs: Table, lookup: (string, ExternDesc) -> Lookup): Table {
    map name | name in externs :: TypedDesc(externs[name], lookup(name, externs[name]))
  }

  function TypedDesc(ext: ExternDesc, found: Lookup): ExternDesc {
    if ext.typeId.Some? && found.Found? then ext.(kernelBtfId := Some(found.btfId), isResolved := true) else ext
  }

  /** The externs looked for in kallsyms. */
  ghost function Wanted(externs: Table): set<string> {
    set name | name in externs && !externs[name].isResolved && externs[name].typeId.None?
  }

  ghost function AfterBtf(externs: Table, kernel: Option<(string, ExternDesc) -> Lookup>): Table {
    if kernel.Some? then TypedAfter(externs, kernel.value) else externs
  }

  /** Exactly when all externs can be resolved. */
  ghost predicate ResolvableFrom(externs: Table, strongTyped: bool, kernel: Option<(string, ExternDesc) -> Lookup>,
                                 kallsyms: seq<Line>)
  {
    && (if kernel.Some? then TypedOk(externs, kernel.value) else !strongTyped)
    && var after := AfterBtf(externs, kernel);
       Wanted(after) != {} ==> KallsymsOk(after, Wanted(after), kallsyms)
  }

  /** What an extern ends up as. */
  ghost function Final(externs: Table, kernel: Option<(string, ExternDesc) -> Lookup>, kallsyms: seq<Line>,
                       name: string)
    : ExternDesc
    requires name in externs
  {
    var after := AfterBtf(externs, kernel);
    Nulled(AfterLines(after[name], name, Wanted(after), kallsyms))
  }

  /**
   What resolution promises the patching pass: strong externs are resolved; typed ones by a BTF id,
   the others by an address; weak ones that were not found have the null address.
   */
  ghost predicate AllSettled(externs: Table) {
    forall name :: name in externs ==> Settled(externs[name])
  }

  predicate Settled(ext: ExternDesc) {
    && (ext.isResolved || (ext.isWeak && ext.kernelBtfId.None? && ext.ksymAddr == Some(0)))
    && (ext.isResolved ==> if ext.typeId.Some? then ext.kernelBtfId.Some? else ext.ksymAddr.Some?)
  }
}
