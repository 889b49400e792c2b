/**
 Collecting the extern kernel symbols an object declares: the entries of its ".ksyms" section become
 extern descriptions, and a placeholder variable is made when there are functions among them.
 */
module KsymCollection {
  import opened Instructions
  import opened Btf
  import S = Sanitizer
  import E = Externs
  import L = Linker
  import opened KernelLookup

  datatype Outcome<+T> = Collected(value: T) | Unusable(error: CollectError)
  datatype CollectError = OfBtf(error: BtfError) | InvalidDatasec | InvalidSymbolName

  // What is found: the extern table, and the section with its placeholder when there are externs.
  datatype Ksyms = Ksyms(table: E.Table, externs: Option<S.Externs>)

  function View(s: S.State): Btf {
    Btf(s.types, s.strings)
  }

  /** The first section called ".ksyms", unless the name of one before it cannot be read. */
  function FindSection(btf: Btf, i: nat): (r: Result<Option<TypeId>>)
    requires i <= |btf.types|
    ensures r.Ok? && r.value.Some? ==>
      && i <= r.value.value < |btf.types|
      && btf.types[r.value.value].DataSec?
      && StringAt(btf.strings, btf.types[r.value.value].nameOffset) == Some(S.Bytes(".ksyms"))
    decreases |btf.types| - i
  {
    if i == |btf.types| then Ok(None)
    else if !btf.types[i].DataSec? then FindSection(btf, i + 1)
    else
      match StringAt(btf.strings, btf.types[i].nameOffset)
      case None => Err(InvalidStringOffset)
      case Some(name) => if name == S.Bytes(".ksyms") then Ok(Some(i)) else FindSection(btf, i + 1)
  }

  /** Whether there is a function among the entries; the search ends at the first. */
  function HasFunctions(btf: Btf, entries: seq<Entry>): Result<bool> {
    if entries == [] then Ok(false)
    else if entries[0].btfType >= |btf.types| then Err(UnknownBtfType)
    else if btf.types[entries[0].btfType].Func? then Ok(true)
    else HasFunctions(btf, entries[1..])
  }

  function SymbolNamed(symbols: seq<L.Symbol>, name: string): Option<L.Symbol> {
    if symbols == [] then None
    else if symbols[0].name == Some(name) then Some(symbols[0])
    else SymbolNamed(symbols[1..], name)
  }

  /** The extern an entry declares. A variable of type void has no type to look up. */
  function DescOf(btf: Btf, symbols: seq<L.Symbol>, e: Entry): Outcome<(string, E.ExternDesc)> {
    if e.btfType >= |btf.types| then Unusable(OfBtf(UnknownBtfType))
    else
      var t := btf.types[e.btfType];
      if !t.Func? && !t.Var? then Unusable(InvalidDatasec)
      else
        match StringAt(btf.strings, t.nameOffset)
        case None => Unusable(OfBtf(InvalidStringOffset))
        case Some(name) =>
          match SymbolNamed(symbols, Text(name))
          case None => Unusable(InvalidSymbolName)
          case Some(sym) =>
            match Resolve(btf, t.btfType)
            case Err(error) => Unusable(OfBtf(error))
            case Ok(id) =>
              var typeId := if t.Var? && id == 0 then None else Some(id);
              Collected((Text(name), E.ExternDesc(sym.isWeak, false, None, None, e.btfType, typeId)))
  }

  /** All entries, inserted in order: a later one replaces an earlier one of the same name. */
  function TableOf(btf: Btf, symbols: seq<L.Symbol>, entries: seq<Entry>): Outcome<E.Table> {
    if entries == [] then Collected(map[])
    else
      match TableOf(btf, symbols, entries[..|entries| - 1])
      case Unusable(error) => Unusable(error)
      case Collected(table) =>
        match DescOf(btf, symbols, entries[|entries| - 1])
        case Unusable(error) => Unusable(error)
        case Collected((name, desc)) => Collected(table[name := desc])
  }

  function KsymsOf(s: S.State, symbols: seq<L.Symbol>): Outcome<(S.State, Ksyms)> {
    match FindSection(View(s), 0)
    case Err(error) => Unusable(OfBtf(error))
    case Ok(None) => Collected((s, Ksyms(map[], None)))
    case Ok(Some(section)) =>
      var entries := s.types[section].entries;
      match HasFunctions(View(s), entries)
      case Err(error) => Unusable(OfBtf(error))
      case Ok(functions) =>
        var (s1, placeholder) := if functions then S.WithKsymPlaceholder(s) else (s, 0);
        match TableOf(View(s1), symbols, entries)
        case Unusable(error) => Unusable(error)
        case Collected(table) =>
          var externs := if table == map[] then None
                         else Some(S.Externs(section, if functions then Some(placeholder) else None));
          Collected((s1, Ksyms(table, externs)))
  }

  method FindKsymsDatasec(btf: Btf) returns (r: Result<Option<TypeId>>)
    ensures r == FindSection(btf, 0)
  {
    for i := 0 to |btf.types|
      invariant FindSection(btf, 0) == FindSection(btf, i)
    {
      if btf.types[i].DataSec? {
        var name := StringAt(btf.strings, btf.types[i].nameOffset);
        if name.None? {
          return Err(InvalidStringOffset);
        }
        if name.value == S.Bytes(".ksyms") {
          return Ok(Some(i));
        }
      }
    }
    r := Ok(None);
  }

  method DatasecHasFunctions(btf: Btf, entries: seq<Entry>) returns (r: Result<bool>)
    ensures r == HasFunctions(btf, entries)
  {
    assert entries[0..] == entries;
    for k := 0 to |entries|
      invariant HasFunctions(btf, entries) == HasFunctions(btf, entries[k..])
    {
      assert entries[k..][1..] == entries[k + 1..];
      if entries[k].btfType >= |btf.types| {
        return Err(UnknownBtfType);
      }
      if btf.types[entries[k].btfType].Func? {
        return Ok(true);
      }
    }
    r := Ok(false);
  }

  /** The externs of all entries, in order. */
  method ExternEntries(btf: Btf, symbols: seq<L.Symbol>, entries: seq<Entry>) returns (r: Outcome<seq<(string,
                       E.ExternDesc)>>)
    ensures match TableOf(btf, symbols, entries)
            case Unusable(error) => r == Unusable(error)
            case Collected(table) => r.Collected? && Inserted(map[], r.value) == table
    ensures r.Collected? ==> forall c :: c in r.value ==> IsFresh(c.1)
  {
    hide StringAt, Text, Resolve;
    var collected: seq<(string, E.ExternDesc)> := [];
    for k := 0 to |entries|
      invariant TableOf(btf, symbols, entries[..k]) == Collected(Inserted(map[], collected))
      invariant forall c :: c in collected ==> IsFresh(c.1)
    {
      assert entries[..k + 1][..k] == entries[..k];
      var desc := DescOf(btf, symbols, entries[k]);
      if desc.Unusable? {
        TableFails(btf, symbols, entries, k + 1);
        return Unusable(desc.error);
      }
      ghost var before := collected;
      collected := collected + [desc.value];
      assert collected[..|before|] == before;
    }
    assert entries[..|entries|] == entries;
    r := Collected(collected);
  }

  method InsertAll(externs: E.ExternCollection, descs: seq<(string, E.ExternDesc)>)
    requires externs.Valid() && externs.externs == map[]
    requires forall c :: c in descs ==> IsFresh(c.1)
    modifies externs
    ensures externs.externs == Inserted(map[], descs) && externs.Valid() && externs.Untouched()
  {
    for k := 0 to |descs|
      invariant externs.Valid() && externs.Untouched()
      invariant externs.externs == Inserted(map[], descs[..k])
    {
      assert descs[..k + 1][..k] == descs[..k];
      assert descs[k] in descs;
      externs.Insert(descs[k].0, descs[k].1);
    }
    assert descs[..|descs|] == descs;
  }

  /** Reads the section into `externs` and prepares its fixup. */
  method CollectKsyms(btf: S.BtfObject, externs: E.ExternCollection, symbols: seq<L.Symbol>)
    returns (r: Outcome<Option<S.Externs>>)
    requires externs.Valid() && externs.externs == map[]
    modifies btf, externs
    ensures match KsymsOf(old(btf.Current()), symbols)
            case Unusable(error) => r == Unusable(error)
            case Collected((s, found)) =>
              r == Collected(found.externs) && btf.Current() == s && externs.externs == found.table
    ensures r.Collected? ==> externs.Valid() && externs.Untouched()
  {
    hide StringAt, S.WithKsymPlaceholder, TableOf, Inserted, S.Bytes;
    var section := FindKsymsDatasec(Btf(btf.types, btf.strings));
    if section.Err? {
      return Unusable(OfBtf(section.error));
    }
    if section.value.None? {
      return Collected(None);
    }
    var entries := btf.types[section.value.value].entries;
    var functions := DatasecHasFunctions(Btf(btf.types, btf.strings), entries);
    if functions.Err? {
      return Unusable(OfBtf(functions.error));
    }
    var placeholder := None;
    if functions.value {
      var id := btf.CreateKsymFuncPlaceholder();
      placeholder := Some(id);
    }
    var descs := ExternEntries(Btf(btf.types, btf.strings), symbols, entries);
    if descs.Unusable? {
      return Unusable(descs.error);
    }
    InsertAll(externs, descs.value);
    if externs.externs == map[] {
      return Collected(None);
    }
    r := Collected(Some(S.Externs(section.value.value, placeholder)));
  }

  predicate IsFresh(desc: E.ExternDesc) {
    !desc.isResolved && desc.kernelBtfId.None? && desc.ksymAddr.None?
  }

  function Inserted(table: E.Table, descs: seq<(string, E.ExternDesc)>): E.Table {
    if descs == [] then table
    else Inserted(table, descs[..|descs| - 1])[descs[|descs| - 1].0 := descs[|descs| - 1].1]
  }

  /** Once an entry is unusable, so is the section. */
  lemma {:induction false} TableFails(btf: Btf, symbols: seq<L.Symbol>, entries: seq<Entry>, k: nat)
    requires k <= |entries| && TableOf(btf, symbols, entries[..k]).Unusable?
    ensures TableOf(btf, symbols, entries) == TableOf(btf, symbols, entries[..k])
    decreases |entries| - k
  {
    hide DescOf;
    if k == |entries| {
      assert entries[..k] == entries;
    } else {
      assert entries[..k + 1][..k] == entries[..k];
      TableFails(btf, symbols, entries, k + 1);
    }
  }
}
