/**
 What is collected from the section of extern kernel symbols: which section it is, whether there are
 functions in it, and the extern that each of its entries declares.
 */
module DeclaredKsyms {
  import opened Instructions
  import opened Btf
  import opened KernelLookup
  import opened KsymCollection
  import E = Externs
  import L = Linker
  import S = Sanitizer

  // ---------- the section ----------

  const KSYMS: Name := [46, 107, 115, 121, 109, 115]  // ".ksyms"

  predicate IsKsyms(btf: Btf, id: TypeId) {
    id < |btf.types| && btf.types[id].DataSec? && StringAt(btf.strings, btf.types[id].nameOffset) == Some(KSYMS)
  }

  predicate IsNameless(btf: Btf, id: TypeId) {
    id < |btf.types| && btf.types[id].DataSec? && StringAt(btf.strings, btf.types[id].nameOffset).None?
  }

  lemma KsymsBytes()
    ensures S.Bytes(".ksyms") == KSYMS
  {
    var text := ".ksyms";
    assert |text| == 6 && text[0] == '.' && text[1] == 'k' && text[2] == 's' && text[3] == 'y' && text[4] == 'm' && text[5] == 's';
    assert forall i :: 0 <= i < 6 ==> S.Bytes(text)[i] == KSYMS[i];
  }

  /** The section found is the first called ".ksyms"; a section before it must not have an unreadable name. */
  lemma {:induction false} SectionFound(btf: Btf, i: nat)
    requires i <= |btf.types|
    ensures
      match FindSection(btf, i)
      case Ok(Some(id)) =>
        i <= id && IsKsyms(btf, id) && forall j: TypeId :: i <= j < id ==> !IsKsyms(btf, j) && !IsNameless(btf, j)
      case Ok(None) => forall j: TypeId :: i <= j ==> !IsKsyms(btf, j) && !IsNameless(btf, j)
      case Err(_) =>
        exists id: TypeId :: i <= id && IsNameless(btf, id) && forall j: TypeId :: i <= j < id ==> !IsKsyms(btf, j)
    decreases |btf.types| - i
  {
    hide StringAt, S.Bytes;
    KsymsBytes();
    if i < |btf.types| {
      SectionFound(btf, i + 1);
      if FindSection(btf, i).Err? && IsNameless(btf, i) {
        assert forall j: TypeId :: i <= j < i ==> !IsKsyms(btf, j);
      }
    }
  }

  // ---------- functions ----------

  predicate IsFunction(btf: Btf, e: Entry) {
    e.btfType < |btf.types| && btf.types[e.btfType].Func?
  }

  /** There are functions exactly when an entry is one; an entry of no type is an error, unless one comes before it. */
  lemma {:induction false} FunctionsFound(btf: Btf, entries: seq<Entry>)
    ensures
      match HasFunctions(btf, entries)
      case Ok(found) =>
        && (found <==> exists e :: e in entries && IsFunction(btf, e))
        && (!found ==> forall e :: e in entries ==> e.btfType < |btf.types|)
      case Err(_) => exists e :: e in entries && e.btfType >= |btf.types|
  {
    if entries != [] {
      FunctionsFound(btf, entries[1..]);
      assert entries == [entries[0]] + entries[1..];
      assert forall e :: e in entries <==> e == entries[0] || e in entries[1..];
      if HasFunctions(btf, entries) == Ok(true) && IsFunction(btf, entries[0]) {
        assert entries[0] in entries;
      }
    }
  }

  // ---------- entries ----------

  /** The symbol with the name is the first of them. */
  lemma {:induction false} SymbolFound(symbols: seq<L.Symbol>, name: string)
    ensures
      match SymbolNamed(symbols, name)
      case None => forall s :: s in symbols ==> s.name != Some(name)
      case Some(sym) =>
        exists k :: 0 <= k < |symbols| && symbols[k] == sym && sym.name == Some(name)
          && forall j :: 0 <= j < k ==> symbols[j].name != Some(name)
  {
    if symbols != [] {
      SymbolFound(symbols[1..], name);
      assert forall s :: s in symbols <==> s == symbols[0] || s in symbols[1..];
      if symbols[0].name != Some(name) && SymbolNamed(symbols, name).Some? {
        var sym := SymbolNamed(symbols, name).value;
        var k :| 0 <= k < |symbols[1..]| && symbols[1..][k] == sym && sym.name == Some(name)
          && forall j :: 0 <= j < k ==> symbols[1..][j].name != Some(name);
        assert symbols[k + 1] == sym;
        forall j | 0 <= j < k + 1
          ensures symbols[j].name != Some(name)
        {
          assert j > 0 ==> symbols[j] == symbols[1..][j - 1];
        }
      }
    }
  }

  /** The entry declares a function or variable with this name, which is the name of some symbol. */
  predicate Declares(btf: Btf, symbols: seq<L.Symbol>, e: Entry, name: string) {
    && e.btfType < |btf.types| && (btf.types[e.btfType].Func? || btf.types[e.btfType].Var?)
    && StringAt(btf.strings, btf.types[e.btfType].nameOffset).Some?
    && Text(StringAt(btf.strings, btf.types[e.btfType].nameOffset).value) == name
    && (exists s :: s in symbols && s.name == Some(name))
    && Resolve(btf, btf.types[e.btfType].btfType).Ok?
  }

  /**
   An entry is collected exactly when it declares something; the extern is as weak as its symbol, nothing
   is known of it yet, and it has the resolved type of the declaration, unless that is a void variable.
   */
  lemma EntryCollected(btf: Btf, symbols: seq<L.Symbol>, e: Entry)
    ensures DescOf(btf, symbols, e).Collected? <==> exists name :: Declares(btf, symbols, e, name)
    ensures DescOf(btf, symbols, e).Collected? ==>
      var (name, desc) := DescOf(btf, symbols, e).value;
      && Declares(btf, symbols, e, name) && IsFresh(desc) && desc.btfId == e.btfType
      && SymbolNamed(symbols, name).Some? && desc.isWeak == SymbolNamed(symbols, name).value.isWeak
      && var t, id := btf.types[e.btfType], Resolve(btf, btf.types[e.btfType].btfType).value;
         if t.Func? || id != 0 then desc.typeId == Some(id) else desc.typeId.None?
  {
    hide StringAt, Text, SymbolNamed, Resolve;
    if e.btfType < |btf.types| && (btf.types[e.btfType].Func? || btf.types[e.btfType].Var?)
       && StringAt(btf.strings, btf.types[e.btfType].nameOffset).Some? {
      var name := Text(StringAt(btf.strings, btf.types[e.btfType].nameOffset).value);
      SymbolFound(symbols, name);
      assert DescOf(btf, symbols, e).Collected? ==> Declares(btf, symbols, e, name);
    }
  }

  /** Every name of the table is that of an entry, and the last one with the name is what it stands for. */
  lemma {:induction false} LastEntryWins(btf: Btf, symbols: seq<L.Symbol>, entries: seq<Entry>, name: string)
    requires TableOf(btf, symbols, entries).Collected?
    ensures forall e :: e in entries ==> DescOf(btf, symbols, e).Collected?
    ensures
      var table := TableOf(btf, symbols, entries).value;
      if name in table then
        exists k :: 0 <= k < |entries| && DescOf(btf, symbols, entries[k]) == Collected((name, table[name]))
          && forall j :: k < j < |entries| ==> DescOf(btf, symbols, entries[j]).value.0 != name
      else forall e :: e in entries ==> DescOf(btf, symbols, e).value.0 != name
  {
    hide DescOf;
    if entries != [] {
      var front, last := entries[..|entries| - 1], entries[|entries| - 1];
      assert entries == front + [last];
      LastEntryWins(btf, symbols, front, name);
      assert forall e :: e in entries <==> e in front || e == last;
      var table := TableOf(btf, symbols, entries).value;
      if name in table && DescOf(btf, symbols, last).value.0 != name {
        var k :| 0 <= k < |front| && DescOf(btf, symbols, front[k]) == Collected((name, table[name]))
          && forall j :: k < j < |front| ==> DescOf(btf, symbols, front[j]).value.0 != name;
        assert entries[k] == front[k];
      }
    }
  }
}
