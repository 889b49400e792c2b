/**
 Extern kernel symbols from the ".ksyms" section to patched instructions: what was collected can be
 fixed up for the kernel, and what was resolved can be patched.
 */
module KsymPipeline {
  import opened Instructions
  import opened Btf
  import opened KsymCollection
  import opened KernelLookup
  import S = Sanitizer
  import SP = SanitizerProperties
  import K = Ksyms
  import KP = KsymsProperties
  import E = Externs
  import L = Linker
  import P = Patching
  import PP = PatchingProperties

  /** When the table is collected, every entry was usable. */
  lemma {:induction false} EntriesUsable(btf: Btf, symbols: seq<L.Symbol>, entries: seq<Entry>, k: nat)
    requires k < |entries| && TableOf(btf, symbols, entries).Collected?
    ensures DescOf(btf, symbols, entries[k]).Collected?
    ensures entries != [] ==> TableOf(btf, symbols, entries).value != map[]
  {
    hide DescOf;
    var front := entries[..|entries| - 1];
    if k < |front| {
      EntriesUsable(btf, symbols, front, k);
      assert front[k] == entries[k];
    }
    var (name, desc) := DescOf(btf, symbols, entries[|entries| - 1]).value;
    assert name in TableOf(btf, symbols, entries).value;
  }

  /** A usable entry meets what the fixup of the section asks for. */
  lemma UsableIsFixable(p: K.Plan, btf: Btf, symbols: seq<L.Symbol>, e: Entry)
    requires DescOf(btf, symbols, e).Collected?
    ensures K.EntryOk(p, btf.types, btf.strings, e.btfType)
  {
  }

  lemma {:induction false} FunctionFound(btf: Btf, entries: seq<Entry>)
    requires HasFunctions(btf, entries) == Ok(false)
    ensures forall e :: e in entries ==> e.btfType < |btf.types| && !btf.types[e.btfType].Func?
  {
    if entries != [] {
      FunctionFound(btf, entries[1..]);
    }
  }

  /** The image after collecting: it is well formed, the section is as it was, a placeholder is usable. */
  lemma CollectingKeepsImage(s: S.State, symbols: seq<L.Symbol>)
    requires SP.WellFormed(s) && KsymsOf(s, symbols).Collected? && KsymsOf(s, symbols).value.1.externs.Some?
    ensures
      var (s1, found) := KsymsOf(s, symbols).value;
      var x := found.externs.value;
      && SP.WellFormed(s1) && SP.OnlyChanged(s, s1, |s.types|) && KP.PlaceholderOk(s1, x.placeholder)
      && x.section < |s.types| && s1.types[x.section] == s.types[x.section] && s.types[x.section].DataSec?
      && StringAt(s.strings, s.types[x.section].nameOffset).Some?
      && s.types[x.section].entries != []
      && TableOf(View(s1), symbols, s.types[x.section].entries) == Collected(found.table)
      && (x.placeholder.None? ==> HasFunctions(View(s), s.types[x.section].entries) == Ok(false))
  {
    hide SP.WellFormed, S.WithKsymPlaceholder, K.IsInt4, StringAt, DescOf, S.Bytes;
    KP.PlaceholderMade(s);
  }

  lemma StringStays(before: seq<Byte>, after: seq<Byte>, offset: nat)
    requires before <= after && StringAt(before, offset).Some?
    ensures StringAt(after, offset) == StringAt(before, offset)
  {
    assert after == before + after[|before|..];
    SP.StringKept(before, after[|before|..], offset);
  }

  /** The section that was collected can be fixed, and then the kernel takes every entry. */
  lemma CollectedIsFixable(s: S.State, symbols: seq<L.Symbol>)
    requires SP.WellFormed(s) && KsymsOf(s, symbols).Collected? && KsymsOf(s, symbols).value.1.externs.Some?
    ensures
      var (s1, found) := KsymsOf(s, symbols).value;
      var x := found.externs.value;
      && KP.PlaceholderOk(s1, x.placeholder)
      && S.KsymsFixable(s1, x.section, x.placeholder)
      && x.section < |s1.types| && s1.types[x.section].DataSec?
      && var entries := s1.types[x.section].entries;
         x.placeholder.Some? || forall k :: 0 <= k < |entries| ==> KP.IsVariable(s1.types, entries[k])
  {
    hide SP.WellFormed, KsymsOf, StringAt, DescOf, K.EntryOk, TableOf, S.WithInt4, KP.PlaceholderOk;
    CollectingKeepsImage(s, symbols);
    var (s1, found) := KsymsOf(s, symbols).value;
    var x := found.externs.value;
    var entries := s1.types[x.section].entries;
    PlanFromCollected(s1, x.section, x.placeholder);
    var (s2, plan) := S.KsymsPlan(s1, x.section, x.placeholder).value;
    StringStays(s.strings, s1.strings, s1.types[x.section].nameOffset);
    StringStays(s1.strings, s2.strings, s1.types[x.section].nameOffset);
    forall k | 0 <= k < |entries|
      ensures K.EntryOk(plan, s2.types, s2.strings, entries[k].btfType)
      ensures x.placeholder.Some? || KP.IsVariable(s1.types, entries[k])
    {
      EntriesUsable(View(s1), symbols, entries, k);
      UsableIsFixable(plan, View(s1), symbols, entries[k]);
      EntryStaysOk(plan, s1, s2, entries[k].btfType);
      if x.placeholder.None? {
        FunctionFound(View(s), entries);
        EntryOkKind(plan, s1, entries[k].btfType);
        assert entries[k] in entries;
      }
    }
  }

  lemma EntryOkKind(p: K.Plan, s: S.State, id: TypeId)
    requires K.EntryOk(p, s.types, s.strings, id)
    ensures id < |s.types| && (s.types[id].Func? || s.types[id].Var?)
  {
  }

  lemma EntryStaysOk(p: K.Plan, s: S.State, s2: S.State, id: TypeId)
    requires K.EntryOk(p, s.types, s.strings, id) && s.types <= s2.types && s.strings <= s2.strings
    ensures K.EntryOk(p, s2.types, s2.strings, id)
  {
    hide StringAt;
    StringStays(s.strings, s2.strings, s.types[id].nameOffset);
  }

  lemma PlanFromCollected(s: S.State, section: TypeId, placeholder: Option<TypeId>)
    requires SP.WellFormed(s) && KP.PlaceholderOk(s, placeholder)
    ensures S.KsymsPlan(s, section, placeholder).Done?
    ensures var (s1, _) := S.KsymsPlan(s, section, placeholder).value; s.types <= s1.types && s.strings <= s1.strings
  {
  }

  // ---------- which externs have no type ----------

  /** The entry declares a variable of type void. */
  ghost predicate DeclaresVoid(btf: Btf, e: Entry, name: string) {
    && e.btfType < |btf.types| && btf.types[e.btfType].Var?
    && StringAt(btf.strings, btf.types[e.btfType].nameOffset).Some?
    && name == Text(StringAt(btf.strings, btf.types[e.btfType].nameOffset).value)
    && Resolve(btf, btf.types[e.btfType].btfType) == Ok(0)
  }

  /** Only variables of type void become externs without a type; functions never do. */
  lemma {:induction false} UntypedAreVoid(btf: Btf, symbols: seq<L.Symbol>, entries: seq<Entry>, name: string)
    requires TableOf(btf, symbols, entries).Collected?
    requires var table := TableOf(btf, symbols, entries).value; name in table && table[name].typeId.None?
    ensures exists e :: e in entries && DeclaresVoid(btf, e, name)
  {
    hide StringAt, Text, Resolve, SymbolNamed;
    var front, last := entries[..|entries| - 1], entries[|entries| - 1];
    if DescOf(btf, symbols, last).value.0 == name {
      assert last in entries && DeclaresVoid(btf, last, name);
    } else {
      UntypedAreVoid(btf, symbols, front, name);
      var e :| e in front && DeclaresVoid(btf, e, name);
      assert e in entries;
    }
  }

  /** Resolving does not change whether an extern has a type. */
  lemma ResolvingKeepsType(externs: E.Table, kernel: Option<(string, E.ExternDesc) -> Lookup>,
                           kallsyms: seq<E.Line>, name: string)
    requires name in externs
    ensures E.Final(externs, kernel, kallsyms, name).typeId == externs[name].typeId
  {
  }

  /**
   From declaration to patched code: when the externs were collected from the section and resolved,
   patching never meets an unresolvable one, and a call panics only where it names a symbol declared
   as a variable of type void.
   */
  lemma CollectedCanBePatched(s: S.State, symbols: seq<L.Symbol>, externs: E.Table,
                              kernel: Option<(string, E.ExternDesc) -> Lookup>, kallsyms: seq<E.Line>,
                              index: map<nat, L.Symbol>, start: nat, code: seq<Insn>, rels: seq<P.Relocation>, name: string)
    requires SP.WellFormed(s) && KsymsOf(s, symbols).Collected? && KsymsOf(s, symbols).value.1.externs.Some?
    requires E.AllSettled(externs) && externs.Keys == KsymsOf(s, symbols).value.1.table.Keys
    requires forall n :: n in externs ==> externs[n] == E.Final(KsymsOf(s, symbols).value.1.table, kernel, kallsyms, n)
    ensures P.Steps(P.Kernel(index, externs), start, code, rels) != P.Fail(P.UnresolvableSymbol(name))
    ensures P.Steps(P.Kernel(index, externs), start, code, rels) == P.Fail(P.MissingBtfId(name)) ==>
      var (s1, found) := KsymsOf(s, symbols).value;
      exists e :: e in s1.types[found.externs.value.section].entries && DeclaresVoid(View(s1), e, name)
  {
    hide SP.WellFormed, KsymsOf, TableOf, E.AllSettled, E.Final, P.Steps, DeclaresVoid, StringAt;
    CollectingKeepsImage(s, symbols);
    PP.ResolutionSuffices(externs, index, start, code, rels, name);
    if P.Steps(P.Kernel(index, externs), start, code, rels) == P.Fail(P.MissingBtfId(name)) {
      var (s1, found) := KsymsOf(s, symbols).value;
      ResolvingKeepsType(found.table, kernel, kallsyms, name);
      UntypedAreVoid(View(s1), symbols, s1.types[found.externs.value.section].entries, name);
    }
  }
}
