/**
 Linking every program of an object. The pass overwrites the function table while it iterates, so
 a later program is linked against a table that already holds linked programs. When no instruction
 points at a program, other than from that program itself, this makes no difference: every program
 ends up linked against the original table.
 */
module RelocateCalls {
  import opened Instructions
  import opened Linker

  /** A function may point at a program only from inside it. */
  ghost predicate OnlySelfReferences(t: Tables, programs: set<Key>) {
    forall k, pos :: k in t.functions && 0 <= pos < |t.functions[k].instructions| ==>
      PointsOutside(t, k, pos, programs)
  }

  ghost predicate PointsOutside(t: Tables, k: Key, pos: nat, programs: set<Key>)
    requires k in t.functions && pos < |t.functions[k].instructions|
  {
    var site := SiteOf(t, t.functions[k], pos);
    site.Target? && site.key in programs ==> site.key == k
  }

  /** `f` is program `p`, linked against `t`, with nothing in it that `p` does not reach. */
  ghost predicate LinkedAs(t: Tables, p: Key, f: Function)
    requires p in t.functions
  {
    && f == t.functions[p].(instructions := f.instructions, funcInfo := f.funcInfo, lineInfo := f.lineInfo,
                             funcNumInfo := f.funcNumInfo, lineNumInfo := f.lineNumInfo)
    && exists linked: map<Key, nat>, order: seq<Key> ::
         && linked.Keys == Reachable(t, t.functions[p])
         && LinkedImage(t, t.functions[p], linked, order, f.instructions, f.funcInfo, f.lineInfo)
  }

  /** Tables that differ at most in the functions filed under `changed`. */
  ghost predicate SameBut(t: Tables, t': Tables, changed: set<Key>) {
    && t' == t.(functions := t'.functions)
    && t'.functions.Keys == t.functions.Keys
    && forall k :: k in t.functions && k !in changed ==> t'.functions[k] == t.functions[k]
  }

  // ---------- what linking depends on ----------

  lemma {:induction false} TiledSame(t: Tables, t': Tables, linked: map<Key, nat>, order: seq<Key>, base: nat,
                                     size: nat)
    requires Tiled(t, linked, order, base, size)
    requires forall k :: k in linked ==> k in t'.functions && k in t.functions && t'.functions[k] == t.functions[k]
    ensures Tiled(t', linked, order, base, size)
    ensures TotalSize(t', order) == TotalSize(t, order)
    ensures LinkedFuncs(t', base, order) == LinkedFuncs(t, base, order)
    ensures LinkedLines(t', base, order) == LinkedLines(t, base, order)
    decreases |order|
  {
    hide RebasedFuncs, RebasedLines;
    if order != [] {
      var k := order[|order| - 1];
      forall q | q in linked - {k}
        ensures q in t'.functions && q in t.functions && t'.functions[q] == t.functions[q]
      {
        assert q in linked;
      }
      TiledSame(t, t', linked - {k}, order[..|order| - 1], base, linked[k]);
    }
  }

  lemma BlockSame(t: Tables, t': Tables, linked: map<Key, nat>, fun: Function, start: nat, code: seq<Insn>)
    requires t' == t.(functions := t'.functions)
    requires BlockSettled(t, linked, fun, start, code)
    ensures BlockSettled(t', linked, fun, start, code)
  {
    forall pos | 0 <= pos < |fun.instructions|
      ensures SlotSettled(t', linked, fun, start, code, pos)
    {
      assert SlotSettled(t, linked, fun, start, code, pos);
    }
  }

  /** An image depends only on the functions linked into it. */
  lemma ImageSame(t: Tables, t': Tables, main: Function, linked: map<Key, nat>, order: seq<Key>,
                  code: seq<Insn>, funcs: seq<FuncRecord>, lines: seq<LineRecord>)
    requires t' == t.(functions := t'.functions)
    requires LinkedImage(t, main, linked, order, code, funcs, lines)
    requires forall k :: k in linked ==> k in t'.functions && t'.functions[k] == t.functions[k]
    ensures LinkedImage(t', main, linked, order, code, funcs, lines)
  {
    hide Tiled, LinkedFuncs, LinkedLines, BlockSettled;
    TiledSame(t, t', linked, order, |main.instructions|, |code|);
    BlockSame(t, t', linked, main, 0, code);
    forall k | k in linked
      ensures BlockSettled(t', linked, t'.functions[k], linked[k], code)
    {
      BlockSame(t, t', linked, t.functions[k], linked[k], code);
    }
  }

  lemma SitesSame(t: Tables, t': Tables, fun: Function, keys: set<Key>)
    requires t' == t.(functions := t'.functions)
    requires SitesWithin(t, fun, keys)
    ensures SitesWithin(t', fun, keys)
  {
    forall pos | 0 <= pos < |fun.instructions|
      ensures match SiteOf(t', fun, pos)
              case NotText => true
              case Target(k) => k in keys
              case Unsupported => false
    {
      assert SiteOf(t', fun, pos) == SiteOf(t, fun, pos);
    }
  }

  /** A closed set can do without the other programs. */
  lemma ClosedWithoutPrograms(t: Tables, t': Tables, p: Key, keys: set<Key>, programs: set<Key>)
    requires p in t.functions && p in t'.functions && t'.functions[p] == t.functions[p]
    requires SameBut(t, t', programs - {p}) && OnlySelfReferences(t, programs)
    requires CalleesClosed(t', t.functions[p], keys)
    ensures CalleesClosed(t, t.functions[p], keys - (programs - {p}))
  {
    var fewer := keys - (programs - {p});
    SitesAvoid(t, t', p, keys, p, programs);
    forall k | k in fewer
      ensures k in t.functions && t'.functions[k] == t.functions[k]
      ensures SitesWithin(t, t.functions[k], fewer)
    {
      SitesAvoid(t, t', k, keys, p, programs);
    }
  }

  lemma SitesAvoid(t: Tables, t': Tables, k: Key, keys: set<Key>, p: Key, programs: set<Key>)
    requires SameBut(t, t', programs - {p}) && OnlySelfReferences(t, programs)
    requires k in t.functions && (k in programs ==> k == p)
    requires SitesWithin(t', t.functions[k], keys)
    ensures SitesWithin(t, t.functions[k], keys - (programs - {p}))
  {
    var fun := t.functions[k];
    forall pos | 0 <= pos < |fun.instructions|
      ensures match SiteOf(t, fun, pos)
              case NotText => true
              case Target(c) => c in keys - (programs - {p})
              case Unsupported => false
    {
      assert SiteOf(t', fun, pos) == SiteOf(t, fun, pos);
      assert PointsOutside(t, k, pos, programs);
    }
  }

  /** Overwriting other programs changes neither whether `p` links nor what it reaches. */
  lemma OverwritingIsHarmless(t: Tables, t': Tables, p: Key, programs: set<Key>)
    requires p in programs && p in t.functions && p in t'.functions && t'.functions[p] == t.functions[p]
    requires SameBut(t, t', programs - {p}) && OnlySelfReferences(t, programs)
    ensures Linkable(t', t.functions[p]) <==> Linkable(t, t.functions[p])
    ensures Linkable(t, t.functions[p]) ==>
      && Reachable(t', t.functions[p]) == Reachable(t, t.functions[p])
      && Reachable(t, t.functions[p]) !! programs - {p}
  {
    var main := t.functions[p];
    if Linkable(t', main) {
      ReachableClosed(t', main);
      ClosedWithoutPrograms(t, t', p, Reachable(t', main), programs);
    }
    if Linkable(t, main) {
      ReachableClosed(t, main);
      ClosedWithoutPrograms(t, t, p, Reachable(t, main), programs);
      ReachableIsLeast(t, main, Reachable(t, main) - (programs - {p}));
      ClosedSame(t, t', main, Reachable(t, main));
      ReachableIsLeast(t', main, Reachable(t, main));
      ReachableClosed(t', main);
      ClosedSame(t', t, main, Reachable(t', main));
      ReachableIsLeast(t, main, Reachable(t', main));
    }
  }

  lemma ReachableIsLeast(t: Tables, main: Function, keys: set<Key>)
    requires CalleesClosed(t, main, keys)
    ensures Reachable(t, main) <= keys
  {
  }

  lemma ClosedSame(t: Tables, t': Tables, main: Function, keys: set<Key>)
    requires t' == t.(functions := t'.functions)
    requires CalleesClosed(t, main, keys)
    requires forall k :: k in keys ==> k in t'.functions && t'.functions[k] == t.functions[k]
    ensures CalleesClosed(t', main, keys)
  {
    hide SitesWithin;
    SitesSame(t, t', main, keys);
    forall k | k in keys
      ensures SitesWithin(t', t'.functions[k], keys)
    {
      SitesSame(t, t', t.functions[k], keys);
    }
  }

  /** What linking against the overwritten table gives is what the original table would have given. */
  lemma LinkedAsOriginal(t: Tables, t': Tables, p: Key, programs: set<Key>, linked: map<Key, nat>, order: seq<Key>,
                         f: Function)
    requires p in programs && p in t.functions && p in t'.functions && t'.functions[p] == t.functions[p]
    requires SameBut(t, t', programs - {p}) && OnlySelfReferences(t, programs)
    requires Linkable(t', t.functions[p]) && linked.Keys == Reachable(t', t.functions[p])
    requires LinkedImage(t', t.functions[p], linked, order, f.instructions, f.funcInfo, f.lineInfo)
    requires f == t.functions[p].(instructions := f.instructions, funcInfo := f.funcInfo, lineInfo := f.lineInfo,
                             funcNumInfo := f.funcNumInfo, lineNumInfo := f.lineNumInfo)
    ensures Linkable(t, t.functions[p]) && LinkedAs(t, p, f)
  {
    hide Tiled, LinkedFuncs, LinkedLines, BlockSettled;
    OverwritingIsHarmless(t, t', p, programs);
    forall k | k in linked
      ensures k in t.functions && t.functions[k] == t'.functions[k]
    {
      assert k in Reachable(t, t.functions[p]);
    }
    ImageSame(t', t, t.functions[p], linked, order, f.instructions, f.funcInfo, f.lineInfo);
  }

  // ---------- the pass ----------

  datatype PassError = UnknownProgram(key: Key) | Linking(error: LinkError)
  datatype Outcome = Done | Failed(error: PassError)

  ghost predicate Independent(t: Tables, programs: seq<Key>) {
    && (forall i, j :: 0 <= i < j < |programs| ==> programs[i] != programs[j])
    && OnlySelfReferences(t, set p | p in programs)
  }

  ghost predicate AllLinkable(t: Tables, programs: seq<Key>) {
    forall p :: p in programs ==> p in t.functions && Linkable(t, t.functions[p])
  }

  /** Every program of `t'` is that program of `t`, linked against `t`. */
  ghost predicate AllLinkedAs(t: Tables, programs: seq<Key>, t': Tables) {
    forall p :: p in programs ==> p in t.functions && p in t'.functions && LinkedAs(t, p, t'.functions[p])
  }

  /** The state of the pass after the first `i` programs. */
  ghost predicate Progress(t: Tables, t': Tables, programs: seq<Key>, i: nat)
    requires i <= |programs|
  {
    && SameBut(t, t', set p | p in programs[..i])
    && AllLinkable(t, programs[..i])
    && AllLinkedAs(t, programs[..i], t')
  }

  lemma ProgressStart(t: Tables, programs: seq<Key>)
    ensures Progress(t, t, programs, 0)
  {
  }

  /** The next program is still as it was, and only other programs were changed. */
  lemma NextUntouched(t: Tables, t': Tables, programs: seq<Key>, i: nat)
    requires Independent(t, programs) && i < |programs| && Progress(t, t', programs, i)
    ensures t'.functions.Keys == t.functions.Keys
    ensures programs[i] in t.functions ==> t'.functions[programs[i]] == t.functions[programs[i]]
    ensures SameBut(t, t', (set p | p in programs) - {programs[i]})
  {
  }

  lemma ProgressStep(t: Tables, t': Tables, programs: seq<Key>, i: nat, f: Function)
    requires Independent(t, programs) && i < |programs| && Progress(t, t', programs, i)
    requires programs[i] in t.functions && Linkable(t, t.functions[programs[i]]) && LinkedAs(t, programs[i], f)
    ensures Progress(t, t'.(functions := t'.functions[programs[i] := f]), programs, i + 1)
  {
    hide OnlySelfReferences, Linkable, LinkedAs;
    assert programs[..i + 1] == programs[..i] + [programs[i]];
    assert programs[i] !in programs[..i];
  }

  /** One program is linked against the table and overwrites itself there. */
  ghost predicate LinksNext(t: Tables, p: Key, t': Tables) {
    && p in t.functions && Linkable(t, t.functions[p])
    && p in t'.functions && LinkedAs(t, p, t'.functions[p])
    && t' == t.(functions := t.functions[p := t'.functions[p]])
  }

  /** The programs are linked one after the other, each against the table the one before it left. */
  ghost predicate PassTo(t: Tables, programs: seq<Key>, t': Tables)
    decreases |programs|
  {
    if programs == [] then t' == t
    else
      var last := |programs| - 1;
      exists mid :: PassTo(t, programs[..last], mid) && LinksNext(mid, programs[last], t')
  }

  /** The pass comes to program `i`, which is unknown or cannot be linked against the table left there. */
  ghost predicate FailsAt(t: Tables, programs: seq<Key>, i: nat, mid: Tables) {
    && i < |programs| && PassTo(t, programs[..i], mid)
    && (programs[i] !in mid.functions || !Linkable(mid, mid.functions[programs[i]]))
  }

  lemma NothingPassed(t: Tables, programs: seq<Key>)
    ensures PassTo(t, programs[..0], t)
  {
  }

  lemma IsLinkedAs(t: Tables, p: Key, linked: map<Key, nat>, order: seq<Key>, f: Function)
    requires p in t.functions && linked.Keys == Reachable(t, t.functions[p])
    requires LinkedImage(t, t.functions[p], linked, order, f.instructions, f.funcInfo, f.lineInfo)
    requires f == t.functions[p].(instructions := f.instructions, funcInfo := f.funcInfo, lineInfo := f.lineInfo,
                                  funcNumInfo := f.funcNumInfo, lineNumInfo := f.lineNumInfo)
    ensures LinkedAs(t, p, f)
  {
  }

  lemma PassFurther(t: Tables, programs: seq<Key>, i: nat, mid: Tables, t': Tables)
    requires i < |programs| && PassTo(t, programs[..i], mid) && LinksNext(mid, programs[i], t')
    ensures PassTo(t, programs[..i + 1], t')
  {
    hide LinksNext;
    assert programs[..i + 1][..i] == programs[..i];
  }

  /** The part of an object file the pass works on. */
  class Object {
    var tables: Tables

    constructor (tables: Tables)
      ensures this.tables == tables
    {
      this.tables := tables;
    }

    /**
     Links every program in place, in the given order. When programs are distinct functions and
     nothing else points at them, it succeeds exactly when every program exists and links against
     the original table, and then each one is what linking against the original table gives,
     whatever the order. In any case each is linked against the table the ones before it left.
     */
    method RelocateCalls(programs: seq<Key>) returns (r: Outcome)
      requires tables.Valid()
      modifies this
      ensures tables.Valid()
      ensures Independent(old(tables), programs) ==>
        (r.Done? <==> AllLinkable(old(tables), programs))
      ensures Independent(old(tables), programs) && r.Done? ==>
        && SameBut(old(tables), tables, set p | p in programs)
        && AllLinkedAs(old(tables), programs, tables)
      ensures r.Done? ==> PassTo(old(tables), programs, tables)
      ensures r.Failed? ==> exists i: nat, mid :: FailsAt(old(tables), programs, i, mid)
    {
      hide PassTo, LinkedAs, LinkedImage, Linkable, Reachable, OnlySelfReferences, Progress, SameBut, AllLinkedAs;
      ghost var all := set p | p in programs;
      ghost var independent := Independent(tables, programs);
      ProgressStart(tables, programs);
      NothingPassed(tables, programs);
      for i := 0 to |programs|
        invariant tables.Valid()
        invariant independent ==> Progress(old(tables), tables, programs, i)
        invariant PassTo(old(tables), programs[..i], tables)
      {
        var p := programs[i];
        assert p in programs;
        if independent {
          NextUntouched(old(tables), tables, programs, i);
        }
        if p !in tables.functions {
          assert FailsAt(old(tables), programs, i, tables);
          return Failed(UnknownProgram(p));
        }
        var main := tables.functions[p];
        if independent {
          OverwritingIsHarmless(old(tables), tables, p, all);
        }
        var linker := new FunctionLinker(tables);
        var done := linker.Link(main);
        if done.Failure? {
          assert FailsAt(old(tables), programs, i, tables);
          return Failed(Linking(done.error));
        }
        var linkedMain := main.(instructions := done.value.instructions, funcInfo := done.value.funcInfo,
                                lineInfo := done.value.lineInfo, funcNumInfo := done.value.funcNumInfo,
                                lineNumInfo := done.value.lineNumInfo);
        if independent {
          LinkedAsOriginal(old(tables), tables, p, all, linker.linkedFunctions, linker.order, linkedMain);
          ProgressStep(old(tables), tables, programs, i, linkedMain);
        }
        ghost var before := tables;
        tables := tables.(functions := tables.functions[p := linkedMain]);
        IsLinkedAs(before, p, linker.linkedFunctions, linker.order, linkedMain);
        PassFurther(old(tables), programs, i, before, tables);
      }
      assert programs[..|programs|] == programs;
      if independent {
        ProgressEnd(old(tables), tables, programs);
      }
      r := Done;
    }
  }

  lemma ProgressEnd(t: Tables, t': Tables, programs: seq<Key>)
    requires Progress(t, t', programs, |programs|)
    ensures SameBut(t, t', set p | p in programs) && AllLinkable(t, programs) && AllLinkedAs(t, programs, t')
  {
  }
}
