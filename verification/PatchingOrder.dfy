/**
 Exactly when the order of the relocations shows in a patched body. A relocation owns its slot, and a
 two-slot one also sets the immediate of the next slot; only where that next slot has a relocation of
 its own can the order matter, and whether it does is decided by the immediates.
 */
module PatchingOrder {
  import opened Instructions
  import opened Patching
  import opened PatchingProperties
  import E = Externs

  // ---------- clashes ----------

  /** The relocations of one section have different offsets: they are filed by offset. */
  ghost predicate Distinct(rels: seq<Relocation>) {
    forall a, b :: 0 <= a < b < |rels| ==> rels[a].offset != rels[b].offset
  }

  /** Another order of the same relocations. */
  ghost predicate Reordered(rels: seq<Relocation>, others: seq<Relocation>) {
    Distinct(others) && forall r :: r in rels <==> r in others
  }

  /**
   `r` sets the immediate of the slot `q` sits on. They clash when `q` sets it to something else, or
   when `q` is a map reference that adds the immediate it finds to its own.
   */
  predicate Clash(pass: Pass, start: nat, code: seq<Insn>, r: Relocation, q: Relocation) {
    var first, second := OriginalEdit(pass, start, code, r), OriginalEdit(pass, start, code, q);
    && Overlaps(pass, start, code, r, q) && second.Write?
    && (second.ins.imm != first.nextImm.value
        || (pass.Maps? && second.nextImm.Some? && first.nextImm.value != code[SlotIndex(start, q)].imm))
  }

  ghost predicate NoClash(pass: Pass, start: nat, code: seq<Insn>, rels: seq<Relocation>) {
    forall r, q :: r in rels && q in rels ==> !Clash(pass, start, code, r, q)
  }

  // ---------- what an immediate can change ----------

  /** The immediate that is found changes nothing but the second immediate of a map reference with data. */
  lemma EditModuloImm(pass: Pass, rel: Relocation, ins: Insn, imm: I32)
    ensures
      var was, now := EditOf(pass, rel, ins), EditOf(pass, rel, ins.(imm := imm));
      && (was.Write? <==> now.Write?) && (was.Skip? <==> now.Skip?) && (was.Reject? ==> now == was)
      && (was.Write? ==>
            && now.ins == was.ins && (now.nextImm.Some? <==> was.nextImm.Some?)
            && (pass.Kernel? ==> now == was)
            && (pass.Maps? && was.nextImm.Some? ==> (now == was <==> imm == ins.imm)))
  {
    ImmIrrelevant(ins, imm);
    hide IsCall;
  }

  // ---------- slots, up to their immediates ----------

  predicate WritesOwn(pass: Pass, start: nat, code: seq<Insn>, rel: Relocation, i: nat) {
    OriginalEdit(pass, start, code, rel).Write? && rel.offset == start + i * INS_SIZE
  }

  /** A slot is what its own relocation makes of it, or what it was, but for the immediate. */
  ghost predicate UpToImm(pass: Pass, start: nat, code: seq<Insn>, rels: seq<Relocation>, i: nat, now: Insn)
    requires i < |code|
  {
    && (forall r :: r in rels && WritesOwn(pass, start, code, r, i) ==>
          now == OriginalEdit(pass, start, code, r).ins.(imm := now.imm))
    && ((forall r :: r in rels ==> !WritesOwn(pass, start, code, r, i)) ==> now == code[i].(imm := now.imm))
  }

  ghost predicate AllUpToImm(pass: Pass, start: nat, code: seq<Insn>, rels: seq<Relocation>, now: seq<Insn>) {
    |now| == |code| && forall i :: 0 <= i < |code| ==> UpToImm(pass, start, code, rels, i, now[i])
  }

  lemma DistinctFront(rels: seq<Relocation>, rel: Relocation)
    requires Distinct(rels + [rel])
    ensures Distinct(rels) && forall r :: r in rels ==> r.offset != rel.offset
  {
    var all := rels + [rel];
    assert forall k :: 0 <= k < |rels| ==> all[k] == rels[k];
    assert all[|rels|] == rel;
  }

  /** A relocation that finds its slot up to the immediate succeeds as it would alone, and writes the same there. */
  lemma SameButNext(pass: Pass, start: nat, code: seq<Insn>, rels: seq<Relocation>, rel: Relocation, sofar: seq<Insn>)
    requires Distinct(rels + [rel]) && AllUpToImm(pass, start, code, rels, sofar)
    requires Covers(start, |code|, rel) && Aligned(start, rel)
    ensures
      var was, now := OriginalEdit(pass, start, code, rel), EditOf(pass, rel, sofar[SlotIndex(start, rel)]);
      && (was.Write? <==> now.Write?) && (was.Skip? <==> now.Skip?) && (was.Reject? ==> now == was)
      && (was.Write? ==> now.ins == was.ins && (now.nextImm.Some? <==> was.nextImm.Some?))
  {
    hide EditOf;
    DistinctFront(rels, rel);
    var at := SlotIndex(start, rel);
    assert rel.offset == start + at * INS_SIZE;
    assert UpToImm(pass, start, code, rels, at, sofar[at]);
    assert forall r :: r in rels ==> !WritesOwn(pass, start, code, r, at);
    EditModuloImm(pass, rel, code[at], sofar[at].imm);
  }

  lemma StepSucceeds(pass: Pass, start: nat, code: seq<Insn>, rels: seq<Relocation>, rel: Relocation, sofar: seq<Insn>)
    requires Distinct(rels + [rel]) && AllUpToImm(pass, start, code, rels, sofar)
    ensures Step(pass, start, sofar, rel).Done? <==> Step(pass, start, code, rel).Done?
    ensures Step(pass, start, sofar, rel).Fail? ==> Step(pass, start, sofar, rel) == Step(pass, start, code, rel)
    ensures Step(pass, start, sofar, rel).Done? ==>
      AllUpToImm(pass, start, code, rels + [rel], Step(pass, start, sofar, rel).value)
  {
    hide EditOf, UpToImm;
    DistinctFront(rels, rel);
    if Covers(start, |code|, rel) && Aligned(start, rel) {
      SameButNext(pass, start, code, rels, rel, sofar);
    }
    if Step(pass, start, sofar, rel).Done? {
      var now := Step(pass, start, sofar, rel).value;
      forall i | 0 <= i < |code|
        ensures UpToImm(pass, start, code, rels + [rel], i, now[i])
      {
        assert UpToImm(pass, start, code, rels, i, sofar[i]);
        if WritesOwn(pass, start, code, rel, i) {
          OwnUpToImm(pass, start, code, rels, rel, i);
        } else {
          StaysUpToImm(pass, start, code, rels, rel, i, sofar[i], now[i].imm);
        }
      }
    }
  }

  lemma OwnUpToImm(pass: Pass, start: nat, code: seq<Insn>, rels: seq<Relocation>, rel: Relocation, i: nat)
    requires i < |code| && WritesOwn(pass, start, code, rel, i) && forall r :: r in rels ==> r.offset != rel.offset
    ensures UpToImm(pass, start, code, rels + [rel], i, OriginalEdit(pass, start, code, rel).ins)
  {
    hide OriginalEdit;
    assert forall r :: r in rels + [rel] <==> r in rels || r == rel;
  }

  lemma StaysUpToImm(pass: Pass, start: nat, code: seq<Insn>, rels: seq<Relocation>, rel: Relocation, i: nat, now: Insn,
                     imm: I32)
    requires i < |code| && UpToImm(pass, start, code, rels, i, now) && !WritesOwn(pass, start, code, rel, i)
    ensures UpToImm(pass, start, code, rels + [rel], i, now.(imm := imm))
  {
    hide OriginalEdit;
    assert forall r :: r in rels + [rel] <==> r in rels || r == rel;
  }

  /**
   A pass succeeds exactly when each relocation would succeed alone on the original code, and then
   every slot is its own relocation's work, or what it was, up to the immediate.
   */
  lemma {:induction false} SuccessExact(pass: Pass, start: nat, code: seq<Insn>, rels: seq<Relocation>)
    requires Distinct(rels)
    ensures Steps(pass, start, code, rels).Done? <==> forall r :: r in rels ==> Step(pass, start, code, r).Done?
    ensures Steps(pass, start, code, rels).Done? ==>
      AllUpToImm(pass, start, code, rels, Steps(pass, start, code, rels).value)
  {
    hide Step, AllUpToImm, Distinct;
    if rels == [] {
      NothingDone(pass, start, code);
    } else {
      var front, rel := rels[..|rels| - 1], rels[|rels| - 1];
      assert rels == front + [rel];
      DistinctFront(front, rel);
      SuccessExact(pass, start, code, front);
      assert forall r :: r in rels <==> r in front || r == rel;
      match Steps(pass, start, code, front)
      case Fail(_) =>
      case Done(sofar) => StepSucceeds(pass, start, code, front, rel, sofar);
    }
  }

  lemma NothingDone(pass: Pass, start: nat, code: seq<Insn>)
    ensures AllUpToImm(pass, start, code, [], code)
  {
  }

  /** The relocation fails alone on the original code, and none before it does. */
  ghost predicate FirstToFail(pass: Pass, start: nat, code: seq<Insn>, rels: seq<Relocation>, k: nat, error: PatchError) {
    && k < |rels| && Step(pass, start, code, rels[k]) == Fail(error)
    && forall j :: 0 <= j < k ==> Step(pass, start, code, rels[j]).Done?
  }

  /** A pass fails with the error of the first relocation that would fail alone. */
  lemma {:induction false} FailureExact(pass: Pass, start: nat, code: seq<Insn>, rels: seq<Relocation>, error: PatchError)
    requires Distinct(rels)
    ensures Steps(pass, start, code, rels) == Fail(error) <==> exists k: nat :: FirstToFail(pass, start, code, rels, k, error)
  {
    hide Step, AllUpToImm, Distinct;
    if rels != [] {
      var front, rel := rels[..|rels| - 1], rels[|rels| - 1];
      assert rels == front + [rel];
      DistinctFront(front, rel);
      SuccessExact(pass, start, code, front);
      FailureExact(pass, start, code, front, error);
      FailsInFront(pass, start, code, front, rel, error);
      match Steps(pass, start, code, front)
      case Fail(e) => FailureExact(pass, start, code, front, e);
      case Done(sofar) => StepSucceeds(pass, start, code, front, rel, sofar);
    }
  }

  /** The first to fail is in the front, or it is the last one and the front is fine. */
  lemma FailsInFront(pass: Pass, start: nat, code: seq<Insn>, front: seq<Relocation>, rel: Relocation, error: PatchError)
    ensures (exists k: nat :: FirstToFail(pass, start, code, front + [rel], k, error)) <==>
      || (exists k: nat :: FirstToFail(pass, start, code, front, k, error))
      || ((forall r :: r in front ==> Step(pass, start, code, r).Done?) && Step(pass, start, code, rel) == Fail(error))
  {
    hide Step;
    var all := front + [rel];
    assert forall j :: 0 <= j < |front| ==> all[j] == front[j];
    forall k: nat
      ensures FirstToFail(pass, start, code, all, k, error) <==>
        || FirstToFail(pass, start, code, front, k, error)
        || (k == |front| && (forall r :: r in front ==> Step(pass, start, code, r).Done?)
            && Step(pass, start, code, rel) == Fail(error))
    {
    }
    if (forall r :: r in front ==> Step(pass, start, code, r).Done?) && Step(pass, start, code, rel) == Fail(error) {
      assert FirstToFail(pass, start, code, all, |front|, error);
    }
  }

  /**
   After externs are resolved, a pass panics on a missing BTF id exactly when the first relocation that
   would fail alone calls an extern without a type.
   */
  lemma MissingBtfIdExact(externs: E.Table, symbols: map<nat, Symbol>, start: nat, code: seq<Insn>,
                          rels: seq<Relocation>, name: string)
    requires Distinct(rels) && E.AllSettled(externs)
    ensures Steps(Kernel(symbols, externs), start, code, rels) == Fail(MissingBtfId(name)) <==>
      exists k: nat ::
        && k < |rels| && CallsUntyped(externs, symbols, start, code, rels[k], name)
        && forall j :: 0 <= j < k ==> Step(Kernel(symbols, externs), start, code, rels[j]).Done?
  {
    hide Step, Steps, Distinct, E.AllSettled, CallsUntyped;
    FailureExact(Kernel(symbols, externs), start, code, rels, MissingBtfId(name));
    forall k: nat | k < |rels|
      ensures Step(Kernel(symbols, externs), start, code, rels[k]) == Fail(MissingBtfId(name)) <==>
        CallsUntyped(externs, symbols, start, code, rels[k], name)
    {
      SettledStep(externs, symbols, start, code, rels[k], name);
    }
    if k: nat :| FirstToFail(Kernel(symbols, externs), start, code, rels, k, MissingBtfId(name)) {
      assert CallsUntyped(externs, symbols, start, code, rels[k], name);
    }
    if k: nat :|
        && k < |rels| && CallsUntyped(externs, symbols, start, code, rels[k], name)
        && forall j :: 0 <= j < k ==> Step(Kernel(symbols, externs), start, code, rels[j]).Done? {
      assert FirstToFail(Kernel(symbols, externs), start, code, rels, k, MissingBtfId(name));
    }
  }

  // ---------- without a clash ----------

  predicate WritesNext(pass: Pass, start: nat, code: seq<Insn>, rel: Relocation, i: nat) {
    var edit := OriginalEdit(pass, start, code, rel);
    edit.Write? && edit.nextImm.Some? && rel.offset + INS_SIZE == start + i * INS_SIZE
  }

  /** What becomes of a slot, with no mention of an order. */
  ghost predicate Settled(pass: Pass, start: nat, code: seq<Insn>, rels: seq<Relocation>, i: nat, now: Insn)
    requires i < |code|
  {
    && (forall r :: r in rels && WritesOwn(pass, start, code, r, i) ==> now == OriginalEdit(pass, start, code, r).ins)
    && (forall r :: r in rels && WritesNext(pass, start, code, r, i) ==>
          now.imm == OriginalEdit(pass, start, code, r).nextImm.value)
    && ((forall r :: r in rels ==> !WritesOwn(pass, start, code, r, i)) ==> now == code[i].(imm := now.imm))
    && ((forall r :: r in rels ==> !WritesOwn(pass, start, code, r, i) && !WritesNext(pass, start, code, r, i)) ==>
          now == code[i])
  }

  lemma SettledOnce(pass: Pass, start: nat, code: seq<Insn>, rels: seq<Relocation>, others: seq<Relocation>, i: nat,
                    now: Insn, also: Insn)
    requires forall r :: r in rels <==> r in others
    requires i < |code| && Settled(pass, start, code, rels, i, now) && Settled(pass, start, code, others, i, also)
    ensures now == also
  {
    hide WritesOwn, WritesNext;
  }

  ghost predicate AllSettled(pass: Pass, start: nat, code: seq<Insn>, rels: seq<Relocation>, now: seq<Insn>) {
    |now| == |code| && forall i :: 0 <= i < |code| ==> Settled(pass, start, code, rels, i, now[i])
  }

  /** A slot that one more relocation does not write stays settled. */
  lemma StaysSettled(pass: Pass, start: nat, code: seq<Insn>, rels: seq<Relocation>, rel: Relocation, i: nat, now: Insn)
    requires i < |code| && Settled(pass, start, code, rels, i, now)
    requires !WritesOwn(pass, start, code, rel, i) && !WritesNext(pass, start, code, rel, i)
    ensures Settled(pass, start, code, rels + [rel], i, now)
  {
    hide WritesOwn, WritesNext;
    assert forall r :: r in rels + [rel] <==> r in rels || r == rel;
  }

  /** The relocation of a slot settles it, whatever its predecessor has set. */
  lemma OwnSettles(pass: Pass, start: nat, code: seq<Insn>, rels: seq<Relocation>, rel: Relocation, i: nat, sofar: Insn)
    requires NoClash(pass, start, code, rels + [rel]) && forall r :: r in rels ==> r.offset != rel.offset
    requires i < |code| && Settled(pass, start, code, rels, i, sofar) && WritesOwn(pass, start, code, rel, i)
    ensures Settled(pass, start, code, rels + [rel], i, OriginalEdit(pass, start, code, rel).ins)
  {
    hide OriginalEdit;
    assert forall r :: r in rels + [rel] <==> r in rels || r == rel;
    forall r | r in rels && WritesNext(pass, start, code, r, i)
      ensures OriginalEdit(pass, start, code, rel).ins.imm == OriginalEdit(pass, start, code, r).nextImm.value
    {
      assert !Clash(pass, start, code, r, rel);
    }
  }

  /** A relocation that finds its slot settled makes the edit it would make to the original code. */
  lemma SameEdit(pass: Pass, start: nat, code: seq<Insn>, rels: seq<Relocation>, rel: Relocation, sofar: Insn)
    requires NoClash(pass, start, code, rels + [rel]) && forall r :: r in rels ==> r.offset != rel.offset
    requires Covers(start, |code|, rel) && Aligned(start, rel)
    requires Settled(pass, start, code, rels, SlotIndex(start, rel), sofar)
    ensures EditOf(pass, rel, sofar).Write? <==> OriginalEdit(pass, start, code, rel).Write?
    ensures EditOf(pass, rel, sofar).Write? ==> EditOf(pass, rel, sofar) == OriginalEdit(pass, start, code, rel)
  {
    hide EditOf;
    var at := SlotIndex(start, rel);
    assert rel.offset == start + at * INS_SIZE;
    assert forall r :: r in rels + [rel] <==> r in rels || r == rel;
    assert forall r :: r in rels ==> !WritesOwn(pass, start, code, r, at);
    EditModuloImm(pass, rel, code[at], sofar.imm);
    if r :| r in rels && WritesNext(pass, start, code, r, at) {
      assert !Clash(pass, start, code, r, rel);
    }
  }

  /** The second half of a load settles the next slot, whether or not that has been patched itself. */
  lemma NextSettles(pass: Pass, start: nat, code: seq<Insn>, rels: seq<Relocation>, rel: Relocation, i: nat, sofar: Insn)
    requires NoClash(pass, start, code, rels + [rel]) && forall r :: r in rels ==> r.offset != rel.offset
    requires i < |code| && Settled(pass, start, code, rels, i, sofar) && WritesNext(pass, start, code, rel, i)
    ensures Settled(pass, start, code, rels + [rel], i, sofar.(imm := OriginalEdit(pass, start, code, rel).nextImm.value))
  {
    hide OriginalEdit;
    assert forall r :: r in rels + [rel] <==> r in rels || r == rel;
    var now := sofar.(imm := OriginalEdit(pass, start, code, rel).nextImm.value);
    forall r | r in rels && WritesOwn(pass, start, code, r, i)
      ensures now == OriginalEdit(pass, start, code, r).ins
    {
      assert !Clash(pass, start, code, rel, r);
    }
    assert (forall r :: r in rels + [rel] ==> !WritesOwn(pass, start, code, r, i)) ==>
      forall r :: r in rels ==> !WritesOwn(pass, start, code, r, i);
  }

  lemma StepSettles(pass: Pass, start: nat, code: seq<Insn>, rels: seq<Relocation>, rel: Relocation, sofar: seq<Insn>)
    requires NoClash(pass, start, code, rels + [rel]) && forall r :: r in rels ==> r.offset != rel.offset
    requires AllSettled(pass, start, code, rels, sofar) && Step(pass, start, sofar, rel).Done?
    ensures AllSettled(pass, start, code, rels + [rel], Step(pass, start, sofar, rel).value)
  {
    hide EditOf, NoClash, Settled;
    var now := Step(pass, start, sofar, rel).value;
    var edit := OriginalEdit(pass, start, code, rel);
    if Covers(start, |code|, rel) && Aligned(start, rel) {
      SameEdit(pass, start, code, rels, rel, sofar[SlotIndex(start, rel)]);
    }
    forall i | 0 <= i < |code|
      ensures Settled(pass, start, code, rels + [rel], i, now[i])
    {
      if WritesOwn(pass, start, code, rel, i) {
        OwnSettles(pass, start, code, rels, rel, i, sofar[i]);
      } else if WritesNext(pass, start, code, rel, i) {
        NextSettles(pass, start, code, rels, rel, i, sofar[i]);
      } else {
        StaysSettled(pass, start, code, rels, rel, i, sofar[i]);
      }
    }
  }

  /** Without a clash the result is given slot by slot, with no mention of an order. */
  lemma {:induction false} ClosedForm(pass: Pass, start: nat, code: seq<Insn>, rels: seq<Relocation>)
    requires Distinct(rels) && NoClash(pass, start, code, rels) && Steps(pass, start, code, rels).Done?
    ensures AllSettled(pass, start, code, rels, Steps(pass, start, code, rels).value)
  {
    hide Step, AllSettled, Clash, Distinct;
    if rels == [] {
      NothingSettled(pass, start, code);
    } else {
      var front, rel := rels[..|rels| - 1], rels[|rels| - 1];
      assert rels == front + [rel];
      DistinctFront(front, rel);
      assert forall r :: r in front ==> r in rels;
      ClosedForm(pass, start, code, front);
      StepSettles(pass, start, code, front, rel, Steps(pass, start, code, front).value);
    }
  }

  lemma NothingSettled(pass: Pass, start: nat, code: seq<Insn>)
    ensures AllSettled(pass, start, code, [], code)
  {
  }

  // ---------- with a clash ----------

  lemma {:induction false} StepsJoin(pass: Pass, start: nat, code: seq<Insn>, a: seq<Relocation>, b: seq<Relocation>)
    requires Steps(pass, start, code, a).Done?
    ensures Steps(pass, start, code, a + b) == Steps(pass, start, Steps(pass, start, code, a).value, b)
    decreases |b|
  {
    hide Step;
    if b == [] {
      assert a + b == a;
    } else {
      var front, last := b[..|b| - 1], b[|b| - 1];
      assert (a + b)[..|a + b| - 1] == a + front && (a + b)[|a + b| - 1] == last;
      StepsJoin(pass, start, code, a, front);
    }
  }

  /** Relocations on other slots leave a slot alone. */
  lemma {:induction false} SlotLeftAlone(pass: Pass, start: nat, code: seq<Insn>, rels: seq<Relocation>, i: nat)
    requires i < |code| && Steps(pass, start, code, rels).Done?
    requires forall r :: r in rels ==> r.offset != start + i * INS_SIZE && r.offset + INS_SIZE != start + i * INS_SIZE
    ensures Steps(pass, start, code, rels).value[i] == code[i]
  {
    hide EditOf;
    if rels != [] {
      var front, rel := rels[..|rels| - 1], rels[|rels| - 1];
      assert rels == front + [rel];
      SlotLeftAlone(pass, start, code, front, i);
      assert rel in rels;
    }
  }

  /** The relocations that are not among these. */
  function Except(rels: seq<Relocation>, dropped: set<Relocation>): (kept: seq<Relocation>)
    ensures forall r :: r in kept <==> r in rels && r !in dropped
  {
    if rels == [] then []
    else
      var front, last := rels[..|rels| - 1], rels[|rels| - 1];
      assert rels == front + [last];
      if last in dropped then Except(front, dropped) else Except(front, dropped) + [last]
  }

  lemma {:induction false} ExceptDistinct(rels: seq<Relocation>, dropped: set<Relocation>)
    requires Distinct(rels)
    ensures Distinct(Except(rels, dropped))
  {
    hide Distinct;
    if rels == [] {
      assert Distinct([]) by { NoneDistinct(); }
    } else {
      var front, last := rels[..|rels| - 1], rels[|rels| - 1];
      assert rels == front + [last];
      DistinctFront(front, last);
      ExceptDistinct(front, dropped);
      DistinctMore(Except(front, dropped), last);
    }
  }

  lemma NoneDistinct()
    ensures Distinct([])
  {
  }

  lemma DistinctMore(rels: seq<Relocation>, rel: Relocation)
    requires Distinct(rels) && forall r :: r in rels ==> r.offset != rel.offset
    ensures Distinct(rels + [rel])
  {
  }

  lemma DistinctJoin(a: seq<Relocation>, b: seq<Relocation>)
    requires Distinct(a) && Distinct(b) && forall x, y :: x in a && y in b ==> x.offset != y.offset
    ensures Distinct(a + b)
  {
  }

  lemma OnePerOffset(rels: seq<Relocation>, x: Relocation, y: Relocation)
    requires Distinct(rels) && x in rels && y in rels && x.offset == y.offset
    ensures x == y
  {
    var a :| 0 <= a < |rels| && rels[a] == x;
    var b :| 0 <= b < |rels| && rels[b] == y;
    assert a == b;
  }

  /** Two relocations that clash give different code in their two orders, in the slot of the second or after it. */
  lemma ClashAtOnce(pass: Pass, start: nat, code: seq<Insn>, r: Relocation, q: Relocation) returns (i: nat)
    requires Clash(pass, start, code, r, q)
    requires Step(pass, start, code, r).Done? && Step(pass, start, code, q).Done?
    ensures Steps(pass, start, code, [r, q]).Done? && Steps(pass, start, code, [q, r]).Done?
    ensures i < |code| && Steps(pass, start, code, [r, q]).value[i] != Steps(pass, start, code, [q, r]).value[i]
    ensures start + i * INS_SIZE == q.offset || start + i * INS_SIZE == q.offset + INS_SIZE
  {
    hide EditOf, Steps;
    TwoSteps(pass, start, code, r, q);
    TwoSteps(pass, start, code, q, r);
    var first, second := OriginalEdit(pass, start, code, r), OriginalEdit(pass, start, code, q);
    var at := SlotIndex(start, q);
    assert SlotIndex(start, r) + 1 == at;
    EditModuloImm(pass, q, code[at], first.nextImm.value);
    i := if second.ins.imm != first.nextImm.value then at else at + 1;
  }

  /** Patching the slot after `q` first disturbs neither `r` nor `q`. */
  lemma NextFirst(pass: Pass, start: nat, code: seq<Insn>, next: seq<Relocation>, r: Relocation, q: Relocation)
    requires Clash(pass, start, code, r, q)
    requires Step(pass, start, code, r).Done? && Step(pass, start, code, q).Done?
    requires |next| <= 1 && forall s :: s in next ==> s.offset == q.offset + INS_SIZE && Step(pass, start, code, s).Done?
    ensures Steps(pass, start, code, next).Done?
    ensures
      var base := Steps(pass, start, code, next).value;
      Clash(pass, start, base, r, q) && Step(pass, start, base, r).Done? && Step(pass, start, base, q).Done?
  {
    hide EditOf, Steps;
    assert Steps(pass, start, code, next).Done? by {
      assert Distinct(next);
      SuccessExact(pass, start, code, next);
    }
    var base := Steps(pass, start, code, next).value;
    var at := SlotIndex(start, q);
    assert SlotIndex(start, r) + 1 == at;
    SlotLeftAlone(pass, start, code, next, at);
    SlotLeftAlone(pass, start, code, next, at - 1);
  }

  lemma Arranged(rels: seq<Relocation>, next: seq<Relocation>, x: Relocation, y: Relocation, rest: seq<Relocation>)
    requires Distinct(rels) && x in rels && y in rels && x.offset != y.offset
    requires |next| <= 1 && forall s :: s in next ==> s in rels && s.offset != x.offset && s.offset != y.offset
    requires Distinct(rest) && forall d :: d in rest <==> d in rels && d != x && d != y && d !in next
    ensures Reordered(rels, next + [x, y] + rest)
  {
    hide Distinct;
    var head := next + [x, y];
    assert Distinct(head) by {
      HeadDistinct(next, x, y);
    }
    assert forall d :: d in head <==> d in next || d == x || d == y;
    forall a, b | a in head && b in rest
      ensures a.offset != b.offset
    {
      if a.offset == b.offset {
        OnePerOffset(rels, a, b);
      }
    }
    DistinctJoin(head, rest);
  }

  lemma HeadDistinct(next: seq<Relocation>, x: Relocation, y: Relocation)
    requires |next| <= 1 && x.offset != y.offset && forall s :: s in next ==> s.offset != x.offset && s.offset != y.offset
    ensures Distinct(next + [x, y])
  {
    if next != [] {
      assert next[0] in next;
    }
  }

  /** What the first relocations made of a slot is there at the end, when no later one reaches it. */
  lemma TailKeeps(pass: Pass, start: nat, code: seq<Insn>, next: seq<Relocation>, pair: seq<Relocation>,
                  rest: seq<Relocation>, i: nat)
    requires Steps(pass, start, code, next).Done?
    requires Steps(pass, start, Steps(pass, start, code, next).value, pair).Done?
    requires Steps(pass, start, code, next + pair + rest).Done? && i < |code|
    requires forall d :: d in rest ==> d.offset != start + i * INS_SIZE && d.offset + INS_SIZE != start + i * INS_SIZE
    ensures Steps(pass, start, code, next + pair + rest).value[i] ==
      Steps(pass, start, Steps(pass, start, code, next).value, pair).value[i]
  {
    hide Step, Steps;
    StepsJoin(pass, start, code, next, pair);
    StepsJoin(pass, start, code, next + pair, rest);
    SlotLeftAlone(pass, start, Steps(pass, start, code, next + pair).value, rest, i);
  }

  /** Relocations that clash among others: two orders of all of them that give different code. */
  lemma ClashShows(pass: Pass, start: nat, code: seq<Insn>, rels: seq<Relocation>, r: Relocation, q: Relocation)
    returns (a: seq<Relocation>, b: seq<Relocation>)
    requires Distinct(rels) && Steps(pass, start, code, rels).Done?
    requires r in rels && q in rels && Clash(pass, start, code, r, q)
    ensures Reordered(rels, a) && Reordered(rels, b)
    ensures Steps(pass, start, code, a).Done? && Steps(pass, start, code, b).Done?
    ensures Steps(pass, start, code, a) != Steps(pass, start, code, b)
  {
    hide Step, Steps, Clash, Distinct, Reordered;
    // The relocation of the slot after q goes first, so that it hides nothing.
    var next := AtOffset(rels, q.offset + INS_SIZE);
    assert r.offset + INS_SIZE == q.offset by {
      ClashIsNext(pass, start, code, r, q);
    }
    var rest := Rest(rels, next, r, q);
    SuccessExact(pass, start, code, rels);
    NextFirst(pass, start, code, next, r, q);
    var i := ClashAtOnce(pass, start, Steps(pass, start, code, next).value, r, q);
    a, b := next + [r, q] + rest, next + [q, r] + rest;
    Arranged(rels, next, r, q, rest);
    Arranged(rels, next, q, r, rest);
    AllSucceed(pass, start, code, rels, a);
    AllSucceed(pass, start, code, rels, b);
    TailKeeps(pass, start, code, next, [r, q], rest, i);
    TailKeeps(pass, start, code, next, [q, r], rest, i);
  }

  /** The relocation at an offset, if there is one. */
  lemma AtOffset(rels: seq<Relocation>, offset: nat) returns (found: seq<Relocation>)
    requires Distinct(rels)
    ensures |found| <= 1 && forall s :: s in found <==> s in rels && s.offset == offset
  {
    hide Distinct;
    if s :| s in rels && s.offset == offset {
      found := [s];
      forall t | t in rels && t.offset == offset
        ensures t == s
      {
        OnePerOffset(rels, s, t);
      }
    } else {
      found := [];
    }
  }

  lemma ClashIsNext(pass: Pass, start: nat, code: seq<Insn>, r: Relocation, q: Relocation)
    requires Clash(pass, start, code, r, q)
    ensures r.offset + INS_SIZE == q.offset
  {
  }

  /** What is left when the slots of a clash and the one after them are taken out. */
  lemma Rest(rels: seq<Relocation>, next: seq<Relocation>, r: Relocation, q: Relocation) returns (rest: seq<Relocation>)
    requires Distinct(rels) && r in rels && q in rels && r.offset + INS_SIZE == q.offset
    requires forall s :: s in next <==> s in rels && s.offset == q.offset + INS_SIZE
    ensures Distinct(rest) && forall d :: d in rest <==> d in rels && d != r && d != q && d !in next
    ensures forall d :: d in rest ==> d.offset != r.offset && d.offset != q.offset && d.offset != q.offset + INS_SIZE
  {
    hide Distinct;
    rest := Except(rels, {r, q} + set s | s in next);
    ExceptDistinct(rels, {r, q} + set s | s in next);
    forall d | d in rest
      ensures d.offset != r.offset && d.offset != q.offset && d.offset != q.offset + INS_SIZE
    {
      if d.offset == r.offset {
        OnePerOffset(rels, d, r);
      }
      if d.offset == q.offset {
        OnePerOffset(rels, d, q);
      }
    }
  }

  /** Success does not depend on the order. */
  lemma AllSucceed(pass: Pass, start: nat, code: seq<Insn>, rels: seq<Relocation>, others: seq<Relocation>)
    requires Distinct(rels) && Reordered(rels, others)
    ensures Steps(pass, start, code, rels).Done? <==> Steps(pass, start, code, others).Done?
  {
    hide Step, Steps, Distinct;
    SuccessExact(pass, start, code, rels);
    SuccessExact(pass, start, code, others);
  }

  // ---------- the exact condition ----------

  /** The same body, or a failure in both; which failure is reported first is another matter. */
  predicate SameOutcome(a: Result<seq<Insn>>, b: Result<seq<Insn>>) {
    a == b || (a.Fail? && b.Fail?)
  }

  /** Without a clash the order makes no difference. */
  lemma OrderIrrelevant(pass: Pass, start: nat, code: seq<Insn>, rels: seq<Relocation>, others: seq<Relocation>)
    requires Distinct(rels) && Reordered(rels, others)
    requires Steps(pass, start, code, rels).Done? ==> NoClash(pass, start, code, rels)
    ensures SameOutcome(Steps(pass, start, code, others), Steps(pass, start, code, rels))
  {
    hide Step, Steps, Clash, Distinct, Settled;
    AllSucceed(pass, start, code, rels, others);
    if Steps(pass, start, code, rels).Done? {
      ClosedForm(pass, start, code, rels);
      ClosedForm(pass, start, code, others);
      var now, also := Steps(pass, start, code, rels).value, Steps(pass, start, code, others).value;
      forall i | 0 <= i < |code|
        ensures now[i] == also[i]
      {
        SettledOnce(pass, start, code, rels, others, i, now[i], also[i]);
      }
      assert now == also;
    }
  }

  /**
   For relocations at different offsets, in both passes: every order gives the same outcome exactly
   when the pass fails anyway or no two relocations clash.
   */
  lemma OrderExact(pass: Pass, start: nat, code: seq<Insn>, rels: seq<Relocation>)
    requires Distinct(rels)
    ensures
      (forall others :: Reordered(rels, others) ==>
         SameOutcome(Steps(pass, start, code, others), Steps(pass, start, code, rels)))
      <==> (Steps(pass, start, code, rels).Done? ==> NoClash(pass, start, code, rels))
  {
    hide Step, Steps, Clash, Distinct, Reordered;
    if Steps(pass, start, code, rels).Done? ==> NoClash(pass, start, code, rels) {
      forall others | Reordered(rels, others)
        ensures SameOutcome(Steps(pass, start, code, others), Steps(pass, start, code, rels))
      {
        OrderIrrelevant(pass, start, code, rels, others);
      }
    } else {
      var r, q :| r in rels && q in rels && Clash(pass, start, code, r, q);
      var a, b := ClashShows(pass, start, code, rels, r, q);
    }
  }
}
