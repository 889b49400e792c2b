/**
 What a CO-RE relocation does not depend on, and what it leaves in the instruction. What is written is
 the same in whatever order the kernel lists the candidate types, exactly unless their matches are
 ambiguous: some with a value and others without, or all agreeing on place and value but not on size.
 */
module CoreProperties {
  import opened Instructions
  import opened Btf
  import opened MemberSearch
  import opened CoreRelocation
  import B = Bitfields
  import S = Sanitizer

  // ---------- the choice among matches ----------

  /** The value that is written: none when the instruction is poisoned. */
  function Outcome(matches: seq<Found>): Result<Option<U64>>
    requires matches != []
  {
    match Chosen(matches)
    case Err(e) => Err(e)
    case Ok(v) => Ok(ValueIn(v))
  }

  function ValueIn(v: Values): Option<U64> {
    match v.target case None => None case Some(c) => Some(c.value)
  }

  ghost predicate SamePlace(matches: seq<Found>) {
    forall a, b :: a in matches && b in matches ==> a.bitOffset == b.bitOffset
  }

  /** All matches are at one place, and some have a value there while others have none. */
  ghost predicate Mixed(matches: seq<Found>) {
    && SamePlace(matches)
    && (exists a :: a in matches && a.values.target.Some?)
    && (exists a :: a in matches && a.values.target.None?)
  }

  ghost predicate Agree(matches: seq<Found>) {
    forall a, b :: a in matches && b in matches ==> a.bitOffset == b.bitOffset && ValueIn(a.values) == ValueIn(b.values)
  }

  /** Unless the matches are mixed, the choice succeeds exactly when they all agree. */
  lemma ChosenAgrees(matches: seq<Found>)
    requires matches != [] && !Mixed(matches)
    ensures Outcome(matches).Ok? <==> Agree(matches)
    ensures Outcome(matches).Ok? ==> Outcome(matches).value == ValueIn(matches[0].values)
    ensures Outcome(matches).Err? ==> Outcome(matches) == Err(ConflictingCandidates)
  {
  }

  /** The outcome does not depend on the order of matches that are not mixed. */
  lemma OrderIrrelevant(matches: seq<Found>, others: seq<Found>)
    requires matches != [] && !Mixed(matches) && multiset(matches) == multiset(others)
    ensures others != [] && Outcome(others) == Outcome(matches)
  {
    SameElements(matches, others);
    assert matches[0] in others;
    assert Mixed(others) ==> Mixed(matches);
    ChosenAgrees(matches);
    ChosenAgrees(others);
    assert Agree(matches) <==> Agree(others);
    assert others[0] in matches;
  }

  lemma SameElements(a: seq<Found>, b: seq<Found>)
    requires multiset(a) == multiset(b)
    ensures forall x :: x in a <==> x in b
  {
    forall x
      ensures x in a <==> x in b
    {
      assert x in a <==> x in multiset(a);
      assert x in b <==> x in multiset(b);
    }
  }

  /** Matches at one place whose first has no value poison the instruction; others do not. */
  lemma FirstDecides(matches: seq<Found>)
    requires matches != [] && SamePlace(matches)
    ensures Outcome(matches) == Ok(None) <==> matches[0].values.target.None?
  {
  }

  /** Not mixed, and matches that agree on place and value agree on everything written. */
  ghost predicate Unambiguous(matches: seq<Found>) {
    && !Mixed(matches)
    && (Agree(matches) ==> forall a, b :: a in matches && b in matches ==> a.values == b.values)
  }

  /** One of ambiguous matches changes the choice when it comes first. */
  lemma FrontDecides(matches: seq<Found>) returns (front: Found)
    requires matches != [] && !Unambiguous(matches)
    ensures front in matches
    ensures forall others :: multiset(others) == multiset(matches) && others != [] && others[0] == front ==>
      Chosen(others) != Chosen(matches) && (Mixed(matches) ==> Outcome(others) != Outcome(matches))
  {
    if Mixed(matches) {
      var valued := matches[0].values.target.Some?;
      front :| front in matches && front.values.target.Some? != valued;
    } else {
      var a, b :| a in matches && b in matches && a.values != b.values;
      front := if a.values == matches[0].values then b else a;
    }
    forall others | multiset(others) == multiset(matches) && others != [] && others[0] == front
      ensures Chosen(others) != Chosen(matches) && (Mixed(matches) ==> Outcome(others) != Outcome(matches))
    {
      OtherFront(matches, others);
    }
  }

  lemma OtherFront(matches: seq<Found>, others: seq<Found>)
    requires matches != [] && others != [] && multiset(others) == multiset(matches)
    requires
      if Mixed(matches) then others[0].values.target.Some? != matches[0].values.target.Some?
      else Agree(matches) && others[0].values != matches[0].values
    ensures Chosen(others) != Chosen(matches) && (Mixed(matches) ==> Outcome(others) != Outcome(matches))
  {
    hide Chosen;
    SameElements(matches, others);
    if Mixed(matches) {
      FirstDecides(matches);
      FirstDecides(others);
    } else {
      assert !Mixed(others) && Agree(others);
      AgreedChoice(matches);
      AgreedChoice(others);
    }
  }

  lemma AgreedChoice(matches: seq<Found>)
    requires matches != [] && Agree(matches)
    ensures Chosen(matches) == Ok(matches[0].values)
  {
  }

  predicate ChoiceIs(matches: seq<Found>, r: Result<Values>) {
    matches != [] && Chosen(matches) == r
  }

  /** The choice is the same in every order of the matches exactly when they are unambiguous. */
  lemma MatchOrderIrrelevant(matches: seq<Found>)
    requires matches != []
    ensures (forall others :: multiset(others) == multiset(matches) ==> ChoiceIs(others, Chosen(matches)))
       <==> Unambiguous(matches)
  {
    hide Chosen, Unambiguous;
    if Unambiguous(matches) {
      forall others | multiset(others) == multiset(matches)
        ensures ChoiceIs(others, Chosen(matches))
      {
        SameChoice(matches, others);
      }
    } else {
      var front := FrontDecides(matches);
      var k :| 0 <= k < |matches| && matches[k] == front;
      var others := BroughtToFront(matches, k);
      assert !ChoiceIs(others, Chosen(matches));
    }
  }

  lemma BroughtToFront(matches: seq<Found>, k: nat) returns (others: seq<Found>)
    requires k < |matches|
    ensures multiset(others) == multiset(matches) && others != [] && others[0] == matches[k]
  {
    others := matches[0 := matches[k]][k := matches[0]];
  }

  lemma SameChoice(matches: seq<Found>, others: seq<Found>)
    requires matches != [] && Unambiguous(matches) && multiset(others) == multiset(matches)
    ensures others != [] && Chosen(others) == Chosen(matches)
  {
    hide Mixed, Chosen;
    SameElements(matches, others);
    OrderIrrelevant(matches, others);
    assert others[0] in matches && Agree(others) == Agree(matches);
    if Agree(matches) {
      AgreedChoice(matches);
      AgreedChoice(others);
    } else {
      NoAgreement(matches);
      assert Mixed(others) ==> Mixed(matches) by { MixedElements(matches, others); }
      NoAgreement(others);
    }
  }

  lemma NoAgreement(matches: seq<Found>)
    requires matches != [] && !Mixed(matches) && !Agree(matches)
    ensures Chosen(matches) == Err(ConflictingCandidates)
  {
    ChosenAgrees(matches);
  }

  lemma MixedElements(a: seq<Found>, b: seq<Found>)
    requires forall x :: x in a <==> x in b
    ensures Mixed(a) <==> Mixed(b)
  {
  }

  // ---------- the order of the candidates ----------

  /** What one candidate adds to the matches. */
  ghost function Contribution(env: Env, rank: Ranks, kind: Kind, local: Spec,
                              candidate: TypeId): Result<seq<Found>>
    requires Grounded(env, rank)
  {
    match TargetSpec(env, rank, kind, local, candidate)
    case Err(e) => Err(e)
    case Ok(None) => Ok([])
    case Ok(Some(spec)) =>
      match Compute(env, kind, local, Some(spec))
      case Err(e) => Err(e)
      case Ok(values) => Ok([Found(spec.bitOffset, values)])
  }

  lemma MatchesStep(env: Env, rank: Ranks, kind: Kind, local: Spec, front: seq<TypeId>, last: TypeId)
    requires Grounded(env, rank)
    ensures MatchesOf(env, rank, kind, local, front + [last]).Ok? <==>
      MatchesOf(env, rank, kind, local, front).Ok? && Contribution(env, rank, kind, local, last).Ok?
    ensures MatchesOf(env, rank, kind, local, front + [last]).Ok? ==>
      MatchesOf(env, rank, kind, local, front + [last]).value ==
      MatchesOf(env, rank, kind, local, front).value + Contribution(env, rank, kind, local, last).value
  {
  }

  /** Taking one candidate out takes its contribution out. */
  lemma {:induction false} MatchesWithout(env: Env, rank: Ranks, kind: Kind, local: Spec, cs: seq<TypeId>, k: nat)
    requires Grounded(env, rank) && k < |cs| && MatchesOf(env, rank, kind, local, cs).Ok?
    ensures
      var rest := cs[..k] + cs[k + 1..];
      && MatchesOf(env, rank, kind, local, rest).Ok? && Contribution(env, rank, kind, local, cs[k]).Ok?
      && multiset(MatchesOf(env, rank, kind, local, cs).value) ==
         multiset(MatchesOf(env, rank, kind, local, rest).value) + multiset(Contribution(env, rank, kind, local, cs[k]).value)
    decreases |cs|
  {
    hide MatchesOf, Contribution, Grounded;
    var front, last := cs[..|cs| - 1], cs[|cs| - 1];
    assert cs == front + [last];
    MatchesStep(env, rank, kind, local, front, last);
    var rest := cs[..k] + cs[k + 1..];
    if k == |front| {
      assert rest == front;
    } else {
      MatchesWithout(env, rank, kind, local, front, k);
      assert rest == front[..k] + front[k + 1..] + [last];
      MatchesStep(env, rank, kind, local, front[..k] + front[k + 1..], last);
    }
  }

  lemma WithoutOne(ds: seq<TypeId>, k: nat)
    requires k < |ds|
    ensures multiset(ds) == multiset(ds[..k] + ds[k + 1..]) + multiset{ds[k]}
  {
    assert ds == ds[..k] + [ds[k]] + ds[k + 1..];
  }

  lemma Cancel(a: multiset<TypeId>, b: multiset<TypeId>, x: TypeId)
    requires a + multiset{x} == b + multiset{x}
    ensures a == b
  {
    assert a == a + multiset{x} - multiset{x} && b == b + multiset{x} - multiset{x};
  }

  /** All matches are found exactly when each candidate can be judged; their order plays no part. */
  lemma {:induction false} MatchesSucceed(env: Env, rank: Ranks, kind: Kind, local: Spec, cs: seq<TypeId>)
    requires Grounded(env, rank)
    ensures MatchesOf(env, rank, kind, local, cs).Ok? <==>
      forall c :: c in cs ==> Contribution(env, rank, kind, local, c).Ok?
    decreases |cs|
  {
    hide Contribution, Grounded;
    if cs != [] {
      var front, last := cs[..|cs| - 1], cs[|cs| - 1];
      assert cs == front + [last];
      MatchesSucceed(env, rank, kind, local, front);
      MatchesStep(env, rank, kind, local, front, last);
    }
  }

  lemma SameCandidates(a: seq<TypeId>, b: seq<TypeId>)
    requires multiset(a) == multiset(b)
    ensures forall x :: x in a <==> x in b
  {
    assert forall x :: x in a <==> x in multiset(a);
    assert forall x :: x in b <==> x in multiset(b);
  }

  /** Candidates in another order give the same matches in another order, or fail in both. */
  lemma {:induction false} MatchesReordered(env: Env, rank: Ranks, kind: Kind, local: Spec, cs: seq<TypeId>,
                                            ds: seq<TypeId>)
    requires Grounded(env, rank) && multiset(cs) == multiset(ds)
    ensures MatchesOf(env, rank, kind, local, cs).Ok? <==> MatchesOf(env, rank, kind, local, ds).Ok?
    ensures MatchesOf(env, rank, kind, local, cs).Ok? ==>
      multiset(MatchesOf(env, rank, kind, local, cs).value) == multiset(MatchesOf(env, rank, kind, local, ds).value)
    decreases |cs|
  {
    hide MatchesOf, Contribution, Grounded;
    MatchesSucceed(env, rank, kind, local, cs);
    MatchesSucceed(env, rank, kind, local, ds);
    SameCandidates(cs, ds);
    if MatchesOf(env, rank, kind, local, cs).Ok? {
      if cs == [] {
        assert |multiset(ds)| == |ds|;
      } else {
        var front, last := cs[..|cs| - 1], cs[|cs| - 1];
        assert cs == front + [last];
        MatchesStep(env, rank, kind, local, front, last);
        assert last in cs && last in ds;
        var k :| 0 <= k < |ds| && ds[k] == last;
        var rest := ds[..k] + ds[k + 1..];
        WithoutOne(ds, k);
        WithoutOne(cs, |front|);
        assert cs[..|front|] + cs[|cs|..] == front;
        Cancel(multiset(front), multiset(rest), last);
        MatchesWithout(env, rank, kind, local, ds, k);
        MatchesReordered(env, rank, kind, local, front, rest);
      }
    }
  }

  /** Every match comes from a candidate, and comes first when that candidate does. */
  lemma {:induction false} MatchSource(env: Env, rank: Ranks, kind: Kind, local: Spec, cs: seq<TypeId>, m: Found)
    returns (k: nat)
    requires Grounded(env, rank)
    requires MatchesOf(env, rank, kind, local, cs).Ok? && m in MatchesOf(env, rank, kind, local, cs).value
    ensures k < |cs| && Contribution(env, rank, kind, local, cs[k]) == Ok([m])
    decreases |cs|
  {
    hide MatchesOf, Contribution, Grounded;
    if cs == [] {
      NoMatches(env, rank, kind, local);
    }
    var front, last := cs[..|cs| - 1], cs[|cs| - 1];
    assert cs == front + [last];
    MatchesStep(env, rank, kind, local, front, last);
    AtMostOne(env, rank, kind, local, last);
    if m in Contribution(env, rank, kind, local, last).value {
      k := |front|;
      assert Contribution(env, rank, kind, local, last).value == [m];
    } else {
      k := MatchSource(env, rank, kind, local, front, m);
    }
  }

  lemma AtMostOne(env: Env, rank: Ranks, kind: Kind, local: Spec, candidate: TypeId)
    requires Grounded(env, rank) && Contribution(env, rank, kind, local, candidate).Ok?
    ensures |Contribution(env, rank, kind, local, candidate).value| <= 1
  {
  }

  lemma {:induction false} FirstMatch(env: Env, rank: Ranks, kind: Kind, local: Spec, ds: seq<TypeId>, m: Found)
    requires Grounded(env, rank)
    requires ds != [] && Contribution(env, rank, kind, local, ds[0]) == Ok([m]) && MatchesOf(env, rank, kind, local, ds).Ok?
    ensures
      var ns := MatchesOf(env, rank, kind, local, ds).value;
      ns != [] && ns[0] == m
    decreases |ds|
  {
    hide MatchesOf, Contribution, Grounded;
    var front, last := ds[..|ds| - 1], ds[|ds| - 1];
    assert ds == front + [last];
    MatchesStep(env, rank, kind, local, front, last);
    if front == [] {
      NoMatches(env, rank, kind, local);
    } else {
      FirstMatch(env, rank, kind, local, front, m);
    }
  }

  lemma NoMatches(env: Env, rank: Ranks, kind: Kind, local: Spec)
    requires Grounded(env, rank)
    ensures MatchesOf(env, rank, kind, local, []) == Ok([])
  {
  }

  /** The same values, or a failure in both; which failure is reported first is another matter. */
  predicate SameResult(a: Result<Values>, b: Result<Values>) {
    a == b || (a.Err? && b.Err?)
  }

  /** The candidates can be judged, some match, and the matches are ambiguous. */
  ghost predicate Ambiguous(env: Env, rank: Ranks, kind: Kind, local: Spec, cs: seq<TypeId>)
    requires Grounded(env, rank)
  {
    var ms := MatchesOf(env, rank, kind, local, cs);
    ms.Ok? && ms.value != [] && !Unambiguous(ms.value)
  }

  /**
   What a relocation writes is the same in every order of the candidates, exactly when their matches
   are not ambiguous.
   */
  lemma CandidateOrderIrrelevant(env: Env, rank: Ranks, kind: Kind, local: Spec, cs: seq<TypeId>)
    requires Grounded(env, rank)
    ensures
      (forall ds: seq<TypeId> :: multiset(ds) == multiset(cs) ==>
         SameResult(WrittenFor(env, rank, kind, local, ds), WrittenFor(env, rank, kind, local, cs)))
      <==> !Ambiguous(env, rank, kind, local, cs)
  {
    hide WrittenFor, Grounded, Ambiguous;
    if Ambiguous(env, rank, kind, local, cs) {
      var ds := OtherOrder(env, rank, kind, local, cs);
    } else {
      forall ds: seq<TypeId> | multiset(ds) == multiset(cs)
        ensures SameResult(WrittenFor(env, rank, kind, local, ds), WrittenFor(env, rank, kind, local, cs))
      {
        SameWritten(env, rank, kind, local, cs, ds);
      }
    }
  }

  lemma SameWritten(env: Env, rank: Ranks, kind: Kind, local: Spec, cs: seq<TypeId>, ds: seq<TypeId>)
    requires Grounded(env, rank) && multiset(ds) == multiset(cs) && !Ambiguous(env, rank, kind, local, cs)
    ensures SameResult(WrittenFor(env, rank, kind, local, ds), WrittenFor(env, rank, kind, local, cs))
  {
    hide MatchesOf, Grounded, Compute, Chosen, Unambiguous;
    MatchesReordered(env, rank, kind, local, cs, ds);
    if MatchesOf(env, rank, kind, local, cs).Ok? {
      var ms, ns := MatchesOf(env, rank, kind, local, cs).value, MatchesOf(env, rank, kind, local, ds).value;
      assert |multiset(ms)| == |ms| && |multiset(ns)| == |ns|;
      if ms != [] {
        SameChoice(ms, ns);
      }
    }
  }

  /** Ambiguous candidates have an order in which something else is written; a mix, another value. */
  lemma OtherOrder(env: Env, rank: Ranks, kind: Kind, local: Spec, cs: seq<TypeId>) returns (ds: seq<TypeId>)
    requires Grounded(env, rank) && Ambiguous(env, rank, kind, local, cs)
    ensures multiset(ds) == multiset(cs)
    ensures MatchesOf(env, rank, kind, local, ds).Ok? && MatchesOf(env, rank, kind, local, ds).value != []
    ensures !SameResult(WrittenFor(env, rank, kind, local, ds), WrittenFor(env, rank, kind, local, cs))
    ensures
      var ms, ns := MatchesOf(env, rank, kind, local, cs).value, MatchesOf(env, rank, kind, local, ds).value;
      Mixed(ms) ==> Outcome(ns) != Outcome(ms)
  {
    hide MatchesOf, Grounded, Chosen, Contribution, Outcome;
    var ms := MatchesOf(env, rank, kind, local, cs).value;
    var front := FrontDecides(ms);
    var k := MatchSource(env, rank, kind, local, cs, front);
    ds := [cs[k]] + (cs[..k] + cs[k + 1..]);
    assert multiset(ds) == multiset(cs) by {
      WithoutOne(cs, k);
    }
    MatchesReordered(env, rank, kind, local, cs, ds);
    FirstMatch(env, rank, kind, local, ds, front);
    var ns := MatchesOf(env, rank, kind, local, ds).value;
    assert Chosen(ns) != Chosen(ms);
    OnlyConflict(ns);
    OnlyConflict(ms);
  }

  lemma OnlyConflict(matches: seq<Found>)
    requires matches != []
    ensures Chosen(matches).Err? ==> Chosen(matches) == Err(ConflictingCandidates)
  {
  }

  /** Mixed candidates have an order in which another value, or none, is written. */
  lemma MixedOrderMatters(env: Env, rank: Ranks, kind: Kind, local: Spec, cs: seq<TypeId>)
    requires Grounded(env, rank)
    requires MatchesOf(env, rank, kind, local, cs).Ok? && Mixed(MatchesOf(env, rank, kind, local, cs).value)
    ensures
      exists ds: seq<TypeId> ::
        && multiset(ds) == multiset(cs)
        && var ms, ns := MatchesOf(env, rank, kind, local, cs), MatchesOf(env, rank, kind, local, ds);
        && ns.Ok? && ns.value != [] && Outcome(ns.value) != Outcome(ms.value)
  {
    hide MatchesOf, Grounded, WrittenFor, Outcome;
    var ds := OtherOrder(env, rank, kind, local, cs);
  }

  // ---------- the instruction ----------

  /** The width bits of an opcode, as a number of bytes. */
  function WidthIn(code: bv8): nat {
    var bits := code & 0x18;
    if bits == 0x18 then 8 else if bits == 0x00 then 4 else if bits == 0x08 then 2 else 1
  }

  lemma WidthReplaced(code: bv8, size: U32)
    requires WidthBits(size).Some?
    ensures
      var now := (code & 0xE0) | WidthBits(size).value | (code & 0x07);
      WidthIn(now) == size && now & 0xE7 == code & 0xE7
  {
  }

  /** Only these two slots are different. */
  predicate OtherwiseSame(code: seq<Insn>, now: seq<Insn>, at: nat, slots: nat) {
    |now| == |code| && forall i :: 0 <= i < |code| && !(at <= i < at + slots) ==> now[i] == code[i]
  }

  /**
   What a relocation leaves behind: a 64-bit load has the value in its two immediates, an arithmetic
   operation the low 32 bits, and a memory access has it as offset, with the width of the target type
   when that differs; nothing else of these instructions, and no other instruction, is changed.
   */
  lemma AppliedExactly(env: Env, v: Values, code: seq<Insn>, at: nat)
    requires at < |code| && Applied(env, v, code, at).Ok? && v.target.Some?
    ensures
      var now, value := Applied(env, v, code, at).value, v.target.value.value;
      var cls := code[at].code & 0x07;
      && OtherwiseSame(code, now, at, if cls == 0 then 2 else 1)
      && (cls == 0 ==>
            && at + 1 < |code|
            && now[at] == code[at].(imm := now[at].imm) && now[at + 1] == code[at + 1].(imm := now[at + 1].imm)
            && WrapU32(now[at].imm) + WrapU32(now[at + 1].imm) * 0x1_0000_0000 == value)
      && (cls == 4 || cls == 7 ==>
            now[at] == code[at].(imm := now[at].imm) && WrapU32(now[at].imm) == value % 0x1_0000_0000)
      && (cls == 1 || cls == 2 || cls == 3 ==>
            && now[at] == code[at].(off := value, code := now[at].code) && now[at].code & 0xE7 == code[at].code & 0xE7
            && if v.local.size == v.target.value.size then now[at].code == code[at].code
               else WidthIn(now[at].code) == v.target.value.size)
  {
    hide WidthBits, IsUnsigned, WrapI32;
    var target := v.target.value;
    if WidthBits(target.size).Some? {
      WidthReplaced(code[at].code, target.size);
    }
    ThirtyTwoBits(target.value, 0);
    TwoHalves(target.value);
  }

  /** Types whose loads may change width: two pointers, or two unsigned integers. */
  predicate Resizable(x: BtfType, y: BtfType) {
    || (x.Ptr? && y.Ptr?)
    || (x.Int? && y.Int? && x.data / 0x100_0000 % 2 == 0 && y.data / 0x100_0000 % 2 == 0)
  }

  /** The two sizes are the same, or the types that go with them may change width. */
  predicate SizesFit(env: Env, v: Values)
    requires v.target.Some?
  {
    var mine, theirs := v.local, v.target.value;
    || mine.size == theirs.size
    || (&& mine.typeId.Some? && mine.typeId.value < |env.local.types|
        && theirs.typeId.Some? && theirs.typeId.value < |env.target.types|
        && Resizable(env.local.types[mine.typeId.value], env.target.types[theirs.typeId.value])
        && (theirs.size == 1 || theirs.size == 2 || theirs.size == 4 || theirs.size == 8))
  }

  /**
   Exactly when a value can be written: into an arithmetic operation with an immediate operand, into a
   memory access whose 15-bit offset can hold it and whose width fits, and into a 64-bit load that has
   its second slot.
   */
  lemma AppliesExactly(env: Env, v: Values, code: seq<Insn>, at: nat)
    requires at < |code| && v.target.Some?
    ensures
      var cls := code[at].code & 0x07;
      Applied(env, v, code, at).Ok? <==>
        if cls == 4 || cls == 7 then code[at].src == 0
        else if cls == 1 || cls == 2 || cls == 3 then v.target.value.value < 0x8000 && SizesFit(env, v)
        else cls == 0 && at + 1 < |code|
  {
  }

  /** A call of a helper that does not exist. */
  predicate IsPoison(ins: Insn) {
    ins.code == CALL && ins.dst == 0 && ins.src == 0 && ins.off == 0 && ins.imm == 0xBAD2310
  }

  /** Without a value the instruction is poisoned, a 64-bit load in both of its slots; nothing else is changed. */
  lemma PoisonedExactly(env: Env, v: Values, code: seq<Insn>, at: nat)
    requires at < |code| && v.target.None?
    ensures
      var slots := if code[at].code == LD_IMM64 then 2 else 1;
      && (Applied(env, v, code, at).Ok? <==> at + slots <= |code|)
      && (Applied(env, v, code, at).Ok? ==>
            var now := Applied(env, v, code, at).value;
            OtherwiseSame(code, now, at, slots) && forall i :: at <= i < at + slots ==> IsPoison(now[i]))
  {
  }

  // ---------- enums that were sanitized away ----------

  /**
   A 64-bit enum that sanitizing turned into a union still means the same to enum relocations: it has
   the same variants with the same names and 64-bit values, and finds the same candidates and more.
   */
  lemma SanitizedEnumRelocates(s: S.State, i: nat, index: nat)
    requires i < |s.types| && s.types[i].Enum64?
    ensures
      var before, after := s.types[i], S.Enum64ToUnion(s, i).types[i];
      && VariantNames(after) == VariantNames(before)
      && VariantValueOf(after, index) == VariantValueOf(before, index)
      && forall ty: BtfType :: KindFits(before, ty) ==> KindFits(after, ty)
  {
    hide S.UnionMembers, S.Bytes;
    assert VariantNames(S.Enum64ToUnion(s, i).types[i]).value == VariantNames(s.types[i]).value;
  }
}
