/**
 Debug records of a linked program: func records mark exactly the block starts, line records stay
 in order and inside their own block.
 */
module LinkerDebugInfo {
  import opened Instructions
  import opened Linker

  ghost predicate Increasing(lines: seq<LineRecord>) {
    forall i, j :: 0 <= i < j < |lines| ==> lines[i].insnOff < lines[j].insnOff
  }

  ghost predicate LinesIn(lines: seq<LineRecord>, from: nat, to: nat) {
    forall i :: 0 <= i < |lines| ==> from <= lines[i].insnOff < to
  }

  /** Where the records of a callee point: its instruction offset within its section. */
  function FirstInsn(fun: Function): nat {
    fun.sectionOffset / INS_SIZE
  }

  /** A function as the BTF of a compiler describes it. */
  ghost predicate Described(fun: Function) {
    && fun.instructions != []
    && |fun.funcInfo| == 1
    && Increasing(fun.lineInfo)
    && LinesIn(fun.lineInfo, FirstInsn(fun), FirstInsn(fun) + |fun.instructions|)
  }

  /** The records of the main program were rebased to its own start when it was parsed. */
  ghost predicate DescribedMain(main: Function) {
    && main.instructions != []
    && |main.funcInfo| == 1 && main.funcInfo[0].insnOff == 0
    && Increasing(main.lineInfo)
    && LinesIn(main.lineInfo, 0, |main.instructions|)
  }

  ghost predicate AllDescribed(t: Tables, order: seq<Key>) {
    forall j :: 0 <= j < |order| ==> order[j] in t.functions && Described(t.functions[order[j]])
  }

  // ---------- where blocks start ----------

  lemma {:induction false} TotalSizeStep(t: Tables, order: seq<Key>, j: nat)
    requires j < |order|
    ensures TotalSize(t, order[..j]) + BodySize(t, order[j]) == TotalSize(t, order[..j + 1]) <= TotalSize(t, order)
    decreases |order|
  {
    assert order[..j + 1][..j] == order[..j];
    if j + 1 < |order| {
      TotalSizeStep(t, order[..|order| - 1], j);
      assert order[..|order| - 1][..j] == order[..j] && order[..|order| - 1][..j + 1] == order[..j + 1];
    } else {
      assert order[..j + 1] == order;
    }
  }

  /** The recorded start of each block is the total size of everything before it. */
  lemma {:induction false} BlockStarts(t: Tables, linked: map<Key, nat>, order: seq<Key>, base: nat, size: nat, j: nat)
    requires Tiled(t, linked, order, base, size) && j < |order|
    ensures order[j] in linked && order[j] in t.functions
    ensures linked[order[j]] == base + TotalSize(t, order[..j])
    decreases |order|
  {
    var last := order[|order| - 1];
    TiledSize(t, linked - {last}, order[..|order| - 1], base, linked[last]);
    if j + 1 < |order| {
      BlockStarts(t, linked - {last}, order[..|order| - 1], base, linked[last], j);
      assert order[..|order| - 1][..j] == order[..j];
    }
  }

  /** Blocks follow one another: no two overlap, and all lie between the main body and the end. */
  lemma BlocksDisjoint(t: Tables, linked: map<Key, nat>, order: seq<Key>, base: nat, size: nat, i: nat, j: nat)
    requires Tiled(t, linked, order, base, size) && i < j < |order|
    ensures order[i] in linked && order[j] in linked
    ensures base <= linked[order[i]]
    ensures linked[order[i]] + BodySize(t, order[i]) <= linked[order[j]]
    ensures linked[order[j]] + BodySize(t, order[j]) <= size
  {
    BlockStarts(t, linked, order, base, size, i);
    BlockStarts(t, linked, order, base, size, j);
    TiledSize(t, linked, order, base, size);
    TotalSizeStep(t, order, j);
    TotalSizeStep(t, order[..j], i);
    assert order[..j][..i] == order[..i] && order[..j][..i + 1] == order[..i + 1];
  }

  // ---------- func records ----------

  lemma {:induction false} LinkedFuncAt(t: Tables, base: nat, order: seq<Key>, j: nat)
    requires AllDescribed(t, order) && j < |order|
    requires base + TotalSize(t, order) < 0x1_0000_0000
    ensures |LinkedFuncs(t, base, order)| == |order|
    ensures LinkedFuncs(t, base, order)[j].insnOff == base + TotalSize(t, order[..j])
    ensures LinkedFuncs(t, base, order)[j].typeId == t.functions[order[j]].funcInfo[0].typeId
    decreases |order|
  {
    hide LinkedFuncs, TotalSize, Described;
    var last := |order| - 1;
    var rest := order[..last];
    DescribedFront(t, order);
    LinkedFuncsStep(t, base, order);
    if rest == [] {
      NoFuncs(t, base);
    } else {
      LinkedFuncAt(t, base, rest, if j < last then j else 0);
    }
    assert order[..j] == if j < last then rest[..j] else rest;
  }

  lemma NoFuncs(t: Tables, base: nat)
    ensures LinkedFuncs(t, base, []) == []
  {
  }

  lemma DescribedFront(t: Tables, order: seq<Key>)
    requires AllDescribed(t, order) && order != []
    ensures AllDescribed(t, order[..|order| - 1])
    ensures order[|order| - 1] in t.functions && Described(t.functions[order[|order| - 1]])
  {
  }

  /** The last block adds one record, at its start. */
  lemma LinkedFuncsStep(t: Tables, base: nat, order: seq<Key>)
    requires order != [] && order[|order| - 1] in t.functions && Described(t.functions[order[|order| - 1]])
    requires base + TotalSize(t, order) < 0x1_0000_0000
    ensures
      var rest, k := order[..|order| - 1], order[|order| - 1];
      && base + TotalSize(t, rest) < 0x1_0000_0000
      && LinkedFuncs(t, base, order) ==
           LinkedFuncs(t, base, rest) + [FuncRecord(base + TotalSize(t, rest), t.functions[k].funcInfo[0].typeId)]
  {
  }

  /** The func records are the block starts: 0 first, then each block's, in strictly increasing order. */
  lemma FuncRecordsAreBlockStarts(
    t: Tables, main: Function, linked: map<Key, nat>, order: seq<Key>,
    code: seq<Insn>, funcs: seq<FuncRecord>, lines: seq<LineRecord>)
    requires LinkedImage(t, main, linked, order, code, funcs, lines)
    requires DescribedMain(main) && AllDescribed(t, order) && |code| < 0x1_0000_0000
    ensures |funcs| == 1 + |order| && funcs[0] == main.funcInfo[0] && funcs[0].insnOff == 0
    ensures forall j :: 0 <= j < |order| ==>
      && order[j] in linked && funcs[1 + j].insnOff == linked[order[j]]
      && funcs[1 + j].typeId == t.functions[order[j]].funcInfo[0].typeId
    ensures forall i, j :: 0 <= i < j < |funcs| ==> funcs[i].insnOff < funcs[j].insnOff
  {
    hide LinkedLines, BlockSettled;
    var base := |main.instructions|;
    TiledSize(t, linked, order, base, |code|);
    if order != [] {
      LinkedFuncAt(t, base, order, 0);
    }
    forall j | 0 <= j < |order|
      ensures order[j] in linked && funcs[1 + j].insnOff == linked[order[j]]
      ensures funcs[1 + j].typeId == t.functions[order[j]].funcInfo[0].typeId
      ensures base <= funcs[1 + j].insnOff
    {
      LinkedFuncAt(t, base, order, j);
      BlockStarts(t, linked, order, base, |code|, j);
    }
    forall i, j | 0 <= i < j < |funcs|
      ensures funcs[i].insnOff < funcs[j].insnOff
    {
      assert funcs[1 + (j - 1)].insnOff == linked[order[j - 1]] >= base;
      if i > 0 {
        assert funcs[1 + (i - 1)].insnOff == linked[order[i - 1]];
        BlocksDisjoint(t, linked, order, base, |code|, i - 1, j - 1);
        assert Described(t.functions[order[i - 1]]);
      }
    }
  }

  // ---------- line records ----------

  /**
   One function's line records, rebased: still increasing, inside the block, the first at its very
   start. A record keeps its distance from the function start exactly when the first record sat there.
   */
  lemma RebasedLinesFit(fun: Function, start: nat)
    requires Described(fun) && start + |fun.instructions| < 0x1_0000_0000
    ensures
      var out := RebasedLines(fun.lineInfo, start);
      && Increasing(out) && LinesIn(out, start, start + |fun.instructions|)
      && forall i :: 0 <= i < |out| ==>
           && out[i] == fun.lineInfo[i].(insnOff := start + (fun.lineInfo[i].insnOff - fun.lineInfo[0].insnOff))
           && (out[i].insnOff - start == fun.lineInfo[i].insnOff - FirstInsn(fun)
               <==> fun.lineInfo[0].insnOff == FirstInsn(fun))
  {
    var records, out := fun.lineInfo, RebasedLines(fun.lineInfo, start);
    forall i | 0 <= i < |out|
      ensures out[i].insnOff == start + (records[i].insnOff - records[0].insnOff) < start + |fun.instructions|
    {
      assert records[i].insnOff >= records[0].insnOff >= FirstInsn(fun);
    }
  }

  lemma {:induction false} LinkedLinesFit(t: Tables, base: nat, order: seq<Key>)
    requires AllDescribed(t, order) && base + TotalSize(t, order) < 0x1_0000_0000
    ensures Increasing(LinkedLines(t, base, order))
    ensures LinesIn(LinkedLines(t, base, order), base, base + TotalSize(t, order))
    decreases |order|
  {
    hide Described, RebasedLines;
    if order != [] {
      var last := |order| - 1;
      var rest, fun := order[..last], t.functions[order[last]];
      DescribedFront(t, order);
      LinkedLinesFit(t, base, rest);
      RebasedLinesFit(fun, base + TotalSize(t, rest));
      LinesJoin(LinkedLines(t, base, rest), RebasedLines(fun.lineInfo, base + TotalSize(t, rest)),
                base, base + TotalSize(t, rest), base + TotalSize(t, order));
    }
  }

  lemma LinesJoin(a: seq<LineRecord>, b: seq<LineRecord>, from: nat, mid: nat, to: nat)
    requires Increasing(a) && Increasing(b) && from <= mid <= to && LinesIn(a, from, mid) && LinesIn(b, mid, to)
    ensures Increasing(a + b) && LinesIn(a + b, from, to)
  {
  }

  function LineCount(t: Tables, order: seq<Key>): nat {
    if order == [] then 0
    else
      var k := order[|order| - 1];
      LineCount(t, order[..|order| - 1]) + (if k in t.functions then |t.functions[k].lineInfo| else 0)
  }

  /** The records of the `j`-th block are the rebased records of its function, in their place. */
  lemma {:induction false} LinkedLinesAt(t: Tables, base: nat, order: seq<Key>, j: nat)
    requires j < |order| && order[j] in t.functions
    ensures
      var n, own := LineCount(t, order[..j]), |t.functions[order[j]].lineInfo|;
      && |LinkedLines(t, base, order)| == LineCount(t, order) >= n + own
      && LinkedLines(t, base, order)[n..n + own]
         == RebasedLines(t.functions[order[j]].lineInfo, base + TotalSize(t, order[..j]))
    decreases |order|
  {
    hide RebasedLines, TotalSize;
    var last := |order| - 1;
    var rest := order[..last];
    LinkedLinesCount(t, base, rest);
    LinkedLinesCount(t, base, order);
    if j < last {
      LinkedLinesAt(t, base, rest, j);
      assert rest[..j] == order[..j];
      var n, own := LineCount(t, order[..j]), |t.functions[order[j]].lineInfo|;
      assert LinkedLines(t, base, order)[n..n + own] == LinkedLines(t, base, rest)[n..n + own];
    } else {
      assert order[..j] == rest;
    }
  }

  lemma LinkedLinesCount(t: Tables, base: nat, order: seq<Key>)
    ensures |LinkedLines(t, base, order)| == LineCount(t, order)
  {
  }

  /** The line records are strictly increasing over the whole linked program, the main ones first. */
  lemma LineRecordsIncrease(
    t: Tables, main: Function, linked: map<Key, nat>, order: seq<Key>,
    code: seq<Insn>, funcs: seq<FuncRecord>, lines: seq<LineRecord>)
    requires LinkedImage(t, main, linked, order, code, funcs, lines)
    requires DescribedMain(main) && AllDescribed(t, order) && |code| < 0x1_0000_0000
    ensures Increasing(lines)
    ensures main.lineInfo <= lines
  {
    hide LinkedFuncs, BlockSettled;
    TiledSize(t, linked, order, |main.instructions|, |code|);
    LinkedLinesFit(t, |main.instructions|, order);
  }

  /** The line records of the `j`-th block are its function's own, moved inside the block. */
  lemma LineRecordsFollowTheCode(
    t: Tables, main: Function, linked: map<Key, nat>, order: seq<Key>,
    code: seq<Insn>, funcs: seq<FuncRecord>, lines: seq<LineRecord>, j: nat)
    requires LinkedImage(t, main, linked, order, code, funcs, lines)
    requires DescribedMain(main) && AllDescribed(t, order) && |code| < 0x1_0000_0000
    requires j < |order|
    ensures
      var fun := t.functions[order[j]];
      var n := |main.lineInfo| + LineCount(t, order[..j]);
      && order[j] in linked
      && n + |fun.lineInfo| <= |lines|
      && lines[n..n + |fun.lineInfo|] == RebasedLines(fun.lineInfo, linked[order[j]])
      && LinesIn(lines[n..n + |fun.lineInfo|], linked[order[j]], linked[order[j]] + |fun.instructions|)
  {
    hide LinkedFuncs, BlockSettled, Tiled, TotalSize, RebasedLines, LinkedLines;
    var base := |main.instructions|;
    var fun := t.functions[order[j]];
    assert order[j] in linked && linked[order[j]] == base + TotalSize(t, order[..j]) by {
      BlockStarts(t, linked, order, base, |code|, j);
    }
    assert linked[order[j]] + BodySize(t, order[j]) <= |code| by {
      TiledSize(t, linked, order, base, |code|);
      TotalSizeStep(t, order, j);
    }
    LinkedLinesAt(t, base, order, j);
    assert Described(fun);
    RebasedLinesFit(fun, linked[order[j]]);
    var n, m := LineCount(t, order[..j]), |main.lineInfo|;
    assert lines[m + n..m + n + |fun.lineInfo|] == LinkedLines(t, base, order)[n..n + |fun.lineInfo|];
  }
}
