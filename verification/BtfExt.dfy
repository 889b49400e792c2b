/**
 Reading .BTF.ext: three subsections, each a record size followed by blocks, one per ELF section; a
 block is a name offset, a count and that many records (Linux kernel, Documentation/bpf/btf.rst,
 section 4). Words are little-endian.
 */
module BtfExt {
  import opened Instructions
  import opened Btf
  import opened Words
  import L = Linker

  // ---------- blocks ----------

  datatype SecInfo = SecInfo(nameOffset: U32, numInfo: U32, data: seq<Byte>)

  datatype Item = Block(info: SecInfo) | Invalid

  /** The next block, and what is left; after an error nothing is left. */
  function NextOf(data: seq<Byte>, recSize: nat): (Option<Item>, seq<Byte>) {
    if data == [] then (None, [])
    else if |data| < 8 then (Some(Invalid), [])
    else
      var nameOffset, numInfo := WordAt(data), WordAt(data[4..]);
      if numInfo == 0 || recSize == 0 || |data| - 8 < recSize * numInfo then (Some(Invalid), [])
      else (Some(Block(SecInfo(nameOffset, numInfo, data[8..8 + recSize * numInfo]))), data[8 + recSize * numInfo..])
  }

  /** All blocks up to the end or the first error, and whether there was one. */
  function BlocksOf(data: seq<Byte>, recSize: nat): (seq<SecInfo>, bool)
    decreases |data|
  {
    match NextOf(data, recSize)
    case (None, _) => ([], true)
    case (Some(Invalid), _) => ([], false)
    case (Some(Block(info)), rest) =>
      assert |rest| < |data|;
      var (infos, complete) := BlocksOf(rest, recSize);
      ([info] + infos, complete)
  }

  /** Walks over the blocks of a subsection; an error ends the walk like the end does. */
  class SecInfoIter {
    var data: seq<Byte>
    const recSize: nat

    constructor (data: seq<Byte>, recSize: nat)
      ensures this.data == data && this.recSize == recSize
    {
      this.data, this.recSize := data, recSize;
    }

    method Next() returns (item: Option<Item>)
      modifies this`data
      ensures (item, data) == NextOf(old(data), recSize)
      ensures item.Some? ==> |data| < |old(data)|
      ensures item.None? || item.value.Invalid? ==> data == []
    {
      var remainder := data;
      data := [];
      if remainder == [] {
        return None;
      }
      if |remainder| < 8 {
        return Some(Invalid);
      }
      var nameOffset := WordAt(remainder);
      var numInfo := WordAt(remainder[4..]);
      if numInfo == 0 || recSize == 0 {
        return Some(Invalid);
      }
      var len := recSize * numInfo;
      assert len > 0;
      if |remainder| - 8 < len {
        return Some(Invalid);
      }
      data := remainder[8 + len..];
      item := Some(Block(SecInfo(nameOffset, numInfo, remainder[8..8 + len])));
    }

    /** Takes all blocks, or stops at the first error. */
    method Collect() returns (infos: seq<SecInfo>, complete: bool)
      modifies this`data
      ensures (infos, complete) == BlocksOf(old(data), recSize) && data == []
    {
      infos := [];
      NothingTaken(data, recSize);
      while true
        invariant BlocksOf(old(data), recSize) == Taken(infos, BlocksOf(data, recSize))
        decreases |data|
      {
        ghost var before := data;
        var item := Next();
        if item.None? {
          assert infos + [] == infos;
          return infos, true;
        }
        if item.value.Invalid? {
          assert infos + [] == infos;
          return infos, false;
        }
        OneTaken(infos, item.value.info, BlocksOf(data, recSize));
        infos := infos + [item.value.info];
      }
    }
  }

  function Taken(infos: seq<SecInfo>, rest: (seq<SecInfo>, bool)): (seq<SecInfo>, bool) {
    (infos + rest.0, rest.1)
  }

  lemma NothingTaken(data: seq<Byte>, recSize: nat)
    ensures BlocksOf(data, recSize) == Taken([], BlocksOf(data, recSize))
  {
    assert [] + BlocksOf(data, recSize).0 == BlocksOf(data, recSize).0;
  }

  lemma OneTaken(infos: seq<SecInfo>, info: SecInfo, rest: (seq<SecInfo>, bool))
    ensures Taken(infos, Taken([info], rest)) == Taken(infos + [info], rest)
  {
    assert infos + ([info] + rest.0) == infos + [info] + rest.0;
  }

  // ---------- blocks lose nothing ----------

  function BlockBytes(info: SecInfo): seq<Byte> {
    WordBytes(info.nameOffset) + WordBytes(info.numInfo) + info.data
  }

  function AllBytes(infos: seq<SecInfo>): seq<Byte> {
    if infos == [] then [] else BlockBytes(infos[0]) + AllBytes(infos[1..])
  }

  /** A block with its records whole. */
  predicate Whole(info: SecInfo, recSize: nat) {
    info.numInfo > 0 && recSize > 0 && |info.data| == recSize * info.numInfo
  }

  /** The bytes of a block are where it was read. */
  lemma BlockThere(data: seq<Byte>, recSize: nat)
    requires NextOf(data, recSize).0.Some? && NextOf(data, recSize).0.value.Block?
    ensures
      var info := NextOf(data, recSize).0.value.info;
      && Whole(info, recSize)
      && data == BlockBytes(info) + NextOf(data, recSize).1
  {
    hide WordAt, WordBytes;
    WordThere(data);
    WordThere(data[4..]);
    assert data[4..][..4] == data[4..8];
    var len := recSize * WordAt(data[4..]);
    assert data == data[..4] + data[4..8] + data[8..8 + len] + data[8 + len..];
  }

  /**
   The blocks that are yielded, one after the other, are the subsection itself, up to where an error
   ends it; without an error nothing is left over. Every block holds exactly its count of records.
   */
  lemma {:induction false} BlocksCover(data: seq<Byte>, recSize: nat) returns (rest: seq<Byte>)
    ensures
      var (infos, complete) := BlocksOf(data, recSize);
      && data == AllBytes(infos) + rest
      && (complete <==> rest == [])
      && (!complete ==> NextOf(rest, recSize) == (Some(Invalid), []))
      && forall info :: info in infos ==> Whole(info, recSize)
    decreases |data|
  {
    hide NextOf, BlockBytes;
    NextShape(data, recSize);
    match NextOf(data, recSize)
    case (None, _) =>
      rest := [];
    case (Some(Invalid), _) =>
      rest := data;
    case (Some(Block(info)), left) =>
      BlockThere(data, recSize);
      rest := BlocksCover(left, recSize);
      var infos := BlocksOf(left, recSize).0;
      assert ([info] + infos)[1..] == infos;
      assert BlockBytes(info) + (AllBytes(infos) + rest) == BlockBytes(info) + AllBytes(infos) + rest;
  }

  lemma NextShape(data: seq<Byte>, recSize: nat)
    ensures NextOf(data, recSize).0.None? <==> data == []
    ensures NextOf(data, recSize).0 == Some(Invalid) ==> NextOf(data, recSize).1 == []
    ensures NextOf(data, recSize).0.Some? && NextOf(data, recSize).0.value.Block? ==> |NextOf(data, recSize).1| < |data|
  {
  }

  /** Writing whole blocks and reading them gives them back. */
  lemma {:induction false} BlocksReadBack(infos: seq<SecInfo>, recSize: nat)
    requires forall info :: info in infos ==> Whole(info, recSize)
    ensures BlocksOf(AllBytes(infos), recSize) == (infos, true)
  {
    hide NextOf, BlockBytes, Whole;
    if infos == [] {
      NextShape([], recSize);
    } else {
      BlocksReadBack(infos[1..], recSize);
      BlockReadsBack(infos[0], AllBytes(infos[1..]), recSize);
      NextShape(AllBytes(infos), recSize);
      assert [infos[0]] + infos[1..] == infos;
    }
  }

  lemma BlockReadsBack(info: SecInfo, rest: seq<Byte>, recSize: nat)
    requires Whole(info, recSize)
    ensures NextOf(BlockBytes(info) + rest, recSize) == (Some(Block(info)), rest)
  {
    hide WordAt, WordBytes;
    var data := BlockBytes(info) + rest;
    assert data == WordBytes(info.nameOffset) + (WordBytes(info.numInfo) + info.data + rest);
    assert data[4..] == WordBytes(info.numInfo) + (info.data + rest);
    WordBack(info.nameOffset, WordBytes(info.numInfo) + info.data + rest);
    WordBack(info.numInfo, info.data + rest);
    assert data[8..8 + |info.data|] == info.data && data[8 + |info.data|..] == rest;
  }

  // ---------- records ----------

  /** Pieces of `size` bytes; the last may be shorter. */
  function Chunks(data: seq<Byte>, size: nat): seq<seq<Byte>>
    requires size > 0
  {
    if data == [] then []
    else if |data| <= size then [data]
    else [data[..size]] + Chunks(data[size..], size)
  }

  function Joined(pieces: seq<seq<Byte>>): seq<Byte> {
    if pieces == [] then [] else pieces[0] + Joined(pieces[1..])
  }

  /** The records of a whole block: as many as it says, none cut short, and together its data. */
  lemma {:induction false} ChunksExact(data: seq<Byte>, size: nat, n: nat)
    requires size > 0 && |data| == size * n
    ensures |Chunks(data, size)| == n
    ensures forall c :: c in Chunks(data, size) ==> |c| == size
    ensures Joined(Chunks(data, size)) == data
    decreases n
  {
    if n > 0 {
      assert size * n == size * (n - 1) + size;
      if n == 1 {
        assert Chunks(data, size) == [data];
        assert data + Joined([]) == data;
      } else {
        ManyBytes(size, n - 1);
        ChunksExact(data[size..], size, n - 1);
        assert Chunks(data, size)[1..] == Chunks(data[size..], size);
        assert data[..size] + data[size..] == data;
      }
    }
  }

  lemma ManyBytes(size: nat, n: nat)
    requires size > 0 && n > 0
    ensures size * n > 0
  {
  }

  const FUNC_RECORD: nat := 8
  const LINE_RECORD: nat := 16
  const CORE_RECORD: nat := 16

  // A list of records with its count; the source keeps both.
  datatype Records<T> = Records(numInfo: U32, list: seq<T>)

  /** A func record: an instruction offset, given in bytes, and a type. */
  function FuncRecordOf(c: seq<Byte>): L.FuncRecord
    requires |c| >= FUNC_RECORD
  {
    L.FuncRecord(WordAt(c) / INS_SIZE, WordAt(c[4..]))
  }

  function LineRecordOf(c: seq<Byte>): L.LineRecord
    requires |c| >= LINE_RECORD
  {
    L.LineRecord(WordAt(c) / INS_SIZE, WordAt(c[4..]), WordAt(c[8..]), WordAt(c[12..]))
  }

  /** A func record that was written, with its offset in bytes, is read back, whatever a longer record has behind it. */
  lemma FuncRecordReadsBack(r: L.FuncRecord, more: seq<Byte>)
    requires r.insnOff * INS_SIZE < 0x1_0000_0000
    ensures FuncRecordOf(WordBytes(r.insnOff * INS_SIZE) + WordBytes(r.typeId) + more) == r
  {
    hide WordBytes, WordAt;
    var first, c := WordBytes(r.insnOff * INS_SIZE), WordBytes(r.insnOff * INS_SIZE) + WordBytes(r.typeId) + more;
    assert c == first + (WordBytes(r.typeId) + more) && c[4..] == WordBytes(r.typeId) + more;
    WordBack(r.insnOff * INS_SIZE, WordBytes(r.typeId) + more);
    WordBack(r.typeId, more);
  }

  /** The same for a line record. */
  lemma LineRecordReadsBack(r: L.LineRecord, more: seq<Byte>)
    requires r.insnOff * INS_SIZE < 0x1_0000_0000
    ensures
      LineRecordOf(WordBytes(r.insnOff * INS_SIZE) + WordBytes(r.fileNameOff) + WordBytes(r.lineOff) + WordBytes(r.lineCol) + more)
      == r
  {
    hide WordBytes, WordAt;
    var a, b, d := WordBytes(r.insnOff * INS_SIZE), WordBytes(r.fileNameOff), WordBytes(r.lineOff);
    var e := WordBytes(r.lineCol);
    var c := a + b + d + e + more;
    assert c == a + (b + d + e + more) && c[4..] == b + (d + e + more) && c[8..] == d + (e + more) && c[12..] == e + more;
    WordBack(r.insnOff * INS_SIZE, b + d + e + more);
    WordBack(r.fileNameOff, d + e + more);
    WordBack(r.lineOff, e + more);
    WordBack(r.lineCol, more);
  }

  /** The func records of a block; no record is too short to be read. */
  function FuncRecords(info: SecInfo, recSize: nat): (r: Records<L.FuncRecord>)
    requires Whole(info, recSize) && recSize >= FUNC_RECORD
    ensures r.numInfo == |r.list|
  {
    ChunksExact(info.data, recSize, info.numInfo);
    var chunks := Chunks(info.data, recSize);
    Records(info.numInfo, seq(|chunks|, i requires 0 <= i < |chunks| => assert chunks[i] in chunks; FuncRecordOf(chunks[i])))
  }

  function LineRecords(info: SecInfo, recSize: nat): (r: Records<L.LineRecord>)
    requires Whole(info, recSize) && recSize >= LINE_RECORD
    ensures r.numInfo == |r.list|
  {
    ChunksExact(info.data, recSize, info.numInfo);
    var chunks := Chunks(info.data, recSize);
    Records(info.numInfo, seq(|chunks|, i requires 0 <= i < |chunks| => assert chunks[i] in chunks; LineRecordOf(chunks[i])))
  }

  // ---------- the section ----------

  datatype ExtHeader = ExtHeader(hdrLen: U32, funcOff: U32, funcLen: U32, lineOff: U32, lineLen: U32, coreOff: U32, coreLen: U32)

  const HEADER_SIZE: nat := 32

  /** The header; fields that an older one does not have are zero. */
  function HeaderOf(data: seq<Byte>): Result<ExtHeader> {
    if |data| < 8 || |data| < WordAt(data[4..]) then Err(InvalidHeader)
    else
      var hdrLen := WordAt(data[4..]);
      var n := if hdrLen < HEADER_SIZE then hdrLen else HEADER_SIZE;
      var b := data[..n] + seq(HEADER_SIZE - n, _ => 0);
      Ok(ExtHeader(WordAt(b[4..]), WordAt(b[8..]), WordAt(b[12..]), WordAt(b[16..]), WordAt(b[20..]), WordAt(b[24..]), WordAt(b[28..])))
  }

  function HeaderBytes(magic: U32, h: ExtHeader): (r: seq<Byte>)
    ensures |r| == HEADER_SIZE
  {
    WordBytes(magic) + WordBytes(h.hdrLen) + WordBytes(h.funcOff) + WordBytes(h.funcLen)
    + WordBytes(h.lineOff) + WordBytes(h.lineLen) + WordBytes(h.coreOff) + WordBytes(h.coreLen)
  }

  /** A header, cut where it says it ends, is read back when nothing but zeros is cut off. */
  lemma HeaderReadsBack(magic: U32, h: ExtHeader, rest: seq<Byte>)
    requires 8 <= h.hdrLen
    requires forall i :: h.hdrLen <= i < HEADER_SIZE ==> HeaderBytes(magic, h)[i] == 0
    requires h.hdrLen <= HEADER_SIZE + |rest|
    ensures
      var n := if h.hdrLen < HEADER_SIZE then h.hdrLen else HEADER_SIZE;
      HeaderOf(HeaderBytes(magic, h)[..n] + rest) == Ok(h)
  {
    hide WordAt, WordBytes;
    var n := if h.hdrLen < HEADER_SIZE then h.hdrLen else HEADER_SIZE;
    var all := HeaderBytes(magic, h);
    var data := all[..n] + rest;
    WordsThere(magic, h);
    WordLocal(data[4..], all[4..]);
    assert data[..n] + seq(HEADER_SIZE - n, _ => 0) == all;
  }

  lemma WordsThere(magic: U32, h: ExtHeader)
    ensures
      var b := HeaderBytes(magic, h);
      && WordAt(b[4..]) == h.hdrLen && WordAt(b[8..]) == h.funcOff && WordAt(b[12..]) == h.funcLen
      && WordAt(b[16..]) == h.lineOff && WordAt(b[20..]) == h.lineLen && WordAt(b[24..]) == h.coreOff
      && WordAt(b[28..]) == h.coreLen
  {
    hide WordAt, WordBytes;
    var b := HeaderBytes(magic, h);
    WordInside(b, 4, h.hdrLen);
    WordInside(b, 8, h.funcOff);
    WordInside(b, 12, h.funcLen);
    WordInside(b, 16, h.lineOff);
    WordInside(b, 20, h.lineLen);
    WordInside(b, 24, h.coreOff);
    WordInside(b, 28, h.coreLen);
  }

  lemma WordInside(data: seq<Byte>, i: nat, w: U32)
    requires i + 4 <= |data| && data[i..i + 4] == WordBytes(w)
    ensures WordAt(data[i..]) == w
  {
    hide WordAt, WordBytes;
    WordBack(w, data[i + 4..]);
    assert data[i..] == WordBytes(w) + data[i + 4..];
  }

  lemma WordLocal(a: seq<Byte>, b: seq<Byte>)
    requires |a| >= 4 && |b| >= 4 && a[..4] == b[..4]
    ensures WordAt(a) == WordAt(b)
  {
    assert a[0] == a[..4][0] && a[1] == a[..4][1] && a[2] == a[..4][2] && a[3] == a[..4][3];
    assert b[0] == b[..4][0] && b[1] == b[..4][1] && b[2] == b[..4][2] && b[3] == b[..4][3];
  }

  /** The record size at the start of a subsection; zero when there is none. */
  function RecSize(data: seq<Byte>, hdrLen: nat, off: nat, len: nat, minimum: nat): Result<nat> {
    var start := hdrLen + off;
    if start + len > |data| then Err(InvalidInfo)
    else if len == 0 then Ok(0)
    else if len < 4 || WordAt(data[start..]) < minimum then Err(InvalidInfo)
    else Ok(WordAt(data[start..]))
  }

  /** The blocks of a subsection whose record size was read. */
  function InfoData(data: seq<Byte>, hdrLen: nat, off: nat, len: nat): seq<Byte>
    requires hdrLen + off + len <= |data| && (len > 0 ==> len >= 4)
  {
    var start := hdrLen + off;
    if len > 0 then data[start + 4..start + len] else []
  }

  /** Records by section name; a later block for a name replaces an earlier one. */
  function FuncsByName(strings: seq<Byte>, infos: seq<SecInfo>, recSize: nat): Result<map<Name, Records<L.FuncRecord>>>
    requires recSize >= FUNC_RECORD && forall info :: info in infos ==> Whole(info, recSize)
  {
    if infos == [] then Ok(map[])
    else
      match FuncsByName(strings, infos[..|infos| - 1], recSize)
      case Err(e) => Err(e)
      case Ok(named) =>
        match StringAt(strings, infos[|infos| - 1].nameOffset)
        case None => Err(InvalidStringOffset)
        case Some(name) => Ok(named[name := FuncRecords(infos[|infos| - 1], recSize)])
  }

  function LinesByName(strings: seq<Byte>, infos: seq<SecInfo>, recSize: nat): Result<map<Name, Records<L.LineRecord>>>
    requires recSize >= LINE_RECORD && forall info :: info in infos ==> Whole(info, recSize)
  {
    if infos == [] then Ok(map[])
    else
      match LinesByName(strings, infos[..|infos| - 1], recSize)
      case Err(e) => Err(e)
      case Ok(named) =>
        match StringAt(strings, infos[|infos| - 1].nameOffset)
        case None => Err(InvalidStringOffset)
        case Some(name) => Ok(named[name := LineRecords(infos[|infos| - 1], recSize)])
  }

  lemma InfosWhole(data: seq<Byte>, recSize: nat)
    ensures forall info :: info in BlocksOf(data, recSize).0 ==> Whole(info, recSize)
  {
  }

  /** The func records of a subsection. */
  function FuncsOf(strings: seq<Byte>, data: seq<Byte>, recSize: nat): Result<map<Name, Records<L.FuncRecord>>>
    requires recSize == 0 || recSize >= FUNC_RECORD
  {
    InfosWhole(data, recSize);
    var (infos, complete) := BlocksOf(data, recSize);
    if recSize == 0 then NoBlocks(data); if complete then Ok(map[]) else Err(InvalidInfo)
    else
      match FuncsByName(strings, infos, recSize)
      case Err(e) => Err(e)
      case Ok(named) => if complete then Ok(named) else Err(InvalidInfo)
  }

  lemma NoBlocks(data: seq<Byte>)
    ensures BlocksOf(data, 0).0 == []
  {
  }

  function LinesOf(strings: seq<Byte>, data: seq<Byte>, recSize: nat): Result<map<Name, Records<L.LineRecord>>>
    requires recSize == 0 || recSize >= LINE_RECORD
  {
    InfosWhole(data, recSize);
    var (infos, complete) := BlocksOf(data, recSize);
    if recSize == 0 then NoBlocks(data); if complete then Ok(map[]) else Err(InvalidInfo)
    else
      match LinesByName(strings, infos, recSize)
      case Err(e) => Err(e)
      case Ok(named) => if complete then Ok(named) else Err(InvalidInfo)
  }

  // The func and line records; the relocations stay as records of their section's name offset.
  datatype Ext = Ext(funcs: map<Name, Records<L.FuncRecord>>, lines: map<Name, Records<L.LineRecord>>,
                     relocations: seq<SecInfo>, relocationSize: nat)

  function ParseSpec(strings: seq<Byte>, data: seq<Byte>): Result<Ext> {
    match HeaderOf(data)
    case Err(e) => Err(e)
    case Ok(h) =>
      match (RecSize(data, h.hdrLen, h.funcOff, h.funcLen, FUNC_RECORD),
             RecSize(data, h.hdrLen, h.lineOff, h.lineLen, LINE_RECORD),
             RecSize(data, h.hdrLen, h.coreOff, h.coreLen, CORE_RECORD))
      case (Ok(funcSize), Ok(lineSize), Ok(coreSize)) =>
        (match FuncsOf(strings, InfoData(data, h.hdrLen, h.funcOff, h.funcLen), funcSize)
         case Err(e) => Err(e)
         case Ok(funcs) =>
           match LinesOf(strings, InfoData(data, h.hdrLen, h.lineOff, h.lineLen), lineSize)
           case Err(e) => Err(e)
           case Ok(lines) =>
             var (relocations, complete) := BlocksOf(InfoData(data, h.hdrLen, h.coreOff, h.coreLen), coreSize);
             if complete then Ok(Ext(funcs, lines, relocations, coreSize)) else Err(InvalidInfo))
      case _ => Err(InvalidInfo)
  }

  // ---------- what a section says ----------

  /** Nothing but these blocks, each whole. */
  ghost predicate MadeOf(data: seq<Byte>, infos: seq<SecInfo>, recSize: nat) {
    (forall info :: info in infos ==> Whole(info, recSize)) && data == AllBytes(infos)
  }

  /** The blocks read without an error are the only ones the bytes are made of. */
  lemma MadeOfBlocks(data: seq<Byte>, infos: seq<SecInfo>, recSize: nat)
    ensures BlocksOf(data, recSize) == (infos, true) <==> MadeOf(data, infos, recSize)
  {
    hide BlocksOf, NextOf, Whole, AllBytes;
    if MadeOf(data, infos, recSize) {
      BlocksReadBack(infos, recSize);
    }
    if BlocksOf(data, recSize) == (infos, true) {
      var rest := BlocksCover(data, recSize);
      assert AllBytes(infos) + [] == AllBytes(infos);
    }
  }

  /** A subsection where the header has it: absent, or a record size followed by whole blocks. */
  ghost predicate Subsection(data: seq<Byte>, hdrLen: nat, off: nat, len: nat, minimum: nat, recSize: U32,
                             infos: seq<SecInfo>)
  {
    var start := hdrLen + off;
    && start + len <= |data|
    && if len == 0 then recSize == 0 && infos == []
       else
         && recSize >= minimum
         && data[start..start + len] == WordBytes(recSize) + AllBytes(infos)
         && forall info :: info in infos ==> Whole(info, recSize)
  }

  lemma NoBytes(recSize: nat)
    ensures BlocksOf([], recSize) == ([], true)
  {
  }

  lemma SizeThenBlocks(data: seq<Byte>, start: nat, len: nat)
    requires 4 <= len && start + len <= |data|
    ensures data[start..start + len] == data[start..][..4] + data[start + 4..start + len]
  {
  }

  lemma SubsectionRead(data: seq<Byte>, hdrLen: nat, off: nat, len: nat, minimum: nat, recSize: U32, infos: seq<SecInfo>)
    ensures Subsection(data, hdrLen, off, len, minimum, recSize, infos) <==>
      && RecSize(data, hdrLen, off, len, minimum) == Ok(recSize)
      && BlocksOf(InfoData(data, hdrLen, off, len), recSize) == (infos, true)
  {
    hide WordAt, WordBytes, BlocksOf, Whole, AllBytes;
    var start := hdrLen + off;
    if start + len <= |data| && len == 0 {
      NoBytes(recSize);
    } else if start + len <= |data| && len >= 4 {
      var here, blocks := data[start..], data[start + 4..start + len];
      MadeOfBlocks(blocks, infos, recSize);
      WordThere(here);
      SizeThenBlocks(data, start, len);
      if data[start..start + len] == WordBytes(recSize) + AllBytes(infos) {
        assert here[..4] == data[start..start + len][..4] == WordBytes(recSize);
        assert here == WordBytes(recSize) + here[4..];
        WordBack(recSize, here[4..]);
        assert blocks == data[start..start + len][4..];
      }
    }
  }

  ghost predicate AllNamed(strings: seq<Byte>, infos: seq<SecInfo>) {
    forall info :: info in infos ==> StringAt(strings, info.nameOffset).Some?
  }

  /** The last block for the name. */
  ghost predicate LastFor(strings: seq<Byte>, infos: seq<SecInfo>, k: nat, name: Name) {
    && k < |infos| && StringAt(strings, infos[k].nameOffset) == Some(name)
    && forall j :: k < j < |infos| ==> StringAt(strings, infos[j].nameOffset) != Some(name)
  }

  /** Every name of a block, and no other, has the records of the last block for it. */
  ghost predicate FromLast<T>(strings: seq<Byte>, infos: seq<SecInfo>, records: SecInfo --> Records<T>,
                              named: map<Name, Records<T>>)
    requires forall info :: info in infos ==> records.requires(info)
  {
    && (forall name :: name in named ==> exists k: nat :: LastFor(strings, infos, k, name))
    && forall name, k: nat :: LastFor(strings, infos, k, name) ==> name in named && named[name] == records(infos[k])
  }

  function FuncReader(recSize: nat): SecInfo --> Records<L.FuncRecord> {
    info requires recSize >= FUNC_RECORD && Whole(info, recSize) => FuncRecords(info, recSize)
  }

  function LineReader(recSize: nat): SecInfo --> Records<L.LineRecord> {
    info requires recSize >= LINE_RECORD && Whole(info, recSize) => LineRecords(info, recSize)
  }

  /** One more block decides for its own name and for no other. */
  lemma LastForMore(strings: seq<Byte>, infos: seq<SecInfo>, info: SecInfo, k: nat, name: Name)
    ensures LastFor(strings, infos + [info], k, name) <==>
      if StringAt(strings, info.nameOffset) == Some(name) then k == |infos| else LastFor(strings, infos, k, name)
  {
    hide StringAt;
    var more := infos + [info];
    assert more[|infos|] == info;
    assert forall j :: 0 <= j < |infos| ==> more[j] == infos[j];
  }

  lemma FromLastMore<T>(strings: seq<Byte>, infos: seq<SecInfo>, info: SecInfo, records: SecInfo --> Records<T>,
                        named: map<Name, Records<T>>, name: Name)
    requires forall i :: i in infos ==> records.requires(i)
    requires records.requires(info) && FromLast(strings, infos, records, named)
    requires StringAt(strings, info.nameOffset) == Some(name)
    ensures FromLast(strings, infos + [info], records, named[name := records(info)])
  {
    hide StringAt, LastFor;
    var more, now := infos + [info], named[name := records(info)];
    forall other, k: nat
      ensures LastFor(strings, more, k, other) <==> if name == other then k == |infos| else LastFor(strings, infos, k, other)
    {
      LastForMore(strings, infos, info, k, other);
    }
    forall other | other in now
      ensures exists k :: LastFor(strings, more, k, other)
    {
      if other == name {
        assert LastFor(strings, more, |infos|, other);
      } else {
        var k :| LastFor(strings, infos, k, other);
        assert LastFor(strings, more, k, other);
      }
    }
    forall other, k: nat | LastFor(strings, more, k, other)
      ensures k < |more|
      ensures other in now && now[other] == records(more[k])
    {
      LastForInside(strings, more, k, other);
      if other != name {
        LastForInside(strings, infos, k, other);
      }
    }
  }

  lemma LastForInside(strings: seq<Byte>, infos: seq<SecInfo>, k: nat, name: Name)
    requires LastFor(strings, infos, k, name)
    ensures k < |infos|
  {
  }

  lemma {:induction false} FuncsByNameExact(strings: seq<Byte>, infos: seq<SecInfo>, recSize: nat)
    requires recSize >= FUNC_RECORD && forall info :: info in infos ==> Whole(info, recSize)
    ensures FuncsByName(strings, infos, recSize).Ok? <==> AllNamed(strings, infos)
    ensures FuncsByName(strings, infos, recSize).Ok? ==>
      FromLast(strings, infos, FuncReader(recSize), FuncsByName(strings, infos, recSize).value)
    decreases |infos|
  {
    hide StringAt, FuncRecords, FromLast, Whole;
    if infos == [] {
      NothingLast(strings, FuncReader(recSize));
    } else {
      var front, last := infos[..|infos| - 1], infos[|infos| - 1];
      assert infos == front + [last];
      FuncsByNameExact(strings, front, recSize);
      if AllNamed(strings, infos) {
        FromLastMore(strings, front, last, FuncReader(recSize), FuncsByName(strings, front, recSize).value,
                     StringAt(strings, last.nameOffset).value);
      }
    }
  }

  lemma NothingLast<T>(strings: seq<Byte>, records: SecInfo --> Records<T>)
    ensures FromLast(strings, [], records, map[])
  {
    assert forall k, name :: !LastFor(strings, [], k, name);
  }

  lemma {:induction false} LinesByNameExact(strings: seq<Byte>, infos: seq<SecInfo>, recSize: nat)
    requires recSize >= LINE_RECORD && forall info :: info in infos ==> Whole(info, recSize)
    ensures LinesByName(strings, infos, recSize).Ok? <==> AllNamed(strings, infos)
    ensures LinesByName(strings, infos, recSize).Ok? ==>
      FromLast(strings, infos, LineReader(recSize), LinesByName(strings, infos, recSize).value)
    decreases |infos|
  {
    hide StringAt, LineRecords, FromLast, Whole;
    if infos == [] {
      NothingLast(strings, LineReader(recSize));
    } else {
      var front, last := infos[..|infos| - 1], infos[|infos| - 1];
      assert infos == front + [last];
      LinesByNameExact(strings, front, recSize);
      if AllNamed(strings, infos) {
        FromLastMore(strings, front, last, LineReader(recSize), LinesByName(strings, front, recSize).value,
                     StringAt(strings, last.nameOffset).value);
      }
    }
  }

  /** Two maps that both hold the last records are the same. */
  lemma FromLastUnique<T>(strings: seq<Byte>, infos: seq<SecInfo>, records: SecInfo --> Records<T>,
                          a: map<Name, Records<T>>, b: map<Name, Records<T>>)
    requires forall i :: i in infos ==> records.requires(i)
    requires FromLast(strings, infos, records, a) && FromLast(strings, infos, records, b)
    ensures a == b
  {
    hide StringAt, LastFor;
    forall name | name in a || name in b
      ensures name in a && name in b && a[name] == b[name]
    {
      var k :| LastFor(strings, infos, k, name);
      LastForInside(strings, infos, k, name);
    }
    assert a.Keys == b.Keys;
  }

  // The parts a section is made of.
  datatype Parts = Parts(header: ExtHeader, funcSize: U32, funcInfos: seq<SecInfo>, lineSize: U32, lineInfos: seq<SecInfo>)

  /**
   The section has a header and three subsections where the header says, each record size big enough
   and each made of whole blocks; all func and line blocks have names, the func and line records are
   those of the last block for each name, and the relocations are the blocks themselves.
   */
  ghost predicate Says(strings: seq<Byte>, data: seq<Byte>, p: Parts, ext: Ext) {
    var h := p.header;
    && HeaderOf(data) == Ok(h)
    && Subsection(data, h.hdrLen, h.funcOff, h.funcLen, FUNC_RECORD, p.funcSize, p.funcInfos)
    && Subsection(data, h.hdrLen, h.lineOff, h.lineLen, LINE_RECORD, p.lineSize, p.lineInfos)
    && ext.relocationSize < 0x1_0000_0000
    && Subsection(data, h.hdrLen, h.coreOff, h.coreLen, CORE_RECORD, ext.relocationSize, ext.relocations)
    && AllNamed(strings, p.funcInfos) && AllNamed(strings, p.lineInfos)
    && FromLast(strings, p.funcInfos, FuncReader(p.funcSize), ext.funcs)
    && FromLast(strings, p.lineInfos, LineReader(p.lineSize), ext.lines)
  }

  /** Parsing gives exactly what the section says, and fails exactly when it says nothing. */
  lemma ParseExact(strings: seq<Byte>, data: seq<Byte>, ext: Ext)
    ensures ParseSpec(strings, data) == Ok(ext) <==> exists p :: Says(strings, data, p, ext)
  {
    hide Says;
    if ParseSpec(strings, data) == Ok(ext) {
      var p := SaysWhatIsParsed(strings, data, ext);
    }
    if p :| Says(strings, data, p, ext) {
      ParsedWhenSaid(strings, data, p, ext);
    }
  }

  lemma SaysWhatIsParsed(strings: seq<Byte>, data: seq<Byte>, ext: Ext) returns (p: Parts)
    requires ParseSpec(strings, data) == Ok(ext)
    ensures Says(strings, data, p, ext)
  {
    hide WordAt, BlocksOf, Subsection, FuncsOf, LinesOf, InfoData, FromLast, AllNamed, StringAt, HeaderOf;
    var h := HeaderOf(data).value;
    var funcSize, lineSize := RecSize(data, h.hdrLen, h.funcOff, h.funcLen, FUNC_RECORD).value,
                              RecSize(data, h.hdrLen, h.lineOff, h.lineLen, LINE_RECORD).value;
    var funcData, lineData := InfoData(data, h.hdrLen, h.funcOff, h.funcLen), InfoData(data, h.hdrLen, h.lineOff, h.lineLen);
    var funcInfos, lineInfos := BlocksOf(funcData, funcSize).0, BlocksOf(lineData, lineSize).0;
    p := Parts(h, funcSize, funcInfos, lineSize, lineInfos);
    FuncsOfExact(strings, funcData, funcSize, ext.funcs);
    LinesOfExact(strings, lineData, lineSize, ext.lines);
    SubsectionRead(data, h.hdrLen, h.funcOff, h.funcLen, FUNC_RECORD, funcSize, funcInfos);
    SubsectionRead(data, h.hdrLen, h.lineOff, h.lineLen, LINE_RECORD, lineSize, lineInfos);
    SubsectionRead(data, h.hdrLen, h.coreOff, h.coreLen, CORE_RECORD, ext.relocationSize, ext.relocations);
  }

  lemma ParsedWhenSaid(strings: seq<Byte>, data: seq<Byte>, p: Parts, ext: Ext)
    requires Says(strings, data, p, ext)
    ensures ParseSpec(strings, data) == Ok(ext)
  {
    hide WordAt, BlocksOf, Subsection, FuncsOf, LinesOf, InfoData, FromLast, AllNamed, StringAt, HeaderOf;
    var h := p.header;
    SubsectionRead(data, h.hdrLen, h.funcOff, h.funcLen, FUNC_RECORD, p.funcSize, p.funcInfos);
    SubsectionRead(data, h.hdrLen, h.lineOff, h.lineLen, LINE_RECORD, p.lineSize, p.lineInfos);
    SubsectionRead(data, h.hdrLen, h.coreOff, h.coreLen, CORE_RECORD, ext.relocationSize, ext.relocations);
    FuncsOfExact(strings, InfoData(data, h.hdrLen, h.funcOff, h.funcLen), p.funcSize, ext.funcs);
    LinesOfExact(strings, InfoData(data, h.hdrLen, h.lineOff, h.lineLen), p.lineSize, ext.lines);
  }

  lemma FuncsOfExact(strings: seq<Byte>, data: seq<Byte>, recSize: nat, named: map<Name, Records<L.FuncRecord>>)
    requires recSize == 0 || recSize >= FUNC_RECORD
    ensures forall info :: info in BlocksOf(data, recSize).0 ==> Whole(info, recSize)
    ensures FuncsOf(strings, data, recSize) == Ok(named) <==>
      var (infos, complete) := BlocksOf(data, recSize);
      complete && AllNamed(strings, infos) && FromLast(strings, infos, FuncReader(recSize), named)
  {
    hide BlocksOf, Whole, StringAt, FromLast, FuncRecords;
    InfosWhole(data, recSize);
    var (infos, complete) := BlocksOf(data, recSize);
    if recSize == 0 {
      NoBlocks(data);
      NothingLast(strings, FuncReader(recSize));
      if FromLast(strings, infos, FuncReader(recSize), named) {
        FromLastUnique(strings, infos, FuncReader(recSize), named, map[]);
      }
    } else {
      FuncsByNameExact(strings, infos, recSize);
      if FuncsByName(strings, infos, recSize).Ok? && FromLast(strings, infos, FuncReader(recSize), named) {
        FromLastUnique(strings, infos, FuncReader(recSize), named, FuncsByName(strings, infos, recSize).value);
      }
    }
  }

  lemma LinesOfExact(strings: seq<Byte>, data: seq<Byte>, recSize: nat, named: map<Name, Records<L.LineRecord>>)
    requires recSize == 0 || recSize >= LINE_RECORD
    ensures forall info :: info in BlocksOf(data, recSize).0 ==> Whole(info, recSize)
    ensures LinesOf(strings, data, recSize) == Ok(named) <==>
      var (infos, complete) := BlocksOf(data, recSize);
      complete && AllNamed(strings, infos) && FromLast(strings, infos, LineReader(recSize), named)
  {
    hide BlocksOf, Whole, StringAt, FromLast, LineRecords;
    InfosWhole(data, recSize);
    var (infos, complete) := BlocksOf(data, recSize);
    if recSize == 0 {
      NoBlocks(data);
      NothingLast(strings, LineReader(recSize));
      if FromLast(strings, infos, LineReader(recSize), named) {
        FromLastUnique(strings, infos, LineReader(recSize), named, map[]);
      }
    } else {
      LinesByNameExact(strings, infos, recSize);
      if LinesByName(strings, infos, recSize).Ok? && FromLast(strings, infos, LineReader(recSize), named) {
        FromLastUnique(strings, infos, LineReader(recSize), named, LinesByName(strings, infos, recSize).value);
      }
    }
  }

  method ParseFuncs(strings: seq<Byte>, data: seq<Byte>, recSize: nat) returns (r: Result<map<Name,
                    Records<L.FuncRecord>>>)
    requires recSize == 0 || recSize >= FUNC_RECORD
    ensures r == FuncsOf(strings, data, recSize)
  {
    hide StringAt, BlocksOf;
    var iter := new SecInfoIter(data, recSize);
    var infos, complete := iter.Collect();
    InfosWhole(data, recSize);
    NoBlocks(data);
    var named: map<Name, Records<L.FuncRecord>> := map[];
    for k := 0 to |infos|
      invariant recSize > 0 ==> FuncsByName(strings, infos[..k], recSize) == Ok(named)
      invariant recSize == 0 ==> named == map[]
    {
      assert infos[..k + 1][..k] == infos[..k];
      assert infos[k] in infos;
      var name := StringAt(strings, infos[k].nameOffset);
      if name.None? {
        FuncsFail(strings, infos, recSize, k + 1);
        return Err(InvalidStringOffset);
      }
      named := named[name.value := FuncRecords(infos[k], recSize)];
    }
    assert infos[..|infos|] == infos;
    r := if complete then Ok(named) else Err(InvalidInfo);
  }

  lemma {:induction false} FuncsFail(strings: seq<Byte>, infos: seq<SecInfo>, recSize: nat, k: nat)
    requires recSize >= FUNC_RECORD && forall info :: info in infos ==> Whole(info, recSize)
    requires k <= |infos| && FuncsByName(strings, infos[..k], recSize).Err?
    ensures FuncsByName(strings, infos, recSize) == FuncsByName(strings, infos[..k], recSize)
    decreases |infos|
  {
    hide StringAt, FuncRecords;
    if k == |infos| {
      assert infos[..k] == infos;
    } else {
      var shorter := infos[..|infos| - 1];
      assert shorter[..k] == infos[..k];
      FuncsFail(strings, shorter, recSize, k);
    }
  }

  method ParseLines(strings: seq<Byte>, data: seq<Byte>, recSize: nat) returns (r: Result<map<Name,
                    Records<L.LineRecord>>>)
    requires recSize == 0 || recSize >= LINE_RECORD
    ensures r == LinesOf(strings, data, recSize)
  {
    hide StringAt, BlocksOf;
    var iter := new SecInfoIter(data, recSize);
    var infos, complete := iter.Collect();
    InfosWhole(data, recSize);
    NoBlocks(data);
    var named: map<Name, Records<L.LineRecord>> := map[];
    for k := 0 to |infos|
      invariant recSize > 0 ==> LinesByName(strings, infos[..k], recSize) == Ok(named)
      invariant recSize == 0 ==> named == map[]
    {
      assert infos[..k + 1][..k] == infos[..k];
      assert infos[k] in infos;
      var name := StringAt(strings, infos[k].nameOffset);
      if name.None? {
        LinesFail(strings, infos, recSize, k + 1);
        return Err(InvalidStringOffset);
      }
      named := named[name.value := LineRecords(infos[k], recSize)];
    }
    assert infos[..|infos|] == infos;
    r := if complete then Ok(named) else Err(InvalidInfo);
  }

  lemma {:induction false} LinesFail(strings: seq<Byte>, infos: seq<SecInfo>, recSize: nat, k: nat)
    requires recSize >= LINE_RECORD && forall info :: info in infos ==> Whole(info, recSize)
    requires k <= |infos| && LinesByName(strings, infos[..k], recSize).Err?
    ensures LinesByName(strings, infos, recSize) == LinesByName(strings, infos[..k], recSize)
    decreases |infos|
  {
    hide StringAt, LineRecords;
    if k == |infos| {
      assert infos[..k] == infos;
    } else {
      var shorter := infos[..|infos| - 1];
      assert shorter[..k] == infos[..k];
      LinesFail(strings, shorter, recSize, k);
    }
  }

  /** Parses the section; subsections with a record size below the smallest known are refused. */
  method Parse(strings: seq<Byte>, data: seq<Byte>) returns (r: Result<Ext>)
    ensures r == ParseSpec(strings, data)
    ensures forall ext :: r == Ok(ext) <==> exists p :: Says(strings, data, p, ext)
  {
    hide FuncsOf, LinesOf, BlocksOf, HeaderOf, WordAt, Says;
    forall ext
      ensures ParseSpec(strings, data) == Ok(ext) <==> exists p :: Says(strings, data, p, ext)
    {
      ParseExact(strings, data, ext);
    }
    var header := HeaderOf(data);
    if header.Err? {
      return Err(header.error);
    }
    var h := header.value;
    var funcSize := RecSize(data, h.hdrLen, h.funcOff, h.funcLen, FUNC_RECORD);
    var lineSize := RecSize(data, h.hdrLen, h.lineOff, h.lineLen, LINE_RECORD);
    var coreSize := RecSize(data, h.hdrLen, h.coreOff, h.coreLen, CORE_RECORD);
    if funcSize.Err? || lineSize.Err? || coreSize.Err? {
      return Err(InvalidInfo);
    }
    var funcs := ParseFuncs(strings, InfoData(data, h.hdrLen, h.funcOff, h.funcLen), funcSize.value);
    if funcs.Err? {
      return Err(funcs.error);
    }
    var lines := ParseLines(strings, InfoData(data, h.hdrLen, h.lineOff, h.lineLen), lineSize.value);
    if lines.Err? {
      return Err(lines.error);
    }
    var iter := new SecInfoIter(InfoData(data, h.hdrLen, h.coreOff, h.coreLen), coreSize.value);
    var relocations, complete := iter.Collect();
    r := if complete then Ok(Ext(funcs.value, lines.value, relocations, coreSize.value)) else Err(InvalidInfo);
  }
}
