/** The message text file: a row of sections, each a table and 2048 blocks,
    with one section table cached in memory while a file is open. */
module MessageFile {
  import opened Gat
  import opened MessageText

  type Blocks = b: seq<Block> | |b| == ELEMENTS witness seq(2048, i => seq(512, j => 0 as char))

  datatype Section = Section(gat: Table, blocks: Blocks)

  /** A section that was never written reads as zeros. */
  function EmptySection(): Section {
    Section(EmptyTable(), seq(ELEMENTS, i => ZeroBlock()))
  }

  type Sections = seq<Section>

  /** How a message is stored, and where. */
  datatype MessageRec = MessageRec(storageType: nat, storedAs: nat)

  const EMAIL_STORAGE: nat := 2
  const MAX_SECTIONS: nat := 1024
  // Byte offsets are 32-bit; a later section's offset would overflow.
  const LAST_SECTION: nat := 2040
  // savefile keeps its block list, with the end mark, in 128 entries.
  const MAX_BLOCKS: nat := 127

  datatype Option<+T> = None | Some(value: T)

  // --------------------------------------------------- where the bytes lie

  const GAT_SECTION_SIZE: nat := 2 * ELEMENTS
  const GATSECLEN: nat := GAT_SECTION_SIZE + ELEMENTS * BLOCK_SIZE

  function TableStart(k: nat): nat {
    k * GATSECLEN
  }

  function BlockStart(k: nat, b: nat): nat {
    k * GATSECLEN + GAT_SECTION_SIZE + BLOCK_SIZE * b
  }

  /** No two tables or blocks overlap in the file, and a section's last block
      ends where the next section's table starts, so that writing blocks never
      leaves half a table behind.  Table offsets fit a signed 32-bit number up to
      section 2040, block offsets up to block 55 of that section. */
  lemma {:induction false} BytesApart(k: nat, b: nat, k': nat, b': nat)
    requires b < ELEMENTS && b' < ELEMENTS
    ensures TableStart(k) + GAT_SECTION_SIZE <= BlockStart(k, b)
    ensures BlockStart(k, b) + BLOCK_SIZE <= TableStart(k + 1)
    ensures BlockStart(k, ELEMENTS - 1) + BLOCK_SIZE == TableStart(k + 1)
    ensures k < k' ==> BlockStart(k, b) + BLOCK_SIZE <= TableStart(k')
    ensures (k, b) != (k', b') ==> BlockStart(k, b) + BLOCK_SIZE <= BlockStart(k', b')
                                   || BlockStart(k', b') + BLOCK_SIZE <= BlockStart(k, b)
    ensures k <= LAST_SECTION <==> TableStart(k) + GAT_SECTION_SIZE <= 0x7fff_ffff
    ensures k < LAST_SECTION || (k == LAST_SECTION && b < 56) <==> BlockStart(k, b) <= 0x7fff_ffff
  {
    if k < k' {
      assert (k + 1) * GATSECLEN <= k' * GATSECLEN;
    } else if k' < k {
      assert (k' + 1) * GATSECLEN <= k * GATSECLEN;
    }
  }

  // ------------------------------------------------- what the file becomes

  /** Opening creates a missing file with one empty section. */
  function Opened(secs: Sections): Sections {
    if secs == [] then [EmptySection()] else secs
  }

  /** Moving to section `k` lengthens a shorter file; the new tables are empty. */
  function Grown(secs: Sections, k: nat): Sections {
    if k < |secs| then secs else secs + seq(k + 1 - |secs|, i => EmptySection())
  }

  ghost function WriteBlocks(bs: Blocks, c: seq<nat>, data: seq<Block>): Blocks
    requires InTable(c) && |c| == |data|
    decreases |c|
  {
    if c == [] then bs else WriteBlocks(bs[c[0] := data[0]], c[1..], data[1..])
  }

  ghost function Stored(s: Section, c: seq<nat>, data: seq<Block>): Section
    requires InTable(c) && |c| == |data|
  {
    Section(Link(s.gat, c), WriteBlocks(s.blocks, c, data))
  }

  datatype SaveResult = SaveResult(sections: Sections, storedAs: nat)

  /** Saving, from the section loop's k-th turn on; `stale` is what the block
      list holds in front when no section has had room so far. */
  ghost function SaveFrom(secs: Sections, text: string, k: nat, stale: nat): SaveResult
    requires k <= MAX_SECTIONS
    decreases MAX_SECTIONS - k
  {
    if k == MAX_SECTIONS then SaveResult(secs, stale + (MAX_SECTIONS - 1) * ELEMENTS)
    else
      var g := Grown(secs, k);
      var c := FirstFree(g[k].gat, 1, BlocksNeeded(text));
      if |c| == BlocksNeeded(text) then
        SaveResult(g[k := Stored(g[k], c, TextBlocks(text))], (if c == [] then END else c[0]) + k * ELEMENTS)
      else
        SaveFrom(g, text, k + 1, if c == [] then stale else c[0])
  }

  ghost function Saved(secs: Sections, text: string): SaveResult {
    SaveFrom(Opened(secs), text, 0, 0)
  }

  ghost function Removed(secs: Sections, a: nat): Sections {
    var g := Grown(Opened(secs), a / ELEMENTS);
    g[a / ELEMENTS := g[a / ELEMENTS].(gat := Unlink(g[a / ELEMENTS].gat, a % ELEMENTS))]
  }

  /** The section an address lies in, as a reader finds it. */
  function SectionOf(secs: Sections, a: nat): Section {
    Grown(Opened(secs), a / ELEMENTS)[a / ELEMENTS]
  }

  function BlocksAt(bs: Blocks, c: seq<nat>): seq<Block>
    requires InTable(c)
  {
    seq(|c|, i requires 0 <= i < |c| => bs[c[i]])
  }

  lemma BlocksAtCons(bs: Blocks, b: nat, rest: seq<nat>)
    requires 0 < b < ELEMENTS && InTable(rest)
    ensures InTable([b] + rest)
    ensures BlocksAt(bs, [b] + rest) == [bs[b]] + BlocksAt(bs, rest)
    ensures Raw(BlocksAt(bs, [b] + rest)) == CStr(bs[b]) + Raw(BlocksAt(bs, rest))
  {
    assert ([bs[b]] + BlocksAt(bs, rest))[1..] == BlocksAt(bs, rest);
  }

  /** The characters on the chain from address `a`, before the final trim. */
  function RawText(secs: Sections, a: nat): string {
    var s := SectionOf(secs, a);
    Raw(BlocksAt(s.blocks, Path(s.gat, a % ELEMENTS, ELEMENTS)))
  }

  /** What reading address `a` returns. */
  function ReadOf(secs: Sections, a: nat): Option<string> {
    if a % ELEMENTS == 0 then None else Some(TrimCz(RawText(secs, a)))
  }

  /** The line copied over the end of block `last`, and spilled to block `new1`
      when it does not fit and that block exists. */
  function Spilled(s: Section, last: nat, new1: nat, line: string): Section
    requires last < ELEMENTS && new1 <= ELEMENTS
    requires FirstIndex(s.blocks[last], CZ) + |CStr(line)| <= 4 * BLOCK_SIZE
  {
    var b := Overlay(s.blocks[last], line);
    var written := s.blocks[last := b[..BLOCK_SIZE]];
    if FirstIndex(s.blocks[last], CZ) + |line| > BLOCK_SIZE && new1 != ELEMENTS then
      Section(Extend(s.gat, last, new1), written[new1 := b[BLOCK_SIZE..2 * BLOCK_SIZE]])
    else
      Section(s.gat, written)
  }

  /** What appending a line does to the section its message lies in. */
  function LineAppended(s: Section, h: nat, line: string): Section
    requires ReachesEnd(s.gat, h)
    requires FirstIndex(s.blocks[LastOf(s.gat, h)], CZ) + |CStr(line)| <= 4 * BLOCK_SIZE
  {
    Spilled(s, LastOf(s.gat, h), LowestFree(s.gat), line)
  }

  function FullLine(sx: string): string {
    sx + ['\r', '\n', CZ]
  }

  /** `a` is an address a line can be appended at: its chain ends, and the line
      fits the memory buffer behind the Control-Z of the last block. */
  predicate Appendable(secs: Sections, a: nat, sx: string) {
    var s := SectionOf(secs, a);
    && ReachesEnd(s.gat, a % ELEMENTS)
    && FirstIndex(s.blocks[LastOf(s.gat, a % ELEMENTS)], CZ) + |CStr(FullLine(sx))| <= 4 * BLOCK_SIZE
  }

  function LineAdded(secs: Sections, a: nat, sx: string): Sections
    requires Appendable(secs, a, sx)
  {
    var g := Grown(Opened(secs), a / ELEMENTS);
    g[a / ELEMENTS := LineAppended(g[a / ELEMENTS], a % ELEMENTS, FullLine(sx))]
  }

  // ----------------------------------------------------------- the file

  class File {
    // No sections: the file does not exist yet.
    var sections: Sections

    constructor ()
      ensures sections == []
    {
      sections := [];
    }
  }

  class MessageBase {
    const gat: array<Entry>
    var gatSection: int

    ghost predicate Valid() {
      gat.Length == ELEMENTS
    }

    /** The cached table is the table in the file. */
    ghost predicate Cached(f: File)
      reads this, gat, f
    {
      && gat.Length == ELEMENTS
      && 0 <= gatSection < |f.sections|
      && gat[..] == f.sections[gatSection].gat
    }

    constructor ()
      ensures Valid() && fresh(gat) && gatSection == -1
    {
      gat := new Entry[ELEMENTS](i => 0);
      gatSection := -1;
    }

    method ReadTable(t: Table)
      requires Valid()
      modifies gat
      ensures gat[..] == t
    {
      forall i | 0 <= i < ELEMENTS {
        gat[i] := t[i];
      }
    }

    method OpenMessageFile(f: File)
      requires Valid()
      modifies this, gat, f
      ensures f.sections == Opened(old(f.sections))
      ensures Cached(f) && gatSection == 0
    {
      if f.sections == [] {
        forall i | 0 <= i < ELEMENTS {
          gat[i] := 0;
        }
        assert gat[..] == EmptyTable();
        f.sections := [Section(gat[..], EmptySection().blocks)];
        gatSection := 0;
      }
      ReadTable(f.sections[0].gat);
      gatSection := 0;
    }

    method SetGatSection(f: File, section: nat)
      requires Cached(f) && section <= LAST_SECTION
      modifies this, gat, f
      ensures f.sections == Grown(old(f.sections), section)
      ensures Cached(f) && gatSection == section
    {
      if gatSection == section {
        return;
      }
      if section >= |f.sections| {
        forall i | 0 <= i < ELEMENTS {
          gat[i] := 0;
        }
        assert gat[..] == EmptyTable();
        f.sections := f.sections + seq(section - |f.sections|, i => EmptySection())
                      + [Section(gat[..], EmptySection().blocks)];
      } else {
        ReadTable(f.sections[section].gat);
      }
      gatSection := section;
    }

    method SaveGat(f: File)
      requires Valid() && 0 <= gatSection < |f.sections|
      modifies f
      ensures f.sections == old(f.sections)[gatSection := old(f.sections)[gatSection].(gat := gat[..])]
      ensures Cached(f)
    {
      f.sections := f.sections[gatSection := f.sections[gatSection].(gat := gat[..])];
    }

    /** Frees a message.  Terminates whatever the table holds. */
    method RemoveLink(msg: MessageRec, f: File)
      requires Valid() && msg.storedAs / ELEMENTS <= LAST_SECTION
      modifies this, gat, f
      ensures msg.storageType != EMAIL_STORAGE ==> f.sections == old(f.sections)
      ensures msg.storageType == EMAIL_STORAGE ==>
                f.sections == Removed(old(f.sections), msg.storedAs) && Cached(f)
    {
      if msg.storageType != EMAIL_STORAGE {
        return;
      }
      OpenMessageFile(f);
      SetGatSection(f, msg.storedAs / ELEMENTS);
      var current: nat := msg.storedAs % ELEMENTS;
      ghost var t: Table := gat[..];
      while 0 < current < ELEMENTS
        invariant gat.Length == ELEMENTS
        invariant Unlink(gat[..], current) == Unlink(t, msg.storedAs % ELEMENTS)
        modifies gat
        decreases Used(gat[..]), if current == 0 then 0 else 1
      {
        ghost var before: Table := gat[..];
        var next: nat := gat[current];
        if next != 0 {
          ZeroingShrinks(before, current);
        }
        gat[current] := 0;
        assert gat[..] == before[current := 0];
        assert next == 0 ==> gat[..] == before;
        current := next;
      }
      SaveGat(f);
    }

    /** The scan for free blocks: notes the first `required` free blocks in `gati`. */
    method FindFree(required: nat, gati: array<Entry>) returns (gatp: nat)
      requires Valid() && gati != gat && gati.Length == MAX_BLOCKS + 1 && required <= MAX_BLOCKS
      modifies gati
      ensures gatp <= required && gati[..gatp] == FirstFree(gat[..], 1, required)
      ensures forall k | gatp <= k < gati.Length :: gati[k] == old(gati[k])
    {
      hide FirstFree;
      ghost var t: Table := gat[..];
      gatp := 0;
      var i4: nat := 1;
      while gatp < required && i4 < ELEMENTS
        invariant gatp <= required && 1 <= i4 <= ELEMENTS
        invariant gati[..gatp] + FirstFree(t, i4, required - gatp) == FirstFree(t, 1, required)
        invariant forall k | gatp <= k < gati.Length :: gati[k] == old(gati[k])
      {
        FirstFreeNext(t, i4, required - gatp);
        if gat[i4] == 0 {
          ghost var done := gati[..gatp];
          gati[gatp] := i4;
          gatp := gatp + 1;
          assert gati[..gatp] == done + [i4];
        }
        i4 := i4 + 1;
      }
      FirstFreeEnd(t, i4, required - gatp);
    }

    /** Writes the chunks of `text` to the listed blocks of the current section
        and chains those blocks in the cached table. */
    method WriteChain(f: File, text: string, gati: array<Entry>, n: nat)
      requires Cached(f) && gati != gat && gati.Length == MAX_BLOCKS + 1
      requires n == BlocksNeeded(text) <= MAX_BLOCKS && gati[n] == END && InTable(gati[..n])
      modifies gat, f
      ensures gat[..] == Link(old(gat[..]), gati[..n])
      ensures f.sections == old(f.sections)[gatSection := Section(old(gat[..]),
                WriteBlocks(old(f.sections)[gatSection].blocks, gati[..n], TextBlocks(text)))]
    {
      ghost var c, data := gati[..n], TextBlocks(text);
      ghost var t: Table, bs := gat[..], f.sections[gatSection].blocks;
      ghost var now := bs;
      var i := 0;
      while i < n
        invariant 0 <= i <= n && gati[..n] == c && gati[n] == END
        invariant f.sections == old(f.sections)[gatSection := Section(t, now)]
        invariant Link(gat[..], c[i..]) == Link(t, c)
        invariant WriteBlocks(now, c[i..], data[i..]) == WriteBlocks(bs, c, data)
      {
        TextBlockAt(text, i);
        var remaining := if |text| - i * BLOCK_SIZE < BLOCK_SIZE then |text| - i * BLOCK_SIZE else BLOCK_SIZE;
        var block := Pad(text[i * BLOCK_SIZE..i * BLOCK_SIZE + remaining]);
        assert i * BLOCK_SIZE + remaining == ChunkEnd(text, i);
        assert gati[i] == c[i] && block == data[i];
        f.sections := f.sections[gatSection := f.sections[gatSection].(
          blocks := f.sections[gatSection].blocks[gati[i] := block])];
        now := now[c[i] := block];
        ghost var before: Table := gat[..];
        gat[gati[i]] := gati[i + 1];
        assert gati[i + 1] == Next(c[i..], 0);
        assert gat[..] == before[c[i] := Next(c[i..], 0)];
        assert c[i..][1..] == c[i + 1..] && data[i..][1..] == data[i + 1..];
        i := i + 1;
      }
    }

    /** One turn of the section loop: stores the text in this section if it has room. */
    method SaveInSection(text: string, f: File, section: nat, gati: array<Entry>) returns (done: bool)
      requires Cached(f) && section < MAX_SECTIONS
      requires BlocksNeeded(text) <= MAX_BLOCKS
      requires gati != gat && gati.Length == MAX_BLOCKS + 1
      modifies this, gat, f, gati
      ensures Cached(f) && gatSection == section
      ensures done ==> SaveFrom(old(f.sections), text, section, old(gati[0]))
                       == SaveResult(f.sections, gati[0] + section * ELEMENTS)
      ensures !done ==> SaveFrom(old(f.sections), text, section, old(gati[0]))
                        == SaveFrom(f.sections, text, section + 1, gati[0])
    {
      SetGatSection(f, section);
      var required := BlocksNeeded(text);
      ghost var c := FirstFree(gat[..], 1, required);
      var gatp := FindFree(required, gati);
      done := gatp >= required;
      if done {
        gati[gatp] := END;
        assert gati[..required] == c;
        WriteChain(f, text, gati, required);
        SaveGat(f);
        assert required == 0 ==> gati[0] == END;
        assert required > 0 ==> gati[0] == c[0];
      } else {
        assert gatp > 0 ==> gati[0] == c[0];
      }
    }

    /** Stores a text in the first section with room for it. */
    method SaveFile(text: string, msg: MessageRec, f: File) returns (m: MessageRec)
      requires Valid() && BlocksNeeded(text) <= MAX_BLOCKS
      modifies this, gat, f
      ensures msg.storageType != EMAIL_STORAGE ==> m == msg && f.sections == old(f.sections)
      ensures msg.storageType == EMAIL_STORAGE ==>
                && f.sections == Saved(old(f.sections), text).sections
                && m == msg.(storedAs := Saved(old(f.sections), text).storedAs)
                && Cached(f)
    {
      m := msg;
      if msg.storageType != EMAIL_STORAGE {
        return;
      }
      var gati := new Entry[MAX_BLOCKS + 1](i => 0);
      OpenMessageFile(f);
      ghost var goal := Saved(old(f.sections), text);
      var section := 0;
      while section < MAX_SECTIONS
        invariant 0 <= section <= MAX_SECTIONS && fresh(gati)
        invariant Cached(f) && (section > 0 ==> gatSection == section - 1)
        invariant SaveFrom(f.sections, text, section, gati[0]) == goal
      {
        var done := SaveInSection(text, f, section, gati);
        if done {
          break;
        }
        section := section + 1;
      }
      m := msg.(storedAs := gati[0] + gatSection * ELEMENTS);
    }

    /** The bytes on the chain from block `start`. */
    method MeasureChain(start: nat) returns (messageLength: nat)
      requires Valid() && Ends(gat[..], start)
      ensures messageLength == BLOCK_SIZE * |Path(gat[..], start, ELEMENTS)|
    {
      var current: nat := start;
      messageLength := 0;
      ghost var fuel := ELEMENTS;
      while 0 < current < ELEMENTS
        invariant Ends(gat[..], current, fuel)
        invariant messageLength + BLOCK_SIZE * |Path(gat[..], current, fuel)|
                  == BLOCK_SIZE * |Path(gat[..], start, ELEMENTS)|
        decreases fuel
      {
        messageLength := messageLength + BLOCK_SIZE;
        current := gat[current];
        fuel := fuel - 1;
      }
    }

    /** The characters on the chain from block `start`. */
    method ReadChain(f: File, start: nat) returns (out: string)
      requires Cached(f) && Ends(gat[..], start)
      ensures out == Raw(BlocksAt(f.sections[gatSection].blocks, Path(gat[..], start, ELEMENTS)))
    {
      out := "";
      var current: nat := start;
      ghost var fuel := ELEMENTS;
      ghost var bs := f.sections[gatSection].blocks;
      while 0 < current < ELEMENTS
        invariant Ends(gat[..], current, fuel)
        invariant out + Raw(BlocksAt(bs, Path(gat[..], current, fuel)))
                  == Raw(BlocksAt(bs, Path(gat[..], start, ELEMENTS)))
        decreases fuel
      {
        var b := f.sections[gatSection].blocks[current];
        ghost var rest := Path(gat[..], gat[current], fuel - 1);
        assert Path(gat[..], current, fuel) == [current] + rest;
        BlocksAtCons(bs, current, rest);
        ConcatAssoc(out, CStr(b), Raw(BlocksAt(bs, rest)));
        out := out + CStr(b);
        current := gat[current];
        fuel := fuel - 1;
      }
      assert Raw(BlocksAt(bs, Path(gat[..], current, fuel))) == "";
      assert out == out + "";
    }

    /** Reads a message back. */
    method ReadFile(msg: MessageRec, f: File) returns (o: Option<string>)
      requires Valid() && msg.storedAs / ELEMENTS <= LAST_SECTION
      requires msg.storageType == EMAIL_STORAGE ==>
                 Ends(SectionOf(f.sections, msg.storedAs).gat, msg.storedAs % ELEMENTS)
      modifies this, gat, f
      ensures msg.storageType != EMAIL_STORAGE ==> o == None && f.sections == old(f.sections)
      ensures msg.storageType == EMAIL_STORAGE ==>
                && f.sections == Grown(Opened(old(f.sections)), msg.storedAs / ELEMENTS)
                && o == ReadOf(old(f.sections), msg.storedAs) && Cached(f)
    {
      if msg.storageType != EMAIL_STORAGE {
        return None;
      }
      OpenMessageFile(f);
      SetGatSection(f, msg.storedAs / ELEMENTS);
      var start: nat := msg.storedAs % ELEMENTS;
      var messageLength := MeasureChain(start);
      if messageLength == 0 {
        return None;
      }
      var out := ReadChain(f, start);
      var lastCz := LastIndex(out, CZ);
      if lastCz >= 0 && |out| >= BLOCK_SIZE && lastCz > |out| - BLOCK_SIZE {
        out := out[..lastCz];
      }
      return Some(out);
    }

    method FindSpare() returns (new1: nat)
      requires Valid()
      ensures new1 == LowestFree(gat[..])
    {
      new1 := 1;
      while new1 < ELEMENTS && gat[new1] != 0
        invariant 1 <= new1 <= ELEMENTS
        invariant LowestFree(gat[..], new1) == LowestFree(gat[..])
      {
        new1 := new1 + 1;
      }
    }

    method FindLast(h: nat) returns (i: nat)
      requires Valid() && ReachesEnd(gat[..], h)
      ensures i == LastOf(gat[..], h)
    {
      i := h;
      ghost var fuel := ELEMENTS;
      while gat[i] != END
        invariant ReachesEnd(gat[..], i, fuel) && LastOf(gat[..], i, fuel) == LastOf(gat[..], h)
        decreases fuel
      {
        i := gat[i];
        fuel := fuel - 1;
      }
    }

    /** Copies a line over the Control-Z of a block, in a buffer of four blocks. */
    method CopyLine(block: Block, line: string) returns (b: array<char>, j: nat)
      requires FirstIndex(block, CZ) + |CStr(line)| <= 4 * BLOCK_SIZE
      ensures fresh(b) && b[..] == Overlay(block, line) && j == FirstIndex(block, CZ)
    {
      b := new char[4 * BLOCK_SIZE + 1](k => NUL);
      forall k | 0 <= k < BLOCK_SIZE {
        b[k] := block[k];
      }
      assert b[..] == block + seq(3 * BLOCK_SIZE + 1, k => NUL);
      j := 0;
      while j < BLOCK_SIZE && b[j] != CZ
        invariant 0 <= j <= BLOCK_SIZE
        invariant forall k | 0 <= k < j :: block[k] != CZ
      {
        j := j + 1;
      }
      var copied := CStr(line);
      forall k | 0 <= k < |copied| {
        b[j + k] := copied[k];
      }
      b[j + |copied|] := NUL;
    }

    /** Appends a line to a stored message. */
    method LineAdd(msg: MessageRec, sx: string, f: File)
      requires Valid() && msg.storedAs / ELEMENTS <= LAST_SECTION
      requires msg.storageType == EMAIL_STORAGE ==> Appendable(f.sections, msg.storedAs, sx)
      modifies this, gat, f
      ensures msg.storageType != EMAIL_STORAGE ==> f.sections == old(f.sections)
      ensures msg.storageType == EMAIL_STORAGE ==>
                f.sections == LineAdded(old(f.sections), msg.storedAs, sx) && Cached(f)
    {
      var line := FullLine(sx);
      if msg.storageType != EMAIL_STORAGE {
        return;
      }
      OpenMessageFile(f);
      SetGatSection(f, msg.storedAs / ELEMENTS);
      var new1 := FindSpare();
      var i := FindLast(msg.storedAs % ELEMENTS);
      AppendAt(f, i, new1, line);
    }

    /** Rewrites the last block `i` with the line and spills to block `new1`. */
    method AppendAt(f: File, i: nat, new1: nat, line: string)
      requires Cached(f) && i < ELEMENTS && 0 < new1 <= ELEMENTS
      requires FirstIndex(f.sections[gatSection].blocks[i], CZ) + |CStr(line)| <= 4 * BLOCK_SIZE
      modifies gat, f
      ensures f.sections == old(f.sections)[gatSection := Spilled(old(f.sections)[gatSection], i, new1, line)]
      ensures Cached(f)
    {
      var b, j := CopyLine(f.sections[gatSection].blocks[i], line);
      ghost var t: Table := gat[..];
      f.sections := f.sections[gatSection := f.sections[gatSection].(
        blocks := f.sections[gatSection].blocks[i := b[..BLOCK_SIZE]])];
      if j + |line| > BLOCK_SIZE && new1 != ELEMENTS {
        f.sections := f.sections[gatSection := f.sections[gatSection].(
          blocks := f.sections[gatSection].blocks[new1 := b[BLOCK_SIZE..2 * BLOCK_SIZE]])];
        gat[new1] := END;
        gat[i] := new1;
        assert gat[..] == Extend(t, i, new1);
        SaveGat(f);
      }
    }
  }
}
