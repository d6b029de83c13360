/** What saving, removing, reading and appending promise about a message file
    as a whole: the shape of every table, the messages held, and their texts. */
module MessageStore {
  import opened Gat
  import opened MessageText
  import opened MessageFile

  ghost predicate WellFormedFile(secs: Sections) {
    && |secs| <= MAX_SECTIONS
    && forall k | 0 <= k < |secs| :: WellFormed(secs[k].gat)
  }

  /** A message starts at address `a`. */
  ghost predicate Holds(secs: Sections, a: nat) {
    a / ELEMENTS < |secs| && a % ELEMENTS in Chains(secs[a / ELEMENTS].gat)
  }

  // ------------------------------------------------- opening and growing

  /** The blocks of the message at `a`, first block first. */
  ghost function ChainAt(secs: Sections, a: nat): seq<nat>
    requires WellFormedFile(secs) && Holds(secs, a)
  {
    Chains(secs[a / ELEMENTS].gat)[a % ELEMENTS]
  }

  lemma ChainAtIsChain(secs: Sections, a: nat)
    requires WellFormedFile(secs) && Holds(secs, a)
    ensures IsChain(secs[a / ELEMENTS].gat, ChainAt(secs, a)) && ChainAt(secs, a)[0] == a % ELEMENTS
    ensures InTable(ChainAt(secs, a))
    ensures Path(secs[a / ELEMENTS].gat, a % ELEMENTS, ELEMENTS) == ChainAt(secs, a)
  {
    var t := secs[a / ELEMENTS].gat;
    assert WellFormed(t) && a % ELEMENTS in Chains(t);
  }

  lemma TextAt(secs: Sections, a: nat)
    requires WellFormedFile(secs) && Holds(secs, a)
    ensures InTable(ChainAt(secs, a)) && a % ELEMENTS > 0
    ensures RawText(secs, a) == Raw(BlocksAt(secs[a / ELEMENTS].blocks, ChainAt(secs, a)))
    ensures ReadOf(secs, a) == Some(TrimCz(RawText(secs, a)))
  {
    ChainAtIsChain(secs, a);
    assert SectionOf(secs, a) == secs[a / ELEMENTS];
  }

  /** Opening a file and moving to a section adds no message, loses none and
      changes no text. */
  lemma GrowingKeepsMessages(secs: Sections, k: nat)
    requires WellFormedFile(secs) && k < MAX_SECTIONS
    ensures WellFormedFile(Grown(Opened(secs), k))
    ensures forall a: nat :: Holds(Grown(Opened(secs), k), a) <==> Holds(secs, a)
    ensures forall a: nat | Holds(secs, a) :: RawText(Grown(Opened(secs), k), a) == RawText(secs, a)
  {
    EmptyWellFormed();
    var g := Grown(Opened(secs), k);
    assert forall i | |secs| <= i < |g| :: g[i] == EmptySection();
  }

  // --------------------------------------------------------------- framing

  lemma SameBlocks(bs: Blocks, bs': Blocks, c: seq<nat>)
    requires InTable(c) && forall b | b in c && b < ELEMENTS :: bs'[b] == bs[b]
    ensures BlocksAt(bs', c) == BlocksAt(bs, c)
  {
    assert forall i | 0 <= i < |c| :: c[i] in c;
  }

  /** A message whose chain and blocks are as before reads as before. */
  lemma SameText(secs: Sections, secs': Sections, a: nat)
    requires WellFormedFile(secs) && WellFormedFile(secs') && Holds(secs, a) && Holds(secs', a)
    requires ChainAt(secs', a) == ChainAt(secs, a)
    requires forall b | b in ChainAt(secs, a) && b < ELEMENTS ::
               secs'[a / ELEMENTS].blocks[b] == secs[a / ELEMENTS].blocks[b]
    ensures RawText(secs', a) == RawText(secs, a)
  {
    TextAt(secs, a);
    TextAt(secs', a);
    SameBlocks(secs[a / ELEMENTS].blocks, secs'[a / ELEMENTS].blocks, ChainAt(secs, a));
  }

  /** In section `s` the message at `h` has the chain and blocks it has in `s0`. */
  ghost predicate SameMessage(s0: Section, s: Section, h: nat) {
    && h in Chains(s0.gat) && h in Chains(s.gat)
    && Chains(s.gat)[h] == Chains(s0.gat)[h]
    && forall b | b in Chains(s0.gat)[h] && b < ELEMENTS :: s.blocks[b] == s0.blocks[b]
  }

  /** Replacing section `k` leaves the messages of the others alone, and keeps
      the text of each message of its own that it still has unchanged. */
  lemma ReplaceSection(secs: Sections, k: nat, s: Section, a: nat)
    requires WellFormedFile(secs) && k < |secs| && WellFormed(s.gat)
    ensures WellFormedFile(secs[k := s])
    ensures Holds(secs[k := s], a) <==> if a / ELEMENTS == k then a % ELEMENTS in Chains(s.gat) else Holds(secs, a)
    ensures Holds(secs, a) && (a / ELEMENTS == k ==> SameMessage(secs[k], s, a % ELEMENTS))
            ==> RawText(secs[k := s], a) == RawText(secs, a)
  {
    if Holds(secs, a) && (a / ELEMENTS == k ==> SameMessage(secs[k], s, a % ELEMENTS)) {
      SameText(secs, secs[k := s], a);
    }
  }

  lemma AddressParts(k: nat, h: nat)
    requires h < ELEMENTS
    ensures (k * ELEMENTS + h) / ELEMENTS == k && (k * ELEMENTS + h) % ELEMENTS == h
  {
  }

  // --------------------------------------------------------------- removing

  lemma RemoveAt(secs: Sections, a: nat, b: nat)
    requires WellFormedFile(secs) && Holds(secs, a)
    ensures WellFormedFile(Removed(secs, a))
    ensures Holds(Removed(secs, a), b) <==> Holds(secs, b) && b != a
    ensures Holds(secs, b) && b != a ==> RawText(Removed(secs, a), b) == RawText(secs, b)
  {
    hide WellFormed, Chains;
    var k, h := a / ELEMENTS, a % ELEMENTS;
    var s := secs[k].(gat := Unlink(secs[k].gat, h));
    UnlinkKeepsShape(secs[k].gat, h);
    assert Removed(secs, a) == secs[k := s];
    ReplaceSection(secs, k, s, b);
  }

  /** Removing a message removes that message and changes no other. */
  lemma RemoveKeepsOthers(secs: Sections, a: nat)
    requires WellFormedFile(secs) && Holds(secs, a)
    ensures WellFormedFile(Removed(secs, a))
    ensures forall b: nat :: Holds(Removed(secs, a), b) <==> Holds(secs, b) && b != a
    ensures forall b: nat | Holds(secs, b) && b != a :: RawText(Removed(secs, a), b) == RawText(secs, b)
  {
    RemoveAt(secs, a, a);
    forall b: nat
      ensures Holds(Removed(secs, a), b) <==> Holds(secs, b) && b != a
      ensures Holds(secs, b) && b != a ==> RawText(Removed(secs, a), b) == RawText(secs, b)
    {
      RemoveAt(secs, a, b);
    }
  }

  /** Reading the address of a message just removed still finds its first block:
      a reader is not told that the message is gone. */
  lemma FreedReadsFirstBlock(secs: Sections, a: nat)
    requires WellFormedFile(secs) && Holds(secs, a)
    ensures ReadOf(Removed(secs, a), a) == Some(TrimCz(CStr(secs[a / ELEMENTS].blocks[a % ELEMENTS])))
  {
    hide WellFormed, Chains, CStr, TrimCz, Unlink;
    var k, h := a / ELEMENTS, a % ELEMENTS;
    TextAt(secs, a);
    UnlinkOnlyZeroes(secs[k].gat, h);
    var t := Unlink(secs[k].gat, h);
    assert SectionOf(Removed(secs, a), a) == secs[k].(gat := t);
    FreeBlockText(t, secs[k].blocks, h);
  }

  lemma FreeBlockText(t: Table, bs: Blocks, h: nat)
    requires 0 < h < ELEMENTS && t[h] == 0
    ensures Raw(BlocksAt(bs, Path(t, h, ELEMENTS))) == CStr(bs[h])
  {
    hide CStr;
    assert Path(t, h, ELEMENTS) == [h] + Path(t, 0, ELEMENTS - 1) == [h];
    BlocksAtCons(bs, h, []);
    assert [h] + [] == [h];
    assert Raw(BlocksAt(bs, [])) == "";
    assert CStr(bs[h]) + "" == CStr(bs[h]);
  }

  // ----------------------------------------------------------------- saving

  lemma {:induction false} WriteBlocksEffect(bs: Blocks, c: seq<nat>, data: seq<Block>)
    requires InTable(c) && Increasing(c) && |c| == |data|
    ensures forall b | 0 <= b < ELEMENTS && b !in c :: WriteBlocks(bs, c, data)[b] == bs[b]
    ensures BlocksAt(WriteBlocks(bs, c, data), c) == data
    decreases |c|
  {
    if c != [] {
      var bs' := bs[c[0] := data[0]];
      var d := c[1..];
      WriteBlocksEffect(bs', d, data[1..]);
      var r := WriteBlocks(bs, c, data);
      assert r == WriteBlocks(bs', d, data[1..]);
      assert c == [c[0]] + d && c[0] !in d;
      BlocksAtCons(r, c[0], d);
      assert data == [data[0]] + data[1..];
    }
  }

  /** Section `k` has, or will have when the file is lengthened, `n` free blocks. */
  predicate RoomAt(secs: Sections, n: nat, k: nat) {
    k >= |secs| || HasRoom(secs[k].gat, n)
  }

  /** The first section from `k` on with room for `n` blocks, or 1024. */
  function FirstRoomy(secs: Sections, n: nat, k: nat): (j: nat)
    requires k <= MAX_SECTIONS
    ensures k <= j <= MAX_SECTIONS
    ensures j < MAX_SECTIONS ==> RoomAt(secs, n, j)
    ensures forall i | k <= i < j :: !RoomAt(secs, n, i)
    decreases MAX_SECTIONS - k
  {
    if k == MAX_SECTIONS || RoomAt(secs, n, k) then k else FirstRoomy(secs, n, k + 1)
  }

  /** Some section can take the text. */
  predicate CanSave(secs: Sections, text: string) {
    FirstRoomy(Opened(secs), BlocksNeeded(text), 0) < MAX_SECTIONS
  }

  /** A text can be saved exactly when the file may still get another section
      or some section has enough free blocks. */
  lemma CanSaveIff(secs: Sections, text: string)
    requires |secs| <= MAX_SECTIONS
    ensures CanSave(secs, text) <==>
              || |Opened(secs)| < MAX_SECTIONS
              || exists k | 0 <= k < |Opened(secs)| :: |FreeBlocks(Opened(secs)[k].gat)| >= BlocksNeeded(text)
  {
    hide FirstRoomy, HasRoom, FreeBlocks;
    var o, n := Opened(secs), BlocksNeeded(text);
    var j := FirstRoomy(o, n, 0);
    forall k | 0 <= k < |o| ensures RoomAt(o, n, k) <==> |FreeBlocks(o[k].gat)| >= n {
      HasRoomIff(o[k].gat, n);
    }
    if j < MAX_SECTIONS {
      assert RoomAt(o, n, j);
    } else {
      assert |o| < MAX_SECTIONS ==> RoomAt(o, n, |o|);
    }
  }

  lemma {:induction false} EmptyHasRoom(from: nat, n: nat)
    requires 1 <= from <= ELEMENTS && n <= ELEMENTS - from
    ensures |FirstFree(EmptyTable(), from, n)| == n
    decreases n
  {
    if n > 0 {
      EmptyHasRoom(from + 1, n - 1);
    }
  }

  /** The blocks a save into section `j` uses. */
  function SaveChain(secs: Sections, text: string, j: nat): (c: seq<nat>)
    ensures InTable(c)
  {
    FirstFree(Grown(secs, j)[j].gat, 1, BlocksNeeded(text))
  }

  lemma GrownAt(secs: Sections, k: nat)
    ensures if k < |secs| then Grown(secs, k) == secs else Grown(secs, k)[k].gat == EmptyTable()
  {
  }

  /** Allocation is first fit and complete: a save goes to the lowest section
      with enough free blocks, and changes no table when there is none. */
  lemma {:induction false} SaveIsFirstFit(secs: Sections, text: string, k: nat, stale: nat)
    requires k <= MAX_SECTIONS && |secs| <= MAX_SECTIONS && BlocksNeeded(text) <= MAX_BLOCKS
    ensures var j := FirstRoomy(secs, BlocksNeeded(text), k);
            var r := SaveFrom(secs, text, k, stale);
            if j == MAX_SECTIONS then r.sections == secs
            else
              var c := SaveChain(secs, text, j);
              && |c| == BlocksNeeded(text)
              && r.sections == Grown(secs, j)[j := Stored(Grown(secs, j)[j], c, TextBlocks(text))]
              && r.storedAs == (if c == [] then END else c[0]) + j * ELEMENTS
    decreases MAX_SECTIONS - k
  {
    hide FirstFree, Stored, TextBlocks, BlocksNeeded, Grown;
    if k < MAX_SECTIONS {
      GrownAt(secs, k);
      EmptyHasRoom(1, BlocksNeeded(text));
      if !RoomAt(secs, BlocksNeeded(text), k) {
        var c := FirstFree(secs[k].gat, 1, BlocksNeeded(text));
        SaveIsFirstFit(secs, text, k + 1, if c == [] then stale else c[0]);
      }
    }
  }

  /** The text of a non-empty save that finds room lands at a fresh address. */
  lemma SaveInto(secs: Sections, text: string, j: nat, b: nat)
    requires WellFormedFile(secs) && text != "" && j < |secs| && |SaveChain(secs, text, j)| == BlocksNeeded(text)
    ensures var c := SaveChain(secs, text, j);
            var s := Stored(secs[j], c, TextBlocks(text));
            var a := c[0] + j * ELEMENTS;
            && WellFormedFile(secs[j := s]) && !Holds(secs, a)
            && (Holds(secs[j := s], b) <==> Holds(secs, b) || b == a)
            && (Holds(secs, b) ==> RawText(secs[j := s], b) == RawText(secs, b))
            && RawText(secs[j := s], a) == Raw(TextBlocks(text))
  {
    hide WellFormed, Chains, SameMessage, Stored, Increasing, TextBlocks, Raw, FirstFree, RawText;
    var c, data := SaveChain(secs, text, j), TextBlocks(text);
    var s := Stored(secs[j], c, data);
    var a := c[0] + j * ELEMENTS;
    FirstFreeSpec(secs[j].gat, 1, BlocksNeeded(text));
    StoredSection(secs[j], c, data);
    AddressParts(j, c[0]);
    ReplaceSection(secs, j, s, b);
    ReplaceSection(secs, j, s, a);
    TextAt(secs[j := s], a);
  }

  /** Writing a new message into free blocks of a section. */
  lemma StoredSection(s0: Section, c: seq<nat>, data: seq<Block>)
    requires WellFormed(s0.gat) && c != [] && InTable(c) && Increasing(c) && |c| == |data|
    requires forall i | 0 <= i < |c| :: s0.gat[c[i]] == 0
    ensures WellFormed(Stored(s0, c, data).gat)
    ensures c[0] !in Chains(s0.gat) && Chains(Stored(s0, c, data).gat) == Chains(s0.gat)[c[0] := c]
    ensures forall h | h in Chains(s0.gat) :: SameMessage(s0, Stored(s0, c, data), h)
    ensures BlocksAt(Stored(s0, c, data).blocks, c) == data
  {
    LinkKeepsShape(s0.gat, c);
    WriteBlocksEffect(s0.blocks, c, data);
    forall h | h in Chains(s0.gat) ensures SameMessage(s0, Stored(s0, c, data), h) {
      ChainIsUsed(s0.gat, Chains(s0.gat)[h]);
    }
  }

  /** The section a save goes to. */
  function SaveSection(secs: Sections, text: string): nat {
    FirstRoomy(Opened(secs), BlocksNeeded(text), 0)
  }

  lemma SavedShape(secs: Sections, text: string)
    requires |secs| <= MAX_SECTIONS && text != "" && BlocksNeeded(text) <= MAX_BLOCKS && CanSave(secs, text)
    ensures var j := SaveSection(secs, text);
            var g := Grown(Opened(secs), j);
            var c := SaveChain(g, text, j);
            && j < MAX_SECTIONS && j < |g| && |c| == BlocksNeeded(text)
            && Saved(secs, text) == SaveResult(g[j := Stored(g[j], c, TextBlocks(text))], c[0] + j * ELEMENTS)
  {
    var j := SaveSection(secs, text);
    SaveIsFirstFit(Opened(secs), text, 0, 0);
    assert Grown(Grown(Opened(secs), j), j) == Grown(Opened(secs), j);
  }

  /** Saving a text for which there is room adds one message, at an address that
      was free, and changes no other; reading the address gives the text back. */
  lemma SaveStores(secs: Sections, text: string)
    requires WellFormedFile(secs) && text != "" && BlocksNeeded(text) <= MAX_BLOCKS && CanSave(secs, text)
    ensures var r := Saved(secs, text);
            && WellFormedFile(r.sections) && !Holds(secs, r.storedAs)
            && (forall b: nat :: Holds(r.sections, b) <==> Holds(secs, b) || b == r.storedAs)
            && (forall b: nat | Holds(secs, b) :: RawText(r.sections, b) == RawText(secs, b))
            && RawText(r.sections, r.storedAs) == Raw(TextBlocks(text))
            && ReadOf(r.sections, r.storedAs) == Some(ReadBack(text))
  {
    hide WellFormed, Chains, Stored, RawText, Saved, SaveChain, FirstFree, Grown, Holds, ReadBack;
    SavedShape(secs, text);
    var j := SaveSection(secs, text);
    var g := Grown(Opened(secs), j);
    GrowingKeepsMessages(secs, j);
    var r := Saved(secs, text);
    forall b: nat
      ensures Holds(r.sections, b) <==> Holds(secs, b) || b == r.storedAs
      ensures Holds(secs, b) ==> RawText(r.sections, b) == RawText(secs, b)
    {
      SaveInto(g, text, j, b);
    }
    SaveInto(g, text, j, r.storedAs);
    TextAt(r.sections, r.storedAs);
    ReadBackIs(text);
  }

  lemma ReadBackIs(text: string)
    ensures ReadBack(text) == TrimCz(Raw(TextBlocks(text)))
  {
  }

  /** Without room anywhere a save changes no section of the file. */
  lemma SaveWithoutRoom(secs: Sections, text: string)
    requires |secs| <= MAX_SECTIONS && BlocksNeeded(text) <= MAX_BLOCKS && !CanSave(secs, text)
    ensures Saved(secs, text).sections == secs
  {
    SaveIsFirstFit(Opened(secs), text, 0, 0);
  }

  /** An empty text takes no block: its address is 65535 whatever the file
      holds, which is the last block of section 31. */
  lemma EmptyTextAddress(secs: Sections)
    ensures Saved(secs, "") == SaveResult(Opened(secs), END)
  {
  }

  /** A save makes a new message that reads back as the very text exactly when
      the text is not empty, some section has room, the text holds no NUL, and it
      has no Control-Z where the reader cuts. */
  lemma SaveThenRead(secs: Sections, text: string)
    requires WellFormedFile(secs) && BlocksNeeded(text) <= MAX_BLOCKS
    ensures var r := Saved(secs, text);
            (!Holds(secs, r.storedAs) && Holds(r.sections, r.storedAs) && ReadOf(r.sections, r.storedAs) == Some(text))
            <==> (text != "" && CanSave(secs, text) && Free(text, NUL) && !CutsAtCz(text))
  {
    hide Holds, Saved, CanSave, ReadBack, CutsAtCz, ReadOf;
    if text == "" {
      EmptyTextAddress(secs);
      GrowingKeepsMessages(secs, 0);
      OpenedIsGrown(secs);
    } else if CanSave(secs, text) {
      SaveStores(secs, text);
      ReadBackExactlyWhen(text);
    } else {
      SaveWithoutRoom(secs, text);
    }
  }

  lemma OpenedIsGrown(secs: Sections)
    ensures Grown(Opened(secs), 0) == Opened(secs)
  {
  }

  /** Removing a message right after it was saved restores every table, entry
      for entry. */
  lemma RemoveUndoesSave(secs: Sections, text: string)
    requires WellFormedFile(secs) && text != "" && BlocksNeeded(text) <= MAX_BLOCKS && CanSave(secs, text)
    ensures var r := Saved(secs, text);
            var g := Grown(Opened(secs), r.storedAs / ELEMENTS);
            && |Removed(r.sections, r.storedAs)| == |g|
            && forall k | 0 <= k < |g| :: Removed(r.sections, r.storedAs)[k].gat == g[k].gat
  {
    hide WellFormed, Chains, Saved, WriteBlocks, Link, Unlink, FirstFree, FirstRoomy;
    SavedShape(secs, text);
    var j := SaveSection(secs, text);
    var g := Grown(Opened(secs), j);
    var c := SaveChain(g, text, j);
    FirstFreeSpec(g[j].gat, 1, BlocksNeeded(text));
    AddressParts(j, c[0]);
    UnlinkUndoesLink(g[j].gat, c);
  }

  // -------------------------------------------------------------- appending

  lemma LastOfChain(t: Table, h: nat)
    requires WellFormed(t) && h in Chains(t)
    ensures IsChain(t, Chains(t)[h]) && Chains(t)[h][0] == h && InTable(Chains(t)[h])
    ensures ReachesEnd(t, h) && LastOf(t, h) == Chains(t)[h][|Chains(t)[h]| - 1]
  {
    ChainLength(t, Chains(t)[h]);
    PathIsChain(t, Chains(t)[h], ELEMENTS);
  }

  ghost predicate OnlyChainOf(s0: Section, s: Section, h: nat) {
    && Chains(s.gat).Keys == Chains(s0.gat).Keys
    && forall k | k in Chains(s0.gat) && k != h :: SameMessage(s0, s, k)
  }

  /** Appending keeps the section's shape and every other message in it. */
  lemma SpilledSection(s: Section, h: nat, line: string)
    requires WellFormed(s.gat) && h in Chains(s.gat)
    requires ReachesEnd(s.gat, h) && FirstIndex(s.blocks[LastOf(s.gat, h)], CZ) + |CStr(line)| <= 4 * BLOCK_SIZE
    ensures WellFormed(LineAppended(s, h, line).gat)
    ensures OnlyChainOf(s, LineAppended(s, h, line), h)
  {
    hide WellFormed, Chains, CStr, Overlay;
    var s' := LineAppended(s, h, line);
    LastOfChain(s.gat, h);
    var new1 := LowestFree(s.gat);
    if s'.gat != s.gat {
      ExtendKeepsShape(s.gat, h, Chains(s.gat)[h], new1);
    }
    forall k | k in Chains(s.gat) && k != h ensures SameMessage(s, s', k) {
      SpilledElsewhere(s, h, k, line);
    }
  }

  lemma SpilledElsewhere(s: Section, h: nat, k: nat, line: string)
    requires WellFormed(s.gat) && h in Chains(s.gat) && k in Chains(s.gat) && k != h
    requires ReachesEnd(s.gat, h) && FirstIndex(s.blocks[LastOf(s.gat, h)], CZ) + |CStr(line)| <= 4 * BLOCK_SIZE
    ensures forall b | b in Chains(s.gat)[k] && b < ELEMENTS :: LineAppended(s, h, line).blocks[b] == s.blocks[b]
  {
    hide Chains, Path, Overlay, CStr, WellFormed, LastOf, ReachesEnd, LowestFree;
    LastOfChain(s.gat, h);
    ChainsApart(s.gat, h, k);
  }

  lemma ChainsApart(t: Table, h: nat, k: nat)
    requires WellFormed(t) && h in Chains(t) && k in Chains(t) && k != h
    ensures LowestFree(t) !in Chains(t)[k] || LowestFree(t) == ELEMENTS
    ensures forall b | b in Chains(t)[k] :: b !in Chains(t)[h]
    ensures forall b | b in Chains(t)[k] :: 1 <= b < ELEMENTS && t[b] != 0
  {
    hide Chains;
    ChainIsUsed(t, Chains(t)[k]);
    assert Disjoint(Chains(t)[h], Chains(t)[k]);
  }

  lemma RawSplitLast(bs: Blocks, d: seq<nat>, last: nat)
    requires InTable(d) && 0 < last < ELEMENTS
    ensures InTable(d + [last])
    ensures Raw(BlocksAt(bs, d + [last])) == Raw(BlocksAt(bs, d)) + CStr(bs[last])
  {
    RawConcat(BlocksAt(bs, d), [bs[last]]);
    assert BlocksAt(bs, d + [last]) == BlocksAt(bs, d) + [bs[last]];
    assert Raw([bs[last]]) == CStr(bs[last]) + Raw([]);
  }

  /** The text on the chain after a line was appended, from the text before. */
  function Appended(raw: string, body: string): string
    requires raw != ""
  {
    raw[..|raw| - 1] + body + [CZ]
  }

  /** The characters of a block chain: those before the last block, then its own. */
  lemma TextOfLast(s: Section, h: nat, d: seq<nat>, last: nat)
    requires WellFormed(s.gat) && h in Chains(s.gat) && Chains(s.gat)[h] == d + [last]
    ensures InTable(d) && 0 < last < ELEMENTS && last !in d && InTable(d + [last])
    ensures Raw(BlocksAt(s.blocks, d + [last])) == Raw(BlocksAt(s.blocks, d)) + CStr(s.blocks[last])
  {
    var c := d + [last];
    hide Chains;
    ChainFacts(s.gat, h);
    assert c[|d|] == last && forall i | 0 <= i < |d| :: c[i] == d[i];
    ChainDistinctAll(s.gat, c);
    RawSplitLast(s.blocks, d, last);
  }

  lemma ChainFacts(t: Table, h: nat)
    requires WellFormed(t) && h in Chains(t)
    ensures IsChain(t, Chains(t)[h]) && Chains(t)[h][0] == h && InTable(Chains(t)[h])
  {
  }

  lemma AppendedIs(pre: string, q: string, body: string)
    ensures pre + (q + [CZ]) != ""
    ensures Appended(pre + (q + [CZ]), body) == pre + (q + body + [CZ])
  {
    var raw := pre + (q + [CZ]);
    assert raw[..|raw| - 1] == pre + q;
  }

  /** The text of the message at `h` of a section. */
  ghost function TextIn(s: Section, h: nat): string
    requires WellFormed(s.gat) && h in Chains(s.gat)
  {
    ChainFacts(s.gat, h);
    Raw(BlocksAt(s.blocks, Chains(s.gat)[h]))
  }

  /** The last block of the message at `h` of a section. */
  ghost function LastBlock(s: Section, h: nat): Block
    requires WellFormed(s.gat) && h in Chains(s.gat)
  {
    ChainFacts(s.gat, h);
    s.blocks[Chains(s.gat)[h][|Chains(s.gat)[h]| - 1]]
  }

  /** The line fits the last block: only that block changes. */
  lemma AppendInBlock(s: Section, s': Section, h: nat, d: seq<nat>, last: nat, q: string, body: string, lo: Block)
    requires WellFormed(s.gat) && h in Chains(s.gat) && Chains(s.gat)[h] == d + [last]
    requires WellFormed(s'.gat) && h in Chains(s'.gat) && Chains(s'.gat)[h] == d + [last]
    requires last < ELEMENTS && s'.blocks == s.blocks[last := lo]
    requires CStr(s.blocks[last]) == q + [CZ] && CStr(lo) <= q + body + [CZ]
    ensures TextIn(s, h) != "" && LastBlock(s', h) == lo
    ensures TextIn(s', h) <= Appended(TextIn(s, h), body)
    ensures |TextIn(s', h)| == |TextIn(s, h)| - 1 - |q| + |CStr(lo)|
    ensures CStr(lo) == q + body + [CZ] ==> TextIn(s', h) == Appended(TextIn(s, h), body)
  {
    hide WellFormed, Chains, CStr, Raw;
    TextOfLast(s, h, d, last);
    TextOfLast(s', h, d, last);
    SameBlocks(s.blocks, s'.blocks, d);
    AppendedIs(Raw(BlocksAt(s.blocks, d)), q, body);
  }

  /** The line does not fit and a free block `new1` is chained for the rest. */
  lemma AppendSpill(s: Section, s': Section, h: nat, d: seq<nat>, last: nat, new1: nat,
                    q: string, body: string, lo: Block, hi: Block)
    requires WellFormed(s.gat) && h in Chains(s.gat) && Chains(s.gat)[h] == d + [last]
    requires WellFormed(s'.gat) && h in Chains(s'.gat) && Chains(s'.gat)[h] == (d + [last]) + [new1]
    requires last < ELEMENTS && new1 < ELEMENTS
    requires s'.blocks == s.blocks[last := lo][new1 := hi]
    requires CStr(s.blocks[last]) == q + [CZ]
    requires CStr(lo) + CStr(hi) == q + body + [CZ]
    ensures TextIn(s, h) != ""
    ensures TextIn(s', h) == Appended(TextIn(s, h), body) && LastBlock(s', h) == hi
  {
    hide WellFormed, Chains, CStr, Raw;
    TextOfLast(s, h, d, last);
    TextOfLast(s', h, d + [last], new1);
    assert last in d + [last] && forall b | b in d :: b in d + [last];
    RawSplitLast(s'.blocks, d, last);
    SameBlocks(s.blocks, s'.blocks, d);
    AppendedIs(Raw(BlocksAt(s.blocks, d)), q, body);
    ConcatAssoc(Raw(BlocksAt(s.blocks, d)), CStr(lo), CStr(hi));
  }

  /** The message at `a` ends in its last block's only Control-Z. */
  ghost predicate EndsMarked(secs: Sections, a: nat)
    requires WellFormedFile(secs) && Holds(secs, a)
  {
    EndsInCz(LastBlock(secs[a / ELEMENTS], a % ELEMENTS))
  }

  /** How many characters of the last block stand before its Control-Z. */
  ghost function Tail(secs: Sections, a: nat): nat
    requires WellFormedFile(secs) && Holds(secs, a)
  {
    FirstIndex(LastBlock(secs[a / ELEMENTS], a % ELEMENTS), CZ)
  }

  lemma AppendableWhen(secs: Sections, a: nat, sx: string)
    requires WellFormedFile(secs) && Holds(secs, a) && Tail(secs, a) + |sx| + 3 <= 4 * BLOCK_SIZE
    ensures Appendable(secs, a, sx)
    ensures LineAdded(secs, a, sx)
            == secs[a / ELEMENTS := LineAppended(secs[a / ELEMENTS], a % ELEMENTS, FullLine(sx))]
  {
    LastOfChain(secs[a / ELEMENTS].gat, a % ELEMENTS);
    assert SectionOf(secs, a) == secs[a / ELEMENTS];
  }

  /** In a well-formed file the walk to a message's last block ends exactly when
      the address is of an allocated block; from a free block it never does. */
  lemma AppendWalkEndsIff(secs: Sections, a: nat)
    requires WellFormedFile(secs)
    ensures var t := SectionOf(secs, a).gat;
            && (ReachesEnd(t, a % ELEMENTS) <==> t[a % ELEMENTS] != 0)
            && (t[a % ELEMENTS] == 0 ==> forall fuel: nat :: !ReachesEnd(t, a % ELEMENTS, fuel))
  {
    hide WellFormed, ReachesEnd;
    EmptyWellFormed();
    ReachesEndIff(SectionOf(secs, a).gat, a % ELEMENTS);
  }

  /** A save that finds no room may hand out the address of a free block: the
      last section's first free one, if it has any.  Appending there never ends. */
  lemma StaleAddressNeverEnds(secs: Sections, text: string, b: nat)
    requires WellFormedFile(secs) && BlocksNeeded(text) <= MAX_BLOCKS && !CanSave(secs, text)
    requires |secs| == MAX_SECTIONS && 0 < b < ELEMENTS && secs[MAX_SECTIONS - 1].gat[b] == 0
    ensures var a := Saved(secs, text).storedAs;
            var t := SectionOf(secs, a).gat;
            t[a % ELEMENTS] == 0 && forall fuel: nat :: !ReachesEnd(t, a % ELEMENTS, fuel)
  {
    hide WellFormed, FirstRoomy, FirstFree, ReachesEnd, BlocksNeeded;
    var n, last := BlocksNeeded(text), MAX_SECTIONS - 1;
    assert forall i | 0 <= i < MAX_SECTIONS :: !RoomAt(secs, n, i);
    assert !RoomAt(secs, n, last);
    var c := FirstFree(secs[last].gat, 1, n);
    FirstFreeSpec(secs[last].gat, 1, n);
    StaleFrom(secs, text, 0, 0);
    AddressParts(last, c[0]);
    AppendWalkEndsIff(secs, last * ELEMENTS + c[0]);
  }

  /** The block a save without room names: the lowest free one of the last
      section from `from` on that has any, or else `stale`. */
  ghost predicate NamesBlock(secs: Sections, from: nat, stale: nat, b: nat) {
    || (b == stale && forall k | from <= k < |secs| :: LowestFree(secs[k].gat) == ELEMENTS)
    || exists k | from <= k < |secs| ::
         && b == LowestFree(secs[k].gat) < ELEMENTS
         && forall j | k < j < |secs| :: LowestFree(secs[j].gat) == ELEMENTS
  }

  /** The address of a save without room: in the last section, the lowest free
      block of the last section that has a free one; block 0 when none has. */
  lemma StaleAddress(secs: Sections, text: string)
    requires |secs| == MAX_SECTIONS && BlocksNeeded(text) <= MAX_BLOCKS && !CanSave(secs, text)
    ensures exists b :: NamesBlock(secs, 0, 0, b) && Saved(secs, text).storedAs == (MAX_SECTIONS - 1) * ELEMENTS + b
  {
    hide FirstRoomy, FirstFree, BlocksNeeded, NamesBlock;
    assert forall i | 0 <= i < MAX_SECTIONS :: !RoomAt(secs, BlocksNeeded(text), i);
    assert !RoomAt(secs, BlocksNeeded(text), 0);
    var b := StaleBlock(secs, text, 0, 0);
  }

  lemma {:induction false} StaleBlock(secs: Sections, text: string, k: nat, stale: nat) returns (b: nat)
    requires k <= |secs| == MAX_SECTIONS && BlocksNeeded(text) > 0
    requires forall i | k <= i < MAX_SECTIONS :: !RoomAt(secs, BlocksNeeded(text), i)
    ensures NamesBlock(secs, k, stale, b)
    ensures SaveFrom(secs, text, k, stale).storedAs == (MAX_SECTIONS - 1) * ELEMENTS + b
    decreases MAX_SECTIONS - k
  {
    hide FirstFree, Stored, TextBlocks, BlocksNeeded, LowestFree;
    if k == MAX_SECTIONS {
      b := stale;
    } else {
      assert !RoomAt(secs, BlocksNeeded(text), k);
      var c := FirstFree(secs[k].gat, 1, BlocksNeeded(text));
      LowestIsFirst(secs[k].gat, BlocksNeeded(text));
      b := StaleBlock(secs, text, k + 1, if c == [] then stale else c[0]);
    }
  }

  lemma LowestIsFirst(t: Table, n: nat)
    requires n > 0
    ensures var c := FirstFree(t, 1, n);
            if c == [] then LowestFree(t) == ELEMENTS else c[0] == LowestFree(t) < ELEMENTS
  {
    hide FirstFree, LowestFree;
    FirstFreeSpec(t, 1, n);
    var c := FirstFree(t, 1, n);
    var b := LowestFree(t);
    if c != [] {
      assert t[c[0]] == 0 && b <= c[0] && t[b] == 0 && c[0] in c;
      if b in c {
        var i :| 0 <= i < |c| && c[i] == b;
        assert i == 0;
      }
    }
  }

  lemma {:induction false} StaleFrom(secs: Sections, text: string, k: nat, stale: nat)
    requires k < |secs| == MAX_SECTIONS && FirstFree(secs[MAX_SECTIONS - 1].gat, 1, BlocksNeeded(text)) != []
    requires forall i | k <= i < MAX_SECTIONS :: !RoomAt(secs, BlocksNeeded(text), i)
    ensures SaveFrom(secs, text, k, stale).storedAs
            == (MAX_SECTIONS - 1) * ELEMENTS + FirstFree(secs[MAX_SECTIONS - 1].gat, 1, BlocksNeeded(text))[0]
    decreases MAX_SECTIONS - k
  {
    hide FirstFree, Stored, TextBlocks, BlocksNeeded;
    assert !RoomAt(secs, BlocksNeeded(text), k);
    var c := FirstFree(secs[k].gat, 1, BlocksNeeded(text));
    if k + 1 < MAX_SECTIONS {
      StaleFrom(secs, text, k + 1, if c == [] then stale else c[0]);
    }
  }

  /** Appending a line keeps the set of messages, the shape of every table, and
      the text of every other message. */
  lemma AppendKeepsOthers(secs: Sections, a: nat, sx: string)
    requires WellFormedFile(secs) && Holds(secs, a) && Tail(secs, a) + |sx| + 3 <= 4 * BLOCK_SIZE
    ensures Appendable(secs, a, sx) && WellFormedFile(LineAdded(secs, a, sx))
    ensures forall b: nat :: Holds(LineAdded(secs, a, sx), b) <==> Holds(secs, b)
    ensures forall b: nat | Holds(secs, b) && b != a :: RawText(LineAdded(secs, a, sx), b) == RawText(secs, b)
  {
    hide WellFormed, Chains, RawText, LineAppended, LineAdded, Appendable, LastOf, ReachesEnd;
    var k, h := a / ELEMENTS, a % ELEMENTS;
    AppendableWhen(secs, a, sx);
    LastOfChain(secs[k].gat, h);
    var s' := LineAppended(secs[k], h, FullLine(sx));
    SpilledSection(secs[k], h, FullLine(sx));
    forall b: nat
      ensures Holds(secs[k := s'], b) <==> Holds(secs, b)
      ensures Holds(secs, b) && b != a ==> RawText(secs[k := s'], b) == RawText(secs, b)
    {
      ReplaceSection(secs, k, s', b);
    }
    ReplaceSection(secs, k, s', a);
  }

  /** A free block chained behind the last one. */
  lemma AppendBlock(s: Section, s': Section, h: nat, c: seq<nat>, new1: nat, hi: Block)
    requires WellFormed(s.gat) && h in Chains(s.gat) && Chains(s.gat)[h] == c
    requires WellFormed(s'.gat) && h in Chains(s'.gat) && Chains(s'.gat)[h] == c + [new1]
    requires new1 < ELEMENTS && s'.blocks == s.blocks[new1 := hi]
    ensures TextIn(s', h) == TextIn(s, h) + CStr(hi)
  {
    hide WellFormed, Chains, CStr, Raw;
    TextOfLast(s', h, c, new1);
    SameBlocks(s.blocks, s'.blocks, c);
  }

  /** Appending to a message whose last block has no Control-Z: the line goes to
      a new block, behind the whole text, or is lost when no block is free. */
  lemma AppendUnmarked(s: Section, h: nat, sx: string)
    requires WellFormed(s.gat) && h in Chains(s.gat) && FirstIndex(LastBlock(s, h), CZ) == BLOCK_SIZE
    requires Free(sx, NUL) && |sx| + 3 <= BLOCK_SIZE
    ensures ReachesEnd(s.gat, h) && LastBlock(s, h) == s.blocks[LastOf(s.gat, h)]
    ensures |CStr(FullLine(sx))| == |sx| + 3
    ensures var s' := LineAppended(s, h, FullLine(sx));
            && WellFormed(s'.gat) && h in Chains(s'.gat)
            && TextIn(s', h) ==
               if LowestFree(s.gat) < ELEMENTS then TextIn(s, h) + (sx + ['\r', '\n', CZ]) else TextIn(s, h)
  {
    hide WellFormed, Chains, CStr, Overlay, LastOf, ReachesEnd, LowestFree, Raw, FirstIndex, TextIn;
    LastOfChain(s.gat, h);
    var line, c, new1 := FullLine(sx), Chains(s.gat)[h], LowestFree(s.gat);
    FreeConcat(sx, ['\r', '\n', CZ], NUL);
    OverlayBehind(LastBlock(s, h), line);
    SpilledSection(s, h, line);
    var s' := LineAppended(s, h, line);
    var last := c[|c| - 1];
    assert s.blocks[last := s.blocks[last]] == s.blocks;
    if new1 < ELEMENTS {
      ExtendKeepsShape(s.gat, h, c, new1);
      AppendBlock(s, s', h, c, new1, Overlay(s.blocks[last], line)[BLOCK_SIZE..2 * BLOCK_SIZE]);
    } else {
      assert s' == s;
    }
  }

  /** The line has room: it fits the last block, or the section has a free block. */
  ghost predicate LineHasRoom(secs: Sections, a: nat, sx: string)
    requires WellFormedFile(secs) && Holds(secs, a)
  {
    Tail(secs, a) + |sx| + 3 <= BLOCK_SIZE || LowestFree(secs[a / ELEMENTS].gat) < ELEMENTS
  }

  /** How far the last block is filled when `n` characters fill one block or two. */
  function LastFill(n: nat): nat {
    if n < BLOCK_SIZE then n else n - BLOCK_SIZE
  }

  lemma FillOf(b: Block, y: string)
    requires EndsInCz(b) && CStr(b) == y + [CZ]
    ensures FirstIndex(b, CZ) == |y|
  {
    hide EndsInCz, CStr, FirstIndex;
    CStrEndsInCz(b);
    assert |CStr(b)| == |y| + 1;
  }

  lemma AppendText(s: Section, h: nat, body: string)
    requires WellFormed(s.gat) && h in Chains(s.gat) && EndsInCz(LastBlock(s, h))
    requires Free(body, NUL) && Free(body, CZ) && FirstIndex(LastBlock(s, h), CZ) + |body| + 1 <= 2 * BLOCK_SIZE
    ensures ReachesEnd(s.gat, h) && LastBlock(s, h) == s.blocks[LastOf(s.gat, h)]
    ensures |CStr(body + [CZ])| == |body| + 1
    ensures var s' := LineAppended(s, h, body + [CZ]);
            && TextIn(s, h) != "" && WellFormed(s'.gat) && h in Chains(s'.gat)
            && if FirstIndex(LastBlock(s, h), CZ) + |body| + 1 <= BLOCK_SIZE || LowestFree(s.gat) < ELEMENTS then
                 && TextIn(s', h) == Appended(TextIn(s, h), body) && EndsInCz(LastBlock(s', h))
                 && FirstIndex(LastBlock(s', h), CZ) == LastFill(FirstIndex(LastBlock(s, h), CZ) + |body|)
               else
                 && TextIn(s', h) <= Appended(TextIn(s, h), body)
                 && |TextIn(s', h)| == |TextIn(s, h)| - 1 + BLOCK_SIZE - FirstIndex(LastBlock(s, h), CZ)
  {
    hide WellFormed, Chains, CStr, EndsInCz, Overlay, LastOf, ReachesEnd, LowestFree, Raw, FirstIndex;
    LastOfChain(s.gat, h);
    var c := Chains(s.gat)[h];
    var d, last, new1 := c[..|c| - 1], c[|c| - 1], LowestFree(s.gat);
    assert c == d + [last];
    OverlayHalves(s.blocks[last], body);
    SpilledSection(s, h, body + [CZ]);
    var s' := LineAppended(s, h, body + [CZ]);
    var o := Overlay(s.blocks[last], body + [CZ]);
    var q := s.blocks[last][..FirstIndex(s.blocks[last], CZ)];
    CStrEndsInCz(s.blocks[last]);
    if FirstIndex(s.blocks[last], CZ) + |body| + 1 > BLOCK_SIZE && new1 != ELEMENTS {
      ExtendKeepsShape(s.gat, h, c, new1);
      assert (q + body + [CZ])[..BLOCK_SIZE] + (q + body + [CZ])[BLOCK_SIZE..] == q + body + [CZ];
      AppendSpill(s, s', h, d, last, new1, q, body, o[..BLOCK_SIZE], o[BLOCK_SIZE..2 * BLOCK_SIZE]);
      var y := q + body;
      assert y[BLOCK_SIZE..] + [CZ] == (y + [CZ])[BLOCK_SIZE..];
      FillOf(o[BLOCK_SIZE..2 * BLOCK_SIZE], y[BLOCK_SIZE..]);
    } else {
      AppendInBlock(s, s', h, d, last, q, body, o[..BLOCK_SIZE]);
      if |q| + |body| + 1 <= BLOCK_SIZE {
        FillOf(o[..BLOCK_SIZE], q + body);
      }
    }
  }

  lemma LineIs(sx: string)
    requires Free(sx, NUL) && Free(sx, CZ)
    ensures var body := sx + ['\r', '\n'];
            FullLine(sx) == body + [CZ] && Free(body, NUL) && Free(body, CZ)
  {
    FreeConcat(sx, ['\r', '\n'], NUL);
    FreeConcat(sx, ['\r', '\n'], CZ);
  }

  /** Appending a line to a message that ends in its Control-Z: the text becomes
      the old text without that Control-Z, the line, CR LF and a Control-Z, and
      the message again ends in its Control-Z, so that lines can be appended one
      after another.  Only when the line does not fit and no block is free is the
      result cut at the end of the last block. */
  lemma AppendExtendsText(secs: Sections, a: nat, sx: string)
    requires WellFormedFile(secs) && Holds(secs, a) && EndsMarked(secs, a)
    requires Free(sx, NUL) && Free(sx, CZ) && Tail(secs, a) + |sx| + 3 <= 2 * BLOCK_SIZE
    ensures Appendable(secs, a, sx) && RawText(secs, a) != ""
    ensures var secs' := LineAdded(secs, a, sx);
            && WellFormedFile(secs') && Holds(secs', a)
            && if LineHasRoom(secs, a, sx) then
                 && RawText(secs', a) == Appended(RawText(secs, a), sx + ['\r', '\n']) && EndsMarked(secs', a)
                 && Tail(secs', a) == LastFill(Tail(secs, a) + |sx| + 2)
               else
                 && RawText(secs', a) <= Appended(RawText(secs, a), sx + ['\r', '\n'])
                 && |RawText(secs', a)| == |RawText(secs, a)| - 1 + BLOCK_SIZE - Tail(secs, a)
  {
    hide WellFormed, Chains, RawText, LineAppended, LineAdded, Appendable, LastOf, ReachesEnd, EndsInCz, Raw, CStr,
      LowestFree;
    var body := sx + ['\r', '\n'];
    LineIs(sx);
    hide Free, FullLine;
    AppendableWhen(secs, a, sx);
    AppendKeepsOthers(secs, a, sx);
    AppendText(secs[a / ELEMENTS], a % ELEMENTS, body);
    TextAt(secs, a);
    TextAt(LineAdded(secs, a, sx), a);
  }

  /** Appending to a message whose last block has no Control-Z adds the line
      behind the whole text, or nothing when no block is free. */
  lemma AppendWithoutMark(secs: Sections, a: nat, sx: string)
    requires WellFormedFile(secs) && Holds(secs, a) && Tail(secs, a) == BLOCK_SIZE
    requires Free(sx, NUL) && |sx| + 3 <= BLOCK_SIZE
    ensures Appendable(secs, a, sx)
    ensures var secs' := LineAdded(secs, a, sx);
            && WellFormedFile(secs') && Holds(secs', a)
            && RawText(secs', a) ==
               if LowestFree(secs[a / ELEMENTS].gat) < ELEMENTS then RawText(secs, a) + (sx + ['\r', '\n', CZ])
               else RawText(secs, a)
  {
    hide WellFormed, Chains, RawText, LineAppended, LineAdded, Appendable, LastOf, ReachesEnd, Raw, CStr, LowestFree,
      Free, FullLine;
    AppendableWhen(secs, a, sx);
    AppendKeepsOthers(secs, a, sx);
    AppendUnmarked(secs[a / ELEMENTS], a % ELEMENTS, sx);
    TextAt(secs, a);
    TextAt(LineAdded(secs, a, sx), a);
  }

  /** What the reader gets after appending to a message whose text ends in its
      Control-Z: the old text, the line and CR LF, with the Control-Z dropped
      when the whole fills at least one block. */
  lemma AppendThenRead(secs: Sections, a: nat, sx: string, body: string)
    requires WellFormedFile(secs) && Holds(secs, a) && EndsMarked(secs, a)
    requires Free(sx, NUL) && Free(sx, CZ) && Tail(secs, a) + |sx| + 3 <= 2 * BLOCK_SIZE
    requires LineHasRoom(secs, a, sx) && RawText(secs, a) == body + [CZ]
    ensures Appendable(secs, a, sx)
    ensures var whole := body + sx + ['\r', '\n'];
            ReadOf(LineAdded(secs, a, sx), a) == Some(if |whole| + 1 >= BLOCK_SIZE then whole else whole + [CZ])
  {
    hide WellFormed, Chains, RawText, LineAdded, Appendable, TrimCz, ReadOf, LineHasRoom;
    AppendExtendsText(secs, a, sx);
    TextAt(LineAdded(secs, a, sx), a);
    assert RawText(secs, a)[..|RawText(secs, a)| - 1] == body;
    assert body + sx + ['\r', '\n'] == body + (sx + ['\r', '\n']);
    TrimFinalCz(body + sx + ['\r', '\n']);
  }

  /** A freshly saved text whose only Control-Z is its last character is a
      message lines can be appended to. */
  lemma SavedEndsMarked(secs: Sections, body: string)
    requires WellFormedFile(secs) && BlocksNeeded(body + [CZ]) <= MAX_BLOCKS && CanSave(secs, body + [CZ])
    requires Free(body, NUL) && Free(body, CZ)
    ensures var r := Saved(secs, body + [CZ]);
            && WellFormedFile(r.sections) && Holds(r.sections, r.storedAs)
            && EndsMarked(r.sections, r.storedAs) && Tail(r.sections, r.storedAs) == |body| % BLOCK_SIZE
            && RawText(r.sections, r.storedAs) == body + [CZ]
  {
    hide WellFormed, WellFormedFile, Holds, RawText, Saved, EndsInCz, CanSave, Raw, LastBlock, TextBlocks, BlocksNeeded;
    var text := body + [CZ];
    SaveStores(secs, text);
    FreeConcat(body, [CZ], NUL);
    RawOfText(text);
    SavedEndsInCz(body);
    SavedLastBlock(secs, text);
  }

  /** The last block of a message just saved holds the text's last chunk. */
  lemma SavedLastBlock(secs: Sections, text: string)
    requires WellFormedFile(secs) && text != "" && BlocksNeeded(text) <= MAX_BLOCKS && CanSave(secs, text)
    ensures var r := Saved(secs, text);
            && WellFormedFile(r.sections) && Holds(r.sections, r.storedAs) && BlocksNeeded(text) > 0
            && LastBlock(r.sections[r.storedAs / ELEMENTS], r.storedAs % ELEMENTS)
               == TextBlocks(text)[BlocksNeeded(text) - 1]
  {
    hide WellFormed, Chains, RawText, FirstFree, Saved, CanSave, Stored, ReadOf, TextBlocks, LastBlock;
    SaveStores(secs, text);
    SavedShape(secs, text);
    var j := SaveSection(secs, text);
    var g := Grown(Opened(secs), j);
    var c := SaveChain(g, text, j);
    GrowingKeepsMessages(secs, j);
    AddressParts(j, c[0]);
    LastInSection(g[j], c, text);
  }

  lemma LastInSection(s0: Section, c: seq<nat>, text: string)
    requires WellFormed(s0.gat) && text != "" && c == FirstFree(s0.gat, 1, BlocksNeeded(text))
    requires |c| == BlocksNeeded(text)
    ensures var s := Stored(s0, c, TextBlocks(text));
            && WellFormed(s.gat) && BlocksNeeded(text) > 0 && c[0] in Chains(s.gat)
            && LastBlock(s, c[0]) == TextBlocks(text)[BlocksNeeded(text) - 1]
  {
    hide WellFormed, Chains, FirstFree, Stored, TextBlocks, LastBlock;
    FirstFreeSpec(s0.gat, 1, BlocksNeeded(text));
    LastStored(s0, c, TextBlocks(text));
  }

  lemma LastStored(s0: Section, c: seq<nat>, data: seq<Block>)
    requires WellFormed(s0.gat) && c != [] && InTable(c) && Increasing(c) && |c| == |data|
    requires forall i | 0 <= i < |c| :: s0.gat[c[i]] == 0
    ensures var s := Stored(s0, c, data);
            WellFormed(s.gat) && c[0] in Chains(s.gat) && LastBlock(s, c[0]) == data[|data| - 1]
  {
    hide WellFormed, Chains, Stored;
    StoredSection(s0, c, data);
    assert BlocksAt(Stored(s0, c, data).blocks, c)[|c| - 1] == data[|c| - 1];
  }
}
