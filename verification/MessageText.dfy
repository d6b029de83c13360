/** How a message text is laid out in 512-byte blocks and read back. */
module MessageText {
  const BLOCK_SIZE: nat := 512
  const NUL: char := 0 as char
  const CZ: char := 26 as char

  type Block = b: string | |b| == BLOCK_SIZE witness seq(512, i => 0 as char)

  function ZeroBlock(): Block {
    seq(BLOCK_SIZE, i => NUL)
  }

  /** The first position of `c` in `s`, or |s|. */
  function FirstIndex(s: string, c: char): (i: nat)
    ensures i <= |s|
    ensures i < |s| ==> s[i] == c
    ensures forall k | 0 <= k < i :: s[k] != c
  {
    if s == [] || s[0] == c then 0 else FirstIndex(s[1..], c) + 1
  }

  /** The last position of `c` in `s`, or -1. */
  function LastIndex(s: string, c: char): (i: int)
    ensures -1 <= i < |s|
    ensures i >= 0 ==> s[i] == c
    ensures forall k | i < k < |s| :: s[k] != c
  {
    if s == [] then -1
    else if s[|s| - 1] == c then |s| - 1
    else LastIndex(s[..|s| - 1], c)
  }

  predicate Free(s: string, c: char) {
    forall k | 0 <= k < |s| :: s[k] != c
  }

  /** The part of a buffer in front of its first NUL, as C string functions see it. */
  function CStr(s: string): string {
    s[..FirstIndex(s, NUL)]
  }

  /** A chunk of at most 512 characters, zero-filled to a whole block. */
  function Pad(s: string): Block
    requires |s| <= BLOCK_SIZE
  {
    s + seq(BLOCK_SIZE - |s|, i => NUL)
  }

  function BlocksNeeded(text: string): nat {
    (|text| + 511) / BLOCK_SIZE
  }

  function ChunkSize(text: string): nat {
    if |text| < BLOCK_SIZE then |text| else BLOCK_SIZE
  }

  /** The blocks a text is written to. */
  function TextBlocks(text: string): (bs: seq<Block>)
    ensures |bs| == BlocksNeeded(text)
  {
    if text == "" then []
    else [Pad(text[..ChunkSize(text)])] + TextBlocks(text[ChunkSize(text)..])
  }

  /** The characters read from a list of blocks, block by block up to a NUL. */
  function Raw(bs: seq<Block>): string {
    if bs == [] then "" else CStr(bs[0]) + Raw(bs[1..])
  }

  /** The final step of reading: cut at the last Control-Z when it lies in the
      last 511 characters of a text of at least one block. */
  function TrimCz(s: string): string {
    var z := LastIndex(s, CZ);
    if z >= 0 && |s| >= BLOCK_SIZE && z > |s| - BLOCK_SIZE then s[..z] else s
  }

  /** The 2049-byte buffer after a line was copied over the last block of a
      message, in place of its first Control-Z and what follows it. */
  function Overlay(block: Block, line: string): (b: string)
    requires FirstIndex(block, CZ) + |CStr(line)| <= 4 * BLOCK_SIZE
    ensures |b| == 4 * BLOCK_SIZE + 1
  {
    var j := FirstIndex(block, CZ);
    var b := block + seq(3 * BLOCK_SIZE + 1, i => NUL);
    b[..j] + CStr(line) + [NUL] + b[j + |CStr(line)| + 1..]
  }

  /** What a reader gets back for a text that was saved. */
  function ReadBack(text: string): string {
    TrimCz(Raw(TextBlocks(text)))
  }

  /** The end of the i-th chunk of 512 characters. */
  function ChunkEnd(text: string, i: nat): nat
    requires BLOCK_SIZE * i <= |text|
  {
    if |text| - BLOCK_SIZE * i < BLOCK_SIZE then |text| else BLOCK_SIZE * i + BLOCK_SIZE
  }

  /** The i-th block of a text holds its i-th chunk. */
  lemma {:induction false} TextBlockAt(text: string, i: nat)
    requires i < BlocksNeeded(text)
    ensures BLOCK_SIZE * i < |text|
    ensures TextBlocks(text)[i] == Pad(text[BLOCK_SIZE * i..ChunkEnd(text, i)])
  {
    hide Pad;
    if i > 0 {
      var n := ChunkSize(text);
      assert n == BLOCK_SIZE;
      var tail := text[n..];
      TextBlockAt(tail, i - 1);
      assert TextBlocks(text)[i] == TextBlocks(tail)[i - 1];
      assert ChunkEnd(tail, i - 1) + n == ChunkEnd(text, i);
      SliceOfTail(text, n, BLOCK_SIZE * (i - 1), ChunkEnd(tail, i - 1));
    }
  }

  /** Character by character: the text's, and NULs behind its end. */
  lemma TextCharAt(text: string, i: nat, k: nat)
    requires i < BlocksNeeded(text) && k < BLOCK_SIZE
    ensures TextBlocks(text)[i][k] == if BLOCK_SIZE * i + k < |text| then text[BLOCK_SIZE * i + k] else NUL
  {
    hide TextBlocks;
    TextBlockAt(text, i);
  }

  lemma SliceOfTail(s: string, n: nat, lo: nat, hi: nat)
    requires lo <= hi && n + hi <= |s|
    ensures s[n..][lo..hi] == s[n + lo..n + hi]
  {
  }

  lemma CStrOfPad(s: string)
    requires |s| <= BLOCK_SIZE
    ensures |CStr(Pad(s))| <= |s|
    ensures |CStr(Pad(s))| == |s| <==> Free(s, NUL)
    ensures Free(s, NUL) ==> CStr(Pad(s)) == s
  {
    var p := Pad(s);
    assert forall k | 0 <= k < |s| :: p[k] == s[k];
    if |s| < BLOCK_SIZE {
      assert p[|s|] == NUL;
    }
  }

  /** A NUL-free text survives being cut into blocks; any other text comes back
      shorter than it went in. */
  lemma {:induction false} RawOfText(text: string)
    ensures |Raw(TextBlocks(text))| <= |text|
    ensures |Raw(TextBlocks(text))| == |text| <==> Free(text, NUL)
    ensures Free(text, NUL) ==> Raw(TextBlocks(text)) == text
  {
    if text != "" {
      var n := ChunkSize(text);
      var head, tail := text[..n], text[n..];
      assert text == head + tail;
      CStrOfPad(head);
      RawOfText(tail);
      assert Raw(TextBlocks(text)) == CStr(Pad(head)) + Raw(TextBlocks(tail));
      FreeConcat(head, tail, NUL);
    }
  }

  lemma FreeConcat(a: string, b: string, c: char)
    ensures Free(a + b, c) <==> Free(a, c) && Free(b, c)
  {
    if Free(a + b, c) {
      assert forall k | 0 <= k < |a| :: a[k] == (a + b)[k];
      assert forall k | 0 <= k < |b| :: b[k] == (a + b)[|a| + k];
    }
  }

  /** There is a Control-Z where the reader looks for one to cut at. */
  predicate CutsAtCz(text: string) {
    |text| >= BLOCK_SIZE && exists k :: |text| - BLOCK_SIZE < k < |text| && text[k] == CZ
  }

  /** Saving and reading back gives the very text exactly when it is NUL-free
      and is shorter than a block or has no Control-Z in its last 511 characters. */
  lemma ReadBackExactlyWhen(text: string)
    ensures ReadBack(text) == text <==> Free(text, NUL) && !CutsAtCz(text)
  {
    RawOfText(text);
  }

  /** A text whose only Control-Z is its last character loses it when it fills at
      least one block and keeps it otherwise. */
  lemma ReadBackFinalCz(body: string)
    requires Free(body, NUL) && Free(body, CZ)
    ensures ReadBack(body + [CZ]) == if |body| + 1 >= BLOCK_SIZE then body else body + [CZ]
  {
    var text := body + [CZ];
    FreeConcat(body, [CZ], NUL);
    RawOfText(text);
    assert text[|body|] == CZ;
    assert LastIndex(text, CZ) == |body|;
  }

  /** Where the text has a Control-Z among its last 511 characters, it is cut at
      the last one. */
  lemma ReadBackCut(text: string) returns (z: nat)
    requires Free(text, NUL) && CutsAtCz(text)
    ensures |text| - BLOCK_SIZE < z < |text| && text[z] == CZ && Free(text[z + 1..], CZ)
    ensures ReadBack(text) == text[..z]
  {
    RawOfText(text);
    z := LastIndex(text, CZ);
  }

  lemma ConcatAssoc(a: string, b: string, c: string)
    ensures a + (b + c) == (a + b) + c
  {
  }

  lemma {:induction false} RawConcat(a: seq<Block>, b: seq<Block>)
    ensures Raw(a + b) == Raw(a) + Raw(b)
  {
    if a == [] {
      assert a + b == b;
    } else {
      RawConcat(a[1..], b);
      assert (a + b)[0] == a[0] && (a + b)[1..] == a[1..] + b;
      ConcatAssoc(CStr(a[0]), Raw(a[1..]), Raw(b));
    }
  }

  // ------------------------------------------------------ appending a line

  /** The block's characters end in a Control-Z, its first. */
  predicate EndsInCz(b: Block) {
    var j := FirstIndex(b, CZ);
    j < BLOCK_SIZE && Free(b[..j], NUL) && (j + 1 == BLOCK_SIZE || b[j + 1] == NUL)
  }

  lemma CStrIs(s: string, n: nat)
    requires n <= |s| && Free(s[..n], NUL) && (n == |s| || s[n] == NUL)
    ensures CStr(s) == s[..n]
  {
    assert forall k | 0 <= k < n :: s[k] == s[..n][k];
  }

  lemma FirstIndexIs(s: string, c: char, n: nat)
    requires n < |s| && Free(s[..n], c) && s[n] == c
    ensures FirstIndex(s, c) == n
  {
    assert forall k | 0 <= k < n :: s[k] == s[..n][k];
  }

  lemma CStrEndsInCz(b: Block)
    requires EndsInCz(b)
    ensures CStr(b) == b[..FirstIndex(b, CZ)] + [CZ]
  {
    var j := FirstIndex(b, CZ);
    assert b[..j + 1] == b[..j] + [CZ];
    CStrIs(b, j + 1);
  }

  /** The buffer after the copy holds the old text without its Control-Z, then
      the line, then a NUL. */
  lemma OverlayIs(block: Block, line: string)
    requires EndsInCz(block) && Free(line, NUL) && FirstIndex(block, CZ) + |line| <= 2 * BLOCK_SIZE
    ensures CStr(line) == line
    ensures var x := block[..FirstIndex(block, CZ)] + line;
            Free(x, NUL) && Overlay(block, line)[..|x|] == x && Overlay(block, line)[|x|] == NUL
  {
    CStrIs(line, |line|);
    FreeConcat(block[..FirstIndex(block, CZ)], line, NUL);
  }

  /** The two halves of the buffer that may be written, read as C strings. */
  lemma OverlayHalves(block: Block, body: string)
    requires EndsInCz(block) && Free(body, NUL) && Free(body, CZ)
    requires FirstIndex(block, CZ) + |body| + 1 <= 2 * BLOCK_SIZE
    ensures CStr(body + [CZ]) == body + [CZ]
    ensures var x := block[..FirstIndex(block, CZ)] + body + [CZ];
            var o := Overlay(block, body + [CZ]);
            if |x| <= BLOCK_SIZE then CStr(o[..BLOCK_SIZE]) == x && EndsInCz(o[..BLOCK_SIZE])
            else
              && CStr(o[..BLOCK_SIZE]) == x[..BLOCK_SIZE]
              && CStr(o[BLOCK_SIZE..2 * BLOCK_SIZE]) == x[BLOCK_SIZE..]
              && EndsInCz(o[BLOCK_SIZE..2 * BLOCK_SIZE])
  {
    var line := body + [CZ];
    FreeConcat(body, [CZ], NUL);
    OverlayIs(block, line);
    var y := block[..FirstIndex(block, CZ)] + body;
    var x := block[..FirstIndex(block, CZ)] + line;
    assert x == y + [CZ];
    FreeConcat(block[..FirstIndex(block, CZ)], body, CZ);
    FreeConcat(y, [CZ], NUL);
    if |x| <= BLOCK_SIZE {
      LineFits(Overlay(block, line), y);
    } else {
      LineSpills(Overlay(block, line), y);
    }
  }

  /** Without a Control-Z in the block the line lies behind it in the buffer. */
  lemma OverlayBehind(block: Block, line: string)
    requires FirstIndex(block, CZ) == BLOCK_SIZE && Free(line, NUL) && |line| <= BLOCK_SIZE
    ensures CStr(line) == line
    ensures Overlay(block, line)[..BLOCK_SIZE] == block
    ensures CStr(Overlay(block, line)[BLOCK_SIZE..2 * BLOCK_SIZE]) == line
  {
    CStrIs(line, |line|);
    var o := Overlay(block, line);
    var hi := o[BLOCK_SIZE..2 * BLOCK_SIZE];
    assert forall k | 0 <= k < |line| :: hi[k] == o[BLOCK_SIZE + k] == line[k];
    assert hi[..|line|] == line;
    if |line| < BLOCK_SIZE {
      assert hi[|line|] == o[BLOCK_SIZE + |line|] == NUL;
    }
    CStrIs(hi, |line|);
  }

  lemma LineFits(o: string, y: string)
    requires |o| == 4 * BLOCK_SIZE + 1 && |y| + 1 <= BLOCK_SIZE
    requires o[..|y| + 1] == y + [CZ] && o[|y| + 1] == NUL
    requires Free(y, CZ) && Free(y + [CZ], NUL)
    ensures CStr(o[..BLOCK_SIZE]) == y + [CZ] && EndsInCz(o[..BLOCK_SIZE])
  {
    var lo := o[..BLOCK_SIZE];
    assert lo[..|y| + 1] == y + [CZ] && lo[..|y|] == y;
    CStrIs(lo, |y| + 1);
    assert lo[|y|] == lo[..|y| + 1][|y|];
    FirstIndexIs(lo, CZ, |y|);
    FreeConcat(y, [CZ], NUL);
  }

  lemma SliceOfPrefix(o: string, lo: nat, m: nat, hi: nat)
    requires lo <= m <= hi <= |o|
    ensures o[lo..hi][..m - lo] == o[..m][lo..]
  {
  }

  lemma LineSpills(o: string, y: string)
    requires |o| == 4 * BLOCK_SIZE + 1 && BLOCK_SIZE < |y| + 1 <= 2 * BLOCK_SIZE
    requires o[..|y| + 1] == y + [CZ] && o[|y| + 1] == NUL
    requires Free(y, CZ) && Free(y + [CZ], NUL)
    ensures CStr(o[..BLOCK_SIZE]) == y[..BLOCK_SIZE]
    ensures CStr(o[BLOCK_SIZE..2 * BLOCK_SIZE]) == y[BLOCK_SIZE..] + [CZ]
    ensures EndsInCz(o[BLOCK_SIZE..2 * BLOCK_SIZE])
  {
    var x := y + [CZ];
    var lo, hi, n := o[..BLOCK_SIZE], o[BLOCK_SIZE..2 * BLOCK_SIZE], |x| - BLOCK_SIZE;
    assert lo == o[..|x|][..BLOCK_SIZE] == y[..BLOCK_SIZE] == lo[..BLOCK_SIZE];
    FreeConcat(y, [CZ], NUL);
    CStrIs(lo, BLOCK_SIZE);
    SliceOfPrefix(o, BLOCK_SIZE, |x|, 2 * BLOCK_SIZE);
    assert (y + [CZ])[BLOCK_SIZE..] == y[BLOCK_SIZE..] + [CZ];
    assert hi[..n - 1] == y[BLOCK_SIZE..];
    CStrIs(hi, n);
    assert hi[n - 1] == hi[..n][n - 1];
    FirstIndexIs(hi, CZ, n - 1);
  }

  /** The final Control-Z goes when the text fills at least one block. */
  lemma TrimFinalCz(body: string)
    ensures TrimCz(body + [CZ]) == if |body| + 1 >= BLOCK_SIZE then body else body + [CZ]
  {
    assert (body + [CZ])[|body|] == CZ;
    assert LastIndex(body + [CZ], CZ) == |body|;
  }

  /** A text whose only Control-Z is its last character leaves a last block that
      ends in its first Control-Z. */
  lemma {:induction false} SavedEndsInCz(body: string)
    requires Free(body, NUL) && Free(body, CZ)
    ensures EndsInCz(TextBlocks(body + [CZ])[BlocksNeeded(body + [CZ]) - 1])
    ensures FirstIndex(TextBlocks(body + [CZ])[BlocksNeeded(body + [CZ]) - 1], CZ) == |body| % BLOCK_SIZE
    decreases |body|
  {
    hide EndsInCz, FirstIndex;
    var text := body + [CZ];
    if |text| <= BLOCK_SIZE {
      OneBlockEndsInCz(body);
    } else {
      var rest := body[BLOCK_SIZE..];
      assert text[BLOCK_SIZE..] == rest + [CZ];
      SavedEndsInCz(rest);
      assert |body| == |rest| + BLOCK_SIZE;
    }
  }

  lemma OneBlockEndsInCz(body: string)
    requires Free(body, NUL) && Free(body, CZ) && |body| < BLOCK_SIZE
    ensures TextBlocks(body + [CZ]) == [Pad(body + [CZ])]
    ensures EndsInCz(Pad(body + [CZ])) && FirstIndex(Pad(body + [CZ]), CZ) == |body|
  {
    var text := body + [CZ];
    var b := Pad(text);
    assert text[..ChunkSize(text)] == text && text[ChunkSize(text)..] == "";
    assert TextBlocks("") == [];
    hide FirstIndex;
    assert b[..|body|] == body;
    FirstIndexIs(b, CZ, |body|);
  }
}
