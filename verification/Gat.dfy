/** The section table of a message text file: 2048 entries, one per block.
    An entry is 0 for a free block, the number of the next block of the same
    message, or 65535 for the last block of a message.  Block 0 is never used. */
module Gat {
  const ELEMENTS: nat := 2048
  const END: nat := 65535

  type Entry = n: nat | n < 65536
  type Table = t: seq<Entry> | |t| == ELEMENTS witness seq(2048, i => 0)

  function EmptyTable(): Table {
    seq(ELEMENTS, i => 0)
  }

  // ---------------------------------------------------------------- chains

  ghost predicate InTable(c: seq<nat>) {
    forall i | 0 <= i < |c| :: 0 < c[i] < ELEMENTS
  }

  /** What the table holds for the i-th block of a chain. */
  function Next(c: seq<nat>, i: nat): nat
    requires i < |c|
  {
    if i + 1 < |c| then c[i + 1] else END
  }

  /** `c` lists the blocks of one message in `t`, first block first. */
  ghost predicate IsChain(t: Table, c: seq<nat>) {
    && |c| > 0
    && (forall i | 0 <= i < |c| :: 1 <= c[i] < ELEMENTS)
    && (forall i {:trigger Next(c, i)} | 0 <= i < |c| :: t[c[i]] == Next(c, i))
  }

  ghost predicate Disjoint(a: seq<nat>, b: seq<nat>) {
    forall x | x in a :: x !in b
  }

  ghost predicate Apart(a: seq<nat>, b: seq<nat>) {
    Disjoint(a, b) && Disjoint(b, a)
  }

  ghost predicate Owned(cs: map<nat, seq<nat>>, b: nat) {
    exists h :: h in cs && b in cs[h]
  }

  ghost predicate AllChains(t: Table, cs: map<nat, seq<nat>>) {
    forall h | h in cs :: IsChain(t, cs[h]) && cs[h][0] == h
  }

  ghost predicate AllDisjoint(cs: map<nat, seq<nat>>) {
    forall h, k | h in cs && k in cs && h != k :: Disjoint(cs[h], cs[k])
  }

  ghost predicate AllOwned(t: Table, cs: map<nat, seq<nat>>) {
    forall b | 0 <= b < ELEMENTS && t[b] != 0 :: Owned(cs, b)
  }

  /** `t` is exactly the disjoint union of the chains `cs`, keyed by first block. */
  ghost predicate Splits(t: Table, cs: map<nat, seq<nat>>) {
    && t[0] == 0
    && AllChains(t, cs)
    && AllDisjoint(cs)
    && AllOwned(t, cs)
  }

  /** The blocks met when following entries from `b`, at most `fuel` of them. */
  function Path(t: Table, b: nat, fuel: nat): (c: seq<nat>)
    ensures InTable(c)
    decreases fuel
  {
    if fuel == 0 || !(0 < b < ELEMENTS) then [] else [b] + Path(t, t[b], fuel - 1)
  }

  /** Following entries from `b` leaves the table within 2048 steps. */
  predicate Ends(t: Table, b: nat, fuel: nat := ELEMENTS)
    decreases fuel
  {
    !(0 < b < ELEMENTS) || (fuel > 0 && Ends(t, t[b], fuel - 1))
  }

  /** Following entries from `b` reaches an end mark without leaving the table. */
  predicate ReachesEnd(t: Table, b: nat, fuel: nat := ELEMENTS)
    decreases fuel
  {
    b < ELEMENTS && (t[b] == END || (fuel > 0 && ReachesEnd(t, t[b], fuel - 1)))
  }

  /** The block whose entry is the end mark. */
  function LastOf(t: Table, b: nat, fuel: nat := ELEMENTS): (last: nat)
    requires ReachesEnd(t, b, fuel)
    ensures last < ELEMENTS && t[last] == END
    decreases fuel
  {
    if t[b] == END then b else LastOf(t, t[b], fuel - 1)
  }

  /** An allocated block that no other block leads to. */
  ghost predicate IsHead(t: Table, b: nat) {
    && b < ELEMENTS && t[b] != 0
    && forall a | 0 <= a < ELEMENTS :: t[a] != b
  }

  /** The chains of a table, computed from the table alone. */
  ghost function Chains(t: Table): map<nat, seq<nat>> {
    map h: nat | h < ELEMENTS && IsHead(t, h) :: Path(t, h, ELEMENTS)
  }

  /** The allocator's shape invariant: the table splits into disjoint, acyclic
      chains ending in 65535. */
  ghost predicate WellFormed(t: Table) {
    Splits(t, Chains(t))
  }

  /** No block occurs twice in a chain: chains are acyclic. */
  lemma {:induction false} ChainDistinct(t: Table, c: seq<nat>, i: nat, j: nat)
    requires IsChain(t, c) && i < j < |c|
    ensures c[i] != c[j]
    decreases |c| - j
  {
    if c[i] == c[j] {
      assert Next(c, i) == c[i + 1] && t[c[j]] == Next(c, j);
      if j + 1 < |c| {
        ChainDistinct(t, c, i + 1, j + 1);
      }
    }
  }

  lemma ChainDistinctAll(t: Table, c: seq<nat>)
    requires IsChain(t, c)
    ensures forall i, j | 0 <= i < j < |c| :: c[i] != c[j]
  {
    forall i, j | 0 <= i < j < |c| ensures c[i] != c[j] {
      ChainDistinct(t, c, i, j);
    }
  }

  /** A list of distinct numbers below n has at most n elements. */
  lemma {:induction false} Pigeonhole(c: seq<nat>, n: nat)
    requires forall i | 0 <= i < |c| :: c[i] < n
    requires forall i, j | 0 <= i < j < |c| :: c[i] != c[j]
    ensures |c| <= n
    decreases n
  {
    if |c| > 0 {
      assert c[0] < n;
      if k :| 0 <= k < |c| && c[k] == n - 1 {
        var d := c[..k] + c[k + 1..];
        assert forall i | 0 <= i < |d| :: d[i] == if i < k then c[i] else c[i + 1];
        Pigeonhole(d, n - 1);
      } else {
        Pigeonhole(c, n - 1);
      }
    }
  }

  lemma ChainLength(t: Table, c: seq<nat>)
    requires IsChain(t, c)
    ensures |c| < ELEMENTS
  {
    ChainDistinctAll(t, c);
    var d := seq(|c|, i requires 0 <= i < |c| => (c[i] - 1) as nat);
    Pigeonhole(d, ELEMENTS - 1);
  }

  lemma ChainSuffix(t: Table, c: seq<nat>, i: nat)
    requires IsChain(t, c) && i < |c|
    ensures IsChain(t, c[i..])
  {
    forall j | 0 <= j < |c[i..]|
      ensures 1 <= c[i..][j] < ELEMENTS && t[c[i..][j]] == Next(c[i..], j)
    {
      assert c[i..][j] == c[i + j] && Next(c[i..], j) == Next(c, i + j);
    }
  }

  /** Following entries from a chain's first block visits exactly the chain. */
  lemma {:induction false} PathIsChain(t: Table, c: seq<nat>, fuel: nat)
    requires IsChain(t, c) && fuel >= |c|
    ensures Path(t, c[0], fuel) == c && Ends(t, c[0], fuel)
    ensures ReachesEnd(t, c[0], fuel) && LastOf(t, c[0], fuel) == c[|c| - 1]
  {
    if |c| == 1 {
      assert t[c[0]] == Next(c, 0) == END;
      assert c == [c[0]];
    } else {
      assert t[c[0]] == Next(c, 0) == c[1];
      ChainSuffix(t, c, 1);
      PathIsChain(t, c[1..], fuel - 1);
    }
  }

  /** In a well-formed table, following entries ends wherever one starts. */
  lemma AllPathsEnd(t: Table, b: nat)
    requires WellFormed(t)
    ensures Ends(t, b)
  {
    if 0 < b < ELEMENTS && t[b] != 0 {
      var cs := Chains(t);
      assert Owned(cs, b);
      var h :| h in cs && b in cs[h];
      var i :| 0 <= i < |cs[h]| && cs[h][i] == b;
      ChainSuffix(t, cs[h], i);
      ChainLength(t, cs[h][i..]);
      PathIsChain(t, cs[h][i..], ELEMENTS);
    }
  }

  /** From an allocated block, following entries meets an end mark; from a free
      one it goes round entry 0 for ever. */
  lemma ReachesEndIff(t: Table, b: nat)
    requires WellFormed(t) && b < ELEMENTS
    ensures ReachesEnd(t, b) <==> t[b] != 0
    ensures t[b] == 0 ==> forall fuel: nat :: !ReachesEnd(t, b, fuel)
  {
    if t[b] != 0 {
      var cs := Chains(t);
      assert Owned(cs, b);
      var h :| h in cs && b in cs[h];
      var i :| 0 <= i < |cs[h]| && cs[h][i] == b;
      ChainSuffix(t, cs[h], i);
      ChainLength(t, cs[h][i..]);
      PathIsChain(t, cs[h][i..], ELEMENTS);
    } else {
      forall fuel: nat ensures !ReachesEnd(t, b, fuel) {
        RoundZero(t, b, fuel);
      }
    }
  }

  lemma {:induction false} RoundZero(t: Table, b: nat, fuel: nat)
    requires t[0] == 0 && b < ELEMENTS && t[b] == 0
    ensures !ReachesEnd(t, b, fuel)
    decreases fuel
  {
    if fuel > 0 {
      RoundZero(t, 0, fuel - 1);
    }
  }

  /** The split of a table is unique: it is `Chains(t)`. */
  lemma SplitUnique(t: Table, cs: map<nat, seq<nat>>)
    requires Splits(t, cs)
    ensures cs == Chains(t) && WellFormed(t)
  {
    SplitIsChains(t, cs);
  }

  lemma SplitIsChains(t: Table, cs: map<nat, seq<nat>>)
    requires Splits(t, cs)
    ensures cs == Chains(t)
  {
    forall h | h in cs ensures h in Chains(t) && cs[h] == Chains(t)[h] {
      HeadOfSplit(t, cs, h);
      ChainLength(t, cs[h]);
      PathIsChain(t, cs[h], ELEMENTS);
    }
    forall b | b in Chains(t) ensures b in cs {
      HeadIsInSplit(t, cs, b);
    }
    assert cs == Chains(t);
  }

  lemma HeadIsInSplit(t: Table, cs: map<nat, seq<nat>>, b: nat)
    requires Splits(t, cs) && IsHead(t, b)
    ensures b in cs
  {
    assert Owned(cs, b);
    var h :| h in cs && b in cs[h];
    var i :| 0 <= i < |cs[h]| && cs[h][i] == b;
    PredecessorInChain(t, cs[h], i);
  }

  lemma PredecessorInChain(t: Table, c: seq<nat>, i: nat)
    requires IsChain(t, c) && i < |c|
    ensures i > 0 ==> t[c[i - 1]] == c[i]
  {
    if i > 0 {
      assert t[c[i - 1]] == Next(c, i - 1);
    }
  }

  lemma ChainKept(t: Table, t': Table, c: seq<nat>)
    requires IsChain(t, c) && forall x | x in c && x < ELEMENTS :: t'[x] == t[x]
    ensures IsChain(t', c)
  {
    forall i | 0 <= i < |c| ensures t'[c[i]] == Next(c, i) {
      assert c[i] in c;
    }
  }

  lemma ChainIsUsed(t: Table, c: seq<nat>)
    requires IsChain(t, c)
    ensures forall x | x in c :: 1 <= x < ELEMENTS && t[x] != 0
  {
    forall x | x in c ensures 1 <= x < ELEMENTS && t[x] != 0 {
      var i :| 0 <= i < |c| && c[i] == x;
      assert t[c[i]] == Next(c, i);
    }
  }

  lemma SameOwner(cs: map<nat, seq<nat>>, h: nat, k: nat, b: nat)
    requires AllDisjoint(cs) && h in cs && k in cs && b in cs[h] && b in cs[k]
    ensures h == k
  {
  }

  lemma HeadOfSplit(t: Table, cs: map<nat, seq<nat>>, h: nat)
    requires Splits(t, cs) && h in cs
    ensures IsHead(t, h)
  {
    assert IsChain(t, cs[h]) && cs[h][0] == h && t[h] == Next(cs[h], 0);
    forall a | 0 <= a < ELEMENTS ensures t[a] != h {
      if t[a] == h {
        assert Owned(cs, a);
        var k :| k in cs && a in cs[k];
        var i :| 0 <= i < |cs[k]| && cs[k][i] == a;
        assert t[cs[k][i]] == Next(cs[k], i);
        assert h in cs[k] && h in cs[h];
        SameOwner(cs, h, k, h);
        ChainDistinct(t, cs[h], 0, i + 1);
      }
    }
  }

  // -------------------------------------------------------------- freeing

  ghost function Used(t: Table): set<nat> {
    set b: nat | b < ELEMENTS && t[b] != 0
  }

  lemma ZeroingShrinks(t: Table, b: nat)
    requires b < ELEMENTS && t[b] != 0
    ensures Used(t[b := 0]) < Used(t)
  {
    assert b in Used(t) && b !in Used(t[b := 0]);
    assert forall x :: x in Used(t[b := 0]) ==> x in Used(t);
  }

  /** Zero each entry before following it; defined on every table, even a
      corrupt or cyclic one. */
  function Unlink(t: Table, b: nat): Table
    decreases Used(t)
  {
    if !(0 < b < ELEMENTS) || t[b] == 0 then t
    else
      ZeroingShrinks(t, b);
      Unlink(t[b := 0], t[b])
  }

  /** Whatever the table, freeing changes an entry only to 0, and the entry of
      the starting block ends up 0. */
  lemma {:induction false} UnlinkOnlyZeroes(t: Table, b: nat)
    ensures forall x | 0 <= x < ELEMENTS :: Unlink(t, b)[x] == t[x] || Unlink(t, b)[x] == 0
    ensures 0 < b < ELEMENTS ==> Unlink(t, b)[b] == 0
    decreases Used(t)
  {
    if 0 < b < ELEMENTS && t[b] != 0 {
      ZeroingShrinks(t, b);
      UnlinkOnlyZeroes(t[b := 0], t[b]);
    }
  }

  lemma {:induction false} UnlinkChain(t: Table, c: seq<nat>)
    requires IsChain(t, c)
    ensures forall x | 0 <= x < ELEMENTS :: Unlink(t, c[0])[x] == if x in c then 0 else t[x]
    decreases |c|
  {
    var t' := t[c[0] := 0];
    assert t[c[0]] == Next(c, 0);
    if |c| == 1 {
      assert Unlink(t, c[0]) == Unlink(t', END) == t';
      assert c == [c[0]];
    } else {
      ChainDistinctAll(t, c);
      var d := c[1..];
      assert forall i | 0 <= i < |d| :: d[i] == c[i + 1];
      assert IsChain(t', d) by {
        forall i | 0 <= i < |d| ensures t'[d[i]] == Next(d, i) {
          assert d[i] == c[i + 1] != c[0] && Next(d, i) == Next(c, i + 1);
        }
      }
      UnlinkChain(t', d);
      assert Unlink(t, c[0]) == Unlink(t', d[0]);
      assert c == [c[0]] + d;
    }
  }

  ghost function Without(cs: map<nat, seq<nat>>, h: nat): map<nat, seq<nat>> {
    map k | k in cs && k != h :: cs[k]
  }

  lemma UnlinkSplits(t: Table, cs: map<nat, seq<nat>>, h: nat, t': Table, cs': map<nat, seq<nat>>)
    requires Splits(t, cs) && h in cs
    requires t' == Unlink(t, h) && cs' == Without(cs, h)
    ensures Splits(t', cs')
  {
    UnlinkChain(t, cs[h]);
    assert AllChains(t', cs') by {
      forall k | k in cs' ensures IsChain(t', cs'[k]) {
        assert Disjoint(cs[k], cs[h]);
        ChainKept(t, t', cs[k]);
      }
    }
    assert AllOwned(t', cs') by {
      forall b | 0 <= b < ELEMENTS && t'[b] != 0 ensures Owned(cs', b) {
        assert Owned(cs, b);
        var k :| k in cs && b in cs[k];
        assert k in cs';
      }
    }
  }

  /** Freeing a message keeps every other message's chain and nothing else. */
  lemma UnlinkKeepsShape(t: Table, h: nat)
    requires WellFormed(t) && h in Chains(t)
    ensures WellFormed(Unlink(t, h))
    ensures Chains(Unlink(t, h)) == Without(Chains(t), h)
  {
    var cs' := Without(Chains(t), h);
    UnlinkSplits(t, Chains(t), h, Unlink(t, h), cs');
    SplitUnique(Unlink(t, h), cs');
  }

  // ------------------------------------------------------------ allocating

  /** The first `n` free blocks numbered `from` or higher, in order. */
  function FirstFree(t: Table, from: nat, n: nat): (c: seq<nat>)
    requires from >= 1
    ensures |c| <= n && InTable(c)
    decreases ELEMENTS - from
  {
    if n == 0 || from >= ELEMENTS then []
    else if t[from] == 0 then [from] + FirstFree(t, from + 1, n - 1)
    else FirstFree(t, from + 1, n)
  }

  /** First fit: the blocks are free, increasing, as many as asked for unless
      every free block was taken, and no free block below one taken is left. */
  lemma {:induction false} FirstFreeSpec(t: Table, from: nat, n: nat)
    requires from >= 1
    ensures forall i | 0 <= i < |FirstFree(t, from, n)| ::
              from <= FirstFree(t, from, n)[i] < ELEMENTS && t[FirstFree(t, from, n)[i]] == 0
    ensures forall i, j | 0 <= i < j < |FirstFree(t, from, n)| ::
              FirstFree(t, from, n)[i] < FirstFree(t, from, n)[j]
    ensures forall b | from <= b < ELEMENTS && t[b] == 0 ::
              b in FirstFree(t, from, n)
              || (|FirstFree(t, from, n)| == n && forall x | x in FirstFree(t, from, n) :: x < b)
    decreases ELEMENTS - from
  {
    if n != 0 && from < ELEMENTS {
      var c := FirstFree(t, from, n);
      if t[from] == 0 {
        var d := FirstFree(t, from + 1, n - 1);
        FirstFreeSpec(t, from + 1, n - 1);
        assert c == [from] + d;
        assert forall i | 0 < i < |c| :: c[i] == d[i - 1];
      } else {
        FirstFreeSpec(t, from + 1, n);
      }
    }
  }

  lemma FirstFreeNext(t: Table, from: nat, n: nat)
    requires 1 <= from < ELEMENTS && n > 0
    ensures FirstFree(t, from, n) ==
            if t[from] == 0 then [from] + FirstFree(t, from + 1, n - 1) else FirstFree(t, from + 1, n)
  {
  }

  lemma FirstFreeEnd(t: Table, from: nat, n: nat)
    requires from >= 1 && (n == 0 || from >= ELEMENTS)
    ensures FirstFree(t, from, n) == []
  {
  }

  /** The table has at least `n` free blocks among 1..2047. */
  predicate HasRoom(t: Table, n: nat) {
    |FirstFree(t, 1, n)| >= n
  }

  ghost function FreeBlocks(t: Table): set<nat> {
    set b: nat | 0 < b < ELEMENTS && t[b] == 0
  }

  /** The scan finds room exactly when that many blocks are free. */
  lemma HasRoomIff(t: Table, n: nat)
    ensures HasRoom(t, n) <==> |FreeBlocks(t)| >= n
  {
    FirstFreeSpec(t, 1, n);
    var c := FirstFree(t, 1, n);
    var s := set x | x in c;
    DistinctCardinality(c, s);
    assert s <= FreeBlocks(t);
    SubsetCardinality(s, FreeBlocks(t));
    if |c| < n {
      assert FreeBlocks(t) == s;
    }
  }

  lemma {:induction false} DistinctCardinality(c: seq<nat>, s: set<nat>)
    requires forall i, j | 0 <= i < j < |c| :: c[i] < c[j]
    requires s == set x | x in c
    ensures |s| == |c|
  {
    if c == [] {
      assert s == {};
    } else {
      var k := |c| - 1;
      var d := c[..k];
      var s' := set x | x in d;
      DistinctCardinality(d, s');
      assert c == d + [c[k]];
      assert s == s' + {c[k]};
    }
  }

  lemma {:induction false} SubsetCardinality(a: set<nat>, b: set<nat>)
    requires a <= b
    ensures |a| <= |b|
  {
    assert b == a + (b - a);
  }

  ghost predicate Increasing(c: seq<nat>) {
    forall i, j | 0 <= i < j < |c| :: c[i] < c[j]
  }

  /** Write `c` into the table as one chain. */
  ghost function Link(t: Table, c: seq<nat>): Table
    requires InTable(c)
    decreases |c|
  {
    if c == [] then t
    else Link(t[c[0] := Next(c, 0)], c[1..])
  }

  lemma NextOfTail(c: seq<nat>, i: nat)
    requires 0 < i < |c| && InTable(c)
    ensures InTable(c[1..]) && Next(c, i) == Next(c[1..], i - 1)
  {
  }

  lemma {:induction false} LinkEffect(t: Table, c: seq<nat>)
    requires InTable(c) && Increasing(c)
    ensures forall b | 0 <= b < ELEMENTS && b !in c :: Link(t, c)[b] == t[b]
    ensures forall i | 0 <= i < |c| :: Link(t, c)[c[i]] == Next(c, i)
    decreases |c|
  {
    if c != [] {
      var t' := t[c[0] := Next(c, 0)];
      var d := c[1..];
      assert forall i | 0 <= i < |d| :: d[i] == c[i + 1];
      LinkEffect(t', d);
      var r := Link(t, c);
      assert r == Link(t', d);
      hide Link, Next;
      assert c[0] !in d;
      assert c == [c[0]] + d;
      forall i | 0 <= i < |c| ensures r[c[i]] == Next(c, i) {
        if i > 0 {
          NextOfTail(c, i);
          assert r[d[i - 1]] == Next(d, i - 1);
        }
      }
    }
  }

  lemma LinkSplits(t: Table, cs: map<nat, seq<nat>>, c: seq<nat>, t': Table, cs': map<nat, seq<nat>>)
    requires Splits(t, cs) && c != [] && InTable(c) && Increasing(c)
    requires forall i | 0 <= i < |c| :: t[c[i]] == 0
    requires t' == Link(t, c) && cs' == cs[c[0] := c]
    ensures c[0] !in cs && Splits(t', cs')
  {
    LinkEffect(t, c);
    forall k | k in cs ensures k != c[0] && Apart(cs[k], c) && IsChain(t', cs[k]) {
      ChainIsUsed(t, cs[k]);
      assert k in cs[k];
      ChainKept(t, t', cs[k]);
    }
    assert AllChains(t', cs') by {
      assert IsChain(t', c);
    }
    assert AllOwned(t', cs') by {
      forall b | 0 <= b < ELEMENTS && t'[b] != 0 ensures Owned(cs', b) {
        if b in c {
          assert c[0] in cs' && b in cs'[c[0]];
        } else {
          assert Owned(cs, b);
          var k :| k in cs && b in cs[k];
          assert k in cs' && b in cs'[k];
        }
      }
    }
  }

  /** Writing a chain over free blocks adds that chain to the split and leaves
      every other chain as it was. */
  lemma LinkKeepsShape(t: Table, c: seq<nat>)
    requires WellFormed(t) && c != [] && InTable(c) && Increasing(c)
    requires forall i | 0 <= i < |c| :: t[c[i]] == 0
    ensures WellFormed(Link(t, c))
    ensures c[0] !in Chains(t)
    ensures Chains(Link(t, c)) == Chains(t)[c[0] := c]
  {
    var cs' := Chains(t)[c[0] := c];
    LinkSplits(t, Chains(t), c, Link(t, c), cs');
    SplitUnique(Link(t, c), cs');
  }

  /** Freeing what was just allocated restores the table entry for entry. */
  lemma UnlinkUndoesLink(t: Table, c: seq<nat>)
    requires c != [] && InTable(c) && Increasing(c)
    requires forall i | 0 <= i < |c| :: t[c[i]] == 0
    ensures Unlink(Link(t, c), c[0]) == t
  {
    LinkEffect(t, c);
    UnlinkChain(Link(t, c), c);
  }

  // -------------------------------------------------------------- extending

  /** The lowest free block, or 2048 when there is none. */
  function LowestFree(t: Table, from: nat := 1): (b: nat)
    requires 1 <= from <= ELEMENTS
    ensures from <= b <= ELEMENTS
    ensures b < ELEMENTS ==> t[b] == 0
    ensures forall x | from <= x < b :: t[x] != 0
    decreases ELEMENTS - from
  {
    if from == ELEMENTS || t[from] == 0 then from else LowestFree(t, from + 1)
  }

  function Extend(t: Table, last: nat, spare: nat): Table
    requires last < ELEMENTS && spare < ELEMENTS
  {
    t[spare := END][last := spare]
  }

  lemma ExtendedChain(t: Table, c: seq<nat>, spare: nat)
    requires IsChain(t, c) && 0 < spare < ELEMENTS && t[spare] == 0
    ensures spare !in c && c[|c| - 1] < ELEMENTS && t[c[|c| - 1]] == END
    ensures IsChain(Extend(t, c[|c| - 1], spare), c + [spare])
  {
    ChainIsUsed(t, c);
    ChainDistinctAll(t, c);
    var last := |c| - 1;
    var c' := c + [spare];
    var t' := Extend(t, c[last], spare);
    assert t[c[last]] == Next(c, last);
    forall i | 0 <= i < |c'| ensures 1 <= c'[i] < ELEMENTS && t'[c'[i]] == Next(c', i) {
      if i < last {
        assert c'[i] == c[i] != c[last] && c[i] in c;
        assert t[c[i]] == Next(c, i);
      }
    }
  }

  lemma ExtendSplits(t: Table, cs: map<nat, seq<nat>>, h: nat, c: seq<nat>, spare: nat,
                     t': Table, cs': map<nat, seq<nat>>)
    requires Splits(t, cs) && h in cs && c == cs[h] && c[|c| - 1] < ELEMENTS
    requires 0 < spare < ELEMENTS && t[spare] == 0
    requires t' == Extend(t, c[|c| - 1], spare) && cs' == cs[h := c + [spare]]
    ensures Splits(t', cs')
  {
    ExtendedChain(t, c, spare);
    var c' := c + [spare];
    assert AllChains(t', cs') by {
      forall k | k in cs && k != h ensures IsChain(t', cs[k]) {
        OtherChainApart(t, cs, h, k, spare);
        ChainKept(t, t', cs[k]);
      }
    }
    assert AllDisjoint(cs') by {
      forall k, l | k in cs' && l in cs' && k != l ensures Disjoint(cs'[k], cs'[l]) {
        if k == h {
          OtherChainApart(t, cs, h, l, spare);
        } else if l == h {
          OtherChainApart(t, cs, h, k, spare);
        } else {
          assert Disjoint(cs[k], cs[l]);
        }
      }
    }
    assert AllOwned(t', cs') by {
      forall b | 0 <= b < ELEMENTS && t'[b] != 0 ensures Owned(cs', b) {
        ExtendOwned(t, cs, h, spare, b);
      }
    }
  }

  lemma OtherChainApart(t: Table, cs: map<nat, seq<nat>>, h: nat, k: nat, spare: nat)
    requires Splits(t, cs) && h in cs && k in cs && k != h
    requires spare < ELEMENTS && t[spare] == 0
    ensures Apart(cs[k], cs[h] + [spare])
  {
    assert Disjoint(cs[k], cs[h]) && Disjoint(cs[h], cs[k]);
    ChainIsUsed(t, cs[k]);
  }

  lemma ExtendOwned(t: Table, cs: map<nat, seq<nat>>, h: nat, spare: nat, b: nat)
    requires h in cs && (b == spare || Owned(cs, b))
    ensures Owned(cs[h := cs[h] + [spare]], b)
  {
    var cs' := cs[h := cs[h] + [spare]];
    if b == spare {
      assert h in cs' && cs'[h][|cs[h]|] == b;
    } else {
      var k :| k in cs && b in cs[k];
      assert k in cs' && b in cs'[k];
    }
  }

  /** Hanging a free block on the last block of a message lengthens that chain
      by one block and leaves every other chain as it was. */
  lemma ExtendKeepsShape(t: Table, h: nat, c: seq<nat>, spare: nat)
    requires WellFormed(t) && h in Chains(t) && c == Chains(t)[h]
    requires 0 < spare < ELEMENTS && t[spare] == 0
    ensures c != [] && c[|c| - 1] < ELEMENTS
    ensures WellFormed(Extend(t, c[|c| - 1], spare))
    ensures Chains(Extend(t, c[|c| - 1], spare)) == Chains(t)[h := c + [spare]]
  {
    ExtendedChain(t, c, spare);
    var t' := Extend(t, c[|c| - 1], spare);
    var cs' := Chains(t)[h := c + [spare]];
    ExtendSplits(t, Chains(t), h, c, spare, t', cs');
    SplitUnique(t', cs');
  }

  lemma EmptyWellFormed()
    ensures WellFormed(EmptyTable()) && Chains(EmptyTable()) == map[]
  {
    SplitUnique(EmptyTable(), map[]);
  }
}
