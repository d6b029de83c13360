/** The list of file directories and, for every user, one flag bit for each
    directory, kept in step when directories are inserted, deleted and moved. */
module DirEdit {
  import opened Words

  // ------------------------------------------------------- flags as bits

  /** Flag `k` of a bitmap: bit k % 32 of word k / 32. */
  predicate Flag(w: seq<bv32>, k: nat)
    requires k < 32 * |w|
  {
    Bit(w[k / 32], k % 32)
  }

  /** A bitmap as the sequence of its flags. */
  function Flags(w: seq<bv32>): (f: seq<bool>)
    ensures |f| == 32 * |w|
  {
    seq(32 * |w|, k requires 0 <= k < 32 * |w| => Flag(w, k))
  }

  // ------------------------------------------ what the list operations mean

  function InsertAt<T>(s: seq<T>, n: nat, x: T): (r: seq<T>)
    requires n <= |s|
    ensures |r| == |s| + 1
  {
    s[..n] + [x] + s[n..]
  }

  function DeleteAt<T>(s: seq<T>, n: nat): (r: seq<T>)
    requires n < |s|
    ensures |r| == |s| - 1
  {
    s[..n] + s[n + 1..]
  }

  function Swapped<T>(s: seq<T>, i: nat, j: nat): (r: seq<T>)
    requires i < |s| && j < |s|
    ensures |r| == |s|
  {
    s[i := s[j]][j := s[i]]
  }

  /** Take element i1 and put it before element i2. */
  function Moved<T>(s: seq<T>, i1: nat, i2: nat): seq<T>
    requires i1 < |s| && i2 <= |s|
  {
    if i2 <= i1 then s[..i2] + [s[i1]] + s[i2..i1] + s[i1 + 1..]
    else s[..i1] + s[i1 + 1..i2] + [s[i1]] + s[i2..]
  }

  /** Inserting a placeholder, swapping and deleting moves one element. */
  lemma MoveByInsertSwapDelete<T>(s: seq<T>, i1: nat, i2: nat, x: T)
    requires i1 < |s| && i2 <= |s| && i1 != i2
    ensures var i := if i2 < i1 then i1 + 1 else i1;
            DeleteAt(Swapped(InsertAt(s, i2, x), i, i2), i) == Moved(s, i1, i2)
  {
    var i := if i2 < i1 then i1 + 1 else i1;
    var t := Swapped(InsertAt(s, i2, x), i, i2);
    assert t[i2] == s[i1] && t[i] == x;
    if i2 < i1 {
      assert t[..i2] == s[..i2] && t[i2 + 1..i] == s[i2..i1] && t[i + 1..] == s[i1 + 1..];
      assert t[..i] == t[..i2] + [t[i2]] + t[i2 + 1..i];
    } else {
      assert t[..i] == s[..i1] && t[i + 1..i2] == s[i1 + 1..i2] && t[i2 + 1..] == s[i2..];
      assert t[i + 1..] == t[i + 1..i2] + [t[i2]] + t[i2 + 1..];
    }
  }

  /** The element taken stands right before the one it was put before, and all
      the others are as they were without it. */
  lemma MovedMeans<T>(s: seq<T>, i1: nat, i2: nat)
    requires i1 < |s| && i2 <= |s| && i1 != i2
    ensures var at := if i1 < i2 then i2 - 1 else i2;
            var r := Moved(s, i1, i2);
            && |r| == |s| && r[at] == s[i1] && (i2 < |s| ==> at + 1 < |s| && r[at + 1] == s[i2])
            && r[..at] + r[at + 1..] == s[..i1] + s[i1 + 1..]
  {
    var at := if i1 < i2 then i2 - 1 else i2;
    var r := Moved(s, i1, i2);
    if i2 < i1 {
      assert r[..at] == s[..i2] && r[at + 1..] == s[i2..i1] + s[i1 + 1..];
      assert s[..i1] == s[..i2] + s[i2..i1];
    } else {
      assert r[..at] == s[..i1] + s[i1 + 1..i2] && r[at + 1..] == s[i2..];
      assert s[i1 + 1..] == s[i1 + 1..i2] + s[i2..];
    }
  }

  /** The flag bits after an insert at `n`: a set flag goes in, and the flags up
      to the end of the last word rewritten move up, the last one being lost. */
  function FlagsInserted(f: seq<bool>, n: nat, top: nat): (r: seq<bool>)
    requires n < top <= |f|
    ensures |r| == |f|
  {
    f[..n] + [true] + f[n..top - 1] + f[top..]
  }

  /** The flag bits after a delete at `n`: the flags up to the end of the last
      word rewritten move down, the first flag behind it coming in twice. */
  function FlagsDeleted(f: seq<bool>, n: nat, top: nat): (r: seq<bool>)
    requires n < top < |f|
    ensures |r| == |f|
  {
    f[..n] + f[n + 1..top + 1] + f[top..]
  }

  /** The end of the word that holds flag `size`. */
  function Top(size: nat): nat {
    32 * (size / 32 + 1)
  }

  // ------------------------------------------------------ one word at a time

  /** A word into which the last flag of the word before is carried. */
  lemma CarryUp(w: bv32, prev: bv32, i: nat)
    requires i < 32
    ensures Bit(Or(Shl(w, 1), Shr(prev, 31)), i) == if i == 0 then Bit(prev, 31) else Bit(w, i - 1)
  {
    hide Bit, Shl, Shr, Down, Up, Or;
    BitOr(Shl(w, 1), Shr(prev, 31), i);
    RightIsDown(prev, 31);
    BitDown(prev, 31, i);
    LeftIsUp(w, 1);
    BitUp(w, 1, i);
    if i > 0 {
      NoHighBits(prev, 31 + i);
    }
  }

  /** A word from which one flag is dropped and the next word's first carried in. */
  lemma CarryDown(w: bv32, next: bv32, i: nat)
    requires i < 32
    ensures Bit(Or(Shr(w, 1), Shl(next, 31)), i) == if i == 31 then Bit(next, 0) else Bit(w, i + 1)
  {
    hide Bit, Shl, Shr, Down, Up, Or;
    BitOr(Shr(w, 1), Shl(next, 31), i);
    RightIsDown(w, 1);
    BitDown(w, 1, i);
    LeftIsUp(next, 31);
    BitUp(next, 31, i);
    if i == 31 {
      NoHighBits(w, 32);
    }
  }

  function InsertedWord(w: bv32, r: nat): bv32
    requires r < 32
  {
    var m1 := Shl(1, r);
    var m2 := Shl(ALL, r + 1);
    var m3 := Shr(ALL, 32 - r);
    Or(Or(m1, And(m2, Shl(w, 1))), And(m3, w))
  }

  lemma InsertedWordBit(w: bv32, r: nat, i: nat)
    requires r < 32 && i < 32
    ensures Bit(InsertedWord(w, r), i) == if i < r then Bit(w, i) else if i == r then true else Bit(w, i - 1)
  {
    hide Bit, Shl, Shr, Up, Or, And;
    var m1, m2, m3 := Shl(1, r), Shl(ALL, r + 1), Shr(ALL, 32 - r);
    BitOr(Or(m1, And(m2, Shl(w, 1))), And(m3, w), i);
    BitOr(m1, And(m2, Shl(w, 1)), i);
    BitAnd(m2, Shl(w, 1), i);
    BitAnd(m3, w, i);
    Masks(r, i);
    Masks(r + 1, i);
    LeftIsUp(w, 1);
    BitUp(w, 1, i);
  }

  function DeletedWord(w: bv32, next: bv32, r: nat): bv32
    requires r < 32
  {
    var m2 := Shl(ALL, r);
    var m3 := Shr(ALL, 32 - r);
    Or(Or(And(w, m3), And(Shr(w, 1), m2)), Shl(next, 31))
  }

  lemma DeletedWordBit(w: bv32, next: bv32, r: nat, i: nat)
    requires r < 32 && i < 32
    ensures Bit(DeletedWord(w, next, r), i)
            == if i < r then Bit(w, i) else if i < 31 then Bit(w, i + 1) else Bit(next, 0)
  {
    hide Bit, Shl, Shr, Up, Down, Or, And;
    var m2, m3 := Shl(ALL, r), Shr(ALL, 32 - r);
    BitOr(Or(And(w, m3), And(Shr(w, 1), m2)), Shl(next, 31), i);
    BitOr(And(w, m3), And(Shr(w, 1), m2), i);
    BitAnd(w, m3, i);
    BitAnd(Shr(w, 1), m2, i);
    Masks(r, i);
    RightIsDown(w, 1);
    BitDown(w, 1, i);
    LeftIsUp(next, 31);
    BitUp(next, 31, i);
    if i == 31 {
      NoHighBits(w, 32);
    }
  }

  // --------------------------------------------------------- the word loops

  /** Makes room for a flag at `n`, set, in a bitmap for `size` directories. */
  method InsertFlag(w: array<bv32>, size: nat, n: nat)
    requires n <= size && size / 32 < w.Length
    modifies w
    ensures Flags(w[..]) == FlagsInserted(Flags(old(w[..])), n, Top(size))
    ensures forall j | size / 32 < j < w.Length :: w[j] == old(w[j])
  {
    hide Bit, Shl, Shr, Or, Flags, FlagsInserted, InsertedWord;
    ghost var a := w[..];
    var first, last := n / 32, size / 32;
    var i1 := last;
    while i1 > first
      invariant first <= i1 <= last
      invariant forall j | 0 <= j < w.Length && !(i1 < j <= last) :: w[j] == a[j]
      invariant forall j | i1 < j <= last :: w[j] == Or(Shl(a[j], 1), Shr(a[j - 1], 31))
    {
      w[i1] := Or(Shl(w[i1], 1), Shr(w[i1 - 1], 31));
      i1 := i1 - 1;
    }
    w[i1] := InsertedWord(w[i1], n % 32);
    InsertedFlags(a, w[..], size, n);
  }

  lemma InsertedFlags(a: seq<bv32>, b: seq<bv32>, size: nat, n: nat)
    requires n <= size && size / 32 < |a| == |b|
    requires forall j | 0 <= j < |a| && !(n / 32 <= j <= size / 32) :: b[j] == a[j]
    requires forall j | n / 32 < j <= size / 32 :: b[j] == Or(Shl(a[j], 1), Shr(a[j - 1], 31))
    requires b[n / 32] == InsertedWord(a[n / 32], n % 32)
    ensures n < Top(size) <= 32 * |a| && Flags(b) == FlagsInserted(Flags(a), n, Top(size))
  {
    hide Bit, Shl, Shr, Or, InsertedWord;
    var f := FlagsInserted(Flags(a), n, Top(size));
    forall k | 0 <= k < 32 * |b| ensures Flags(b)[k] == f[k] {
      var j, i := k / 32, k % 32;
      assert k == 32 * j + i;
      if n / 32 < j <= size / 32 {
        CarryUp(a[j], a[j - 1], i);
      } else if j == n / 32 {
        InsertedWordBit(a[j], n % 32, i);
      }
    }
  }

  /** Drops the flag at `n` from a bitmap that keeps `size` directories. */
  method DeleteFlag(w: array<bv32>, size: nat, n: nat)
    requires n <= size && size / 32 + 1 < w.Length
    modifies w
    ensures Flags(w[..]) == FlagsDeleted(Flags(old(w[..])), n, Top(size))
    ensures forall j | size / 32 < j < w.Length :: w[j] == old(w[j])
  {
    hide Bit, Shl, Shr, Or, Flags, FlagsDeleted, DeletedWord;
    ghost var a := w[..];
    var first, last := n / 32, size / 32;
    w[first] := DeletedWord(w[first], w[first + 1], n % 32);
    var i1 := first + 1;
    while i1 <= last
      invariant first < i1 <= last + 1
      invariant forall j | 0 <= j < w.Length && !(first <= j < i1) :: w[j] == a[j]
      invariant w[first] == DeletedWord(a[first], a[first + 1], n % 32)
      invariant forall j | first < j < i1 :: w[j] == Or(Shr(a[j], 1), Shl(a[j + 1], 31))
    {
      w[i1] := Or(Shr(w[i1], 1), Shl(w[i1 + 1], 31));
      i1 := i1 + 1;
    }
    DeletedFlags(a, w[..], size, n);
  }

  lemma DeletedFlags(a: seq<bv32>, b: seq<bv32>, size: nat, n: nat)
    requires n <= size && size / 32 + 1 < |a| == |b|
    requires forall j | 0 <= j < |a| && !(n / 32 <= j <= size / 32) :: b[j] == a[j]
    requires forall j | n / 32 < j <= size / 32 :: b[j] == Or(Shr(a[j], 1), Shl(a[j + 1], 31))
    requires b[n / 32] == DeletedWord(a[n / 32], a[n / 32 + 1], n % 32)
    ensures n < Top(size) < 32 * |a| && Flags(b) == FlagsDeleted(Flags(a), n, Top(size))
  {
    hide Bit, Shl, Shr, Or, DeletedWord;
    var f := FlagsDeleted(Flags(a), n, Top(size));
    forall k | 0 <= k < 32 * |b| ensures Flags(b)[k] == f[k] {
      var j, i := k / 32, k % 32;
      assert k == 32 * j + i;
      if n / 32 < j <= size / 32 {
        CarryDown(a[j], a[j + 1], i);
      } else if j == n / 32 {
        DeletedWordBit(a[j], a[j + 1], n % 32, i);
      }
    }
  }

  function FlipWord(w: bv32, r: nat): bv32
    requires r < 32
  {
    Xor(w, Shl(1, r))
  }

  lemma FlipWordBit(w: bv32, r: nat, i: nat)
    requires r < 32 && i < 32
    ensures Bit(FlipWord(w, r), i) == if i == r then !Bit(w, i) else Bit(w, i)
  {
    hide Bit, Shl, Xor;
    BitXor(w, Shl(1, r), i);
    Masks(r, i);
  }

  /** The test of one bit of a word. */
  lemma TestBit(w: bv32, r: nat)
    requires r < 32
    ensures And(w, Shl(1, r)) != 0 <==> Bit(w, r)
  {
    hide Bit, Shl, And;
    forall i | 0 <= i < 32 ensures Bit(And(w, Shl(1, r)), i) == (i == r && Bit(w, i)) {
      BitAnd(w, Shl(1, r), i);
      Masks(r, i);
    }
    forall i | 0 <= i < 32 ensures !Bit(0, i) {
      NoBits(i);
    }
    if !Bit(w, r) {
      SameBits(And(w, Shl(1, r)), 0);
    }
  }

  lemma NoBits(i: nat)
    ensures !Bit(0, i)
  {
    DownZero(i);
  }

  /** Flips flag `k` of a bitmap. */
  method FlipFlag(w: array<bv32>, k: nat)
    requires k / 32 < w.Length
    modifies w
    ensures Flags(w[..]) == Flags(old(w[..]))[k := !Flags(old(w[..]))[k]]
  {
    hide Bit, FlipWord;
    ghost var a := w[..];
    w[k / 32] := FlipWord(w[k / 32], k % 32);
    ghost var b := w[..];
    forall m | 0 <= m < 32 * |b| ensures Flags(b)[m] == Flags(a)[k := !Flags(a)[k]][m] {
      assert m == 32 * (m / 32) + m % 32 && k == 32 * (k / 32) + k % 32;
      FlipWordBit(a[k / 32], k % 32, m % 32);
    }
  }

  /** Exchanges two flags: when just one of them is set, both are flipped. */
  method SwapFlags(w: array<bv32>, dir1: nat, dir2: nat)
    requires dir1 / 32 < w.Length && dir2 / 32 < w.Length
    modifies w
    ensures Flags(w[..]) == Swapped(Flags(old(w[..])), dir1, dir2)
  {
    hide Bit, Shl, And;
    TestBit(w[dir1 / 32], dir1 % 32);
    TestBit(w[dir2 / 32], dir2 % 32);
    ghost var f := Flags(w[..]);
    var i1, i2 := 0, 0;
    if And(w[dir1 / 32], Shl(1, dir1 % 32)) != 0 {
      i1 := 1;
    }
    if And(w[dir2 / 32], Shl(1, dir2 % 32)) != 0 {
      i2 := 1;
    }
    assert i1 == 1 <==> f[dir1];
    assert i2 == 1 <==> f[dir2];
    if i1 + i2 == 1 {
      FlipFlag(w, dir1);
      FlipFlag(w, dir2);
    }
  }

  // ---------------------------------------------------- the directory list

  datatype Directory = Directory(name: string, filename: string, path: string, acs: string, maxfiles: nat, mask: nat)

  ghost predicate Inserted(a: seq<bv32>, b: seq<bv32>, size: nat, n: nat) {
    && n <= size && size / 32 < |a| == |b|
    && Flags(b) == FlagsInserted(Flags(a), n, Top(size))
  }

  ghost predicate Deleted(a: seq<bv32>, b: seq<bv32>, size: nat, n: nat) {
    && n <= size && size / 32 + 1 < |a| == |b|
    && Flags(b) == FlagsDeleted(Flags(a), n, Top(size))
  }

  ghost predicate Exchanged(a: seq<bv32>, b: seq<bv32>, i: nat, j: nat) {
    && i / 32 < |a| && j / 32 < |a| == |b|
    && Flags(b) == Swapped(Flags(a), i, j)
  }

  /** Every user's record has more than `words` words of flags. */
  ghost predicate Wide(users: seq<seq<bv32>>, words: nat) {
    forall u | 0 <= u < |users| :: words < |users[u]|
  }

  class DirBase {
    var dirs: seq<Directory>
    // One record of flag words for each user.
    const users: array<seq<bv32>>
    const maxDirs: nat
    const dloadsdir: string

    constructor (dirs: seq<Directory>, users: array<seq<bv32>>, maxDirs: nat, dloadsdir: string)
      ensures this.dirs == dirs && this.users == users && this.maxDirs == maxDirs && this.dloadsdir == dloadsdir
    {
      this.dirs, this.users, this.maxDirs, this.dloadsdir := dirs, users, maxDirs, dloadsdir;
    }

    function NewDir(): Directory {
      Directory("** NEW DIR **", "noname", dloadsdir, "user.sl >= 10", 500, 0)
    }

    /** Inserts a new directory before directory `n`. */
    method InsertDir(n: int)
      requires Wide(users[..], (|dirs| + 1) / 32)
      modifies this`dirs, users
      ensures !(0 <= n <= |old(dirs)|) ==> dirs == old(dirs) && users[..] == old(users[..])
      ensures 0 <= n <= |old(dirs)| ==>
                && dirs == InsertAt(old(dirs), n, NewDir())
                && dirs[n] == Directory("** NEW DIR **", "noname", dloadsdir, "user.sl >= 10", 500, 0)
                && forall u | 0 <= u < users.Length :: Inserted(old(users[u]), users[u], |dirs|, n)
    {
      if n < 0 || n > |dirs| {
        return;
      }
      dirs := InsertAt(dirs, n, NewDir());
      ghost var a := users[..];
      for i := 0 to users.Length
        invariant forall u | i <= u < users.Length :: users[u] == a[u]
        invariant forall u | 0 <= u < i :: Inserted(a[u], users[u], |dirs|, n)
        invariant dirs == InsertAt(old(dirs), n, NewDir())
      {
        hide Flags, FlagsInserted, FlagsDeleted;
        var rec := users[i];
        var buffer := new bv32[|rec|](k requires 0 <= k < |rec| => rec[k]);
        assert buffer[..] == rec;
        InsertFlag(buffer, |dirs|, n);
        users[i] := buffer[..];
        assert Inserted(rec, users[i], |dirs|, n);
      }
    }

    /** Deletes directory `n`. */
    method DeleteDir(n: int)
      requires 0 <= n < |dirs| ==> Wide(users[..], (|dirs| - 1) / 32 + 1)
      modifies this`dirs, users
      ensures !(0 <= n < |old(dirs)|) ==> dirs == old(dirs) && users[..] == old(users[..])
      ensures 0 <= n < |old(dirs)| ==>
                && dirs == DeleteAt(old(dirs), n)
                && forall u | 0 <= u < users.Length :: Deleted(old(users[u]), users[u], |dirs|, n)
    {
      if n < 0 || n >= |dirs| {
        return;
      }
      dirs := DeleteAt(dirs, n);
      ghost var a := users[..];
      for i := 0 to users.Length
        invariant forall u | i <= u < users.Length :: users[u] == a[u]
        invariant forall u | 0 <= u < i :: Deleted(a[u], users[u], |dirs|, n)
        invariant dirs == DeleteAt(old(dirs), n)
      {
        hide Flags, FlagsInserted, FlagsDeleted;
        var rec := users[i];
        var buffer := new bv32[|rec|](k requires 0 <= k < |rec| => rec[k]);
        assert buffer[..] == rec;
        DeleteFlag(buffer, |dirs|, n);
        users[i] := buffer[..];
        assert Deleted(rec, users[i], |dirs|, n);
      }
    }

    /** Exchanges two directories. */
    method SwapDirs(dir1: int, dir2: int)
      requires Wide(users[..], |dirs| / 32)
      modifies this`dirs, users
      ensures !(0 <= dir1 < |old(dirs)| && 0 <= dir2 < |old(dirs)|) ==>
                dirs == old(dirs) && users[..] == old(users[..])
      ensures 0 <= dir1 < |old(dirs)| && 0 <= dir2 < |old(dirs)| ==>
                && dirs == Swapped(old(dirs), dir1, dir2)
                && forall u | 0 <= u < users.Length :: Exchanged(old(users[u]), users[u], dir1, dir2)
    {
      if dir1 < 0 || dir1 >= |dirs| || dir2 < 0 || dir2 >= |dirs| {
        return;
      }
      ghost var a := users[..];
      for i := 0 to users.Length
        invariant forall u | i <= u < users.Length :: users[u] == a[u]
        invariant forall u | 0 <= u < i :: Exchanged(a[u], users[u], dir1, dir2)
        invariant dirs == old(dirs)
      {
        hide Flags, FlagsInserted, FlagsDeleted;
        var rec := users[i];
        var buffer := new bv32[|rec|](k requires 0 <= k < |rec| => rec[k]);
        assert buffer[..] == rec;
        SwapFlags(buffer, dir1, dir2);
        users[i] := buffer[..];
        assert Exchanged(rec, users[i], dir1, dir2);
      }
      var drt := dirs[dir1];
      dirs := dirs[dir1 := dirs[dir2]];
      dirs := dirs[dir2 := drt];
    }

    /** Takes directory `taken` and puts it before directory `before`: every
        directory's flag travels with it, for every user. */
    method MoveDir(taken: int, before: int) returns (moved: bool)
      requires Wide(users[..], (|dirs| + 1) / 32 + 1)
      modifies this`dirs, users
      ensures moved <==> |old(dirs)| < maxDirs && 0 <= taken < |old(dirs)| && 0 <= before <= |old(dirs)|
                         && before % 32 != 0 && taken != before
      ensures !moved ==> dirs == old(dirs) && users[..] == old(users[..])
      ensures moved ==>
                && dirs == Moved(old(dirs), taken, before)
                && forall u | 0 <= u < users.Length ::
                     FlagsMoved(old(users[u]), users[u], |dirs|, taken, before)
    {
      hide Flags, FlagsInserted, FlagsDeleted, FlagsMoved, Moved, InsertAt, DeleteAt, Swapped;
      moved := false;
      if |dirs| < maxDirs {
        var i1, i2 := taken, before;
        if i1 < 0 || i1 >= |dirs| {
          return;
        }
        if i2 < 0 || i2 % 32 == 0 || i2 > |dirs| || i1 == i2 {
          return;
        }
        if i2 < i1 {
          i1 := i1 + 1;
        }
        ghost var d0, a := dirs, users[..];
        InsertDir(i2);
        ghost var b := users[..];
        SwapDirs(i1, i2);
        ghost var c := users[..];
        DeleteDir(i1);
        MoveByInsertSwapDelete(d0, taken, before, NewDir());
        forall u | 0 <= u < users.Length ensures FlagsMoved(a[u], users[u], |d0|, taken, before) {
          assert Inserted(a[u], b[u], |d0| + 1, before) && Exchanged(b[u], c[u], i1, before);
          MovedFlags(a[u], b[u], c[u], users[u], |d0|, taken, before);
        }
        moved := true;
      }
    }
  }

  /** The flags of `size` directories moved as the directories were. */
  ghost predicate FlagsMoved(a: seq<bv32>, b: seq<bv32>, size: nat, taken: nat, before: nat) {
    && |b| == |a| && taken < size <= 32 * |a| && before <= size
    && Flags(b)[..size] == Moved(Flags(a)[..size], taken, before)
  }

  /** The three flag operations of a move, seen on the flags of the directories. */
  lemma MovedFlags(a: seq<bv32>, b: seq<bv32>, c: seq<bv32>, d: seq<bv32>, size: nat, taken: nat, before: nat)
    requires taken < size && before <= size && taken != before
    requires var i := if before < taken then taken + 1 else taken;
             Inserted(a, b, size + 1, before) && Exchanged(b, c, i, before) && Deleted(c, d, size, i)
    ensures FlagsMoved(a, d, size, taken, before)
  {
    var i := if before < taken then taken + 1 else taken;
    MovedBits(Flags(a), Flags(b), Flags(c), Flags(d), size, taken, before);
  }

  lemma MovedBits(a: seq<bool>, b: seq<bool>, c: seq<bool>, d: seq<bool>, size: nat, taken: nat, before: nat)
    requires taken < size && before <= size && taken != before && Top(size + 1) <= |a| && Top(size) < |a|
    requires b == FlagsInserted(a, before, Top(size + 1))
    requires var i := if before < taken then taken + 1 else taken;
             c == Swapped(b, i, before) && d == FlagsDeleted(c, i, Top(size))
    ensures d[..size] == Moved(a[..size], taken, before)
  {
    var i := if before < taken then taken + 1 else taken;
    InsertedPrefix(a, size, before);
    DeletedPrefix(c, size, i);
    assert c[..size + 1] == Swapped(b[..size + 1], i, before);
    MoveByInsertSwapDelete(a[..size], taken, before, true);
  }

  lemma InsertedPrefix(f: seq<bool>, size: nat, n: nat)
    requires n <= size && Top(size + 1) <= |f|
    ensures FlagsInserted(f, n, Top(size + 1))[..size + 1] == InsertAt(f[..size], n, true)
  {
  }

  lemma DeletedPrefix(f: seq<bool>, size: nat, n: nat)
    requires n <= size && Top(size) < |f|
    ensures FlagsDeleted(f, n, Top(size))[..size] == DeleteAt(f[..size + 1], n)
  {
  }

  // ------------------------------------------------- insert against delete

  /** Deleting where a directory was just inserted brings back every flag up to
      the end of the words the delete rewrites, except perhaps the last, which the
      insert may have pushed out.  When both rewrite the same words, that one
      comes back too exactly when the flag behind it was the same.  When the
      insert rewrites a word more, that one does come back, and the flags of the
      further word, which stay moved up, are right exactly when each equals the
      flag before it. */
  lemma DeleteUndoesInsert(f: seq<bool>, size: nat, n: nat)
    requires n <= size && Top(size + 1) <= |f| && Top(size) < |f|
    ensures var g := FlagsDeleted(FlagsInserted(f, n, Top(size + 1)), n, Top(size));
            && g[..Top(size) - 1] == f[..Top(size) - 1] && g[Top(size + 1)..] == f[Top(size + 1)..]
            && if Top(size + 1) == Top(size) then
                 g == f <==> f[Top(size) - 1] == f[Top(size)]
               else
                 && g[Top(size) - 1] == f[Top(size) - 1]
                 && (forall k | Top(size) <= k < Top(size + 1) :: g[k] == f[k - 1])
                 && (g == f <==> forall k | Top(size) <= k < Top(size + 1) :: f[k] == f[k - 1])
  {
    var g := FlagsDeleted(FlagsInserted(f, n, Top(size + 1)), n, Top(size));
    var t, t1 := Top(size), Top(size + 1);
    assert n < t <= t1;
    hide FlagsInserted, FlagsDeleted, Top;
    forall k | 0 <= k < t - 1 || t1 <= k < |f| ensures g[k] == f[k] {
      InsertedThenDeleted(f, n, t, t1, k);
    }
    SameSlice(g, f, 0, t - 1);
    SameSlice(g, f, t1, |f|);
    InsertedThenDeleted(f, n, t, t1, t - 1);
    if t == t1 {
      EqualButOne(f, g, t - 1);
    } else {
      forall k | t <= k < t1 ensures g[k] == f[k - 1] {
        InsertedThenDeleted(f, n, t, t1, k);
      }
      EqualButSlice(f, g, t, t1);
    }
  }

  lemma EqualButSlice(f: seq<bool>, g: seq<bool>, lo: nat, hi: nat)
    requires 0 < lo <= hi <= |f| == |g|
    requires forall k | 0 <= k < lo || hi <= k < |f| :: g[k] == f[k]
    requires forall k | lo <= k < hi :: g[k] == f[k - 1]
    ensures g == f <==> forall k | lo <= k < hi :: f[k] == f[k - 1]
  {
  }

  /** With 31 directories, inserting before the first and deleting it again
      leaves flag 33 set where flag 32 was. */
  lemma InsertDeleteLeavesShift()
    ensures var f := seq(96, k => k == 32);
            var g := FlagsDeleted(FlagsInserted(f, 0, Top(32)), 0, Top(31));
            f[32] && !f[33] && !g[32] && g[33]
  {
    hide FlagsInserted, FlagsDeleted;
    var f := seq(96, k => k == 32);
    InsertedThenDeleted(f, 0, 32, 64, 32);
    InsertedThenDeleted(f, 0, 32, 64, 33);
  }

  /** With one directory, inserting before it and deleting again loses flag 31. */
  lemma InsertDeleteLosesFlag()
    ensures var f := seq(64, k => k == 31);
            var g := FlagsDeleted(FlagsInserted(f, 0, Top(2)), 0, Top(1));
            f[31] && !g[31]
  {
    hide FlagsInserted, FlagsDeleted;
    InsertedThenDeleted(seq(64, k => k == 31), 0, 32, 32, 31);
  }

  lemma EqualButOne(f: seq<bool>, g: seq<bool>, k: nat)
    requires k < |f| == |g| && f[..k] == g[..k] && f[k + 1..] == g[k + 1..]
    ensures f == g <==> f[k] == g[k]
  {
    assert f == f[..k] + [f[k]] + f[k + 1..];
    assert g == g[..k] + [g[k]] + g[k + 1..];
  }

  lemma SameSlice(g: seq<bool>, f: seq<bool>, lo: nat, hi: nat)
    requires lo <= hi <= |f| == |g| && forall k | lo <= k < hi :: g[k] == f[k]
    ensures g[lo..hi] == f[lo..hi]
  {
  }

  lemma InsertedThenDeleted(f: seq<bool>, n: nat, t: nat, t1: nat, k: nat)
    requires n < t <= t1 <= |f| && t < |f| && k < |f|
    ensures FlagsDeleted(FlagsInserted(f, n, t1), n, t)[k] ==
            if k < t - 1 then f[k] else if k == t - 1 && t == t1 then f[t]
            else if t <= k < t1 then f[k - 1] else f[k]
  {
    hide FlagsInserted, FlagsDeleted;
    var h := FlagsInserted(f, n, t1);
    DeletedAt(h, n, t, k);
    InsertedAt(f, n, t1, k);
    if k + 1 < |f| {
      InsertedAt(f, n, t1, k + 1);
    }
  }

  lemma InsertedAt(f: seq<bool>, n: nat, t: nat, k: nat)
    requires n < t <= |f| && k < |f|
    ensures FlagsInserted(f, n, t)[k] ==
            if k < n then f[k] else if k == n then true else if k < t then f[k - 1] else f[k]
  {
  }

  lemma DeletedAt(f: seq<bool>, n: nat, t: nat, k: nat)
    requires n < t < |f| && k < |f|
    ensures FlagsDeleted(f, n, t)[k] == if n <= k < t then f[k + 1] else f[k]
  {
  }

  /** The words of a record that hold directory flags; the words behind them
      hold other data. */
  function DirWords(maxDirs: nat): nat {
    (maxDirs + 31) / 32
  }

  /** The words of a record after an insert at `n`. */
  function InsertedWords(a: seq<bv32>, size: nat, n: nat): (b: seq<bv32>)
    requires n <= size && size / 32 < |a|
    ensures |b| == |a|
  {
    seq(|a|, j requires 0 <= j < |a| =>
      if j < n / 32 || j > size / 32 then a[j]
      else if j == n / 32 then InsertedWord(a[j], n % 32)
      else Or(Shl(a[j], 1), Shr(a[j - 1], 31)))
  }

  lemma InsertedWordsInserted(a: seq<bv32>, size: nat, n: nat)
    requires n <= size && size / 32 < |a|
    ensures Inserted(a, InsertedWords(a, size, n), size, n)
  {
    hide Flags, FlagsInserted, InsertedWord, Or, Shl, Shr;
    InsertedFlags(a, InsertedWords(a, size, n), size, n);
  }

  /** Two records with the same flags are the same. */
  lemma SameFlags(a: seq<bv32>, b: seq<bv32>)
    requires Flags(a) == Flags(b)
    ensures a == b
  {
    assert |Flags(a)| == |Flags(b)|;
    forall j | 0 <= j < |a| ensures a[j] == b[j] {
      forall i | 0 <= i < 32 ensures Bit(a[j], i) == Bit(b[j], i) {
        assert (32 * j + i) / 32 == j && (32 * j + i) % 32 == i;
        assert Flags(a)[32 * j + i] == Flags(b)[32 * j + i];
      }
      SameBits(a[j], b[j]);
    }
  }

  /** The insert leaves exactly these words in a user's record. */
  lemma InsertedIsWords(a: seq<bv32>, b: seq<bv32>, size: nat, n: nat)
    requires Inserted(a, b, size, n)
    ensures b == InsertedWords(a, size, n)
  {
    hide Flags, FlagsInserted, InsertedWords;
    InsertedWordsInserted(a, size, n);
    SameFlags(b, InsertedWords(a, size, n));
  }

  /** Nothing behind the directory words changes. */
  ghost predicate StaysInside(a: seq<bv32>, b: seq<bv32>, maxDirs: nat)
    requires DirWords(maxDirs) <= |a| == |b|
  {
    b[DirWords(maxDirs)..] == a[DirWords(maxDirs)..]
  }

  /** A record whose first word behind the directory words is 1. */
  function Spillable(maxDirs: nat): (a: seq<bv32>)
    ensures |a| == DirWords(maxDirs) + 1
  {
    seq(DirWords(maxDirs) + 1, j => if j == DirWords(maxDirs) then 1 else 0)
  }

  lemma InsertSpills(maxDirs: nat, n: nat)
    requires n <= maxDirs && maxDirs % 32 == 0
    ensures !StaysInside(Spillable(maxDirs), InsertedWords(Spillable(maxDirs), maxDirs, n), maxDirs)
  {
    hide Bit, Or, Shl, Shr, InsertedWord;
    var a, d := Spillable(maxDirs), DirWords(maxDirs);
    var b := InsertedWords(a, maxDirs, n);
    assert d == maxDirs / 32;
    BitOfOne(0);
    BitOfOne(1);
    if n / 32 == d {
      InsertedWordBit(a[d], n % 32, 1);
    } else {
      CarryUp(a[d], a[d - 1], 1);
    }
    assert b[d] != a[d];
    assert b[d..][0] == b[d] && a[d..][0] == a[d];
  }

  /** Whatever a record holds behind its directory words, inserting a directory
      leaves it alone; unless the permitted number of directories is a multiple
      of 32 and the insert reaches it: then some record's next word changes. */
  lemma InsertStaysInsideIff(size: nat, maxDirs: nat, n: nat)
    requires 0 < size <= maxDirs && n <= size
    ensures (forall a: seq<bv32>, b: seq<bv32> | |a| > DirWords(maxDirs) && Inserted(a, b, size, n) ::
               StaysInside(a, b, maxDirs))
            <==> !(size == maxDirs && maxDirs % 32 == 0)
  {
    hide InsertedWord, Inserted, Or, Shl, Shr, StaysInside, Spillable;
    if size == maxDirs && maxDirs % 32 == 0 {
      var a := Spillable(maxDirs);
      InsertedWordsInserted(a, size, n);
      InsertSpills(maxDirs, n);
    } else {
      forall a: seq<bv32>, b: seq<bv32> | |a| > DirWords(maxDirs) && Inserted(a, b, size, n)
        ensures |a| == |b| && StaysInside(a, b, maxDirs)
      {
        InsertInside(a, b, size, maxDirs, n);
      }
    }
  }

  lemma InsertInside(a: seq<bv32>, b: seq<bv32>, size: nat, maxDirs: nat, n: nat)
    requires 0 < size <= maxDirs && !(size == maxDirs && maxDirs % 32 == 0)
    requires |a| > DirWords(maxDirs) && Inserted(a, b, size, n)
    ensures |a| == |b| && StaysInside(a, b, maxDirs)
  {
    hide InsertedWord, Or, Shl, Shr;
    InsertedIsWords(a, b, size, n);
    if size < maxDirs {
      assert size / 32 <= (maxDirs - 1) / 32;
    }
  }

  // -------------------------------------------------------- shifts by 32

  /** A shift on a machine that takes the count modulo 32. */
  function ShlMod(w: bv32, n: nat): bv32
    requires n <= 32
  {
    Shl(w, n % 32)
  }

  function ShrMod(w: bv32, n: nat): bv32
    requires n <= 32
  {
    Shr(w, n % 32)
  }

  function InsertedWordMod(w: bv32, r: nat): bv32
    requires r < 32
  {
    Or(Or(Shl(1, r), And(ShlMod(ALL, r + 1), Shl(w, 1))), And(ShrMod(ALL, 32 - r), w))
  }

  function DeletedWordMod(w: bv32, next: bv32, r: nat): bv32
    requires r < 32
  {
    Or(Or(And(w, ShrMod(ALL, 32 - r)), And(Shr(w, 1), Shl(ALL, r))), Shl(next, 31))
  }

  /** The insert's masks do not depend on how a shift by 32 behaves exactly at
      positions 1 to 30 of a word. */
  lemma InsertShiftsIff(r: nat)
    requires r < 32
    ensures (forall w :: InsertedWordMod(w, r) == InsertedWord(w, r)) <==> 1 <= r <= 30
  {
    if r == 0 {
      InsertAt0();
    } else if r == 31 {
      InsertAt31();
    }
  }

  lemma InsertAt0()
    ensures InsertedWordMod(2, 0) != InsertedWord(2, 0)
  {
  }

  lemma InsertAt31()
    ensures InsertedWordMod(1, 31) != InsertedWord(1, 31)
  {
  }

  /** The delete's masks, exactly at positions 1 to 31. */
  lemma DeleteShiftsIff(r: nat)
    requires r < 32
    ensures (forall w, next :: DeletedWordMod(w, next, r) == DeletedWord(w, next, r)) <==> r != 0
  {
    if r == 0 {
      DeleteAt0();
    }
  }

  lemma DeleteAt0()
    ensures DeletedWordMod(1, 0, 0) != DeletedWord(1, 0, 0)
  {
  }
}
