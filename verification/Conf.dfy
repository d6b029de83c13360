/** Conferences: which message and file areas a user sees, and switching the
    division into conferences off and on again around an operation. */
module Conf {
  const NUL: char := 0 as char

  datatype Kind = Subs | Dirs

  /** A message or file area.  Only message areas have a key and can be
      reserved to users with ANSI. */
  datatype Area = Area(confs: set<char>, acs: string, key: char, ansiOnly: bool)

  datatype Keys = Blank | Letter(c: char) | Number(n: nat)

  /** An entry of the list of areas that a user sees. */
  datatype UserSub = UserSub(keys: Keys, subnum: int)

  /** What a run does not change: the areas, the access control strings that
      let the user pass, and the user's flags. */
  datatype Settings =
    Settings(subs: seq<Area>, dirs: seq<Area>, passes: string -> bool, ansi: bool, conferences: bool)
  {
    function Areas(kind: Kind): seq<Area> {
      if kind.Subs? then subs else dirs
    }
  }

  // -------------------------------------------------- the list of a user

  /** The areas of one conference, or all areas without regard to
      conferences. */
  datatype Choice = Conference(key: char) | Everything(confs: map<char, string>)

  predicate AllOpen(s: Settings, confs: map<char, string>, e: set<char>) {
    forall c | c in e :: c in confs && s.passes(confs[c])
  }

  predicate Shown(s: Settings, kind: Kind, choice: Choice, a: Area) {
    && s.passes(a.acs)
    && match choice
       case Conference(key) => key in a.confs
       case Everything(confs) => AllOpen(s, confs, a.confs) && (kind.Subs? && a.ansiOnly ==> s.ansi)
  }

  function KeysOf(key: char): Keys {
    if key == NUL then Blank else Letter(key)
  }

  /** The entries of the first n areas, in order, before numbering. */
  function Listed(s: Settings, kind: Kind, choice: Choice, n: nat): seq<UserSub>
    requires n <= |s.Areas(kind)|
    decreases n
  {
    if n == 0 then []
    else
      var a := s.Areas(kind)[n - 1];
      Listed(s, kind, choice, n - 1) +
      (if Shown(s, kind, choice, a) then [UserSub(if kind.Subs? then KeysOf(a.key) else Blank, n - 1)] else [])
  }

  function Blanks(us: seq<UserSub>): nat {
    if us == [] then 0 else Blanks(us[..|us| - 1]) + if us[|us| - 1].keys.Blank? then 1 else 0
  }

  /** Entries without a key are numbered from 1. */
  function Numbered(us: seq<UserSub>): (r: seq<UserSub>)
    ensures |r| == |us|
    ensures forall i | 0 <= i < |us| :: r[i].subnum == us[i].subnum
  {
    if us == [] then []
    else
      var k := |us| - 1;
      Numbered(us[..k]) + [if us[k].keys.Blank? then us[k].(keys := Number(Blanks(us[..k]) + 1)) else us[k]]
  }

  function ListOf(s: Settings, kind: Kind, choice: Choice): seq<UserSub> {
    Numbered(Listed(s, kind, choice, |s.Areas(kind)|))
  }

  /** The last position of an area, or -1. */
  function Place(us: seq<UserSub>, subnum: int): (p: int)
    ensures -1 <= p < |us|
    ensures p >= 0 ==> us[p].subnum == subnum
    ensures p < 0 ==> !HasNum(us, subnum)
  {
    if us == [] then -1
    else if us[|us| - 1].subnum == subnum then |us| - 1
    else Place(us[..|us| - 1], subnum)
  }

  predicate HasNum(us: seq<UserSub>, subnum: int) {
    exists i | 0 <= i < |us| :: us[i].subnum == subnum
  }

  predicate Increasing(us: seq<UserSub>, n: nat) {
    && (forall i | 0 <= i < |us| :: 0 <= us[i].subnum < n)
    && (forall i, j | 0 <= i < j < |us| :: us[i].subnum < us[j].subnum)
  }

  lemma {:induction false} ListedIncreasing(s: Settings, kind: Kind, choice: Choice, n: nat)
    requires n <= |s.Areas(kind)|
    ensures Increasing(Listed(s, kind, choice, n), n)
    decreases n
  {
    hide Shown;
    if n > 0 {
      ListedIncreasing(s, kind, choice, n - 1);
    }
  }

  lemma ListedNone(s: Settings, kind: Kind, choice: Choice)
    ensures Listed(s, kind, choice, 0) == []
  {
  }

  /** An area to be shown is added, being new. */
  lemma ListedNext(s: Settings, kind: Kind, choice: Choice, n: nat)
    requires n < |s.Areas(kind)|
    ensures var a, us := s.Areas(kind)[n], Listed(s, kind, choice, n);
            && !HasNum(us, n)
            && Listed(s, kind, choice, n + 1) ==
               if Shown(s, kind, choice, a) then us + [UserSub(KeysOf(if kind.Subs? then a.key else NUL), n)] else us
  {
    hide Shown;
    ListedIncreasing(s, kind, choice, n);
  }

  lemma {:induction false} ListedExactly(s: Settings, kind: Kind, choice: Choice, n: nat, k: nat)
    requires k < n <= |s.Areas(kind)|
    ensures HasNum(Listed(s, kind, choice, n), k) <==> Shown(s, kind, choice, s.Areas(kind)[k])
    decreases n
  {
    hide Shown;
    var before := Listed(s, kind, choice, n - 1);
    var us := Listed(s, kind, choice, n);
    ListedIncreasing(s, kind, choice, n - 1);
    if k == n - 1 {
      if Shown(s, kind, choice, s.Areas(kind)[k]) {
        assert us[|before|].subnum == k;
      } else {
        assert us == before;
      }
    } else {
      ListedExactly(s, kind, choice, n - 1, k);
      if HasNum(before, k) {
        var i :| 0 <= i < |before| && before[i].subnum == k;
        assert us[i].subnum == k;
      }
    }
  }

  /** The list holds exactly the areas to be shown, in the order of the areas
      and none of them twice. */
  lemma ListIsFilter(s: Settings, kind: Kind, choice: Choice)
    ensures Increasing(ListOf(s, kind, choice), |s.Areas(kind)|)
    ensures forall k | 0 <= k < |s.Areas(kind)| ::
              HasNum(ListOf(s, kind, choice), k) <==> Shown(s, kind, choice, s.Areas(kind)[k])
  {
    hide Shown, Listed, Numbered;
    var n := |s.Areas(kind)|;
    var us := Listed(s, kind, choice, n);
    ListedIncreasing(s, kind, choice, n);
    forall k | 0 <= k < n
      ensures HasNum(Numbered(us), k) <==> Shown(s, kind, choice, s.Areas(kind)[k])
    {
      ListedExactly(s, kind, choice, n, k);
      SameNums(us, Numbered(us), k);
    }
  }

  /** The list of one conference: the areas that belong to it and let the user
      read. */
  lemma ConferenceList(s: Settings, kind: Kind, key: char, k: nat)
    requires k < |s.Areas(kind)|
    ensures HasNum(ListOf(s, kind, Conference(key)), k)
            <==> key in s.Areas(kind)[k].confs && s.passes(s.Areas(kind)[k].acs)
  {
    hide ListOf;
    ListIsFilter(s, kind, Conference(key));
  }

  /** The list without regard to conferences: the areas that let the user read,
      all of whose conferences exist and let the user in; for message areas also
      only with ANSI where that is asked for. */
  lemma EverythingList(s: Settings, kind: Kind, confs: map<char, string>, k: nat)
    requires k < |s.Areas(kind)|
    ensures HasNum(ListOf(s, kind, Everything(confs)), k)
            <==> && s.passes(s.Areas(kind)[k].acs)
                 && (forall c | c in s.Areas(kind)[k].confs :: c in confs && s.passes(confs[c]))
                 && (kind == Subs && s.Areas(kind)[k].ansiOnly ==> s.ansi)
  {
    hide ListOf;
    ListIsFilter(s, kind, Everything(confs));
  }

  lemma SameNums(us: seq<UserSub>, vs: seq<UserSub>, k: int)
    requires |us| == |vs| && forall i | 0 <= i < |us| :: us[i].subnum == vs[i].subnum
    ensures HasNum(us, k) <==> HasNum(vs, k)
  {
    if HasNum(us, k) {
      var i :| 0 <= i < |us| && us[i].subnum == k;
      assert vs[i].subnum == k;
    }
    if HasNum(vs, k) {
      var i :| 0 <= i < |vs| && vs[i].subnum == k;
      assert us[i].subnum == k;
    }
  }

  /** Looking an entry up by its area finds it again. */
  lemma PlaceOfEntry(us: seq<UserSub>, n: nat, i: nat)
    requires Increasing(us, n) && i < |us|
    ensures Place(us, us[i].subnum) == i
  {
    hide Place;
    assert HasNum(us, us[i].subnum);
  }

  lemma NothingNumbered(subnum: int)
    ensures Numbered([]) == [] && Blanks([]) == 0 && Place([], subnum) == -1
  {
  }

  lemma NumberedNext(us: seq<UserSub>, i: nat)
    requires i < |us|
    ensures Numbered(us[..i + 1]) ==
            Numbered(us[..i]) +
            [if us[i].keys.Blank? then us[i].(keys := Number(Blanks(us[..i]) + 1)) else us[i]]
    ensures Blanks(us[..i + 1]) == Blanks(us[..i]) + if us[i].keys.Blank? then 1 else 0
  {
    assert us[..i + 1][..i] == us[..i];
  }

  lemma PlaceNext(us: seq<UserSub>, i: nat, subnum: int)
    requires i < |us|
    ensures Place(us[..i + 1], subnum) == if us[i].subnum == subnum then i else Place(us[..i], subnum)
  {
    assert us[..i + 1][..i] == us[..i];
  }

  lemma {:induction false} NumberedAt(us: seq<UserSub>, i: nat)
    requires i < |us|
    ensures Numbered(us)[i] == if us[i].keys.Blank? then us[i].(keys := Number(Blanks(us[..i]) + 1)) else us[i]
  {
    var k := |us| - 1;
    if i < k {
      NumberedAt(us[..k], i);
      assert us[..k][..i] == us[..i];
    }
  }

  lemma {:induction false} BlanksBetween(us: seq<UserSub>, i: nat, j: nat)
    requires i < j <= |us|
    ensures Blanks(us[..i]) + (if us[i].keys.Blank? then 1 else 0) <= Blanks(us[..j]) <= j
  {
    hide Numbered;
    NumberedNext(us, j - 1);
    if i < j - 1 {
      BlanksBetween(us, i, j - 1);
    } else {
      BlanksBound(us[..i]);
    }
  }

  lemma {:induction false} BlanksBound(us: seq<UserSub>)
    ensures Blanks(us) <= |us|
  {
    if us != [] {
      BlanksBound(us[..|us| - 1]);
    }
  }

  /** Numbers given to entries without a key rise along the list, from 1. */
  lemma NumbersRise(us: seq<UserSub>, i: nat, j: nat)
    requires i < j < |us| && us[i].keys.Blank? && us[j].keys.Blank?
    ensures Numbered(us)[i].keys.Number? && Numbered(us)[j].keys.Number?
    ensures 1 <= Numbered(us)[i].keys.n < Numbered(us)[j].keys.n <= |us|
  {
    hide Numbered, Blanks;
    NumberedAt(us, i);
    NumberedAt(us, j);
    BlanksBetween(us, i, j);
  }

  lemma {:induction false} ListedKeys(s: Settings, kind: Kind, choice: Choice, n: nat, i: nat)
    requires n <= |s.Areas(kind)| && i < |Listed(s, kind, choice, n)|
    ensures var e := Listed(s, kind, choice, n)[i];
            && 0 <= e.subnum < n
            && (e.keys.Blank? <==> kind == Dirs || s.Areas(kind)[e.subnum].key == NUL)
            && (!e.keys.Blank? ==> e.keys == Letter(s.Areas(kind)[e.subnum].key))
    decreases n
  {
    hide Shown;
    if i < |Listed(s, kind, choice, n - 1)| {
      ListedKeys(s, kind, choice, n - 1, i);
    }
  }

  /** Each entry carries the key of its message area, or failing one a number. */
  lemma EntryKeys(s: Settings, kind: Kind, choice: Choice, i: nat)
    requires i < |ListOf(s, kind, choice)|
    ensures var e := ListOf(s, kind, choice)[i];
            && 0 <= e.subnum < |s.Areas(kind)|
            && if kind == Subs && s.Areas(kind)[e.subnum].key != NUL
               then e.keys == Letter(s.Areas(kind)[e.subnum].key) else e.keys.Number?
  {
    hide Listed, Numbered, Blanks;
    ListedKeys(s, kind, choice, |s.Areas(kind)|, i);
    NumberedAt(Listed(s, kind, choice, |s.Areas(kind)|), i);
  }

  lemma {:induction false} NoBlanks(us: seq<UserSub>, i: nat, j: nat)
    requires i <= j <= |us| && forall k | i <= k < j :: !us[k].keys.Blank?
    ensures Blanks(us[..j]) == Blanks(us[..i])
  {
    hide Numbered;
    if i < j {
      NumberedNext(us, j - 1);
      NoBlanks(us, i, j - 1);
    }
  }

  /** The first entry without a key has number 1, and each further one the next
      number. */
  lemma NumbersFollow(us: seq<UserSub>, j: nat)
    requires j < |us| && us[j].keys.Blank?
    ensures (forall k | 0 <= k < j :: !us[k].keys.Blank?) ==> Numbered(us)[j].keys == Number(1)
    ensures forall i | 0 <= i < j && us[i].keys.Blank? && (forall k | i < k < j :: !us[k].keys.Blank?) ::
              && Numbered(us)[i].keys.Number?
              && Numbered(us)[j].keys == Number(Numbered(us)[i].keys.n + 1)
  {
    hide Numbered;
    NumberedAt(us, j);
    if forall k | 0 <= k < j :: !us[k].keys.Blank? {
      NoBlanks(us, 0, j);
      assert us[..0] == [];
    }
    forall i | 0 <= i < j && us[i].keys.Blank? && (forall k | i < k < j :: !us[k].keys.Blank?)
      ensures Numbered(us)[i].keys.Number? && Numbered(us)[j].keys == Number(Numbered(us)[i].keys.n + 1)
    {
      NumberedAt(us, i);
      NumberedNext(us, i);
      NoBlanks(us, i + 1, j);
    }
  }

  // -------------------------------------------------- rebuilding a list

  /** One kind of area: its conferences with their access control strings, the
      list the user sees with the position of the current area, the keys of
      the conferences open to the user and the number of the current one. */
  datatype Side = Side(confs: map<char, string>, list: seq<UserSub>, cursor: nat, uconf: seq<char>, conf: nat)

  function Current(side: Side): int {
    if side.cursor < |side.list| then side.list[side.cursor].subnum else -1
  }

  function Rebuilt(s: Settings, kind: Kind, choice: Choice, side: Side, old_: int): Side {
    var us := ListOf(s, kind, choice);
    side.(list := us, cursor := if Place(us, old_) == -1 then 0 else Place(us, old_))
  }

  /** Without any conference, the first rebuilding makes a general one. */
  function SomeConference(confs: map<char, string>): map<char, string> {
    if confs == map[] then map['A' := ""] else confs
  }

  function Cleared(s: Settings, kind: Kind, side: Side, old_: int): Side {
    var confs := SomeConference(side.confs);
    Rebuilt(s, kind, Everything(confs), side.(confs := confs), old_)
  }

  function Created(s: Settings, kind: Kind, side: Side, key: char, old_: int): Side {
    if key in side.confs && s.passes(side.confs[key])
    then Rebuilt(s, kind, Conference(key), side, old_)
    else side
  }

  function Chosen(s: Settings, kind: Kind, side: Side, key: char, old_: int): Side {
    if key in side.confs then Created(s, kind, side, key, old_) else Cleared(s, kind, side, old_)
  }

  class UserAreas {
    const s: Settings
    const kind: Kind
    var confs: map<char, string>
    var list: seq<UserSub>
    var cursor: nat
    var uconf: seq<char>
    var conf: nat

    constructor (s: Settings, kind: Kind, side: Side)
      ensures this.s == s && this.kind == kind && View() == side
    {
      this.s, this.kind := s, kind;
      confs, list, cursor, uconf, conf := side.confs, side.list, side.cursor, side.uconf, side.conf;
    }

    ghost function View(): Side
      reads this
    {
      Side(confs, list, cursor, uconf, conf)
    }

    static method AddUserSub(us: seq<UserSub>, sub: int, key: char) returns (r: seq<UserSub>)
      ensures r == if HasNum(us, sub) then us else us + [UserSub(KeysOf(key), sub)]
    {
      for i := 0 to |us|
        invariant forall k | 0 <= k < i :: us[k].subnum != sub
      {
        if us[i].subnum == sub {
          return us;
        }
      }
      var c := UserSub(Blank, sub);
      if key != NUL {
        c := c.(keys := Letter(key));
      }
      return us + [c];
    }

    /** Despite the name this asks for all the conferences of the set. */
    method AccessAtLeastOneConf(e: set<char>) returns (open: bool)
      ensures open == AllOpen(s, confs, e)
    {
      var rest := e;
      while rest != {}
        invariant rest <= e && AllOpen(s, confs, e - rest)
        decreases |rest|
      {
        var c :| c in rest;
        if c in confs {
          if !s.passes(confs[c]) {
            return false;
          }
        } else {
          return false;
        }
        rest := rest - {c};
      }
      assert e - {} == e;
      return true;
    }

    /** Numbers the entries without a key and moves to the area with the old
        number, or else to the first one. */
    method NumberAndPlace(old_: int)
      modifies this
      ensures list == Numbered(old(list))
      ensures View() == old(View()).(list := list, cursor := if Place(list, old_) == -1 then 0 else Place(list, old_))
    {
      hide Numbered, Place, Blanks;
      ghost var was := list;
      var newSubnum := -1;
      var numKey := 1;
      var i := 0;
      NothingNumbered(old_);
      while i < |list|
        invariant 0 <= i <= |list| == |was|
        invariant list[..i] == Numbered(was[..i]) && list[i..] == was[i..]
        invariant numKey == Blanks(was[..i]) + 1
        invariant newSubnum == Place(list[..i], old_)
        invariant View() == old(View()).(list := list)
      {
        ghost var before := list;
        assert list[i] == list[i..][0] == was[i..][0];
        if list[i].keys == Blank {
          list := list[i := list[i].(keys := Number(numKey))];
          numKey := numKey + 1;
        }
        if list[i].subnum == old_ {
          newSubnum := i;
        }
        NumberedNext(was, i);
        PlaceNext(list, i, old_);
        assert list[..i] == before[..i];
        assert list[..i + 1] == before[..i] + [list[i]];
        assert list[i + 1..] == before[i..][1..] == was[i + 1..];
        i := i + 1;
      }
      assert was[..i] == was && list[..i] == list;
      SetCursor(if newSubnum != -1 then newSubnum else 0);
    }

    /** The cursor over file areas is checked, and may stand one behind the
        last entry. */
    method SetCursor(n: nat)
      modifies this
      ensures View() == old(View()).(cursor := if kind.Dirs? && n > |list| then 0 else n)
    {
      cursor := n;
      if kind.Dirs? && cursor > |list| {
        cursor := 0;
      }
    }

    method CreateUserSubs(key: char, old_: int) returns (found: bool)
      modifies this
      ensures View() == Created(s, kind, old(View()), key, old_)
      ensures found == (key in old(confs) && s.passes(old(confs)[key]))
    {
      hide Numbered, Place, Listed, HasNum, KeysOf;
      ListedNone(s, kind, Conference(key));
      if key !in confs {
        return false;
      }
      if !s.passes(confs[key]) {
        return false;
      }
      list := [];
      var areas := s.Areas(kind);
      var subnum := 0;
      while subnum < |areas|
        invariant 0 <= subnum <= |areas|
        invariant list == Listed(s, kind, Conference(key), subnum)
        invariant View() == old(View()).(list := list)
      {
        var a := areas[subnum];
        ListedNext(s, kind, Conference(key), subnum);
        if key in a.confs && s.passes(a.acs) {
          list := AddUserSub(list, subnum, if kind.Subs? then a.key else NUL);
        }
        subnum := subnum + 1;
      }
      NumberAndPlace(old_);
      return true;
    }

    method ClearUserSubs(old_: int)
      modifies this
      ensures View() == Cleared(s, kind, old(View()), old_)
    {
      hide Numbered, Place, AllOpen, Listed, HasNum, KeysOf;
      ListedNone(s, kind, Everything(SomeConference(confs)));
      if confs == map[] {
        confs := confs['A' := ""];
      }
      list := [];
      var areas := s.Areas(kind);
      var subnum := 0;
      while subnum < |areas|
        invariant 0 <= subnum <= |areas|
        invariant list == Listed(s, kind, Everything(confs), subnum)
        invariant View() == old(View()).(confs := SomeConference(old(confs)), list := list)
      {
        var a := areas[subnum];
        var open := AccessAtLeastOneConf(a.confs);
        ListedNext(s, kind, Everything(confs), subnum);
        if open && s.passes(a.acs) && !(kind.Subs? && a.ansiOnly && !s.ansi) {
          list := AddUserSub(list, subnum, if kind.Subs? then a.key else NUL);
        }
        subnum := subnum + 1;
      }
      NumberAndPlace(old_);
    }

    /** The list for one conference; when it does not exist, the list of all
        areas. */
    method SetUserConf(key: char, old_: int)
      modifies this
      ensures View() == Chosen(s, kind, old(View()), key, old_)
    {
      if key in confs {
        var _ := CreateUserSubs(key, old_);
      } else {
        ClearUserSubs(old_);
      }
    }

    function CurrentArea(): int
      reads this
    {
      if cursor >= |list| then -1 else list[cursor].subnum
    }
  }

  // ------------------------------------------- switching conferences off

  /** Both sides, whether conferences are switched off, how many callers want
      them off, and the conference and area to return to. */
  datatype State = State(subs: Side, dirs: Side, disabled: bool, count: nat,
                         ocs: nat, oss: int, ocd: nat, osd: int)

  predicate OkConf(s: Settings, st: State) {
    !st.disabled && s.conferences
  }

  /** Switching off looks up the current file area under the number of the
      current message area. */
  function Disable(s: Settings, st: State): State {
    var st1 := st.(count := st.count + 1);
    if !OkConf(s, st) then st1
    else
      var oss := Current(st.subs);
      st1.(disabled := true, ocs := st.subs.conf, oss := oss, ocd := st.dirs.conf, osd := Current(st.dirs),
           subs := Cleared(s, Subs, st.subs, oss), dirs := Cleared(s, Dirs, st.dirs, oss))
  }

  /** The conferences to return to are in the lists of open conferences. */
  predicate CanReturn(st: State) {
    st.ocs < |st.subs.uconf| && st.ocd < |st.dirs.uconf|
  }

  predicate Returns(st: State) {
    st.count == 1 && st.disabled
  }

  function Enable(s: Settings, st: State): State
    requires Returns(st) ==> CanReturn(st)
  {
    if st.count == 0 then st
    else if !Returns(st) then st.(count := st.count - 1)
    else
      st.(count := 0, disabled := false,
          subs := Chosen(s, Subs, st.subs, st.subs.uconf[st.ocs], st.oss),
          dirs := Chosen(s, Dirs, st.dirs, st.dirs.uconf[st.ocd], st.osd))
  }

  /** While conferences are off the user sees, of either kind, all areas whose
      conferences are all open to the user; a system without any conference then
      has one, A, which is open to everybody whom an empty access string lets in. */
  lemma OffShowsAllAreas(s: Settings, st: State, k: nat)
    requires OkConf(s, st)
    ensures Disable(s, st).disabled && Disable(s, st).count == st.count + 1
    ensures var confs := Disable(s, st).subs.confs;
            && confs == (if st.subs.confs == map[] then map['A' := ""] else st.subs.confs)
            && (k < |s.subs| ==>
                  (HasNum(Disable(s, st).subs.list, k) <==>
                     && s.passes(s.subs[k].acs) && (s.subs[k].ansiOnly ==> s.ansi)
                     && forall c | c in s.subs[k].confs :: c in confs && s.passes(confs[c])))
    ensures var confs := Disable(s, st).dirs.confs;
            && confs == (if st.dirs.confs == map[] then map['A' := ""] else st.dirs.confs)
            && (k < |s.dirs| ==>
                  (HasNum(Disable(s, st).dirs.list, k) <==>
                     && s.passes(s.dirs[k].acs)
                     && forall c | c in s.dirs[k].confs :: c in confs && s.passes(confs[c])))
  {
    hide ListOf, Place, Current, HasNum;
    if k < |s.subs| {
      EverythingList(s, Subs, SomeConference(st.subs.confs), k);
    }
    if k < |s.dirs| {
      EverythingList(s, Dirs, SomeConference(st.dirs.confs), k);
    }
  }

  /** While conferences are off the user stays in the current message area when
      it is among those shown, and otherwise is in the first one shown. */
  lemma MessageAreaAfter(s: Settings, st: State)
    requires OkConf(s, st)
    ensures var us := ListOf(s, Subs, Everything(SomeConference(st.subs.confs)));
            Current(Disable(s, st).subs) ==
            if HasNum(us, Current(st.subs)) then Current(st.subs) else if us == [] then -1 else us[0].subnum
  {
    hide ListOf, Place, SomeConference;
    PlaceIff(ListOf(s, Subs, Everything(SomeConference(st.subs.confs))), Current(st.subs));
  }

  /** So the message area is kept exactly when it is shown without regard to
      conferences, or there is none before and none after. */
  lemma MessageAreaKeptIff(s: Settings, st: State)
    requires OkConf(s, st)
    ensures var k := Current(st.subs);
            var confs := SomeConference(st.subs.confs);
            Current(Disable(s, st).subs) == k
            <==> if k < 0 then k == -1 && ListOf(s, Subs, Everything(confs)) == []
                 else && k < |s.subs| && s.passes(s.subs[k].acs) && (s.subs[k].ansiOnly ==> s.ansi)
                      && forall c | c in s.subs[k].confs :: c in confs && s.passes(confs[c])
  {
    hide ListOf, SomeConference, Current, Disable, HasNum;
    var k, choice := Current(st.subs), Everything(SomeConference(st.subs.confs));
    var us := ListOf(s, Subs, choice);
    MessageAreaAfter(s, st);
    ListIsFilter(s, Subs, choice);
    NumsAreAreas(us, |s.subs|, k);
    if 0 <= k < |s.subs| {
      EverythingList(s, Subs, SomeConference(st.subs.confs), k);
    }
    if us != [] {
      FirstIsThere(us);
    }
  }

  lemma NumsAreAreas(us: seq<UserSub>, n: nat, k: int)
    requires Increasing(us, n)
    ensures HasNum(us, k) ==> 0 <= k < n
    ensures us != [] ==> 0 <= us[0].subnum < n
  {
  }

  lemma FirstIsThere(us: seq<UserSub>)
    requires us != []
    ensures HasNum(us, us[0].subnum)
  {
  }

  /** Looking the current file area up under the current message area's number
      keeps the user in that file area exactly when the two numbers agree or,
      for want of a file area with the message area's number, it is the first. */
  lemma FileAreaKeptIff(s: Settings, st: State)
    requires OkConf(s, st)
    ensures var us := ListOf(s, Dirs, Everything(SomeConference(st.dirs.confs)));
            Current(Disable(s, st).dirs) == Current(st.dirs)
            <==> if HasNum(us, Current(st.subs)) then Current(st.subs) == Current(st.dirs)
                 else Current(st.dirs) == if us == [] then -1 else us[0].subnum
  {
    hide ListOf, Place, SomeConference;
    var us := ListOf(s, Dirs, Everything(SomeConference(st.dirs.confs)));
    PlaceIff(us, Current(st.subs));
  }

  lemma PlaceIff(us: seq<UserSub>, subnum: int)
    ensures Place(us, subnum) >= 0 <==> HasNum(us, subnum)
  {
    hide Place;
  }

  /** Two areas that everybody may see make a list of both. */
  lemma BothAreas(s: Settings, kind: Kind, choice: Choice)
    requires |s.Areas(kind)| == 2
    requires forall i | 0 <= i < 2 :: Shown(s, kind, choice, s.Areas(kind)[i])
    ensures |ListOf(s, kind, choice)| == 2
    ensures ListOf(s, kind, choice)[0].subnum == 0 && ListOf(s, kind, choice)[1].subnum == 1
  {
    hide Numbered, Shown;
    var one := Listed(s, kind, choice, 1);
    assert one == Listed(s, kind, choice, 0) + one && |one| == 1 && one[0].subnum == 0;
    var two := Listed(s, kind, choice, 2);
    assert two == one + two[1..];
  }

  /** With two areas of each kind, a user in message area 0 and file area 1 is
      in file area 0 while conferences are off. */
  lemma FileAreaLostWhen(s: Settings, st: State)
    requires OkConf(s, st) && |s.dirs| == 2
    requires forall i | 0 <= i < 2 :: s.passes(s.dirs[i].acs) && s.dirs[i].confs == {}
    requires Current(st.subs) == 0 && Current(st.dirs) == 1
    ensures Current(Disable(s, st).dirs) == 0
  {
    hide ListOf, Place, Current;
    var choice := Everything(SomeConference(st.dirs.confs));
    BothAreas(s, Dirs, choice);
    var us := ListOf(s, Dirs, choice);
    PlaceIff(us, 0);
    assert us[0].subnum == 0;
    CurrentAfter(s, st);
  }

  /** Such a state. */
  lemma FileAreaLost()
    ensures var a := Area({}, "", NUL, false);
            var s := Settings([a, a], [a, a], _ => true, true, true);
            var us := [UserSub(Number(1), 0), UserSub(Number(2), 1)];
            var st := State(Side(map[], us, 0, ['A'], 0), Side(map[], us, 1, ['A'], 0), false, 0, 0, 0, 0, 0);
            OkConf(s, st) && Current(st.dirs) == 1 && Current(Disable(s, st).dirs) == 0
  {
    hide Disable;
    var a := Area({}, "", NUL, false);
    var s := Settings([a, a], [a, a], _ => true, true, true);
    var us := [UserSub(Number(1), 0), UserSub(Number(2), 1)];
    FileAreaLostWhen(s, State(Side(map[], us, 0, ['A'], 0), Side(map[], us, 1, ['A'], 0), false, 0, 0, 0, 0, 0));
  }

  lemma CurrentAfter(s: Settings, st: State)
    requires OkConf(s, st)
    ensures var us := ListOf(s, Dirs, Everything(SomeConference(st.dirs.confs)));
            var p := Place(us, Current(st.subs));
            Current(Disable(s, st).dirs) == if us == [] then -1 else us[if p == -1 then 0 else p].subnum
  {
    hide ListOf, Place, SomeConference;
  }

  class Session {
    const s: Settings
    const subs: UserAreas
    const dirs: UserAreas
    var disableConf: bool
    var disableConfCnt: nat
    var ocs: nat
    var oss: int
    var ocd: nat
    var osd: int

    constructor (s: Settings, st: State)
      ensures Valid() && fresh(subs) && fresh(dirs) && this.s == s && View() == st
    {
      this.s := s;
      subs := new UserAreas(s, Subs, st.subs);
      dirs := new UserAreas(s, Dirs, st.dirs);
      disableConf, disableConfCnt, ocs, oss, ocd, osd := st.disabled, st.count, st.ocs, st.oss, st.ocd, st.osd;
    }

    ghost predicate Valid() {
      subs != dirs && subs.kind == Subs && dirs.kind == Dirs && subs.s == dirs.s == s
    }

    ghost function View(): State
      reads this, subs, dirs
    {
      State(subs.View(), dirs.View(), disableConf, disableConfCnt, ocs, oss, ocd, osd)
    }

    predicate UserOkConf()
      reads this
    {
      if disableConf then false else s.conferences
    }

    /** Called in pairs around an operation that must see all areas. */
    method TmpDisableConf(disable: bool)
      requires Valid() && (!disable && Returns(View()) ==> CanReturn(View()))
      modifies this, subs, dirs
      ensures Valid() && View() == if disable then Disable(s, old(View())) else Enable(s, old(View()))
    {
      hide Cleared, Chosen;
      if disable {
        disableConfCnt := disableConfCnt + 1;
        if UserOkConf() {
          disableConf := true;
          ocs := subs.conf;
          oss := subs.CurrentArea();
          ocd := dirs.conf;
          osd := dirs.CurrentArea();
          subs.ClearUserSubs(oss);
          dirs.ClearUserSubs(oss);
        }
      } else if disableConfCnt != 0 {
        disableConfCnt := disableConfCnt - 1;
        if disableConfCnt == 0 && disableConf {
          disableConf := false;
          var key := subs.uconf[ocs];
          subs.SetUserConf(key, oss);
          key := dirs.uconf[ocd];
          dirs.SetUserConf(key, osd);
        }
      }
    }

    method ResetDisableConf()
      modifies this
      ensures View() == old(View()).(count := 0)
    {
      disableConfCnt := 0;
    }
  }

  // ------------------------------------------------------- nested calls

  /** The calls of a run, and the moves to another area made meanwhile. */
  datatype Step = Off | On | GoSub(n: nat) | GoDir(n: nat)

  function Do(s: Settings, st: State, step: Step): State
    requires step.On? && Returns(st) ==> CanReturn(st)
  {
    match step
    case Off => Disable(s, st)
    case On => Enable(s, st)
    case GoSub(n) => st.(subs := st.subs.(cursor := n))
    case GoDir(n) => st.(dirs := st.dirs.(cursor := if n > |st.dirs.list| then 0 else n))
  }

  /** Off and On are balanced, and moves happen only in between. */
  predicate Balanced(steps: seq<Step>, depth: nat) {
    if steps == [] then depth == 0
    else
      match steps[0]
      case Off => Balanced(steps[1..], depth + 1)
      case On => depth > 0 && Balanced(steps[1..], depth - 1)
      case _ => depth > 0 && Balanced(steps[1..], depth)
  }

  /** The conferences a run returns to exist in the user's lists. */
  predicate InRange(st: State) {
    st.subs.conf < |st.subs.uconf| && st.dirs.conf < |st.dirs.uconf|
  }

  ghost predicate Inside(s: Settings, st0: State, st: State) {
    && st.disabled && st.count > 0
    && st.ocs == st0.subs.conf && st.oss == Current(st0.subs)
    && st.ocd == st0.dirs.conf && st.osd == Current(st0.dirs)
    && SameBut(st.subs, Cleared(s, Subs, st0.subs, 0)) && SameBut(st.dirs, Cleared(s, Dirs, st0.dirs, 0))
  }

  /** Equal but for the cursor. */
  predicate SameBut(a: Side, b: Side) {
    a == b.(cursor := a.cursor)
  }

  function KeyOf(side: Side): char
    requires side.conf < |side.uconf|
  {
    side.uconf[side.conf]
  }

  /** The user may enter the conference, or there is none with that key. */
  predicate Granted(s: Settings, side: Side)
    requires side.conf < |side.uconf|
  {
    var confs := SomeConference(side.confs);
    KeyOf(side) in confs ==> s.passes(confs[KeyOf(side)])
  }

  /** What switching conferences off and on again makes of a side. */
  function Returned(s: Settings, kind: Kind, side: Side): Side
    requires side.conf < |side.uconf|
  {
    Chosen(s, kind, side.(confs := SomeConference(side.confs)), KeyOf(side), Current(side))
  }

  lemma ReturnForgets(s: Settings, kind: Kind, side: Side, now: Side)
    requires side.conf < |side.uconf| && Granted(s, side) && SameBut(now, Cleared(s, kind, side, 0))
    ensures Chosen(s, kind, now, now.uconf[side.conf], Current(side)) == Returned(s, kind, side)
  {
    hide ListOf, Place, Current;
  }

  datatype Outcome = Threw | Ended(st: State)

  /** A return to a conference that is not in the user's lists throws. */
  function Run(s: Settings, st: State, steps: seq<Step>): Outcome
    decreases |steps|
  {
    if steps == [] then Ended(st)
    else if steps[0].On? && Returns(st) && !CanReturn(st) then Threw
    else Run(s, Do(s, st, steps[0]), steps[1..])
  }

  lemma StepInside(s: Settings, st0: State, st: State, step: Step)
    requires InRange(st0) && Inside(s, st0, st) && !(step.On? && st.count == 1)
    ensures Inside(s, st0, Do(s, st, step))
    ensures Do(s, st, step).count ==
            if step.Off? then st.count + 1 else if step.On? then st.count - 1 else st.count
  {
    hide Cleared, Current, Chosen;
  }

  lemma EntersInside(s: Settings, st: State)
    requires InRange(st) && st.count == 0 && OkConf(s, st)
    ensures Inside(s, st, Disable(s, st)) && Disable(s, st).count == 1
  {
    hide ListOf, Place, Current;
  }

  /** Both sides as they are found after a return; nothing else that a caller
      can see has changed. */
  predicate Back(s: Settings, st0: State, st: State)
    requires InRange(st0)
  {
    && !st.disabled && st.count == 0
    && st.subs == Returned(s, Subs, st0.subs)
    && st.dirs == Returned(s, Dirs, st0.dirs)
  }

  lemma LeavesInside(s: Settings, st0: State, st: State)
    requires InRange(st0) && Granted(s, st0.subs) && Granted(s, st0.dirs)
    requires Inside(s, st0, st) && st.count == 1
    ensures CanReturn(st) && Back(s, st0, Enable(s, st))
  {
    hide Returned, Granted, Current, Chosen;
    ReturnForgets(s, Subs, st0.subs, st.subs);
    ReturnForgets(s, Dirs, st0.dirs, st.dirs);
  }

  lemma RebuiltTwice(s: Settings, kind: Kind, choice: Choice, side: Side, old_: int)
    ensures var r := Rebuilt(s, kind, choice, side, old_); Rebuilt(s, kind, choice, r, Current(r)) == r
  {
    hide ListOf, Place;
    var r := Rebuilt(s, kind, choice, side, old_);
    ListIsFilter(s, kind, choice);
    CursorFound(r.list, |s.Areas(kind)|, r);
  }

  /** Where the search for the current area ends. */
  lemma CursorFound(us: seq<UserSub>, n: nat, side: Side)
    requires Increasing(us, n) && us == side.list
    ensures var p := Place(us, Current(side));
            if side.cursor < |us| then p == side.cursor else p == -1
  {
    hide Place;
    if side.cursor < |us| {
      PlaceOfEntry(us, n, side.cursor);
    }
  }

  lemma ReturnedTwice(s: Settings, kind: Kind, side: Side)
    requires side.conf < |side.uconf| && Granted(s, side)
    ensures var r := Returned(s, kind, side);
            && r.conf == side.conf && r.uconf == side.uconf && Granted(s, r)
            && Returned(s, kind, r) == r
  {
    hide Rebuilt;
    var confs := SomeConference(side.confs);
    var side1 := side.(confs := confs);
    var choice := if KeyOf(side) in confs then Conference(KeyOf(side)) else Everything(confs);
    RebuiltTwice(s, kind, choice, side1, Current(side));
    RebuiltKeeps(s, kind, choice, side1, Current(side));
  }

  lemma RebuiltKeeps(s: Settings, kind: Kind, choice: Choice, side: Side, old_: int)
    ensures var r := Rebuilt(s, kind, choice, side, old_);
            r.confs == side.confs && r.conf == side.conf && r.uconf == side.uconf
  {
  }

  /** The side is as the choice of its current conference makes it, and the
      cursor stands on an entry or, failing that, at 0. */
  predicate Settled(s: Settings, kind: Kind, side: Side)
    requires side.conf < |side.uconf|
  {
    var key := KeyOf(side);
    && side.confs != map[]
    && side.list == ListOf(s, kind, if key in side.confs then Conference(key) else Everything(side.confs))
    && (side.cursor < |side.list| || side.cursor == 0)
  }

  /** A side comes back unchanged exactly when it was settled. */
  lemma ReturnedUnchangedIff(s: Settings, kind: Kind, side: Side)
    requires side.conf < |side.uconf| && Granted(s, side)
    ensures Returned(s, kind, side) == side <==> Settled(s, kind, side)
  {
    hide ListOf, Place, Current;
    var confs := SomeConference(side.confs);
    var choice := if KeyOf(side) in confs then Conference(KeyOf(side)) else Everything(confs);
    ListIsFilter(s, kind, choice);
    assert 'A' in SomeConference(map[]);
    var us := ListOf(s, kind, choice);
    if side.list == us {
      CursorFound(us, |s.Areas(kind)|, side);
    }
  }

  /** Whatever it was before, a side is settled once the list of its current
      conference has been chosen. */
  lemma ChosenIsSettled(s: Settings, kind: Kind, side: Side, old_: int)
    requires side.conf < |side.uconf| && Granted(s, side)
    ensures var r := Chosen(s, kind, side, KeyOf(side), old_);
            r.conf == side.conf && r.uconf == side.uconf && (side.confs != map[] ==> Settled(s, kind, r))
  {
    hide ListOf, Place;
  }

  /** A nest of calls, from inside it to the end of the run. */
  lemma {:induction false} RunInside(s: Settings, st0: State, st: State, steps: seq<Step>)
    requires InRange(st0) && Granted(s, st0.subs) && Granted(s, st0.dirs) && s.conferences
    requires Inside(s, st0, st) && Balanced(steps, st.count)
    ensures Run(s, st, steps).Ended? && Back(s, st0, Run(s, st, steps).st)
    decreases |steps|
  {
    hide Inside, Back, Granted, Disable, Enable, Returned;
    InsideCounts(s, st0, st);
    if steps[0].On? && st.count == 1 {
      LeavesInside(s, st0, st);
      BackAgain(s, st0, Enable(s, st));
      RunBalanced(s, Enable(s, st), steps[1..]);
      BackTwice(s, st0, Enable(s, st), Run(s, st, steps).st);
    } else {
      StepInside(s, st0, st, steps[0]);
      RunInside(s, st0, Do(s, st, steps[0]), steps[1..]);
    }
  }

  lemma InsideCounts(s: Settings, st0: State, st: State)
    requires Inside(s, st0, st)
    ensures st.count > 0 && st.disabled
  {
  }

  lemma BackAgain(s: Settings, st0: State, st1: State)
    requires InRange(st0) && Granted(s, st0.subs) && Granted(s, st0.dirs) && Back(s, st0, st1)
    ensures InRange(st1) && Granted(s, st1.subs) && Granted(s, st1.dirs) && st1.count == 0 && !st1.disabled
  {
    hide Returned, Granted;
    ReturnedTwice(s, Subs, st0.subs);
    ReturnedTwice(s, Dirs, st0.dirs);
  }

  lemma BackTwice(s: Settings, st0: State, st1: State, st2: State)
    requires InRange(st0) && Granted(s, st0.subs) && Granted(s, st0.dirs) && InRange(st1)
    requires Back(s, st0, st1) && (st2 == st1 || Back(s, st1, st2))
    ensures Back(s, st0, st2)
  {
    hide Returned, Granted;
    ReturnedTwice(s, Subs, st0.subs);
    ReturnedTwice(s, Dirs, st0.dirs);
  }

  lemma {:induction false} RunBalanced(s: Settings, st: State, steps: seq<Step>)
    requires InRange(st) && Granted(s, st.subs) && Granted(s, st.dirs) && s.conferences
    requires st.count == 0 && !st.disabled && Balanced(steps, 0)
    ensures Run(s, st, steps).Ended?
    ensures var r := Run(s, st, steps).st; if steps == [] then r == st else Back(s, st, r)
    decreases |steps|
  {
    hide Inside, Back, Granted, Disable, Enable;
    if steps != [] {
      EntersInside(s, st);
      RunInside(s, st, Disable(s, st), steps[1..]);
    }
  }

  /** However calls are nested, in one nest or several, and wherever the caller
      moves in between: at the end conferences are on again, and both sides are
      unchanged exactly when both were settled at the start. */
  lemma NestingRestores(s: Settings, st: State, steps: seq<Step>)
    requires InRange(st) && Granted(s, st.subs) && Granted(s, st.dirs) && s.conferences
    requires st.count == 0 && !st.disabled && Balanced(steps, 0) && steps != []
    ensures Run(s, st, steps).Ended?
    ensures var r := Run(s, st, steps).st;
            && r.count == 0 && !r.disabled
            && (r.subs == st.subs && r.dirs == st.dirs <==>
                Settled(s, Subs, st.subs) && Settled(s, Dirs, st.dirs))
  {
    hide Run, Balanced, Granted, Returned, Settled;
    RunBalanced(s, st, steps);
    ReturnedUnchangedIff(s, Subs, st.subs);
    ReturnedUnchangedIff(s, Dirs, st.dirs);
  }

  predicate CallsOnly(steps: seq<Step>) {
    forall k | 0 <= k < |steps| :: steps[k].Off? || steps[k].On?
  }

  /** For a user who does not use conferences only the counter moves. */
  lemma {:induction false} WithoutConferences(s: Settings, st: State, steps: seq<Step>)
    requires !s.conferences && !st.disabled && CallsOnly(steps) && Balanced(steps, st.count)
    ensures Run(s, st, steps) == Ended(st.(count := 0))
    decreases |steps|
  {
    if steps != [] {
      WithoutConferences(s, Do(s, st, steps[0]), steps[1..]);
    }
  }

  /** When the user may no longer enter the conference to return to, the list
      of all message or file areas stays, although conferences are on again. */
  lemma DeniedReturnKeepsAll(s: Settings, st0: State, st: State)
    requires InRange(st0) && Inside(s, st0, st) && st.count == 1
    ensures CanReturn(st) && !Enable(s, st).disabled
    ensures !Granted(s, st0.subs) ==>
              && Enable(s, st).subs == st.subs
              && st.subs.list == ListOf(s, Subs, Everything(SomeConference(st0.subs.confs)))
    ensures !Granted(s, st0.dirs) ==>
              && Enable(s, st).dirs == st.dirs
              && st.dirs.list == ListOf(s, Dirs, Everything(SomeConference(st0.dirs.confs)))
  {
    hide ListOf, Place, Current;
  }

  /** Setting the counter back inside a nest leaves the outstanding calls
      without effect; the next pair of calls returns to where the nest began. */
  lemma ResetInsideNest(s: Settings, st0: State, st: State)
    requires InRange(st0) && Granted(s, st0.subs) && Granted(s, st0.dirs) && Inside(s, st0, st)
    ensures var r := st.(count := 0);
            && Run(s, r, [On]) == Ended(r) && r.disabled
            && Run(s, r, [Off, On]).Ended? && Back(s, st0, Run(s, r, [Off, On]).st)
  {
    hide Granted, Returned, Current, Cleared, Chosen, Back;
    var r := st.(count := 0);
    assert Run(s, r, [On]) == Run(s, r, []);
    var r1 := st.(count := 1);
    assert Disable(s, r) == r1;
    LeavesInside(s, st0, r1);
    var steps := [Off, On];
    assert steps[1..] == [On] && [On][1..] == [];
    assert Run(s, r, steps) == Run(s, r1, [On]) == Run(s, Enable(s, r1), []);
  }
}
