/** Whole runs of the mail system: sending, deleting and logging off keep the
    text file and the mail file in step, and together behave as a plain list of
    letters. */
module MailRuns {
  import opened Gat
  import opened MessageText
  import opened MessageFile
  import opened MessageStore
  import opened Email

  // --------------------------------------------------------- live records

  lemma {:induction false} LiveOnlyConcat(a: seq<MailRec>, b: seq<MailRec>)
    ensures LiveOnly(a + b) == LiveOnly(a) + LiveOnly(b)
  {
    if b == [] {
      assert a + b == a;
    } else {
      var k := |b| - 1;
      assert (a + b)[..|a + b| - 1] == a + b[..k];
      LiveOnlyConcat(a, b[..k]);
    }
  }

  lemma {:induction false} AllDead(s: seq<MailRec>)
    requires forall k | 0 <= k < |s| :: !Live(s[k])
    ensures LiveOnly(s) == []
  {
    if s != [] {
      AllDead(s[..|s| - 1]);
    }
  }

  lemma {:induction false} AllLive(s: seq<MailRec>)
    requires forall k | 0 <= k < |s| :: Live(s[k])
    ensures LiveOnly(s) == s
  {
    if s != [] {
      AllLive(s[..|s| - 1]);
    }
  }

  lemma {:induction false} LiveMembers(s: seq<MailRec>)
    ensures forall m :: m in LiveOnly(s) <==> m in s && Live(m)
  {
    if s != [] {
      LiveMembers(s[..|s| - 1]);
      assert s == s[..|s| - 1] + [s[|s| - 1]];
    }
  }

  /** Sending writes over no live record, and appends to the live records. */
  lemma SendAppends(recs: seq<MailRec>, ms: seq<MailRec>)
    requires forall k | 0 <= k < |ms| :: Live(ms[k])
    ensures LiveOnly(Put(recs, Slot(recs), ms)) == LiveOnly(recs) + ms
    ensures forall k | 0 <= k < |recs| && Live(recs[k]) ::
              k < |Put(recs, Slot(recs), ms)| && Put(recs, Slot(recs), ms)[k] == recs[k]
  {
    hide LiveOnly, Put, Slot, Live;
    var i := Slot(recs);
    var rest := PutParts(recs, i, ms);
    LiveOnlyConcat(recs[..i], recs[i..]);
    AllDead(recs[i..]);
    LiveOnlyConcat(recs[..i] + ms, rest);
    LiveOnlyConcat(recs[..i], ms);
    AllDead(rest);
    AllLive(ms);
  }

  lemma PutParts(recs: seq<MailRec>, i: nat, ms: seq<MailRec>) returns (rest: seq<MailRec>)
    requires i <= |recs|
    ensures recs == recs[..i] + recs[i..] && Put(recs, i, ms) == recs[..i] + ms + rest
    ensures forall k | 0 <= k < |rest| :: i + |ms| + k < |recs| && rest[k] == recs[i + |ms| + k]
    ensures i <= |Put(recs, i, ms)| && forall k | 0 <= k < i :: Put(recs, i, ms)[k] == recs[k]
  {
    rest := if i + |ms| < |recs| then recs[i + |ms|..] else [];
  }

  /** Logging off twice is logging off once: the packed file is all live. */
  lemma CompactedIsLive(recs: seq<MailRec>)
    ensures LiveOnly(LiveOnly(recs)) == LiveOnly(recs)
    ensures forall m | m in LiveOnly(recs) :: Live(m)
  {
    LiveMembers(recs);
    AllLive(LiveOnly(recs));
  }

  /** Where a live record stands among the live records. */
  function LivePos(recs: seq<MailRec>, loc: nat): nat
    requires loc < |recs|
  {
    |LiveOnly(recs[..loc])|
  }

  lemma LiveSplit(recs: seq<MailRec>, loc: nat)
    requires loc < |recs| && Live(recs[loc])
    ensures LiveOnly(recs) == LiveOnly(recs[..loc]) + [recs[loc]] + LiveOnly(recs[loc + 1..])
    ensures LiveOnly(recs[loc := Erased(recs[loc])]) == LiveOnly(recs[..loc]) + LiveOnly(recs[loc + 1..])
  {
    var a, m, b := recs[..loc], recs[loc], recs[loc + 1..];
    assert recs == a + [m] + b;
    LiveOnlyConcat(a + [m], b);
    LiveOnlyConcat(a, [m]);
    AllLive([m]);
    var e := Erased(m);
    assert recs[loc := e] == a + [e] + b;
    LiveOnlyConcat(a + [e], b);
    LiveOnlyConcat(a, [e]);
    AllDead([e]);
  }

  // -------------------------------------------------------------- invariant

  ghost predicate Referred(live: seq<MailRec>, a: nat) {
    exists m :: m in live && m.msg.storedAs == a
  }

  ghost predicate Filed(secs: Sections, m: MailRec) {
    m.msg.storageType == EMAIL_STORAGE && Holds(secs, m.msg.storedAs) && m.daten != NO_DATE
  }

  /** The live records refer to the messages of the text file, all of them. */
  ghost predicate Linked(secs: Sections, live: seq<MailRec>) {
    && WellFormedFile(secs)
    && (forall m | m in live :: Filed(secs, m))
    && (forall a: nat | Holds(secs, a) :: Referred(live, a))
  }

  ghost predicate DeadDetached(recs: seq<MailRec>) {
    forall m | m in recs && !Live(m) :: m.msg.storageType != EMAIL_STORAGE
  }

  ghost predicate Inv(p: Post) {
    Linked(p.sections, LiveOnly(p.recs)) && DeadDetached(p.recs)
  }

  /** Nothing dangles and nothing leaks: the messages in the text file are
      exactly the ones live records refer to. */
  ghost predicate Clean(p: Post) {
    forall a: nat :: Holds(p.sections, a) <==> Referred(LiveOnly(p.recs), a)
  }

  lemma InvIsClean(p: Post)
    requires Inv(p)
    ensures Clean(p)
  {
    hide Holds, WellFormedFile, LiveOnly;
    forall a: nat ensures Holds(p.sections, a) <==> Referred(LiveOnly(p.recs), a) {
      if Referred(LiveOnly(p.recs), a) {
        var m :| m in LiveOnly(p.recs) && m.msg.storedAs == a;
        assert Filed(p.sections, m);
      }
    }
  }

  // ----------------------------------------------- the list of letters

  datatype Letter = Letter(header: MailRec, text: Option<string>)

  function Header(m: MailRec): MailRec {
    m.(msg := MessageRec(0, 0))
  }

  function LetterOf(secs: Sections, m: MailRec): Letter {
    Letter(Header(m), ReadOf(secs, m.msg.storedAs))
  }

  /** The mail as its readers see it. */
  function Letters(secs: Sections, live: seq<MailRec>): (ls: seq<Letter>)
    ensures |ls| == |live|
  {
    seq(|live|, i requires 0 <= i < |live| => LetterOf(secs, live[i]))
  }

  datatype ListStep = Add(letters: seq<Letter>) | Drop(pos: nat) | Keep

  function Apply(ls: seq<Letter>, s: ListStep): seq<Letter> {
    match s
    case Add(more) => ls + more
    case Drop(pos) => if pos < |ls| then ls[..pos] + ls[pos + 1..] else ls
    case Keep => ls
  }

  lemma LettersKept(secs: Sections, secs': Sections, live: seq<MailRec>)
    requires WellFormedFile(secs) && WellFormedFile(secs')
    requires forall m | m in live :: Holds(secs, m.msg.storedAs) && Holds(secs', m.msg.storedAs)
    requires forall m | m in live :: RawText(secs', m.msg.storedAs) == RawText(secs, m.msg.storedAs)
    ensures Letters(secs', live) == Letters(secs, live)
  {
    hide Holds, RawText;
    forall i | 0 <= i < |live| ensures LetterOf(secs', live[i]) == LetterOf(secs, live[i]) {
      assert live[i] in live;
    }
  }

  // ---------------------------------------------------------------- sending

  /** New records sharing one new message: the files stay linked. */
  lemma AddKeepsLinked(secs: Sections, secs': Sections, live: seq<MailRec>, ms: seq<MailRec>, a: nat)
    requires Linked(secs, live) && WellFormedFile(secs') && !Holds(secs, a)
    requires forall b: nat :: Holds(secs', b) <==> Holds(secs, b) || b == a
    requires forall b: nat | Holds(secs, b) :: RawText(secs', b) == RawText(secs, b)
    requires ms != [] && forall k | 0 <= k < |ms| :: ms[k].msg == MessageRec(EMAIL_STORAGE, a) && ms[k].daten != NO_DATE
    ensures Linked(secs', live + ms)
    ensures Letters(secs', live + ms) == Letters(secs, live) + Letters(secs', ms)
  {
    hide Holds, RawText, WellFormedFile, ReadOf;
    var all := live + ms;
    forall m | m in all ensures Filed(secs', m) {
      if m in live {
        assert Filed(secs, m);
      }
    }
    forall b: nat | Holds(secs', b) ensures Referred(all, b) {
      if b == a {
        assert ms[0] in all;
      } else {
        assert Referred(live, b);
        var m :| m in live && m.msg.storedAs == b;
        assert m in all;
      }
    }
    assert forall m | m in live :: Filed(secs, m);
    LettersKept(secs, secs', live);
    assert Letters(secs', all) == Letters(secs', live) + Letters(secs', ms);
  }

  /** A text stored for nobody leaks. */
  lemma NobodyLeaks(secs: Sections, live: seq<MailRec>, a: nat)
    requires Linked(secs, live) && !Holds(secs, a)
    ensures !Referred(live, a)
  {
    hide Holds, WellFormedFile;
    forall m | m in live ensures m.msg.storedAs != a {
      assert Filed(secs, m);
    }
  }

  // --------------------------------------------------------------- deleting

  /** One record goes and its text with it: the files stay linked exactly when
      nobody else used the text. */
  lemma FreeKeepsLinkedIff(secs: Sections, l1: seq<MailRec>, m: MailRec, l2: seq<MailRec>)
    requires Linked(secs, l1 + [m] + l2)
    ensures Linked(Removed(secs, m.msg.storedAs), l1 + l2) <==> !Referred(l1 + l2, m.msg.storedAs)
    ensures !Referred(l1 + l2, m.msg.storedAs) ==>
              Letters(Removed(secs, m.msg.storedAs), l1 + l2) == Letters(secs, l1 + l2)
    ensures !Holds(Removed(secs, m.msg.storedAs), m.msg.storedAs)
  {
    hide Holds, RawText, WellFormedFile, ReadOf, Removed;
    var a, all, rest := m.msg.storedAs, l1 + [m] + l2, l1 + l2;
    var secs' := Removed(secs, a);
    assert all[|l1|] == m;
    assert Filed(secs, m);
    RemoveKeepsOthers(secs, a);
    assert forall x :: x in rest ==> x in all;
    if Referred(rest, a) {
      var x :| x in rest && x.msg.storedAs == a;
      assert !Filed(secs', x);
    } else {
      forall x | x in rest ensures Filed(secs', x) {
        assert Filed(secs, x);
      }
      forall b: nat | Holds(secs', b) ensures Referred(rest, b) {
        assert Referred(all, b);
        var x :| x in all && x.msg.storedAs == b;
        assert x in rest;
      }
      LettersKept(secs, secs', rest);
    }
  }

  /** One record goes and its text stays, since another record has it. */
  lemma KeepTextLinked(secs: Sections, l1: seq<MailRec>, m: MailRec, l2: seq<MailRec>)
    requires Linked(secs, l1 + [m] + l2) && Referred(l1 + l2, m.msg.storedAs)
    ensures Linked(secs, l1 + l2)
  {
    hide Holds, WellFormedFile;
    var all, rest := l1 + [m] + l2, l1 + l2;
    var other :| other in rest && other.msg.storedAs == m.msg.storedAs;
    assert forall x :: x in rest ==> x in all;
    forall b: nat | Holds(secs, b) ensures Referred(rest, b) {
      assert Referred(all, b);
      var x :| x in all && x.msg.storedAs == b;
      if x == m {
        assert other in rest && other.msg.storedAs == b;
      } else {
        assert x in rest;
      }
    }
  }

  /** The live records other than record `loc`. */
  function OtherLive(recs: seq<MailRec>, loc: nat): seq<MailRec>
    requires loc < |recs|
  {
    LiveOnly(recs[..loc]) + LiveOnly(recs[loc + 1..])
  }

  /** The scan for other holders of the text finds one exactly when another live
      record refers to it. */
  lemma SharedIff(p: Post, loc: nat)
    requires Inv(p) && loc < |p.recs| && Live(p.recs[loc])
    ensures SharedElsewhere(p.recs, loc)
            <==> Referred(OtherLive(p.recs, loc), p.recs[loc].msg.storedAs)
  {
    hide Holds, WellFormedFile, LiveOnly;
    var recs, m := p.recs, p.recs[loc];
    LiveMembers(recs);
    LiveMembers(recs[..loc]);
    LiveMembers(recs[loc + 1..]);
    assert Filed(p.sections, m);
    var rest := OtherLive(recs, loc);
    if SharedElsewhere(recs, loc) {
      var i :| 0 <= i < |recs| && i != loc && recs[i].msg == m.msg && recs[i].daten != NO_DATE;
      assert recs[i] in recs;
      assert i < loc ==> recs[..loc][i] == recs[i];
      assert i > loc ==> recs[loc + 1..][i - loc - 1] == recs[i];
      assert recs[i] in rest;
    }
    if x: MailRec :| x in rest && x.msg.storedAs == m.msg.storedAs {
      assert x in recs && Live(x) && Filed(p.sections, x);
      if x in recs[..loc] {
        var i :| 0 <= i < loc && recs[..loc][i] == x;
        assert recs[i].msg == m.msg;
      } else {
        var i :| 0 <= i < |recs| - loc - 1 && recs[loc + 1..][i] == x;
        assert recs[loc + 1 + i].msg == m.msg;
      }
    }
  }

  /** The mail deleted carries the multimail mark, or nobody else has its text. */
  ghost predicate SafeDelete(recs: seq<MailRec>, loc: nat) {
    loc < |recs| && Live(recs[loc]) ==>
      Multimail(recs[loc]) || !Referred(OtherLive(recs, loc), recs[loc].msg.storedAs)
  }

  /** A safe deletion frees the text exactly when no other live record has it;
      an unsafe one frees it although another has. */
  lemma FreedIsUnshared(p: Post, loc: nat)
    requires Inv(p) && loc < |p.recs| && Live(p.recs[loc])
    ensures SafeDelete(p.recs, loc) ==>
              (FreesText(p.recs, loc) <==> !Referred(OtherLive(p.recs, loc), p.recs[loc].msg.storedAs))
    ensures !SafeDelete(p.recs, loc) ==>
              FreesText(p.recs, loc) && Referred(OtherLive(p.recs, loc), p.recs[loc].msg.storedAs)
  {
    hide Holds, WellFormedFile, LiveOnly, Live, SharedElsewhere, Multimail, Referred, Inv;
    SharedIff(p, loc);
  }

  lemma LettersDrop(secs: Sections, l1: seq<MailRec>, m: MailRec, l2: seq<MailRec>)
    ensures Letters(secs, l1 + l2) == Apply(Letters(secs, l1 + [m] + l2), Drop(|l1|))
  {
    hide ReadOf;
    var ls := Letters(secs, l1 + [m] + l2);
    assert Letters(secs, l1 + l2) == ls[..|l1|] + ls[|l1| + 1..];
  }

  lemma LiveIsFiled(p: Post, loc: nat)
    requires Inv(p) && loc < |p.recs| && Live(p.recs[loc])
    ensures Filed(p.sections, p.recs[loc])
  {
    LiveMembers(p.recs);
  }

  /** A safe deletion keeps the two files linked and removes exactly that letter;
      an unsafe one leaves a record whose text is gone. */
  lemma DeleteStep(p: Post, loc: nat)
    requires Inv(p)
    ensures SafeDelete(p.recs, loc) ==>
              && Inv(Deleted(p, loc))
              && Letters(Deleted(p, loc).sections, LiveOnly(Deleted(p, loc).recs))
                 == Apply(Letters(p.sections, LiveOnly(p.recs)), DropAt(p, loc))
    ensures !SafeDelete(p.recs, loc) ==> !Clean(Deleted(p, loc))
  {
    if loc < |p.recs| && Live(p.recs[loc]) {
      hide Linked, DeadDetached, LiveOnly, FreesText, Removed, ReadOf, Live, Letters, Referred, Holds, SafeDelete;
      var l1, m, l2 := LiveOnly(p.recs[..loc]), p.recs[loc], LiveOnly(p.recs[loc + 1..]);
      var p' := Deleted(p, loc);
      LiveSplit(p.recs, loc);
      FreedIsUnshared(p, loc);
      LiveIsFiled(p, loc);
      FreeKeepsLinkedIff(p.sections, l1, m, l2);
      ErasedDetached(p.recs, loc);
      LettersDrop(p.sections, l1, m, l2);
      if !SafeDelete(p.recs, loc) {
        assert Referred(LiveOnly(p'.recs), m.msg.storedAs) && !Holds(p'.sections, m.msg.storedAs);
      } else if !FreesText(p.recs, loc) {
        KeepTextLinked(p.sections, l1, m, l2);
      }
    }
  }

  function DropAt(p: Post, loc: nat): ListStep {
    if loc < |p.recs| && Live(p.recs[loc]) then Drop(LivePos(p.recs, loc)) else Keep
  }

  lemma ErasedDetached(recs: seq<MailRec>, loc: nat)
    requires DeadDetached(recs) && loc < |recs|
    ensures DeadDetached(recs[loc := Erased(recs[loc])])
  {
    var recs' := recs[loc := Erased(recs[loc])];
    forall m | m in recs' && !Live(m) ensures m.msg.storageType != EMAIL_STORAGE {
      if m != Erased(recs[loc]) {
        assert m in recs;
      }
    }
  }

  // -------------------------------------------------------- appended lines

  /** Each line in turn finds a message that ends in its Control-Z and room. */
  ghost predicate LinesFit(secs: Sections, a: nat, lines: seq<string>)
    decreases |lines|
  {
    lines == []
    || (&& WellFormedFile(secs) && Holds(secs, a) && EndsMarked(secs, a)
        && Free(lines[0], NUL) && Free(lines[0], CZ) && Tail(secs, a) + |lines[0]| + 3 <= 2 * BLOCK_SIZE
        && LineHasRoom(secs, a, lines[0]) && Appendable(secs, a, lines[0])
        && LinesFit(LineAdded(secs, a, lines[0]), a, lines[1..]))
  }

  /** A text with lines appended, each ended by CR LF. */
  function WithLines(body: string, lines: seq<string>): string
    decreases |lines|
  {
    if lines == [] then body else WithLines(body + lines[0] + ['\r', '\n'], lines[1..])
  }

  /** Lines appended one after another extend that message's text by exactly
      those lines and leave every other message alone. */
  lemma {:induction false} LinesExtend(secs: Sections, a: nat, body: string, lines: seq<string>)
    requires WellFormedFile(secs) && Holds(secs, a) && RawText(secs, a) == body + [CZ] && LinesFit(secs, a, lines)
    ensures LinesAppendable(secs, a, lines)
    ensures var secs' := LinesAdded(secs, a, lines);
            && WellFormedFile(secs')
            && (forall b: nat :: Holds(secs', b) <==> Holds(secs, b))
            && (forall b: nat | Holds(secs, b) && b != a :: RawText(secs', b) == RawText(secs, b))
            && RawText(secs', a) == WithLines(body, lines) + [CZ]
    decreases |lines|
  {
    hide WellFormedFile, Holds, RawText, Tail, LineHasRoom, EndsMarked, LineAdded, Appendable;
    if lines != [] {
      var sx := lines[0];
      AppendKeepsOthers(secs, a, sx);
      AppendExtendsText(secs, a, sx);
      var next := body + sx + ['\r', '\n'];
      assert RawText(secs, a)[..|RawText(secs, a)| - 1] == body;
      assert Appended(RawText(secs, a), sx + ['\r', '\n']) == next + [CZ];
      LinesExtend(LineAdded(secs, a, sx), a, next, lines[1..]);
    }
  }

  // ------------------------------------------------------------------ steps

  datatype Step =
    | Send(text: string, data: EmailData, sysnum: nat, nets: nat, now: nat)
    | SendMany(body: string, lines: seq<string>, data: EmailData, users: seq<nat>, now: nat)
    | SendCopies(body: string, lines: seq<string>, data: EmailData, sysnum: nat, nets: nat, copies: seq<Copy>)
    | Delete(loc: nat)
    | Logoff(user: nat)

  /** A text ending in its only Control-Z can be stored and the lines fit. */
  ghost predicate Storable(secs: Sections, body: string, lines: seq<string>) {
    && BlocksNeeded(body + [CZ]) <= MAX_BLOCKS && CanSave(secs, body + [CZ])
    && Free(body, NUL) && Free(body, CZ)
    && var r := Saved(secs, body + [CZ]);
       LinesFit(r.sections, r.storedAs, lines) && LinesAppendable(r.sections, r.storedAs, lines)
  }

  /** The guards: a text that can be stored, users who exist, and a date. */
  ghost predicate Enabled(p: Post, s: Step) {
    match s
    case Send(text, data, _, _, now) =>
      && text != "" && BlocksNeeded(text) <= MAX_BLOCKS && CanSave(p.sections, text)
      && data.userNumber != 0 && now != NO_DATE
    case SendMany(body, lines, data, users, now) =>
      && Storable(p.sections, body, lines)
      && (forall k | 0 <= k < |users| :: users[k] != 0) && now != NO_DATE
    case SendCopies(body, lines, data, _, _, copies) =>
      && Storable(p.sections, body, lines)
      && forall k | 0 <= k < |copies| :: copies[k].user != 0 && copies[k].now != NO_DATE
    case Delete(_) => true
    case Logoff(_) => true
  }

  ghost function Next(p: Post, s: Step): Post
    requires Enabled(p, s)
  {
    match s
    case Send(text, data, sysnum, nets, now) =>
      var r := Saved(p.sections, text);
      Sent(p.(sections := r.sections),
           LocalRecord(data.(msg := MessageRec(EMAIL_STORAGE, r.storedAs)), sysnum, nets, now))
    case SendMany(body, lines, data, users, now) => MultiSent(p, body + [CZ], lines, data, users, now)
    case SendCopies(body, lines, data, sysnum, nets, copies) =>
      CopiesSent(p, body + [CZ], lines, data, sysnum, nets, copies)
    case Delete(loc) => Deleted(p, loc)
    case Logoff(user) => LoggedOff(p, user)
  }

  /** Somebody gets the text that is stored, and no text that another record
      still needs is freed. */
  ghost predicate Safe(p: Post, s: Step) {
    match s
    case Send(_, _, _, _, _) => true
    case SendMany(_, _, _, users, _) => users != []
    case SendCopies(_, _, _, _, _, copies) => copies != []
    case Delete(loc) => SafeDelete(p.recs, loc)
    case Logoff(_) => true
  }

  function LettersOf(ms: seq<MailRec>, text: string): seq<Letter> {
    seq(|ms|, k requires 0 <= k < |ms| => Letter(Header(ms[k]), Some(text)))
  }

  /** What the step does to the list of letters. */
  ghost function OnList(p: Post, s: Step): ListStep {
    match s
    case Send(text, data, sysnum, nets, now) =>
      Add([Letter(Header(LocalRecord(data, sysnum, nets, now)), Some(ReadBack(text)))])
    case SendMany(body, lines, data, users, now) =>
      Add(LettersOf(MultiRecords(data, users, now), TrimCz(WithLines(body, lines) + [CZ])))
    case SendCopies(body, lines, data, sysnum, nets, copies) =>
      Add(LettersOf(CopyRecords(data, sysnum, nets, copies), TrimCz(WithLines(body, lines) + [CZ])))
    case Delete(loc) => DropAt(p, loc)
    case Logoff(_) => Keep
  }

  lemma SendStep(p: Post, s: Step)
    requires Inv(p) && s.Send? && Enabled(p, s)
    ensures Inv(Next(p, s))
    ensures Letters(Next(p, s).sections, LiveOnly(Next(p, s).recs))
            == Apply(Letters(p.sections, LiveOnly(p.recs)), OnList(p, s))
  {
    hide Saved, CanSave, Holds, RawText, WellFormedFile, ReadOf, ReadBack, LiveOnly, Put, Slot, Linked;
    var r := Saved(p.sections, s.text);
    var m := LocalRecord(s.data.(msg := MessageRec(EMAIL_STORAGE, r.storedAs)), s.sysnum, s.nets, s.now);
    LinkedIsWellFormed(p.sections, LiveOnly(p.recs));
    SaveStores(p.sections, s.text);
    AddKeepsLinked(p.sections, r.sections, LiveOnly(p.recs), [m], r.storedAs);
    SendAppends(p.recs, [m]);
    PutDetached(p.recs, [m]);
    assert Letters(r.sections, [m]) == [LetterOf(r.sections, m)];
  }

  lemma LinkedIsWellFormed(secs: Sections, live: seq<MailRec>)
    requires Linked(secs, live)
    ensures WellFormedFile(secs)
  {
  }

  lemma PutDetached(recs: seq<MailRec>, ms: seq<MailRec>)
    requires DeadDetached(recs) && forall k | 0 <= k < |ms| :: Live(ms[k])
    ensures DeadDetached(Put(recs, Slot(recs), ms))
  {
    var recs' := Put(recs, Slot(recs), ms);
    forall m | m in recs' && !Live(m) ensures m.msg.storageType != EMAIL_STORAGE {
      var k :| 0 <= k < |recs'| && recs'[k] == m;
      assert m in recs || m in ms;
    }
  }

  /** A text stored with its lines: one new message that reads as it should. */
  lemma TextStored(secs: Sections, body: string, lines: seq<string>)
    requires WellFormedFile(secs) && Storable(secs, body, lines)
    ensures var r := Saved(secs, body + [CZ]);
            && LinesAppendable(r.sections, r.storedAs, lines)
            && var secs' := LinesAdded(r.sections, r.storedAs, lines);
               && WellFormedFile(secs') && !Holds(secs, r.storedAs)
               && (forall b: nat :: Holds(secs', b) <==> Holds(secs, b) || b == r.storedAs)
               && (forall b: nat | Holds(secs, b) :: RawText(secs', b) == RawText(secs, b))
               && ReadOf(secs', r.storedAs) == Some(TrimCz(WithLines(body, lines) + [CZ]))
  {
    hide Saved, CanSave, Holds, RawText, WellFormedFile, ReadOf, ReadBack, LinesFit, LinesAppendable, LinesAdded,
      WithLines, TrimCz, Free;
    var r := Saved(secs, body + [CZ]);
    SaveStores(secs, body + [CZ]);
    SavedEndsMarked(secs, body);
    LinesExtend(r.sections, r.storedAs, body, lines);
    TextAt(LinesAdded(r.sections, r.storedAs, lines), r.storedAs);
  }

  /** Records `ms` that live at `a`, all with a date. */
  predicate RecordsFor(ms: seq<MailRec>, a: nat) {
    forall k | 0 <= k < |ms| ::
      Live(ms[k]) && ms[k].msg == MessageRec(EMAIL_STORAGE, a) && ms[k].daten != NO_DATE
  }

  /** Storing a text and appending records for it to the live ones: linked when
      there is a record, a leak when there is none. */
  lemma StoreAndFile(p: Post, body: string, lines: seq<string>, ms: seq<MailRec>, p': Post)
    requires Inv(p) && Storable(p.sections, body, lines)
    requires RecordsFor(ms, Saved(p.sections, body + [CZ]).storedAs)
    requires var r := Saved(p.sections, body + [CZ]);
             p'.sections == LinesAdded(r.sections, r.storedAs, lines)
    requires LiveOnly(p'.recs) == LiveOnly(p.recs) + ms && DeadDetached(p'.recs)
    ensures ms != [] ==> Inv(p')
    ensures ms != [] ==> Letters(p'.sections, LiveOnly(p'.recs)) ==
                         Letters(p.sections, LiveOnly(p.recs))
                         + LettersOf(ms, TrimCz(WithLines(body, lines) + [CZ]))
    ensures var a := Saved(p.sections, body + [CZ]).storedAs;
            ms == [] ==> Holds(p'.sections, a) && !Referred(LiveOnly(p'.recs), a) && !Clean(p')
  {
    hide Saved, Holds, RawText, WellFormedFile, ReadOf, LiveOnly, Linked, LinesAppendable, LinesAdded, WithLines,
      TrimCz, Storable, Referred;
    LinkedIsWellFormed(p.sections, LiveOnly(p.recs));
    TextStored(p.sections, body, lines);
    var a := Saved(p.sections, body + [CZ]).storedAs;
    if ms != [] {
      AddKeepsLinked(p.sections, p'.sections, LiveOnly(p.recs), ms, a);
      assert Letters(p'.sections, ms) == LettersOf(ms, TrimCz(WithLines(body, lines) + [CZ]));
    } else {
      NobodyLeaks(p.sections, LiveOnly(p.recs), a);
      assert LiveOnly(p.recs) + ms == LiveOnly(p.recs);
    }
  }

  lemma AllMulti(data: EmailData, users: seq<nat>, now: nat)
    requires forall k | 0 <= k < |users| :: users[k] != 0
    ensures forall k | 0 <= k < |users| ::
              Multimail(MultiRecords(data, users, now)[k]) && Live(MultiRecords(data, users, now)[k])
  {
  }

  lemma SendManyStep(p: Post, s: Step)
    requires Inv(p) && s.SendMany? && Enabled(p, s)
    ensures Safe(p, s) ==>
              && Inv(Next(p, s))
              && Letters(Next(p, s).sections, LiveOnly(Next(p, s).recs))
                 == Apply(Letters(p.sections, LiveOnly(p.recs)), OnList(p, s))
    ensures !Safe(p, s) ==> !Clean(Next(p, s))
  {
    hide Saved, LiveOnly, Put, Slot, LinesAppendable, LinesAdded, WithLines, TrimCz, Storable, Inv, Clean, Letters,
      DeadDetached;
    InvParts(p);
    var a := Saved(p.sections, s.body + [CZ]).storedAs;
    var d := s.data.(msg := MessageRec(EMAIL_STORAGE, a));
    var ms := MultiRecords(d, s.users, s.now);
    AllMulti(d, s.users, s.now);
    SendAppends(p.recs, ms);
    PutDetached(p.recs, ms);
    StoreAndFile(p, s.body, s.lines, ms, Next(p, s));
    assert LettersOf(ms, TrimCz(WithLines(s.body, s.lines) + [CZ])) == OnList(p, s).letters;
  }

  lemma InvParts(p: Post)
    requires Inv(p)
    ensures DeadDetached(p.recs) && Linked(p.sections, LiveOnly(p.recs))
  {
  }

  lemma {:induction false} SentAllAppends(p: Post, ms: seq<MailRec>)
    requires forall k | 0 <= k < |ms| :: Live(ms[k])
    ensures LiveOnly(SentAll(p, ms).recs) == LiveOnly(p.recs) + ms && SentAll(p, ms).sections == p.sections
    ensures DeadDetached(p.recs) ==> DeadDetached(SentAll(p, ms).recs)
    ensures SentAll(p, ms).waiting == IncrementedAll(p.waiting, Takers(ms))
    decreases |ms|
  {
    hide LiveOnly, Put, Slot, DeadDetached;
    if ms != [] {
      SendAppends(p.recs, [ms[0]]);
      if DeadDetached(p.recs) {
        PutDetached(p.recs, [ms[0]]);
      }
      SentAllAppends(Sent(p, ms[0]), ms[1..]);
      assert [ms[0]] + ms[1..] == ms;
      assert Takers(ms)[0] == ms[0].toUser && Takers(ms)[1..] == Takers(ms[1..]);
    }
  }

  /** The users the records are for. */
  function Takers(ms: seq<MailRec>): (users: seq<nat>)
    ensures |users| == |ms|
  {
    seq(|ms|, k requires 0 <= k < |ms| => ms[k].toUser)
  }

  lemma SendCopiesStep(p: Post, s: Step)
    requires Inv(p) && s.SendCopies? && Enabled(p, s)
    ensures Safe(p, s) ==>
              && Inv(Next(p, s))
              && Letters(Next(p, s).sections, LiveOnly(Next(p, s).recs))
                 == Apply(Letters(p.sections, LiveOnly(p.recs)), OnList(p, s))
    ensures !Safe(p, s) ==> !Clean(Next(p, s))
  {
    hide Saved, LiveOnly, LinesAppendable, LinesAdded, WithLines, TrimCz, Storable, Inv, Clean, Letters, DeadDetached,
      SentAll;
    InvParts(p);
    var r := Saved(p.sections, s.body + [CZ]);
    var d := s.data.(msg := MessageRec(EMAIL_STORAGE, r.storedAs));
    var ms := CopyRecords(d, s.sysnum, s.nets, s.copies);
    StorableAppendable(p.sections, s.body, s.lines);
    SentAllAppends(p.(sections := LinesAdded(r.sections, r.storedAs, s.lines)), ms);
    StoreAndFile(p, s.body, s.lines, ms, Next(p, s));
    assert LettersOf(ms, TrimCz(WithLines(s.body, s.lines) + [CZ])) == OnList(p, s).letters;
  }

  lemma StorableAppendable(secs: Sections, body: string, lines: seq<string>)
    requires Storable(secs, body, lines)
    ensures LinesAppendable(Saved(secs, body + [CZ]).sections, Saved(secs, body + [CZ]).storedAs, lines)
  {
  }

  lemma LogoffStep(p: Post, user: nat)
    requires Inv(p)
    ensures Inv(LoggedOff(p, user))
    ensures LiveOnly(LoggedOff(p, user).recs) == LiveOnly(p.recs)
    ensures LoggedOff(p, user).sections == p.sections
  {
    CompactedIsLive(p.recs);
  }

  /** Logging off packs the file: every record left is live, they are the live
      records in order, and logging off again leaves the file as it is.  A user
      number outside the user file changes nothing. */
  lemma LogoffPacks(p: Post, user: nat, again: nat)
    ensures var p' := LoggedOff(p, user);
            if 0 < user < |p.waiting| then
              && (forall k | 0 <= k < |p'.recs| :: Live(p'.recs[k]))
              && LiveOnly(p'.recs) == p'.recs == LiveOnly(p.recs)
              && LoggedOff(p', again).recs == p'.recs
            else p' == p
  {
    hide LiveOnly;
    CompactedIsLive(p.recs);
  }

  /** Deleting touches one record, which then is dead and has neither date nor
      text; a record that is not there or dead already changes nothing. */
  lemma DeletedRecord(p: Post, loc: nat)
    ensures var p' := Deleted(p, loc);
            if loc < |p.recs| && Live(p.recs[loc]) then
              && |p'.recs| == |p.recs| && (forall k | 0 <= k < |p.recs| && k != loc :: p'.recs[k] == p.recs[k])
              && !Live(p'.recs[loc]) && p'.recs[loc].daten == NO_DATE && p'.recs[loc].msg == MessageRec(0, NOWHERE)
              && |p'.waiting| == |p.waiting|
              && forall u | 0 <= u < |p.waiting| ::
                   p'.waiting[u] == if p.recs[loc].toSys == 0 && p.recs[loc].toUser == u && p.waiting[u] > 0
                                    then p.waiting[u] - 1 else p.waiting[u]
            else p' == p
  {
    hide FreesText, Removed;
  }

  /** Whatever the file holds, deleting frees the text unless the record is marked
      as sharing it and another record with a date has the same text. */
  lemma DeletedText(p: Post, loc: nat)
    requires loc < |p.recs| && Live(p.recs[loc]) && p.recs[loc].msg.storageType == EMAIL_STORAGE
    ensures Deleted(p, loc).sections ==
            if p.recs[loc].status & STATUS_MULTIMAIL != 0 &&
               exists k | 0 <= k < |p.recs| && k != loc ::
                 && p.recs[k].msg.storedAs == p.recs[loc].msg.storedAs && p.recs[k].msg.storageType == EMAIL_STORAGE
                 && p.recs[k].daten != NO_DATE
            then p.sections
            else Removed(p.sections, p.recs[loc].msg.storedAs)
  {
    hide Removed;
    var m := p.recs[loc].msg;
    assert forall k | 0 <= k < |p.recs| ::
        p.recs[k].msg == m <==> p.recs[k].msg.storedAs == m.storedAs && p.recs[k].msg.storageType == EMAIL_STORAGE;
  }

  /** A record for local mail carries the mark for mail from another network
      exactly when it comes from another system and there are several networks,
      and never the mark for shared texts. */
  lemma LocalMarks(data: EmailData, sysnum: nat, nets: nat, now: nat)
    ensures var m := LocalRecord(data, sysnum, nets, now);
            && (m.status & STATUS_NEW_NET != 0 <==> data.fromSystem != sysnum && data.fromSystem != 0 && nets > 1)
            && !Multimail(m) && m.toSys == 0 && m.msg == data.msg
  {
  }

  /** A safe step keeps the files linked and does to the readers' mail what the
      step means for a plain list of letters. */
  lemma StepRefines(p: Post, s: Step)
    requires Inv(p) && Enabled(p, s) && Safe(p, s)
    ensures Inv(Next(p, s))
    ensures Letters(Next(p, s).sections, LiveOnly(Next(p, s).recs))
            == Apply(Letters(p.sections, LiveOnly(p.recs)), OnList(p, s))
  {
    hide Inv, Letters, LiveOnly, ReadBack, LoggedOff, Deleted, Sent, MultiSent, CopiesSent, SafeDelete, DropAt;
    match s
    case Send(_, _, _, _, _) => SendStep(p, s);
    case SendMany(_, _, _, _, _) => SendManyStep(p, s);
    case SendCopies(_, _, _, _, _, _) => SendCopiesStep(p, s);
    case Delete(loc) => DeleteStep(p, loc);
    case Logoff(user) => LogoffStep(p, user);
  }

  /** From linked files, a step leaves nothing dangling and nothing leaked if and
      only if it is safe, which its caller can tell. */
  lemma StepCleanIff(p: Post, s: Step)
    requires Inv(p) && Enabled(p, s)
    ensures Clean(Next(p, s)) <==> Safe(p, s)
    ensures Inv(Next(p, s)) <==> Safe(p, s)
  {
    hide Inv, Clean, Letters, LiveOnly, LoggedOff, Deleted, Sent, MultiSent, CopiesSent, SafeDelete, OnList, Apply;
    if Safe(p, s) {
      StepRefines(p, s);
      InvIsClean(Next(p, s));
    } else {
      match s {
        case SendMany(_, _, _, _, _) => SendManyStep(p, s);
        case SendCopies(_, _, _, _, _, _) => SendCopiesStep(p, s);
        case Delete(loc) => DeleteStep(p, loc);
        case _ =>
      }
      if Inv(Next(p, s)) {
        InvIsClean(Next(p, s));
      }
    }
  }

  // ----------------------------------------------------- what users receive

  /** A letter as its reader sees it. */
  datatype Mail = Mail(title: string, anony: nat, fromUser: nat, fromSys: nat, sent: nat, text: Option<string>)

  function MailOf(l: Letter): Mail {
    Mail(l.header.title, l.header.anony, l.header.fromUser, l.header.fromSys, l.header.daten, l.text)
  }

  /** The local mail of a user, oldest first. */
  function Inbox(ls: seq<Letter>, u: nat): seq<Mail> {
    if ls == [] then []
    else (if ls[0].header.toSys == 0 && ls[0].header.toUser == u then [MailOf(ls[0])] else []) + Inbox(ls[1..], u)
  }

  /** What a user gets of a mail sent to the listed users at the listed times. */
  function Deliveries(copies: seq<Copy>, u: nat, m: Mail): seq<Mail> {
    if copies == [] then []
    else (if copies[0].user == u then [m.(sent := copies[0].now)] else []) + Deliveries(copies[1..], u, m)
  }

  function AllAt(users: seq<nat>, now: nat): seq<Copy> {
    seq(|users|, k requires 0 <= k < |users| => Copy(users[k], now))
  }

  lemma {:induction false} InboxConcat(a: seq<Letter>, b: seq<Letter>, u: nat)
    ensures Inbox(a + b, u) == Inbox(a, u) + Inbox(b, u)
    decreases |a|
  {
    if a == [] {
      assert a + b == b;
    } else {
      assert (a + b)[1..] == a[1..] + b;
      InboxConcat(a[1..], b, u);
    }
  }

  lemma {:induction false} MultiInbox(data: EmailData, users: seq<nat>, now: nat, text: string, u: nat)
    ensures Inbox(LettersOf(MultiRecords(data, users, now), text), u)
            == Deliveries(AllAt(users, now), u, Mail(data.title, data.anony, data.fromUser, 0, now, Some(text)))
    decreases |users|
  {
    var ls := LettersOf(MultiRecords(data, users, now), text);
    if users != [] {
      assert ls[1..] == LettersOf(MultiRecords(data, users[1..], now), text);
      assert AllAt(users, now)[1..] == AllAt(users[1..], now);
      MultiInbox(data, users[1..], now, text, u);
    }
  }

  function Origin(data: EmailData, sysnum: nat): nat {
    if data.fromSystem == sysnum then 0 else data.fromSystem
  }

  lemma {:induction false} CopiesInbox(data: EmailData, sysnum: nat, nets: nat, copies: seq<Copy>, text: string, u: nat)
    ensures Inbox(LettersOf(CopyRecords(data, sysnum, nets, copies), text), u)
            == Deliveries(copies, u, Mail(data.title, data.anony, data.fromUser, Origin(data, sysnum), 0, Some(text)))
    decreases |copies|
  {
    var ls := LettersOf(CopyRecords(data, sysnum, nets, copies), text);
    if copies != [] {
      assert ls[1..] == LettersOf(CopyRecords(data, sysnum, nets, copies[1..]), text);
      CopiesInbox(data, sysnum, nets, copies[1..], text, u);
    }
  }

  /** What a step adds to the mail of a user. */
  ghost function NewMail(s: Step, u: nat): seq<Mail> {
    match s
    case Send(text, data, sysnum, _, now) =>
      if u == data.userNumber then
        [Mail(data.title, data.anony, data.fromUser, Origin(data, sysnum), now, Some(ReadBack(text)))]
      else []
    case SendMany(body, lines, data, users, now) =>
      Deliveries(AllAt(users, now), u,
                 Mail(data.title, data.anony, data.fromUser, 0, now, Some(TrimCz(WithLines(body, lines) + [CZ]))))
    case SendCopies(body, lines, data, sysnum, _, copies) =>
      Deliveries(copies, u, Mail(data.title, data.anony, data.fromUser, Origin(data, sysnum), 0,
                                 Some(TrimCz(WithLines(body, lines) + [CZ]))))
    case _ => []
  }

  ghost function MailFor(p: Post, u: nat): seq<Mail> {
    Inbox(Letters(p.sections, LiveOnly(p.recs)), u)
  }

  lemma InboxOfOne(l: Letter, u: nat)
    ensures Inbox([l], u) == if l.header.toSys == 0 && l.header.toUser == u then [MailOf(l)] else []
  {
  }

  lemma AddedInbox(p: Post, s: Step, u: nat)
    requires !s.Delete?
    ensures OnList(p, s).Add? || OnList(p, s).Keep?
    ensures NewMail(s, u) == if OnList(p, s).Add? then Inbox(OnList(p, s).letters, u) else []
  {
    hide ReadBack, TrimCz, WithLines;
    match s
    case Send(text, data, sysnum, nets, now) =>
      InboxOfOne(Letter(Header(LocalRecord(data, sysnum, nets, now)), Some(ReadBack(text))), u);
    case SendMany(body, lines, data, users, now) =>
      MultiInbox(data, users, now, TrimCz(WithLines(body, lines) + [CZ]), u);
    case SendCopies(body, lines, data, sysnum, nets, copies) =>
      CopiesInbox(data, sysnum, nets, copies, TrimCz(WithLines(body, lines) + [CZ]), u);
    case Logoff(_) =>
  }

  /** Sending adds to each user's mail what is sent to that user, at the end, and
      nothing to anybody else's; logging off changes nobody's mail. */
  lemma StepDelivers(p: Post, s: Step, u: nat)
    requires Inv(p) && Enabled(p, s) && Safe(p, s) && !s.Delete?
    ensures MailFor(Next(p, s), u) == MailFor(p, u) + NewMail(s, u)
  {
    hide Inv, Letters, LiveOnly, Next, Enabled, Safe, OnList, NewMail, Inbox;
    StepRefines(p, s);
    AddedInbox(p, s, u);
    var ls := Letters(p.sections, LiveOnly(p.recs));
    if OnList(p, s).Add? {
      InboxConcat(ls, OnList(p, s).letters, u);
    }
  }

  /** Deleting a letter takes it from the mail of the user it is for, where it
      stood, and nothing from anybody else's. */
  lemma DeleteTakes(p: Post, loc: nat, u: nat) returns (before: seq<Mail>, behind: seq<Mail>)
    requires Inv(p) && SafeDelete(p.recs, loc) && loc < |p.recs| && Live(p.recs[loc])
    ensures MailFor(Deleted(p, loc), u) == before + behind
    ensures var m := p.recs[loc];
            MailFor(p, u) ==
            before
            + (if m.toSys == 0 && m.toUser == u then
                 [Mail(m.title, m.anony, m.fromUser, m.fromSys, m.daten, ReadOf(p.sections, m.msg.storedAs))]
               else [])
            + behind
  {
    hide Inv, LiveOnly, Live, SafeDelete, ReadOf, Inbox;
    var l1, m, l2 := LiveOnly(p.recs[..loc]), p.recs[loc], LiveOnly(p.recs[loc + 1..]);
    DeleteStep(p, loc);
    LiveSplit(p.recs, loc);
    var ls := Letters(p.sections, l1 + [m] + l2);
    var a, b := ls[..|l1|], ls[|l1| + 1..];
    assert ls == a + [LetterOf(p.sections, m)] + b;
    InboxConcat(a, [LetterOf(p.sections, m)], u);
    InboxConcat(a + [LetterOf(p.sections, m)], b, u);
    InboxConcat(a, b, u);
    InboxOfOne(LetterOf(p.sections, m), u);
    before, behind := Inbox(a, u), Inbox(b, u);
  }

  // ------------------------------------------------------------------- runs

  ghost predicate RunEnabled(p: Post, steps: seq<Step>)
    decreases |steps|
  {
    steps == [] || (Enabled(p, steps[0]) && RunEnabled(Next(p, steps[0]), steps[1..]))
  }

  ghost predicate RunSafe(p: Post, steps: seq<Step>)
    requires RunEnabled(p, steps)
    decreases |steps|
  {
    steps == [] || (Safe(p, steps[0]) && RunSafe(Next(p, steps[0]), steps[1..]))
  }

  /** Nothing dangles and nothing leaks, all the time. */
  ghost predicate AlwaysClean(p: Post, steps: seq<Step>)
    requires RunEnabled(p, steps)
    decreases |steps|
  {
    Clean(p) && (steps != [] ==> AlwaysClean(Next(p, steps[0]), steps[1..]))
  }

  ghost function Run(p: Post, steps: seq<Step>): Post
    requires RunEnabled(p, steps)
    decreases |steps|
  {
    if steps == [] then p else Run(Next(p, steps[0]), steps[1..])
  }

  /** The run on a plain list of letters. */
  ghost function ListRun(ls: seq<Letter>, p: Post, steps: seq<Step>): seq<Letter>
    requires RunEnabled(p, steps)
    decreases |steps|
  {
    if steps == [] then ls else ListRun(Apply(ls, OnList(p, steps[0])), Next(p, steps[0]), steps[1..])
  }

  /** Every safe run of the mail system, read through its files, is the run of a
      plain list of letters: texts never change, get lost or turn up twice. */
  lemma {:induction false} RunRefines(p: Post, steps: seq<Step>)
    requires Inv(p) && RunEnabled(p, steps) && RunSafe(p, steps)
    ensures Inv(Run(p, steps))
    ensures Letters(Run(p, steps).sections, LiveOnly(Run(p, steps).recs))
            == ListRun(Letters(p.sections, LiveOnly(p.recs)), p, steps)
    decreases |steps|
  {
    hide Inv, Letters, LiveOnly, Enabled, Next, OnList, Apply, Safe;
    if steps != [] {
      StepRefines(p, steps[0]);
      RunRefines(Next(p, steps[0]), steps[1..]);
    }
  }

  /** Over every run, nothing dangles and nothing leaks at any time if and only
      if every step is safe. */
  lemma {:induction false} RunCleanIff(p: Post, steps: seq<Step>)
    requires Inv(p) && RunEnabled(p, steps)
    ensures AlwaysClean(p, steps) <==> RunSafe(p, steps)
    decreases |steps|
  {
    hide Inv, Clean, Enabled, Next, Safe;
    InvIsClean(p);
    if steps != [] {
      StepCleanIff(p, steps[0]);
      if Safe(p, steps[0]) {
        RunCleanIff(Next(p, steps[0]), steps[1..]);
      }
    }
  }

  ghost function Start(users: nat): Post {
    Post([], [], seq(users, i => 0))
  }

  lemma EmptyIsLinked(users: nat)
    ensures Inv(Start(users))
  {
  }

  /** In every run from an empty system the messages in the text file are exactly
      the texts that live mail records refer to, all the time, if and only if
      every text stored has a taker and no deletion frees a text that another
      record shares without the mark.  Then every live record can be read. */
  lemma NothingDanglesNothingLeaks(users: nat, steps: seq<Step>)
    requires RunEnabled(Start(users), steps)
    ensures AlwaysClean(Start(users), steps) <==> RunSafe(Start(users), steps)
    ensures RunSafe(Start(users), steps) ==>
              var p := Run(Start(users), steps);
              && WellFormedFile(p.sections)
              && (forall a: nat :: Holds(p.sections, a)
                    <==> exists k :: 0 <= k < |p.recs| && Live(p.recs[k]) && p.recs[k].msg.storedAs == a)
              && (forall k | 0 <= k < |p.recs| && Live(p.recs[k]) ::
                    p.recs[k].msg.storageType == EMAIL_STORAGE && ReadOf(p.sections, p.recs[k].msg.storedAs).Some?)
  {
    hide Holds, WellFormedFile, Inv, Run, RunEnabled, RunSafe, AlwaysClean, ReadOf, LiveOnly;
    EmptyIsLinked(users);
    RunCleanIff(Start(users), steps);
    if RunSafe(Start(users), steps) {
      RunRefines(Start(users), steps);
      LinkedRecords(Run(Start(users), steps));
    }
  }

  lemma LinkedRecords(p: Post)
    requires Inv(p)
    ensures WellFormedFile(p.sections)
    ensures forall a: nat :: Holds(p.sections, a)
              <==> exists k :: 0 <= k < |p.recs| && Live(p.recs[k]) && p.recs[k].msg.storedAs == a
    ensures forall k | 0 <= k < |p.recs| && Live(p.recs[k]) ::
              p.recs[k].msg.storageType == EMAIL_STORAGE && ReadOf(p.sections, p.recs[k].msg.storedAs).Some?
  {
    hide Holds, WellFormedFile, RawText, TrimCz, LiveOnly;
    LiveMembers(p.recs);
    forall k | 0 <= k < |p.recs| && Live(p.recs[k])
      ensures Filed(p.sections, p.recs[k]) && ReadOf(p.sections, p.recs[k].msg.storedAs).Some?
    {
      assert p.recs[k] in LiveOnly(p.recs);
      TextAt(p.sections, p.recs[k].msg.storedAs);
    }
    forall a: nat | Holds(p.sections, a)
      ensures exists k :: 0 <= k < |p.recs| && Live(p.recs[k]) && p.recs[k].msg.storedAs == a
    {
      assert Referred(LiveOnly(p.recs), a);
      var m :| m in LiveOnly(p.recs) && m.msg.storedAs == a;
      var k :| 0 <= k < |p.recs| && p.recs[k] == m;
    }
  }

  // ------------------------------------------- runs that are always safe

  /** Records that share a text all carry the multimail mark. */
  ghost predicate SharingMarked(live: seq<MailRec>) {
    forall i, j | 0 <= i < j < |live| && live[i].msg.storedAs == live[j].msg.storedAs ::
      Multimail(live[i]) && Multimail(live[j])
  }

  /** Text sent to many has a taker, and carbon copies have one local reader. */
  predicate Plain(s: Step) {
    match s
    case SendMany(_, _, _, users, _) => users != []
    case SendCopies(_, _, _, _, _, copies) => |copies| == 1
    case _ => true
  }

  lemma MarkedIsSafe(recs: seq<MailRec>, loc: nat)
    requires SharingMarked(LiveOnly(recs))
    ensures SafeDelete(recs, loc)
  {
    if loc < |recs| && Live(recs[loc]) && Referred(OtherLive(recs, loc), recs[loc].msg.storedAs) {
      hide LiveOnly, Live, Multimail, SharingMarked, Referred;
      var l1, m, l2 := LiveOnly(recs[..loc]), recs[loc], LiveOnly(recs[loc + 1..]);
      LiveSplit(recs, loc);
      SharerIsMarked(l1, m, l2);
    }
  }

  lemma SharerIsMarked(l1: seq<MailRec>, m: MailRec, l2: seq<MailRec>)
    requires SharingMarked(l1 + [m] + l2) && Referred(l1 + l2, m.msg.storedAs)
    ensures Multimail(m)
  {
    hide Multimail;
    var all := l1 + [m] + l2;
    var x: MailRec :| x in l1 + l2 && x.msg.storedAs == m.msg.storedAs;
    assert all[|l1|] == m;
    if x in l1 {
      var i :| 0 <= i < |l1| && l1[i] == x;
      assert all[i] == x;
    } else {
      var i :| 0 <= i < |l2| && l2[i] == x;
      assert all[|l1| + 1 + i] == x;
    }
  }

  lemma AddKeepsMarked(secs: Sections, live: seq<MailRec>, ms: seq<MailRec>, a: nat)
    requires Linked(secs, live) && SharingMarked(live) && !Holds(secs, a)
    requires forall k | 0 <= k < |ms| :: ms[k].msg.storedAs == a
    requires |ms| == 1 || forall k | 0 <= k < |ms| :: Multimail(ms[k])
    ensures SharingMarked(live + ms)
  {
    hide Holds, WellFormedFile, Multimail;
    var all := live + ms;
    assert forall k | 0 <= k < |live| :: live[k] in live && Filed(secs, live[k]);
    forall i, j | 0 <= i < j < |all| && all[i].msg.storedAs == all[j].msg.storedAs
      ensures Multimail(all[i]) && Multimail(all[j])
    {
      if j < |live| {
        assert all[i] == live[i] && all[j] == live[j];
      } else {
        assert all[j] == ms[j - |live|];
        assert i >= |live| && all[i] == ms[i - |live|];
      }
    }
  }

  lemma SubSharing(l1: seq<MailRec>, m: MailRec, l2: seq<MailRec>)
    requires SharingMarked(l1 + [m] + l2)
    ensures SharingMarked(l1 + l2)
  {
    hide Multimail;
    var all, rest := l1 + [m] + l2, l1 + l2;
    forall i, j | 0 <= i < j < |rest| && rest[i].msg.storedAs == rest[j].msg.storedAs
      ensures Multimail(rest[i]) && Multimail(rest[j])
    {
      var i', j' := if i < |l1| then i else i + 1, if j < |l1| then j else j + 1;
      assert all[i'] == rest[i] && all[j'] == rest[j];
    }
  }

  lemma TextIsFresh(p: Post, text: string)
    requires Inv(p) && text != "" && BlocksNeeded(text) <= MAX_BLOCKS && CanSave(p.sections, text)
    ensures Linked(p.sections, LiveOnly(p.recs)) && !Holds(p.sections, Saved(p.sections, text).storedAs)
  {
    hide Saved, CanSave, Holds, RawText, WellFormedFile, ReadOf, ReadBack, LiveOnly;
    SaveStores(p.sections, text);
  }

  /** A plain step keeps the sharing of texts marked. */
  lemma PlainKeepsMarked(p: Post, s: Step)
    requires Inv(p) && Enabled(p, s) && Plain(s) && SharingMarked(LiveOnly(p.recs))
    ensures SharingMarked(LiveOnly(Next(p, s).recs))
  {
    hide Saved, CanSave, Holds, LiveOnly, Put, Slot, Inv, SharingMarked, Linked, LinesFit, LinesAppendable, LinesAdded,
      SentAll, Multimail, FreesText, Removed;
    var live := LiveOnly(p.recs);
    match s
    case Send(text, data, sysnum, nets, now) =>
      TextIsFresh(p, text);
      var a := Saved(p.sections, text).storedAs;
      var m := LocalRecord(data.(msg := MessageRec(EMAIL_STORAGE, a)), sysnum, nets, now);
      SendAppends(p.recs, [m]);
      AddKeepsMarked(p.sections, live, [m], a);
    case SendMany(body, lines, data, users, now) =>
      TextIsFresh(p, body + [CZ]);
      var a := Saved(p.sections, body + [CZ]).storedAs;
      var d := data.(msg := MessageRec(EMAIL_STORAGE, a));
      AllMulti(d, users, now);
      SendAppends(p.recs, MultiRecords(d, users, now));
      AddKeepsMarked(p.sections, live, MultiRecords(d, users, now), a);
    case SendCopies(body, lines, data, sysnum, nets, copies) =>
      TextIsFresh(p, body + [CZ]);
      var r := Saved(p.sections, body + [CZ]);
      var ms := CopyRecords(data.(msg := MessageRec(EMAIL_STORAGE, r.storedAs)), sysnum, nets, copies);
      SentAllAppends(p.(sections := LinesAdded(r.sections, r.storedAs, lines)), ms);
      AddKeepsMarked(p.sections, live, ms, r.storedAs);
    case Delete(loc) =>
      if loc < |p.recs| && Live(p.recs[loc]) {
        LiveSplit(p.recs, loc);
        SubSharing(LiveOnly(p.recs[..loc]), p.recs[loc], LiveOnly(p.recs[loc + 1..]));
      }
    case Logoff(user) =>
      LogoffStep(p, user);
  }

  /** A run in which texts have takers and carbon copies one local reader each is
      safe, whatever is deleted and whenever users log off. */
  lemma {:induction false} PlainRunIsSafe(p: Post, steps: seq<Step>)
    requires Inv(p) && SharingMarked(LiveOnly(p.recs)) && RunEnabled(p, steps)
    requires forall k | 0 <= k < |steps| :: Plain(steps[k])
    ensures RunSafe(p, steps)
    decreases |steps|
  {
    hide Inv, SharingMarked, LiveOnly, Enabled, Next, SafeDelete, OnList, Apply;
    if steps != [] {
      PlainIsSafe(p, steps[0]);
      StepRefines(p, steps[0]);
      PlainKeepsMarked(p, steps[0]);
      PlainRunIsSafe(Next(p, steps[0]), steps[1..]);
    }
  }

  lemma PlainIsSafe(p: Post, s: Step)
    requires SharingMarked(LiveOnly(p.recs)) && Plain(s)
    ensures Safe(p, s)
  {
    hide SafeDelete;
    if s.Delete? {
      MarkedIsSafe(p.recs, s.loc);
    }
  }

  // ------------------------------------------------- where the code fails

  /** The characters that lines add to a text. */
  function Total(lines: seq<string>): nat {
    if lines == [] then 0 else |lines[0]| + 2 + Total(lines[1..])
  }

  /** Lines fit when text and lines fit the message's last block. */
  lemma {:induction false} ShortLinesFit(secs: Sections, a: nat, lines: seq<string>)
    requires WellFormedFile(secs) && Holds(secs, a) && EndsMarked(secs, a)
    requires forall k | 0 <= k < |lines| :: Free(lines[k], NUL) && Free(lines[k], CZ)
    requires Tail(secs, a) + Total(lines) + 1 <= BLOCK_SIZE
    ensures LinesFit(secs, a, lines) && LinesAppendable(secs, a, lines)
    decreases |lines|
  {
    hide WellFormedFile, Holds, RawText, Tail, EndsMarked, LineAdded, Appendable, Free;
    if lines != [] {
      AppendExtendsText(secs, a, lines[0]);
      ShortLinesFit(LineAdded(secs, a, lines[0]), a, lines[1..]);
    }
  }

  lemma EmptyCanSave(text: string)
    ensures CanSave([], text) && WellFormedFile([])
    ensures |text| <= BLOCK_SIZE ==> BlocksNeeded(text) <= MAX_BLOCKS
  {
    CanSaveIff([], text);
  }

  /** A text with lines that together fit one block can be stored in an empty
      text file. */
  lemma ShortIsStorable(body: string, lines: seq<string>)
    requires Free(body, NUL) && Free(body, CZ) && |body| + Total(lines) + 1 <= BLOCK_SIZE
    requires forall k | 0 <= k < |lines| :: Free(lines[k], NUL) && Free(lines[k], CZ)
    ensures Storable([], body, lines)
  {
    hide Saved, CanSave, LinesFit, LinesAppendable, Holds, EndsMarked, Tail, Free, RawText, WellFormedFile, Total,
      BlocksNeeded;
    EmptyCanSave(body + [CZ]);
    assert |body| % BLOCK_SIZE == |body| by {
      assert |body| < BLOCK_SIZE;
    }
    SavedEndsMarked([], body);
    var r := Saved([], body + [CZ]);
    ShortLinesFit(r.sections, r.storedAs, lines);
  }

  /** A text sent to many keeps the files linked if and only if one recipient's
      mailbox takes it; when none does, its message stays in the text file and no
      record refers to it. */
  lemma MultiMailLinkedIff(p: Post, body: string, lines: seq<string>, data: EmailData, users: seq<nat>, now: nat)
    requires Inv(p) && Enabled(p, SendMany(body, lines, data, users, now))
    ensures var p' := MultiSent(p, body + [CZ], lines, data, users, now);
            var a := Saved(p.sections, body + [CZ]).storedAs;
            && (Inv(p') <==> users != [])
            && (users == [] ==> Holds(p'.sections, a) && !Referred(LiveOnly(p'.recs), a))
  {
    hide Inv, Clean, Saved, LinesAppendable, LinesAdded, Storable, Put, Slot, LiveOnly, Referred, Holds, WithLines,
      TrimCz, Letters, DeadDetached;
    StepCleanIff(p, SendMany(body, lines, data, users, now));
    if users == [] {
      InvParts(p);
      StorableAppendable(p.sections, body, lines);
      SendAppends(p.recs, []);
      PutDetached(p.recs, []);
      StoreAndFile(p, body, lines, [], MultiSent(p, body + [CZ], lines, data, users, now));
    }
  }

  lemma ThreeLines(dashes: string, last: string)
    ensures Total([dashes, dashes, last]) == 2 * |dashes| + |last| + 6
  {
    var lines := [dashes, dashes, last];
    assert [last][1..] == [] && Total([last]) == |last| + 2;
    assert [dashes, last][1..] == [last] && Total([dashes, last]) == |dashes| + |last| + 4;
    assert lines[1..] == [dashes, last];
  }

  /** Such steps: from an empty system, any short text and three lines, as every
      multi-mail appends them, and no taker. */
  lemma MultiMailLeaksWhen(body: string, dashes: string, last: string, data: EmailData)
    requires Free(body, NUL) && Free(body, CZ) && Free(dashes, NUL) && Free(dashes, CZ)
    requires Free(last, NUL) && Free(last, CZ)
    requires |body| + 2 * |dashes| + |last| + 7 <= BLOCK_SIZE
    ensures var s := SendMany(body, [dashes, dashes, last], data, [], 1);
            Enabled(Start(2), s) && !Clean(Next(Start(2), s))
  {
    hide Storable, Clean, Inv, MultiSent, Free;
    ThreeLines(dashes, last);
    ShortIsStorable(body, [dashes, dashes, last]);
    EmptyIsLinked(2);
    StepCleanIff(Start(2), SendMany(body, [dashes, dashes, last], data, [], 1));
  }

  /** One of them. */
  lemma MultiMailLeaks()
    ensures var s := SendMany("text", ["----", "----", "Mail Sent to 1 Addresses!"],
                              EmailData("", MessageRec(2, 0), 0, 0, 1, 0), [], 1);
            Enabled(Start(2), s) && !Clean(Next(Start(2), s))
  {
    hide Enabled, Clean, Next;
    MultiMailLeaksWhen("text", "----", "Mail Sent to 1 Addresses!", EmailData("", MessageRec(2, 0), 0, 0, 1, 0));
  }

  /** Carbon copies to several local users: deleting the first leaves the others
      without their text. */
  lemma CopiesDangle(p: Post, s: Step) returns (loc: nat)
    requires Inv(p) && s.SendCopies? && Enabled(p, s) && |s.copies| >= 2
    ensures Safe(p, s) && !Clean(Deleted(Next(p, s), loc))
  {
    hide Inv, Clean, Saved, LiveOnly, LinesAppendable, LinesAdded, Storable, SentAll, Deleted, Letters, WithLines,
      TrimCz, SafeDelete;
    var p' := Next(p, s);
    StepRefines(p, s);
    StorableAppendable(p.sections, s.body, s.lines);
    var r := Saved(p.sections, s.body + [CZ]);
    var ms := CopyRecords(s.data.(msg := MessageRec(EMAIL_STORAGE, r.storedAs)), s.sysnum, s.nets, s.copies);
    SentAllAppends(p.(sections := LinesAdded(r.sections, r.storedAs, s.lines)), ms);
    var live := LiveOnly(p.recs);
    assert LiveOnly(p'.recs) == live + ms;
    loc := UnmarkedSharer(p'.recs, |live|, |live| + 1);
    StepCleanIff(p', Delete(loc));
  }

  /** A live record without the mark that shares its text with another cannot be
      deleted safely. */
  lemma UnmarkedSharer(recs: seq<MailRec>, i: nat, j: nat) returns (loc: nat)
    requires i < |LiveOnly(recs)| && j < |LiveOnly(recs)| && i != j
    requires LiveOnly(recs)[i].msg.storedAs == LiveOnly(recs)[j].msg.storedAs && !Multimail(LiveOnly(recs)[i])
    ensures loc < |recs| && !SafeDelete(recs, loc)
  {
    hide LiveOnly, Live, Multimail;
    loc := PlaceOfLive(recs, i);
    LiveSplit(recs, loc);
    var l1, m, l2 := LiveOnly(recs[..loc]), recs[loc], LiveOnly(recs[loc + 1..]);
    var x := LiveOnly(recs)[j];
    if j < i {
      assert l1[j] == x;
    } else {
      assert l2[j - i - 1] == x;
    }
    assert x in l1 + l2;
  }

  lemma {:induction false} PlaceOfLive(recs: seq<MailRec>, i: nat) returns (loc: nat)
    requires i < |LiveOnly(recs)|
    ensures loc < |recs| && Live(recs[loc]) && recs[loc] == LiveOnly(recs)[i] && |LiveOnly(recs[..loc])| == i
    decreases |recs|
  {
    hide Live;
    var k := |recs| - 1;
    if i < |LiveOnly(recs[..k])| {
      loc := PlaceOfLive(recs[..k], i);
      assert recs[..k][..loc] == recs[..loc];
    } else {
      loc := k;
    }
  }

  /** Such a run: copies to users 1 and 2, the first of which is deleted. */
  lemma CopiesDangleFromStart() returns (loc: nat)
    ensures var s := SendCopies("text", [], EmailData("", MessageRec(2, 0), 0, 0, 1, 0), 0, 1,
                                [Copy(1, 1), Copy(2, 1)]);
            Enabled(Start(3), s) && !Clean(Deleted(Next(Start(3), s), loc))
  {
    hide Storable, Clean, Inv, CopiesSent, Deleted, Safe;
    ShortIsStorable("text", []);
    EmptyIsLinked(3);
    var copies := [Copy(1, 1), Copy(2, 1)];
    loc := CopiesDangle(Start(3), SendCopies("text", [], EmailData("", MessageRec(2, 0), 0, 0, 1, 0), 0, 1, copies));
  }

  // --------------------------------------------------------------- counters

  lemma {:induction false} CountConcat(a: seq<MailRec>, b: seq<MailRec>, user: nat)
    ensures CountFor(a + b, user) == CountFor(a, user) + CountFor(b, user)
  {
    if b == [] {
      assert a + b == a;
    } else {
      var k := |b| - 1;
      assert (a + b)[..|a + b| - 1] == a + b[..k];
      CountConcat(a, b[..k], user);
    }
  }

  /** Counting in the file is counting among the live records. */
  lemma {:induction false} CountLive(s: seq<MailRec>, user: nat)
    ensures CountFor(LiveOnly(s), user) == CountFor(s, user)
  {
    if s != [] {
      var k := |s| - 1;
      CountLive(s[..k], user);
      CountConcat(LiveOnly(s[..k]), [s[k]], user);
      CountOne(s[k], user);
      assert LiveOnly(s[..k]) + [] == LiveOnly(s[..k]);
    }
  }

  lemma CountOne(m: MailRec, user: nat)
    ensures CountFor([m], user) == if Live(m) && m.toSys == 0 && m.toUser == user then 1 else 0
  {
    assert [m][..0] == [];
  }

  /** The places of the live local records to a user. */
  ghost function LocalTo(recs: seq<MailRec>, user: nat): set<nat> {
    set k: nat | k < |recs| && Live(recs[k]) && recs[k].toSys == 0 && recs[k].toUser == user
  }

  /** The count is the number of these records. */
  lemma {:induction false} CountIsNumber(recs: seq<MailRec>, user: nat)
    ensures CountFor(recs, user) == |LocalTo(recs, user)|
  {
    if recs != [] {
      var k: nat := |recs| - 1;
      CountIsNumber(recs[..k], user);
      var s := LocalTo(recs[..k], user);
      assert LocalTo(recs, user) ==
        if Live(recs[k]) && recs[k].toSys == 0 && recs[k].toUser == user then s + {k} else s;
    }
  }

  /** Every counter is the number of live local records to its user. */
  ghost predicate CountersExact(p: Post) {
    forall u | 0 <= u < |p.waiting| :: p.waiting[u] == CountFor(p.recs, u)
  }

  /** Sending raises the recipient's counter by one, from 255 to 0, and no other. */
  lemma SendRaises(p: Post, m: MailRec, u: nat)
    requires u < |p.waiting|
    ensures |Sent(p, m).waiting| == |p.waiting|
    ensures Sent(p, m).waiting[u] ==
            if u != m.toUser then p.waiting[u] else if p.waiting[u] == 255 then 0 else p.waiting[u] + 1
  {
    hide Put, Slot;
  }

  /** Sending keeps exact counters exact unless the counter, one byte wide,
      stands at 255. */
  lemma SendCounts(p: Post, m: MailRec)
    requires CountersExact(p) && Live(m) && m.toSys == 0
    ensures CountersExact(Sent(p, m)) <==> !(m.toUser < |p.waiting| && p.waiting[m.toUser] == 255)
  {
    var p' := Sent(p, m);
    forall u | 0 <= u < |p.waiting|
      ensures CountFor(p'.recs, u) == CountFor(p.recs, u) + if u == m.toUser then 1 else 0
    {
      SendAppends(p.recs, [m]);
      CountLive(p.recs, u);
      CountLive(p'.recs, u);
      CountConcat(LiveOnly(p.recs), [m], u);
      CountOne(m, u);
    }
  }

  /** Deleting keeps exact counters exact. */
  lemma DeleteCounts(p: Post, loc: nat)
    requires CountersExact(p)
    ensures CountersExact(Deleted(p, loc))
  {
    if loc < |p.recs| && Live(p.recs[loc]) {
      hide FreesText, Removed;
      var p' := Deleted(p, loc);
      forall u | 0 <= u < |p.waiting| ensures p'.waiting[u] == CountFor(p'.recs, u) {
        DeleteCount(p.recs, loc, u);
      }
    }
  }

  lemma DeleteCount(recs: seq<MailRec>, loc: nat, u: nat)
    requires loc < |recs| && Live(recs[loc])
    ensures CountFor(recs[loc := Erased(recs[loc])], u)
            == CountFor(recs, u) - if recs[loc].toSys == 0 && recs[loc].toUser == u then 1 else 0
  {
    hide LiveOnly, CountFor;
    var l1, m, l2 := LiveOnly(recs[..loc]), recs[loc], LiveOnly(recs[loc + 1..]);
    LiveSplit(recs, loc);
    CountLive(recs, u);
    CountLive(recs[loc := Erased(m)], u);
    CountConcat(l1, l2, u);
    CountConcat(l1 + [m], l2, u);
    CountConcat(l1, [m], u);
    CountOne(m, u);
  }

  /** Logging off sets the user's counter right, up to 255, whatever it held. */
  lemma LogoffRecounts(p: Post, user: nat)
    requires 0 < user < |p.waiting|
    ensures var p' := LoggedOff(p, user);
            && p'.waiting[user] == (if CountFor(p'.recs, user) < 255 then CountFor(p'.recs, user) else 255)
            && forall u | 0 <= u < |p.waiting| && u != user :: p'.waiting[u] == p.waiting[u]
    ensures CountersExact(p) ==> CountersExact(LoggedOff(p, user))
  {
    forall u: nat ensures CountFor(LiveOnly(p.recs), u) == CountFor(p.recs, u) {
      CountLive(p.recs, u);
    }
  }

  function Occurrences(users: seq<nat>, u: nat): nat {
    if users == [] then 0 else (if users[0] == u then 1 else 0) + Occurrences(users[1..], u)
  }

  lemma OneMoreMod(n: Byte, k: nat)
    ensures (OneMore(n) + k) as int % 256 == (n + k + 1) as int % 256
  {
  }

  lemma {:induction false} IncrementedAllAt(waiting: seq<Byte>, users: seq<nat>, u: nat)
    requires u < |waiting|
    ensures IncrementedAll(waiting, users)[u] == (waiting[u] + Occurrences(users, u)) as int % 256
    decreases |users|
  {
    if users != [] {
      var next := Incremented(waiting, users[0]);
      IncrementedAllAt(next, users[1..], u);
      hide IncrementedAll;
      OneMoreMod(waiting[u], Occurrences(users[1..], u));
    }
  }

  lemma {:induction false} CountTakers(ms: seq<MailRec>, u: nat)
    requires forall k | 0 <= k < |ms| :: Live(ms[k]) && ms[k].toSys == 0
    ensures CountFor(ms, u) == Occurrences(Takers(ms), u)
    decreases |ms|
  {
    if ms != [] {
      CountTakers(ms[1..], u);
      assert ms == [ms[0]] + ms[1..];
      assert Takers(ms)[1..] == Takers(ms[1..]);
      CountConcat([ms[0]], ms[1..], u);
      CountOne(ms[0], u);
    }
  }

  ghost predicate NoneWraps(waiting: seq<Byte>, users: seq<nat>) {
    forall u | 0 <= u < |waiting| :: waiting[u] as int + Occurrences(users, u) <= 255
  }

  /** Local records appended, and each taker's counter raised: exact counters
      stay exact if and only if none is counted past 255. */
  lemma AddedCounts(p: Post, p': Post, ms: seq<MailRec>)
    requires CountersExact(p) && LiveOnly(p'.recs) == LiveOnly(p.recs) + ms
    requires p'.waiting == IncrementedAll(p.waiting, Takers(ms))
    requires forall k | 0 <= k < |ms| :: Live(ms[k]) && ms[k].toSys == 0
    ensures CountersExact(p') <==> NoneWraps(p.waiting, Takers(ms))
  {
    hide LiveOnly, CountFor, Live, IncrementedAll, Occurrences, Takers;
    forall u | 0 <= u < |p.waiting|
      ensures CountFor(p'.recs, u) == CountFor(p.recs, u) + Occurrences(Takers(ms), u)
      ensures p'.waiting[u] == (p.waiting[u] + Occurrences(Takers(ms), u)) as int % 256
    {
      CountLive(p.recs, u);
      CountLive(p'.recs, u);
      CountConcat(LiveOnly(p.recs), ms, u);
      CountTakers(ms, u);
      IncrementedAllAt(p.waiting, Takers(ms), u);
    }
  }

  /** Sending one text to many keeps exact counters exact unless that would
      count some user past 255. */
  lemma MultiCounts(p: Post, s: Step)
    requires CountersExact(p) && s.SendMany? && Enabled(p, s)
    ensures CountersExact(Next(p, s)) <==> NoneWraps(p.waiting, s.users)
  {
    hide Saved, Storable, LinesAppendable, LinesAdded, Put, Slot, IncrementedAll, LiveOnly, CountersExact, NoneWraps;
    var d := s.data.(msg := MessageRec(EMAIL_STORAGE, Saved(p.sections, s.body + [CZ]).storedAs));
    var ms := MultiRecords(d, s.users, s.now);
    AllMulti(d, s.users, s.now);
    SendAppends(p.recs, ms);
    assert Takers(ms) == s.users;
    AddedCounts(p, Next(p, s), ms);
  }

  function Readers(copies: seq<Copy>): seq<nat> {
    seq(|copies|, k requires 0 <= k < |copies| => copies[k].user)
  }

  /** So does sending copies. */
  lemma CopiesCounts(p: Post, s: Step)
    requires CountersExact(p) && s.SendCopies? && Enabled(p, s)
    ensures CountersExact(Next(p, s)) <==> NoneWraps(p.waiting, Readers(s.copies))
  {
    hide Saved, Storable, LinesAppendable, LinesAdded, SentAll, IncrementedAll, LiveOnly, CountersExact, NoneWraps;
    var r := Saved(p.sections, s.body + [CZ]);
    StorableAppendable(p.sections, s.body, s.lines);
    var secs := LinesAdded(r.sections, r.storedAs, s.lines);
    var ms := CopyRecords(s.data.(msg := MessageRec(EMAIL_STORAGE, r.storedAs)), s.sysnum, s.nets, s.copies);
    SentAllAppends(p.(sections := secs), ms);
    assert Takers(ms) == Readers(s.copies);
    AddedCounts(p, Next(p, s), ms);
  }

  /** No counter of the step stands where it would wrap. */
  ghost predicate Unsaturated(p: Post, s: Step) {
    match s
    case Send(_, data, _, _, _) => data.userNumber < |p.waiting| ==> p.waiting[data.userNumber] < 255
    case SendMany(_, _, _, users, _) => NoneWraps(p.waiting, users)
    case SendCopies(_, _, _, _, _, copies) => NoneWraps(p.waiting, Readers(copies))
    case _ => true
  }

  /** A step keeps exact counters exact if and only if no counter wraps. */
  lemma StepCounts(p: Post, s: Step)
    requires CountersExact(p) && Enabled(p, s)
    ensures CountersExact(Next(p, s)) <==> Unsaturated(p, s)
  {
    hide CountersExact, LoggedOff, Deleted, Sent, MultiSent, CopiesSent, NoneWraps;
    match s
    case Send(text, data, sysnum, nets, now) =>
      var r := Saved(p.sections, text);
      CountersIgnoreFile(p, r.sections);
      SendCounts(p.(sections := r.sections),
                 LocalRecord(data.(msg := MessageRec(EMAIL_STORAGE, r.storedAs)), sysnum, nets, now));
    case SendMany(_, _, _, _, _) => MultiCounts(p, s);
    case SendCopies(_, _, _, _, _, _) => CopiesCounts(p, s);
    case Delete(loc) => DeleteCounts(p, loc);
    case Logoff(user) => LogoffCounts(p, user);
  }

  lemma CountersIgnoreFile(p: Post, secs: Sections)
    ensures CountersExact(p.(sections := secs)) <==> CountersExact(p)
  {
  }

  lemma LogoffCounts(p: Post, user: nat)
    requires CountersExact(p)
    ensures CountersExact(LoggedOff(p, user))
  {
    if 0 < user < |p.waiting| {
      LogoffRecounts(p, user);
    }
  }

  ghost predicate RunUnsaturated(p: Post, steps: seq<Step>)
    requires RunEnabled(p, steps)
    decreases |steps|
  {
    steps == [] || (Unsaturated(p, steps[0]) && RunUnsaturated(Next(p, steps[0]), steps[1..]))
  }

  /** Over every run in which no counter wraps, each user's waiting-mail counter
      is the number of live local records to that user. */
  lemma {:induction false} RunCounts(p: Post, steps: seq<Step>)
    requires CountersExact(p) && RunEnabled(p, steps) && RunUnsaturated(p, steps)
    ensures CountersExact(Run(p, steps))
    decreases |steps|
  {
    hide CountersExact, Unsaturated, Next, Enabled;
    if steps != [] {
      StepCounts(p, steps[0]);
      RunCounts(Next(p, steps[0]), steps[1..]);
    }
  }
}
