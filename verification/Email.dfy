/** The mail file: an array of records pointing into a message text file, and
    each user's count of waiting mail. */
module Email {
  import opened MessageText
  import opened MessageFile

  type Byte = n: nat | n < 256

  datatype MailRec = MailRec(
    title: string,
    anony: nat,
    status: bv8,
    fromSys: nat,
    fromUser: nat,
    toSys: nat,
    toUser: nat,
    daten: nat,
    msg: MessageRec)

  const STATUS_MULTIMAIL: bv8 := 0x01
  const STATUS_NEW_NET: bv8 := 0x04
  const NO_DATE: nat := 0xffff_ffff
  const NOWHERE: nat := 0xffff_ffff

  predicate Live(m: MailRec) {
    m.toSys != 0 || m.toUser != 0
  }

  predicate Multimail(m: MailRec) {
    m.status & STATUS_MULTIMAIL != 0
  }

  /** The records that are mail, in file order. */
  function LiveOnly(recs: seq<MailRec>): (l: seq<MailRec>)
    ensures |l| <= |recs|
  {
    if recs == [] then []
    else LiveOnly(recs[..|recs| - 1]) + if Live(recs[|recs| - 1]) then [recs[|recs| - 1]] else []
  }

  // ------------------------------------------------ what the steps compute

  /** Where the next record goes: behind the last live one. */
  function Slot(recs: seq<MailRec>): (i: nat)
    ensures i <= |recs|
    ensures i > 0 ==> Live(recs[i - 1])
    ensures forall k | i <= k < |recs| :: !Live(recs[k])
  {
    if recs == [] || Live(recs[|recs| - 1]) then |recs| else Slot(recs[..|recs| - 1])
  }

  /** Records written from position `i` on, over what is there. */
  function Put(recs: seq<MailRec>, i: nat, ms: seq<MailRec>): seq<MailRec>
    requires i <= |recs|
  {
    recs[..i] + ms + if i + |ms| < |recs| then recs[i + |ms|..] else []
  }

  /** The counter is one byte wide. */
  function OneMore(n: Byte): Byte {
    var k: int := n;
    (k + 1) % 256
  }

  lemma PutOneMore(recs: seq<MailRec>, i: nat, ms: seq<MailRec>, m: MailRec)
    requires i <= |recs|
    ensures i + |ms| <= |Put(recs, i, ms)| && i + |ms| + 1 <= |Put(recs, i, ms + [m])|
    ensures Put(Put(recs, i, ms), i + |ms|, [m]) == Put(recs, i, ms + [m])
  {
  }

  lemma PutNothing(recs: seq<MailRec>, i: nat, ms: seq<MailRec>)
    requires i <= |recs|
    ensures Put(recs, i, ms[..0]) == recs
  {
    assert recs[..i] + recs[i..] == recs;
  }

  function Incremented(waiting: seq<Byte>, user: nat): (w: seq<Byte>)
    ensures |w| == |waiting|
  {
    if user < |waiting| then waiting[user := OneMore(waiting[user])] else waiting
  }

  function Decremented(waiting: seq<Byte>, user: nat): (w: seq<Byte>)
    ensures |w| == |waiting|
  {
    if user < |waiting| && waiting[user] != 0 then waiting[user := waiting[user] - 1] else waiting
  }

  function Erased(m: MailRec): MailRec {
    m.(toUser := 0, toSys := 0, daten := NO_DATE, msg := MessageRec(0, NOWHERE))
  }

  /** Some other record with a date shares the text of record `loc`. */
  predicate SharedElsewhere(recs: seq<MailRec>, loc: nat)
    requires loc < |recs|
  {
    exists i | 0 <= i < |recs| :: i != loc && recs[i].msg == recs[loc].msg && recs[i].daten != NO_DATE
  }

  /** Deleting record `loc` frees its text. */
  predicate FreesText(recs: seq<MailRec>, loc: nat)
    requires loc < |recs|
  {
    !(Multimail(recs[loc]) && SharedElsewhere(recs, loc))
  }

  function CountFor(recs: seq<MailRec>, user: nat): (n: nat)
    ensures n <= |recs|
  {
    if recs == [] then 0
    else CountFor(recs[..|recs| - 1], user)
         + if Live(recs[|recs| - 1]) && recs[|recs| - 1].toSys == 0 && recs[|recs| - 1].toUser == user then 1 else 0
  }

  function AtMost255(n: nat): Byte {
    if n < 255 then n else 255
  }

  function UpTo255(n: Byte): Byte {
    if n < 255 then n + 1 else 255
  }

  /** Everything a mail step may change. */
  datatype Post = Post(sections: Sections, recs: seq<MailRec>, waiting: seq<Byte>)

  function Sent(p: Post, m: MailRec): Post {
    p.(recs := Put(p.recs, Slot(p.recs), [m]), waiting := Incremented(p.waiting, m.toUser))
  }

  ghost function Deleted(p: Post, loc: nat): Post {
    if loc >= |p.recs| || !Live(p.recs[loc]) then p
    else
      var m := p.recs[loc];
      Post(if FreesText(p.recs, loc) && m.msg.storageType == EMAIL_STORAGE then Removed(p.sections, m.msg.storedAs)
           else p.sections,
           p.recs[loc := Erased(m)],
           if m.toSys == 0 then Decremented(p.waiting, m.toUser) else p.waiting)
  }

  function LoggedOff(p: Post, user: nat): Post {
    if user == 0 || user >= |p.waiting| then p
    else p.(recs := LiveOnly(p.recs), waiting := p.waiting[user := AtMost255(CountFor(p.recs, user))])
  }

  /** What a sender hands over. */
  datatype EmailData = EmailData(
    title: string, msg: MessageRec, anony: nat, fromSystem: nat, fromUser: nat, userNumber: nat)

  /** The record for local mail, on a system numbered `sysnum` with `nets` networks. */
  function LocalRecord(data: EmailData, sysnum: nat, nets: nat, now: nat): MailRec {
    var fromSys := if data.fromSystem == sysnum then 0 else data.fromSystem;
    MailRec(data.title, data.anony, if fromSys != 0 && nets > 1 then STATUS_NEW_NET else 0,
            fromSys, data.fromUser, 0, data.userNumber, now, data.msg)
  }

  lemma PrefixStep(recs: seq<MailRec>, r: nat, user: nat)
    requires r < |recs|
    ensures LiveOnly(recs[..r + 1]) == LiveOnly(recs[..r]) + if Live(recs[r]) then [recs[r]] else []
    ensures CountFor(recs[..r + 1], user)
            == CountFor(recs[..r], user)
               + if Live(recs[r]) && recs[r].toSys == 0 && recs[r].toUser == user then 1 else 0
  {
    assert recs[..r + 1][..r] == recs[..r];
  }

  // ------------------------------------------------- one text, many readers

  ghost predicate LinesAppendable(secs: Sections, a: nat, lines: seq<string>)
    decreases |lines|
  {
    lines == [] || (Appendable(secs, a, lines[0]) && LinesAppendable(LineAdded(secs, a, lines[0]), a, lines[1..]))
  }

  ghost function LinesAdded(secs: Sections, a: nat, lines: seq<string>): Sections
    requires LinesAppendable(secs, a, lines)
    decreases |lines|
  {
    if lines == [] then secs else LinesAdded(LineAdded(secs, a, lines[0]), a, lines[1..])
  }

  function IncrementedAll(waiting: seq<Byte>, users: seq<nat>): (w: seq<Byte>)
    ensures |w| == |waiting|
    decreases |users|
  {
    if users == [] then waiting else IncrementedAll(Incremented(waiting, users[0]), users[1..])
  }

  function MultiRecord(data: EmailData, user: nat, now: nat): MailRec {
    MailRec(data.title, data.anony, STATUS_MULTIMAIL, 0, data.fromUser, 0, user, now, data.msg)
  }

  function MultiRecords(data: EmailData, users: seq<nat>, now: nat): (ms: seq<MailRec>)
    ensures |ms| == |users|
  {
    seq(|users|, i requires 0 <= i < |users| => MultiRecord(data, users[i], now))
  }

  lemma MultiRecordsNext(data: EmailData, users: seq<nat>, now: nat, cv: nat)
    requires cv < |users|
    ensures MultiRecords(data, users, now)[..cv + 1] ==
            MultiRecords(data, users, now)[..cv] + [MultiRecord(data, users[cv], now)]
  {
  }

  /** One text saved, lines appended to it, and a record sharing it for each user. */
  ghost function MultiSent(p: Post, text: string, lines: seq<string>, data: EmailData, users: seq<nat>, now: nat): Post
    requires LinesAppendable(Saved(p.sections, text).sections, Saved(p.sections, text).storedAs, lines)
  {
    var r := Saved(p.sections, text);
    var d := data.(msg := MessageRec(EMAIL_STORAGE, r.storedAs));
    Post(LinesAdded(r.sections, r.storedAs, lines),
         Put(p.recs, Slot(p.recs), MultiRecords(d, users, now)),
         IncrementedAll(p.waiting, users))
  }

  /** A local recipient of a carbon copy, and when the copy is sent. */
  datatype Copy = Copy(user: nat, now: nat)

  function CopyRecords(data: EmailData, sysnum: nat, nets: nat, copies: seq<Copy>): (ms: seq<MailRec>)
    ensures |ms| == |copies|
  {
    seq(|copies|, i requires 0 <= i < |copies| =>
      LocalRecord(data.(userNumber := copies[i].user), sysnum, nets, copies[i].now))
  }

  /** Records sent one after another. */
  function SentAll(p: Post, ms: seq<MailRec>): Post
    decreases |ms|
  {
    if ms == [] then p else SentAll(Sent(p, ms[0]), ms[1..])
  }

  /** One text saved, lines appended to it, and an ordinary record for each
      local recipient. */
  ghost function CopiesSent(p: Post, text: string, lines: seq<string>, data: EmailData, sysnum: nat, nets: nat,
                            copies: seq<Copy>): Post
    requires LinesAppendable(Saved(p.sections, text).sections, Saved(p.sections, text).storedAs, lines)
  {
    var r := Saved(p.sections, text);
    SentAll(p.(sections := LinesAdded(r.sections, r.storedAs, lines)),
            CopyRecords(data.(msg := MessageRec(EMAIL_STORAGE, r.storedAs)), sysnum, nets, copies))
  }

  // --------------------------------------------------------------- the file

  class MailBase {
    const base: MessageBase
    const texts: File
    var records: seq<MailRec>
    var waiting: seq<Byte>

    ghost predicate Valid() {
      base.Valid()
    }

    ghost function View(): Post
      reads this, texts
    {
      Post(texts.sections, records, waiting)
    }

    constructor (base: MessageBase, texts: File, users: nat)
      ensures this.base == base && this.texts == texts
      ensures records == [] && waiting == seq(users, i => 0)
    {
      this.base := base;
      this.texts := texts;
      records := [];
      waiting := seq(users, i => 0);
    }

    method FindSlot() returns (i: nat)
      ensures i == Slot(records)
    {
      i := 0;
      if |records| != 0 {
        i := |records| - 1;
        while i > 0 && !Live(records[i])
          invariant i < |records| && Slot(records[..i + 1]) == Slot(records)
        {
          assert records[..i + 1][..i] == records[..i];
          i := i - 1;
        }
        assert records[..i + 1][..i] == records[..i];
        if Live(records[i]) {
          i := i + 1;
        }
      }
    }

    method WriteRecord(i: nat, m: MailRec)
      requires i <= |records|
      modifies this`records
      ensures records == Put(old(records), i, [m])
    {
      if i == |records| {
        records := records + [m];
      } else {
        records := records[i := m];
      }
    }

    /** Files a record for mail to a local user and counts it as waiting. */
    method SendoutEmail(data: EmailData, sysnum: nat, nets: nat, now: nat)
      modifies this
      ensures View() == Sent(old(View()), LocalRecord(data, sysnum, nets, now))
    {
      var m := LocalRecord(data, sysnum, nets, now);
      var i := FindSlot();
      WriteRecord(i, m);
      if data.userNumber < |waiting| {
        waiting := waiting[data.userNumber := OneMore(waiting[data.userNumber])];
      }
    }

    /** Stores the text and sends it. */
    method Email(text: string, data: EmailData, sysnum: nat, nets: nat, now: nat)
      requires Valid() && BlocksNeeded(text) <= MAX_BLOCKS
      modifies this, base, base.gat, texts
      ensures var r := Saved(old(texts.sections), text);
              View() == Sent(old(View()).(sections := r.sections),
                             LocalRecord(data.(msg := MessageRec(EMAIL_STORAGE, r.storedAs)), sysnum, nets, now))
    {
      var msg := base.SaveFile(text, MessageRec(EMAIL_STORAGE, 0), texts);
      SendoutEmail(data.(msg := msg), sysnum, nets, now);
    }

    /** Stores one text and sends it to each of `users`, whose mailboxes take it;
        `lines` are what is appended to the text on the way. */
    method MultiMail(text: string, lines: seq<string>, data: EmailData, users: seq<nat>, now: nat)
      requires Valid() && BlocksNeeded(text) <= MAX_BLOCKS
      requires var r := Saved(texts.sections, text);
               r.storedAs / 2048 <= LAST_SECTION && LinesAppendable(r.sections, r.storedAs, lines)
      modifies this, base, base.gat, texts
      ensures View() == MultiSent(old(View()), text, lines, data, users, now)
    {
      var msg := base.SaveFile(text, MessageRec(EMAIL_STORAGE, 0), texts);
      AddLines(msg, lines);
      ghost var secs, recs, w := texts.sections, records, waiting;
      for k := 0 to |users|
        invariant IncrementedAll(waiting, users[k..]) == IncrementedAll(w, users)
        invariant records == recs && texts.sections == secs
      {
        assert users[k..][0] == users[k] && users[k..][1..] == users[k + 1..];
        waiting := Incremented(waiting, users[k]);
      }
      WriteAll(data.(msg := msg), users, now);
    }

    /** Appends lines to a stored text. */
    method AddLines(msg: MessageRec, lines: seq<string>)
      requires Valid() && msg.storageType == EMAIL_STORAGE && msg.storedAs / 2048 <= LAST_SECTION
      requires LinesAppendable(texts.sections, msg.storedAs, lines)
      modifies base, base.gat, texts
      ensures texts.sections == LinesAdded(old(texts.sections), msg.storedAs, lines)
    {
      ghost var secs := texts.sections;
      for k := 0 to |lines|
        invariant LinesAppendable(texts.sections, msg.storedAs, lines[k..])
        invariant LinesAdded(texts.sections, msg.storedAs, lines[k..]) == LinesAdded(secs, msg.storedAs, lines)
      {
        assert lines[k..][0] == lines[k] && lines[k..][1..] == lines[k + 1..];
        base.LineAdd(msg, lines[k], texts);
      }
    }

    /** Stores one text and sends it to each local recipient of a copy; `lines`
        are the list of recipients appended to the text. */
    method EmailCopies(text: string, lines: seq<string>, data: EmailData, sysnum: nat, nets: nat, copies: seq<Copy>)
      requires Valid() && BlocksNeeded(text) <= MAX_BLOCKS
      requires var r := Saved(texts.sections, text);
               r.storedAs / 2048 <= LAST_SECTION && LinesAppendable(r.sections, r.storedAs, lines)
      modifies this, base, base.gat, texts
      ensures View() == CopiesSent(old(View()), text, lines, data, sysnum, nets, copies)
    {
      hide LinesAppendable, LinesAdded, Saved, Sent, LocalRecord;
      var msg := base.SaveFile(text, MessageRec(EMAIL_STORAGE, 0), texts);
      AddLines(msg, lines);
      var email := data.(msg := msg);
      ghost var p, ms := View(), CopyRecords(email, sysnum, nets, copies);
      for k := 0 to |copies|
        invariant SentAll(View(), ms[k..]) == SentAll(p, ms)
      {
        assert ms[k..][0] == ms[k] && ms[k..][1..] == ms[k + 1..];
        SendoutEmail(email.(userNumber := copies[k].user), sysnum, nets, copies[k].now);
      }
    }

    method WriteAll(data: EmailData, users: seq<nat>, now: nat)
      modifies this`records
      ensures records == Put(old(records), Slot(old(records)), MultiRecords(data, users, now))
    {
      var i := FindSlot();
      hide Put, Slot, MultiRecord, MultiRecords;
      ghost var recs := records;
      PutNothing(recs, i, MultiRecords(data, users, now));
      for cv := 0 to |users|
        invariant i + cv <= |records| && records == Put(recs, i, MultiRecords(data, users, now)[..cv])
      {
        PutOneMore(recs, i, MultiRecords(data, users, now)[..cv], MultiRecord(data, users[cv], now));
        MultiRecordsNext(data, users, now, cv);
        WriteRecord(i + cv, MultiRecord(data, users[cv], now));
      }
      assert MultiRecords(data, users, now)[..|users|] == MultiRecords(data, users, now);
    }

    /** Deletes the mail at `loc`, and its text unless another record shares it. */
    method DelMail(loc: nat)
      requires Valid()
      requires loc < |records| && records[loc].msg.storageType == EMAIL_STORAGE ==>
                 records[loc].msg.storedAs / 2048 <= LAST_SECTION
      modifies this, base, base.gat, texts
      ensures View() == Deleted(old(View()), loc)
    {
      if loc >= |records| {
        return;
      }
      var m := records[loc];
      if !Live(m) {
        return;
      }
      var rm := true;
      if Multimail(m) {
        var otf := false;
        for i := 0 to |records|
          invariant otf <==> exists k | 0 <= k < i ::
                      k != loc && records[k].msg == records[loc].msg && records[k].daten != NO_DATE
        {
          if i != loc {
            var m1 := records[i];
            if m.msg.storedAs == m1.msg.storedAs && m.msg.storageType == m1.msg.storageType && m1.daten != NO_DATE {
              otf := true;
            }
          }
        }
        if otf {
          rm := false;
        }
      }
      assert rm == FreesText(records, loc);
      if rm && m.msg.storageType == EMAIL_STORAGE {
        base.RemoveLink(m.msg, texts);
      }
      if m.toSys == 0 && m.toUser < |waiting| && waiting[m.toUser] != 0 {
        waiting := waiting[m.toUser := waiting[m.toUser] - 1];
      }
      records := records[loc := m.(toUser := 0, toSys := 0, daten := NO_DATE, msg := MessageRec(0, NOWHERE))];
    }

    method KeepRecord(w: nat, r: nat)
      requires w <= r < |records|
      modifies this`records
      ensures records == old(records)[w := old(records)[r]]
    {
      if r != w {
        records := records[w := records[r]];
      }
    }

    /** Counts a live record as waiting if it is local mail to `user`. */
    method CountMail(m: MailRec, user: nat)
      requires user < |waiting|
      modifies this`waiting
      ensures waiting == if m.toSys == 0 && m.toUser == user then
                           old(waiting)[user := UpTo255(old(waiting)[user])] else old(waiting)
    {
      if m.toSys == 0 && m.toUser == user {
        if waiting[user] != 255 {
          waiting := waiting[user := waiting[user] + 1];
        }
      }
    }

    /** Packs the live records to the front of the file and recounts the mail
        waiting for the user who logs off. */
    method Logoff(user: nat)
      modifies this
      ensures View() == LoggedOff(old(View()), user)
    {
      if user < 1 || user >= |waiting| {
        return;
      }
      waiting := waiting[user := 0];
      var w, last := Compact(user);
      if w != |records| {
        FillDead(w, last.(toSys := 0, toUser := 0));
      }
      records := records[..w];
    }

    /** The compaction loop: live records move to the front, and those to `user`
        are counted, from 0, up to 255. */
    method Compact(user: nat) returns (w: nat, m: MailRec)
      requires user < |waiting| && waiting[user] == 0
      modifies this`records, this`waiting
      ensures w == |LiveOnly(old(records))| && |records| == |old(records)|
      ensures records[..w] == LiveOnly(old(records))
      ensures waiting == old(waiting)[user := AtMost255(CountFor(old(records), user))]
    {
      ghost var recs, w0 := records, waiting;
      assert LiveOnly(recs[..0]) == [] && CountFor(recs[..0], user) == 0;
      hide LiveOnly, CountFor;
      m := MailRec("", 0, 0, 0, 0, 0, 0, 0, MessageRec(0, 0));
      var r;
      r, w := 0, 0;
      while r < |records|
        invariant w <= r <= |recs| == |records|
        invariant records[..w] == LiveOnly(recs[..r])
        invariant forall k | r <= k < |recs| :: records[k] == recs[k]
        invariant waiting == w0[user := AtMost255(CountFor(recs[..r], user))]
      {
        m := records[r];
        PrefixStep(recs, r, user);
        if m.toSys != 0 || m.toUser != 0 {
          CountMail(m, user);
          KeepRecord(w, r);
          w := w + 1;
        }
        r := r + 1;
      }
      assert recs[..r] == recs;
    }

    /** Overwrites the records from `w` on with a dead one. */
    method FillDead(w: nat, m: MailRec)
      requires w <= |records|
      modifies this`records
      ensures |records| == |old(records)| && records[..w] == old(records)[..w]
      ensures forall k | w <= k < |records| :: records[k] == m
    {
      for w1 := w to |records|
        invariant |records| == |old(records)| && records[..w] == old(records)[..w]
        invariant forall k | w <= k < w1 :: records[k] == m
      {
        records := records[w1 := m];
      }
    }
  }
}
