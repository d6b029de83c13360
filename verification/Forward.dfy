/** Mail forwarding: a walk over the users' forwarding entries, which may form
    cycles. */
module Forward {
  const CLOSED: nat := 65535
  const INTERNET: nat := 32767

  datatype User = User(deleted: bool, forwardUser: nat, forwardSystem: nat, forwardNet: nat)

  /** The user file and what the walk asks of the rest of the system. */
  datatype System = System(
    users: seq<User>,
    maxUsers: nat,
    nets: nat,
    validSystem: (nat, nat) -> bool,
    goodAddress: nat -> bool,
    sysop: bool)
  {
    /** Local forwarding entries name users the visited marks have room for. */
    predicate Valid() {
      && |users| <= maxUsers + 300
      && forall u | 0 <= u < |users| ::
           users[u].forwardSystem == 0 && users[u].forwardUser != CLOSED ==> users[u].forwardUser < maxUsers + 300
    }

    /** The forwarding entry the walk sees for user `u`.  Past the end of the
        file a read leaves the entry in hand, which names `u`, as it was. */
    function Entry(u: nat): User {
      if u < |users| then users[u] else User(true, u, 0, 0)
    }

    /** What a read of user `n` leaves: past the last record the record in hand
        stays, marked deleted. */
    function Read(n: nat, inHand: User): User {
      if n < |users| then users[n] else inHand.(deleted := true)
    }

    /** The network selected when `net` is asked for while `now` is selected. */
    function Select(net: nat, now: nat): nat {
      if net < nets then net else now
    }

    predicate HopsLocally(u: nat) {
      Entry(u).forwardSystem == 0 && Entry(u).forwardUser != 0 && Entry(u).forwardUser != CLOSED
    }

    /** The user `n` forwarding entries away. */
    function Nth(u: nat, n: nat): nat {
      if n == 0 then u else Entry(Nth(u, n - 1)).forwardUser
    }

    /** The chain from `u` ends after `n` local hops. */
    ghost predicate EndsAfter(u: nat, n: nat) {
      !HopsLocally(Nth(u, n)) && forall k | 0 <= k < n :: HopsLocally(Nth(u, k))
    }
  }

  /** What a call leaves: its result, the two in/out arguments and the network. */
  datatype Outcome = Outcome(forwarded: bool, user: nat, system: nat, net: nat)

  /** The verdict on a user the walk stops at, for a call that came with `user`. */
  function Verdict(sys: System, user: nat, net: nat, last: nat): Outcome {
    var e := sys.Entry(last);
    if e.forwardSystem != 0 then
      if sys.validSystem(net, e.forwardSystem)
      then Outcome(true, e.forwardUser, e.forwardSystem, sys.Select(e.forwardNet, net))
      else Outcome(false, user, 0, net)
    else if e.forwardUser == 0 then Outcome(true, last, 0, net)
    else if sys.sysop then Outcome(false, last, 0, net)
    else Outcome(false, 0, 0, net)
  }

  /** The verdict on the user mail is addressed to. */
  function FirstVerdict(sys: System, user: nat, net: nat): Outcome
    requires !sys.HopsLocally(user)
  {
    var e := sys.Entry(user);
    var selected := sys.Select(e.forwardNet, net);
    if e.forwardUser == 0 && e.forwardSystem == 0 then Outcome(false, user, 0, net)
    else if e.forwardSystem == 0 then if sys.sysop then Outcome(false, user, 0, net) else Outcome(false, 0, 0, net)
    else if e.forwardUser == INTERNET then Outcome(false, 0, 0, net)
    else if !sys.validSystem(selected, e.forwardSystem) then Outcome(false, user, 0, sys.Select(net, selected))
    else if e.forwardUser == 0 && !sys.goodAddress(user) then Outcome(false, user, 0, selected)
    else Outcome(true, e.forwardUser, e.forwardSystem, selected)
  }

  /** The answer read off the forwarding graph alone: the verdict on the end of
      the chain, or nothing changed when the chain has no end. */
  ghost predicate Answers(sys: System, user: nat, net: nat, r: Outcome) {
    && (sys.EndsAfter(user, 0) ==> r == FirstVerdict(sys, user, net))
    && (forall n | n > 0 && sys.EndsAfter(user, n) :: r == Verdict(sys, user, net, sys.Nth(user, n)))
    && ((forall n: nat :: sys.HopsLocally(sys.Nth(user, n))) ==> r == Outcome(false, user, 0, net))
  }

  // ------------------------------------------------------------ the chain

  /** A chain has at most one end. */
  lemma EndIsUnique(sys: System, u: nat, n: nat, m: nat)
    requires sys.EndsAfter(u, n) && sys.EndsAfter(u, m)
    ensures n == m
  {
  }

  lemma {:induction false} Periodic(sys: System, u: nat, i: nat, j: nat, k: nat)
    requires sys.Nth(u, i) == sys.Nth(u, j)
    ensures sys.Nth(u, i + k) == sys.Nth(u, j + k)
  {
    if k > 0 {
      Periodic(sys, u, i, j, k - 1);
    }
  }

  /** A chain that meets the same user twice never ends. */
  lemma RepeatsNeverEnd(sys: System, u: nat, i: nat, j: nat)
    requires i < j && sys.Nth(u, i) == sys.Nth(u, j)
    requires forall k | 0 <= k < j :: sys.HopsLocally(sys.Nth(u, k))
    ensures forall n: nat :: sys.HopsLocally(sys.Nth(u, n))
  {
    forall n: nat ensures sys.HopsLocally(sys.Nth(u, n)) {
      RepeatsGoOn(sys, u, i, j, n);
    }
  }

  lemma {:induction false} RepeatsGoOn(sys: System, u: nat, i: nat, j: nat, n: nat)
    requires i < j && sys.Nth(u, i) == sys.Nth(u, j)
    requires forall k | 0 <= k < j :: sys.HopsLocally(sys.Nth(u, k))
    ensures sys.HopsLocally(sys.Nth(u, n))
  {
    if n >= j {
      Periodic(sys, u, i, j, n - j);
      RepeatsGoOn(sys, u, i, j, i + (n - j));
    }
  }

  /** Every chain has an end or never ends, so the answer is determined. */
  lemma AnswerIsUnique(sys: System, user: nat, net: nat, r: Outcome, r': Outcome)
    requires Answers(sys, user, net, r) && Answers(sys, user, net, r')
    ensures r == r'
  {
    if n: nat :| !sys.HopsLocally(sys.Nth(user, n)) {
      var m := FirstEnd(sys, user, n);
      assert sys.EndsAfter(user, m);
    }
  }

  lemma {:induction false} FirstEnd(sys: System, user: nat, n: nat) returns (m: nat)
    requires !sys.HopsLocally(sys.Nth(user, n))
    ensures sys.EndsAfter(user, m)
  {
    if k :| 0 <= k < n && !sys.HopsLocally(sys.Nth(user, k)) {
      m := FirstEnd(sys, user, k);
    } else {
      m := n;
    }
  }

  /** A local user the call forwards to is the one end of the chain from the
      start, at least one hop away, and forwards nowhere. */
  lemma ForwardedToEnd(sys: System, user: nat, net: nat, r: Outcome)
    requires Answers(sys, user, net, r) && r.forwarded && r.system == 0
    ensures exists n :: n > 0 && sys.EndsAfter(user, n) && sys.Nth(user, n) == r.user
    ensures sys.Entry(r.user).forwardUser == 0 && sys.Entry(r.user).forwardSystem == 0
  {
    if n: nat :| !sys.HopsLocally(sys.Nth(user, n)) {
      var m := FirstEnd(sys, user, n);
      assert sys.EndsAfter(user, m);
    }
  }

  /** Mail forwarded to another system goes to the address in the entry of the
      user at the chain's end: a system that is valid on the network it is asked
      of, which is the entry's network for the addressee and the current one for
      users further on.  Afterwards the entry's network is selected. */
  lemma NetworkForward(sys: System, user: nat, net: nat, r: Outcome)
    requires Answers(sys, user, net, r) && r.forwarded && r.system != 0
    ensures exists n :: sys.EndsAfter(user, n) && GoesTo(sys, user, n, net, r)
  {
    if n: nat :| !sys.HopsLocally(sys.Nth(user, n)) {
      var m := FirstEnd(sys, user, n);
      assert sys.EndsAfter(user, m) && GoesTo(sys, user, m, net, r);
    }
  }

  predicate GoesTo(sys: System, user: nat, n: nat, net: nat, r: Outcome) {
    var e := sys.Entry(sys.Nth(user, n));
    && r.user == e.forwardUser && r.system == e.forwardSystem
    && r.net == (if e.forwardNet < sys.nets then e.forwardNet else net)
    && sys.validSystem(if n == 0 then r.net else net, e.forwardSystem)
  }

  /** A chain that ends at an entry for another system is forwarded exactly when
      that system is valid and, for the addressee's own entry, the address is not
      marked as one on the Internet and is good if it has no user number.
      Otherwise the mail stays with the addressee, or with nobody when it is so
      marked. */
  lemma NetworkForwardIff(sys: System, user: nat, net: nat, r: Outcome, n: nat)
    requires Answers(sys, user, net, r) && sys.EndsAfter(user, n)
    requires sys.Entry(sys.Nth(user, n)).forwardSystem != 0
    ensures var e := sys.Entry(sys.Nth(user, n));
            r.forwarded <==>
              if n > 0 then sys.validSystem(net, e.forwardSystem)
              else && e.forwardUser != INTERNET
                   && sys.validSystem(if e.forwardNet < sys.nets then e.forwardNet else net, e.forwardSystem)
                   && (e.forwardUser == 0 ==> sys.goodAddress(user))
    ensures r.forwarded ==> GoesTo(sys, user, n, net, r)
    ensures !r.forwarded ==>
              r.system == 0 && r.user == if n == 0 && sys.Entry(user).forwardUser == INTERNET then 0 else user
    ensures !r.forwarded && net < sys.nets && (n > 0 || sys.Entry(user).forwardUser != 0) ==> r.net == net
  {
  }

  /** A chain that ends at a closed mailbox is not forwarded; the mail goes to
      nobody, or to that mailbox for a sysop. */
  lemma ClosedMailbox(sys: System, user: nat, net: nat, r: Outcome, n: nat)
    requires Answers(sys, user, net, r) && sys.EndsAfter(user, n)
    requires sys.Entry(sys.Nth(user, n)).forwardSystem == 0 && sys.Entry(sys.Nth(user, n)).forwardUser == CLOSED
    ensures r == Outcome(false, if sys.sysop then sys.Nth(user, n) else 0, 0, net)
  {
  }

  /** A chain that ends at a user who forwards nowhere is forwarded to that user,
      unless it is the addressee. */
  lemma OpenMailbox(sys: System, user: nat, net: nat, r: Outcome, n: nat)
    requires Answers(sys, user, net, r) && sys.EndsAfter(user, n)
    requires sys.Entry(sys.Nth(user, n)).forwardSystem == 0 && sys.Entry(sys.Nth(user, n)).forwardUser == 0
    ensures r == Outcome(n > 0, sys.Nth(user, n), 0, net)
  {
  }

  /** On a chain that comes back to a user it passed, nothing is forwarded and
      nothing changes. */
  lemma CycleChangesNothing(sys: System, user: nat, net: nat, r: Outcome, i: nat, j: nat)
    requires Answers(sys, user, net, r)
    requires i < j && sys.Nth(user, i) == sys.Nth(user, j)
    requires forall k | 0 <= k < j :: sys.HopsLocally(sys.Nth(user, k))
    ensures r == Outcome(false, user, 0, net)
  {
    RepeatsNeverEnd(sys, user, i, j);
  }

  /** A read of the user that the record in hand forwards to locally leaves a
      record that forwards as that user's entry does. */
  lemma ReadIsEntry(sys: System, inHand: User)
    requires inHand.forwardSystem == 0
    ensures var u, e := sys.Read(inHand.forwardUser, inHand), sys.Entry(inHand.forwardUser);
            && u.forwardUser == e.forwardUser && u.forwardSystem == e.forwardSystem
            && (u.forwardSystem != 0 ==> u == e)
  {
  }

  lemma {:induction false} StaysAt(sys: System, u: nat, i: nat, k: nat)
    requires sys.Nth(u, i) >= |sys.users|
    ensures sys.Nth(u, i + k) == sys.Nth(u, i)
  {
    if k > 0 {
      StaysAt(sys, u, i, k - 1);
    }
  }

  /** Mail forwarded to a user who does not exist goes nowhere: the record kept
      in hand forwards to itself, which the walk takes for a cycle. */
  lemma MissingUserIsCycle(sys: System, user: nat, net: nat, r: Outcome, i: nat)
    requires Answers(sys, user, net, r) && |sys.users| > 0
    requires sys.Nth(user, i) >= |sys.users| && sys.Nth(user, i) != CLOSED
    requires forall k | 0 <= k < i :: sys.HopsLocally(sys.Nth(user, k))
    ensures r == Outcome(false, user, 0, net)
  {
    StaysAt(sys, user, i, 1);
    CycleChangesNothing(sys, user, net, r, i, i + 1);
  }

  // -------------------------------------------------------------- the walk

  class Forwarding {
    const sys: System
    var netNum: nat

    constructor (sys: System, netNum: nat)
      ensures this.sys == sys && this.netNum == netNum
    {
      this.sys := sys;
      this.netNum := netNum;
    }

    method SetNetNum(net: nat)
      modifies this
      ensures netNum == sys.Select(net, old(netNum))
    {
      if net < sys.nets {
        netNum := net;
      }
    }

    method ReadUser(n: nat, inHand: User) returns (u: User)
      ensures u == sys.Read(n, inHand)
    {
      if n < |sys.users| {
        u := sys.users[n];
      } else {
        u := inHand.(deleted := true);
      }
    }

    /** Follows forwarding entries.  Terminates on every graph. */
    method ForwardMessage(userNumber: nat, systemNumber: nat) returns (forwarded: bool, user: nat, system: nat)
      requires sys.Valid()
      modifies this
      ensures systemNumber != 0 || userNumber >= |sys.users| || sys.users[userNumber].deleted ==>
                !forwarded && user == userNumber && system == systemNumber && netNum == old(netNum)
      ensures systemNumber == 0 && userNumber < |sys.users| && !sys.users[userNumber].deleted ==>
                Answers(sys, userNumber, old(netNum), Outcome(forwarded, user, system, netNum))
    {
      user, system := userNumber, systemNumber;
      if !sys.HopsLocally(userNumber) {
        StopsAtOnce(userNumber);
      }
      if systemNumber != 0 {
        return false, user, system;
      }
      var userRecord := ReadUser(userNumber, User(false, 0, 0, 0));
      if userRecord.deleted {
        return false, user, system;
      }
      if userRecord.forwardUser == 0 && userRecord.forwardSystem == 0 {
        return false, user, system;
      }
      if userRecord.forwardSystem != 0 {
        if userRecord.forwardUser != INTERNET {
          var networkNumber := netNum;
          SetNetNum(userRecord.forwardNet);
          if !sys.validSystem(netNum, userRecord.forwardSystem) {
            SetNetNum(networkNumber);
            return false, user, system;
          }
          if userRecord.forwardUser == 0 && !sys.goodAddress(userNumber) {
            return false, user, system;
          }
          return true, userRecord.forwardUser, userRecord.forwardSystem;
        }
        return false, 0, 0;
      }
      if userRecord.forwardUser == CLOSED {
        if !sys.sysop {
          user, system := 0, 0;
        }
        return false, user, system;
      }
      forwarded, user, system := Walk(userNumber, userRecord);
    }

    /** The walk proper, from a user whose mail goes to another local user. */
    method Walk(userNumber: nat, first: User) returns (forwarded: bool, user: nat, system: nat)
      requires sys.Valid() && userNumber < |sys.users| && sys.users[userNumber] == first
      requires sys.HopsLocally(userNumber)
      modifies this
      ensures Answers(sys, userNumber, old(netNum), Outcome(forwarded, user, system, netNum))
    {
      var ss := new bool[sys.maxUsers + 300](i => false);
      ss[userNumber] := true;
      var currentUser := first.forwardUser;
      var userRecord := ReadUser(currentUser, first);
      ghost var m := 1;
      ghost var unseen := set u: nat | u < ss.Length && !ss[u];
      while userRecord.forwardUser != 0 || userRecord.forwardSystem != 0
        invariant currentUser == sys.Nth(userNumber, m) && currentUser < ss.Length
        invariant forall k | 0 <= k < m :: sys.HopsLocally(sys.Nth(userNumber, k))
        invariant userRecord.(deleted := false, forwardNet := 0)
                  == sys.Entry(currentUser).(deleted := false, forwardNet := 0)
        invariant userRecord.forwardSystem != 0 ==> userRecord == sys.Entry(currentUser)
        invariant forall u | 0 <= u < ss.Length && ss[u] :: Seen(userNumber, m, u)
        invariant unseen == set u: nat | u < ss.Length && !ss[u]
        invariant netNum == old(netNum)
        decreases unseen
      {
        if userRecord.forwardSystem != 0 {
          assert sys.EndsAfter(userNumber, m);
          StopsAt(userNumber, m);
          if !sys.validSystem(netNum, userRecord.forwardSystem) {
            return false, userNumber, 0;
          }
          SetNetNum(userRecord.forwardNet);
          return true, userRecord.forwardUser, userRecord.forwardSystem;
        }
        if ss[currentUser] {
          assert Seen(userNumber, m, currentUser);
          NoEnd(userNumber, m);
          return false, userNumber, 0;
        }
        ss[currentUser] := true;
        if userRecord.forwardUser == CLOSED {
          assert sys.EndsAfter(userNumber, m);
          StopsAt(userNumber, m);
          if sys.sysop {
            return false, currentUser, 0;
          }
          return false, 0, 0;
        }
        assert currentUser in unseen;
        unseen := unseen - {currentUser};
        currentUser := userRecord.forwardUser;
        userRecord := ReadUser(currentUser, userRecord);
        m := m + 1;
      }
      assert sys.EndsAfter(userNumber, m);
      StopsAt(userNumber, m);
      return true, currentUser, 0;
    }

    /** `u` is among the first `m` users of the chain. */
    ghost predicate Seen(start: nat, m: nat, u: nat) {
      exists k :: 0 <= k < m && sys.Nth(start, k) == u
    }

    lemma StopsAtOnce(start: nat)
      requires !sys.HopsLocally(start)
      ensures forall net: nat :: Answers(sys, start, net, FirstVerdict(sys, start, net))
    {
      assert !sys.HopsLocally(sys.Nth(start, 0));
    }

    lemma StopsAt(start: nat, m: nat)
      requires m > 0 && sys.EndsAfter(start, m)
      ensures forall net: nat :: Answers(sys, start, net, Verdict(sys, start, net, sys.Nth(start, m)))
    {
      assert forall n: nat | sys.EndsAfter(start, n) :: n == m;
    }

    lemma NoEnd(start: nat, m: nat)
      requires m > 0 && Seen(start, m, sys.Nth(start, m))
      requires forall k | 0 <= k < m :: sys.HopsLocally(sys.Nth(start, k))
      ensures forall net: nat :: Answers(sys, start, net, Outcome(false, start, 0, net))
    {
      var k :| 0 <= k < m && sys.Nth(start, k) == sys.Nth(start, m);
      RepeatsNeverEnd(sys, start, k, m);
    }
  }
}
