/** The invite table as a value, and the ledger it must agree with over whole runs. */
module InviteSpec {
  import opened Address
  import opened CacheKeys
  import opened Sequences
  import opened Wrappers

  datatype DataStoreGrant = DataStoreGrant(path: string, rights: seq<Right>)

  datatype Invite = Invite(inviter: FederatedAddress, grants: seq<DataStoreGrant>, expiresAt: int, maxUses: int,
                           used: int, usedBy: seq<FederatedAddress>)

  datatype InviteError = Unknown | HasExpired | AtLimit | AlreadyUsed | NotInviter

  type Table = map<string, Invite>

  predicate Full(i: Invite) {
    i.maxUses > 0 && i.used >= i.maxUses
  }

  // ---------------------------------------------------------------- operations

  function Generate(t: Table, code: string, inviter: FederatedAddress, grants: seq<DataStoreGrant>, now: int,
                    validity: int, maxUses: int): Table {
    t[code := Invite(inviter, grants, now + validity, maxUses, 0, [])]
  }

  function UsedOnce(i: Invite, member: FederatedAddress): Invite {
    i.(used := i.used + 1, usedBy := i.usedBy + [member])
  }

  function Redeem(t: Table, code: string, member: FederatedAddress, now: int): (Table, Result<Invite, InviteError>) {
    if code !in t then (t, Failure(Unknown))
    else if now > t[code].expiresAt then (t - {code}, Failure(HasExpired))
    else if Full(t[code]) then (t, Failure(AtLimit))
    else if member in t[code].usedBy then (t, Failure(AlreadyUsed))
    else
      var i := UsedOnce(t[code], member);
      (if Full(i) then t - {code} else t[code := i], Success(i))
  }

  function Validate(t: Table, code: string, now: int): Result<Invite, InviteError> {
    if code !in t then Failure(Unknown)
    else if now > t[code].expiresAt then Failure(HasExpired)
    else if Full(t[code]) then Failure(AtLimit)
    else Success(t[code])
  }

  function Revoke(t: Table, code: string, revoker: FederatedAddress): (Table, Result<(), InviteError>) {
    if code !in t then (t, Failure(Unknown))
    else if !t[code].inviter.Equal(revoker) then (t, Failure(NotInviter))
    else (t - {code}, Success(()))
  }

  function Cleanup(t: Table, now: int): Table {
    map code | code in t && now <= t[code].expiresAt :: t[code]
  }

  // ---------------------------------------------------------------- runs

  datatype Event =
    | Generated(code: string, inviter: FederatedAddress, grants: seq<DataStoreGrant>, now: int, validity: int,
                maxUses: int)
    | Redeemed(code: string, member: FederatedAddress, now: int)
    | RevokedBy(code: string, revoker: FederatedAddress, now: int)
    | Cleaned(now: int)

  function Step(t: Table, e: Event): Table {
    match e
    case Generated(code, inviter, grants, now, validity, maxUses) =>
      Generate(t, code, inviter, grants, now, validity, maxUses)
    case Redeemed(code, member, now) => Redeem(t, code, member, now).0
    case RevokedBy(code, revoker, _) => Revoke(t, code, revoker).0
    case Cleaned(now) => Cleanup(t, now)
  }

  function Run(events: seq<Event>): Table {
    if events == [] then map[] else Step(Run(events[..|events| - 1]), events[|events| - 1])
  }

  predicate Generates(events: seq<Event>, code: string) {
    exists e <- events :: e.Generated? && e.code == code
  }

  /** The clock of a run that may be empty. */
  function Latest(events: seq<Event>, otherwise: int): int {
    if events == [] then otherwise else events[|events| - 1].now
  }

  /** Clock readings never decrease and no code is generated twice. */
  predicate Proper(events: seq<Event>) {
    events == [] || (
      var (front, e) := (events[..|events| - 1], events[|events| - 1]);
      && Proper(front)
      && Latest(front, e.now) <= e.now
      && (e.Generated? ==> !Generates(front, e.code)))
  }

  // ---------------------------------------------------------------- the ledger

  /** What became of a code: nothing is ever forgotten. */
  datatype Life = Life(invite: Invite, revoked: bool)

  type Ledger = map<string, Life>

  predicate Open(l: Ledger, code: string, now: int) {
    code in l && !l[code].revoked && now <= l[code].invite.expiresAt && !Full(l[code].invite)
  }

  predicate MayRedeem(l: Ledger, code: string, member: FederatedAddress, now: int) {
    Open(l, code, now) && member !in l[code].invite.usedBy
  }

  function Entered(l: Ledger, e: Event): Ledger {
    match e
    case Generated(code, inviter, grants, now, validity, maxUses) =>
      l[code := Life(Invite(inviter, grants, now + validity, maxUses, 0, []), false)]
    case Redeemed(code, member, now) =>
      if MayRedeem(l, code, member, now) then l[code := l[code].(invite := UsedOnce(l[code].invite, member))] else l
    case RevokedBy(code, revoker, _) =>
      if code in l && l[code].invite.inviter == revoker then l[code := l[code].(revoked := true)] else l
    case Cleaned(_) => l
  }

  function Ledgered(events: seq<Event>): Ledger {
    if events == [] then map[] else Entered(Ledgered(events[..|events| - 1]), events[|events| - 1])
  }

  // ---------------------------------------------------------------- agreement

  /** The table holds the ledger's open codes; of the others it may have forgotten any. */
  predicate AgreesAt(t: Table, l: Ledger, code: string, now: int) {
    && (code in t ==> code in l && !l[code].revoked && !Full(l[code].invite) && t[code] == l[code].invite)
    && (Open(l, code, now) ==> code in t)
  }

  ghost predicate Agrees(t: Table, l: Ledger, now: int) {
    forall code {:trigger AgreesAt(t, l, code, now)} :: AgreesAt(t, l, code, now)
  }

  lemma {:induction false} LedgeredCodes(events: seq<Event>, code: string)
    ensures code in Ledgered(events) ==> Generates(events, code)
  {
    if events != [] {
      var (front, e) := (events[..|events| - 1], events[|events| - 1]);
      LedgeredCodes(front, code);
      assert events == front + [e];
      assert forall x <- front :: x in events;
      assert e in events;
    }
  }

  lemma StepAgrees(t: Table, l: Ledger, before: int, e: Event)
    requires Agrees(t, l, before) && before <= e.now
    requires e.Generated? ==> e.code !in l
    ensures Agrees(Step(t, e), Entered(l, e), e.now)
  {
    forall code ensures AgreesAt(Step(t, e), Entered(l, e), code, e.now) {
      assert AgreesAt(t, l, code, before);
      if !e.Cleaned? { assert AgreesAt(t, l, e.code, before); }
    }
  }

  lemma {:induction false} RunAgrees(events: seq<Event>, now: int)
    requires Proper(events) && Latest(events, now) <= now
    ensures Agrees(Run(events), Ledgered(events), now)
  {
    if events != [] {
      var (front, e) := (events[..|events| - 1], events[|events| - 1]);
      RunAgrees(front, e.now);
      if e.Generated? { LedgeredCodes(front, e.code); }
      StepAgrees(Run(front), Ledgered(front), e.now, e);
      forall code ensures AgreesAt(Run(events), Ledgered(events), code, now) {
        assert AgreesAt(Run(events), Ledgered(events), code, e.now);
      }
    }
  }

  /** After a proper run, a code is redeemed or validated exactly when the ledger, which never forgets
      and knows no cleanup, says it may be; and the caller is shown the ledger's invite. */
  lemma AnswersFollowLedger(events: seq<Event>, code: string, member: FederatedAddress, now: int)
    requires Proper(events) && Latest(events, now) <= now
    ensures var (t, l) := (Run(events), Ledgered(events));
            && (Redeem(t, code, member, now).1.Success? <==> MayRedeem(l, code, member, now))
            && (Redeem(t, code, member, now).1.Success? ==>
                  Redeem(t, code, member, now).1.value == UsedOnce(l[code].invite, member))
            && (Validate(t, code, now).Success? <==> Open(l, code, now))
            && (Validate(t, code, now).Success? ==> Validate(t, code, now).value == l[code].invite)
  {
    RunAgrees(events, now);
    assert AgreesAt(Run(events), Ledgered(events), code, now);
  }

  // ---------------------------------------------------------------- cleanup

  function WithoutCleanups(events: seq<Event>): seq<Event> {
    if events == [] then []
    else
      var (front, e) := (events[..|events| - 1], events[|events| - 1]);
      if e.Cleaned? then WithoutCleanups(front) else WithoutCleanups(front) + [e]
  }

  lemma {:induction false} CleanupsLeaveNoMark(events: seq<Event>)
    ensures Ledgered(WithoutCleanups(events)) == Ledgered(events)
  {
    if events != [] {
      var (front, e) := (events[..|events| - 1], events[|events| - 1]);
      CleanupsLeaveNoMark(front);
      assert (WithoutCleanups(front) + [e])[..|WithoutCleanups(front)|] == WithoutCleanups(front);
    }
  }

  lemma {:induction false} SameGenerations(events: seq<Event>, code: string)
    ensures Generates(WithoutCleanups(events), code) ==> Generates(events, code)
  {
    if events != [] {
      var (front, e) := (events[..|events| - 1], events[|events| - 1]);
      SameGenerations(front, code);
      assert forall x <- front :: x in events;
    }
  }

  lemma {:induction false} StillProper(events: seq<Event>, now: int)
    requires Proper(events) && Latest(events, now) <= now
    ensures Proper(WithoutCleanups(events)) && Latest(WithoutCleanups(events), now) <= now
  {
    if events != [] {
      var (front, e) := (events[..|events| - 1], events[|events| - 1]);
      StillProper(front, e.now);
      var w := WithoutCleanups(front);
      assert (w + [e])[..|w|] == w;
      if e.Generated? { SameGenerations(front, e.code); }
    }
  }

  /** Cleanups at whatever moments change the success of no later redemption or validation. */
  lemma CleanupIsTransparent(events: seq<Event>, code: string, member: FederatedAddress, now: int)
    requires Proper(events) && Latest(events, now) <= now
    ensures var (t, t') := (Run(events), Run(WithoutCleanups(events)));
            && (Redeem(t, code, member, now).1.Success? <==> Redeem(t', code, member, now).1.Success?)
            && (Validate(t, code, now).Success? <==> Validate(t', code, now).Success?)
  {
    CleanupsLeaveNoMark(events);
    StillProper(events, now);
    AnswersFollowLedger(events, code, member, now);
    AnswersFollowLedger(WithoutCleanups(events), code, member, now);
  }

  // ---------------------------------------------------------------- limits

  /** The members who redeemed the code in the run, in order. */
  function Redeemers(events: seq<Event>, code: string): seq<FederatedAddress> {
    if events == [] then []
    else
      var (front, e) := (events[..|events| - 1], events[|events| - 1]);
      Redeemers(front, code) +
      if e.Redeemed? && e.code == code && Redeem(Run(front), code, e.member, e.now).1.Success? then [e.member] else []
  }

  lemma {:induction false} NoCodeNoRedeemer(events: seq<Event>, code: string)
    requires Proper(events) && !Generates(events, code)
    ensures Redeemers(events, code) == [] && code !in Ledgered(events)
  {
    LedgeredCodes(events, code);
    if events != [] {
      var (front, e) := (events[..|events| - 1], events[|events| - 1]);
      assert events == front + [e];
      assert forall x <- front :: x in events;
      NoCodeNoRedeemer(front, code);
      AnswersFollowLedger(front, code, if e.Redeemed? then e.member else FederatedAddress("", "", ""), e.now);
    }
  }

  /** In a proper run the redeemers of a code are those its invite records: no two are the same, their
      number is the use count, and they are never more than the limit allows. */
  lemma {:induction false} RedemptionIsLimited(events: seq<Event>, code: string)
    requires Proper(events) && code in Ledgered(events)
    ensures var i := Ledgered(events)[code].invite;
            && i.usedBy == Redeemers(events, code) && i.used == |i.usedBy| && Distinct(i.usedBy)
            && (i.maxUses > 0 ==> |Redeemers(events, code)| <= i.maxUses)
  {
    var (front, e) := (events[..|events| - 1], events[|events| - 1]);
    if code in Ledgered(front) {
      RedemptionIsLimited(front, code);
      if e.Generated? { LedgeredCodes(front, e.code); }
    } else {
      assert e.Generated? && e.code == code;
      NoCodeNoRedeemer(front, code);
    }
    if e.Redeemed? { AnswersFollowLedger(front, e.code, e.member, e.now); }
  }

  /** Expiry, limit, inviter and grants of a code stay as they were generated. */
  lemma {:induction false} TermsAreFixed(events: seq<Event>, e: Event)
    requires Proper(events) && e in events && e.Generated?
    ensures e.code in Ledgered(events)
    ensures var i := Ledgered(events)[e.code].invite;
            i.expiresAt == e.now + e.validity && i.maxUses == e.maxUses && i.inviter == e.inviter && i.grants == e.grants
  {
    var (front, last) := (events[..|events| - 1], events[|events| - 1]);
    assert events == front + [last];
    if e in front {
      TermsAreFixed(front, e);
      assert last.Generated? ==> last.code != e.code;
    }
  }

  /** A code is redeemed at most as often as it was generated for. */
  lemma AtMostMaxUses(events: seq<Event>, e: Event)
    requires Proper(events) && e in events && e.Generated? && e.maxUses > 0
    ensures |Redeemers(events, e.code)| <= e.maxUses && Distinct(Redeemers(events, e.code))
  {
    TermsAreFixed(events, e);
    RedemptionIsLimited(events, e.code);
  }

  /** The inviter revoked the code somewhere in the run, after generating it. */
  predicate WasRevoked(events: seq<Event>, code: string) {
    events != [] && (
      var (front, e) := (events[..|events| - 1], events[|events| - 1]);
      || (e.RevokedBy? && e.code == code && Revoke(Run(front), code, e.revoker).1.Success?)
      || WasRevoked(front, code))
  }

  lemma {:induction false} RevokedIsRecorded(events: seq<Event>, code: string)
    requires Proper(events) && WasRevoked(events, code)
    ensures code in Ledgered(events) && Ledgered(events)[code].revoked
  {
    var (front, e) := (events[..|events| - 1], events[|events| - 1]);
    if WasRevoked(front, code) {
      RevokedIsRecorded(front, code);
      if e.Generated? { LedgeredCodes(front, e.code); }
    } else {
      RunAgrees(front, e.now);
      assert AgreesAt(Run(front), Ledgered(front), code, e.now);
    }
  }

  /** A code that was revoked, or whose time is over, is neither redeemed nor validated again. */
  lemma ClosedStaysClosed(events: seq<Event>, e: Event, member: FederatedAddress, now: int)
    requires Proper(events) && Latest(events, now) <= now && e in events && e.Generated?
    requires WasRevoked(events, e.code) || now > e.now + e.validity
    ensures !Redeem(Run(events), e.code, member, now).1.Success? && !Validate(Run(events), e.code, now).Success?
  {
    TermsAreFixed(events, e);
    AnswersFollowLedger(events, e.code, member, now);
    if WasRevoked(events, e.code) { RevokedIsRecorded(events, e.code); }
  }

  /** A code whose inviter asked for its revocation was revoked, unless it was used up or out of time by then. */
  lemma {:induction false} RecordedIsRevoked(events: seq<Event>, code: string, now: int)
    requires Proper(events) && Latest(events, now) <= now && code in Ledgered(events) && Ledgered(events)[code].revoked
    ensures var i := Ledgered(events)[code].invite; WasRevoked(events, code) || Full(i) || now > i.expiresAt
  {
    var (front, e) := (events[..|events| - 1], events[|events| - 1]);
    if e.Generated? { LedgeredCodes(front, e.code); }
    if code in Ledgered(front) && Ledgered(front)[code].revoked {
      RecordedIsRevoked(front, code, e.now);
    } else {
      RunAgrees(front, e.now);
      assert AgreesAt(Run(front), Ledgered(front), code, e.now);
    }
  }

  /** A generated code is redeemed exactly when it is in time, was not revoked by its inviter, is not
      used up, and the member is new to it. */
  lemma OpenIff(events: seq<Event>, e: Event, member: FederatedAddress, now: int)
    requires Proper(events) && Latest(events, now) <= now && e in events && e.Generated?
    ensures Redeem(Run(events), e.code, member, now).1.Success? <==>
              && !WasRevoked(events, e.code) && now <= e.now + e.validity
              && (e.maxUses > 0 ==> |Redeemers(events, e.code)| < e.maxUses)
              && member !in Redeemers(events, e.code)
  {
    TermsAreFixed(events, e);
    RedemptionIsLimited(events, e.code);
    AnswersFollowLedger(events, e.code, member, now);
    if WasRevoked(events, e.code) {
      RevokedIsRecorded(events, e.code);
    } else if Ledgered(events)[e.code].revoked {
      RecordedIsRevoked(events, e.code, now);
    }
  }
}
