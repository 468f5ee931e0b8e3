/** Every answer about an invite, told from the events alone. */
module InviteAnswers {
  import opened Address
  import opened CacheKeys
  import opened InviteSpec
  import opened Wrappers

  /** The event finds the code out of time: a cleanup does, and an attempt to redeem it. */
  predicate Sweeps(e: Event, code: string, expiresAt: int) {
    e.now > expiresAt && (e.Cleaned? || (e.Redeemed? && e.code == code))
  }

  /** Some event since the code was generated found it out of time. */
  predicate WasSwept(events: seq<Event>, code: string, expiresAt: int) {
    events != [] && (
      var (front, e) := (events[..|events| - 1], events[|events| - 1]);
      && !(e.Generated? && e.code == code)
      && (Sweeps(e, code, expiresAt) || WasSwept(front, code, expiresAt)))
  }

  predicate UsedUp(events: seq<Event>, e: Event)
    requires e.Generated?
  {
    e.maxUses > 0 && |Redeemers(events, e.code)| >= e.maxUses
  }

  /** The code `e` generated was neither revoked nor used up nor found out of time. */
  predicate Live(events: seq<Event>, e: Event)
    requires e.Generated?
  {
    !WasRevoked(events, e.code) && !UsedUp(events, e) && !WasSwept(events, e.code, e.now + e.validity)
  }

  /** The invite the code stands for by now. */
  function InviteTold(events: seq<Event>, e: Event): Invite
    requires e.Generated?
  {
    var users := Redeemers(events, e.code);
    Invite(e.inviter, e.grants, e.now + e.validity, e.maxUses, |users|, users)
  }

  ghost predicate TableTold(t: Table, events: seq<Event>, e: Event)
    requires e.Generated?
  {
    && (e.code in t <==> Live(events, e))
    && (e.code in t ==> t[e.code] == InviteTold(events, e))
  }

  lemma JustGenerated(events: seq<Event>, e: Event)
    requires Proper(events + [e]) && e.Generated?
    ensures TableTold(Run(events + [e]), events + [e], e)
  {
    var longer := events + [e];
    assert longer[..|longer| - 1] == events && longer[|longer| - 1] == e;
    NoCodeNoRedeemer(events, e.code);
    if WasRevoked(events, e.code) { RevokedIsRecorded(events, e.code); }
  }

  lemma EndsNext(events: seq<Event>, last: Event, code: string, expiresAt: int)
    requires last.Generated? ==> last.code != code
    ensures var (t, longer) := (Run(events), events + [last]);
      && (WasSwept(longer, code, expiresAt) <==> Sweeps(last, code, expiresAt) || WasSwept(events, code, expiresAt))
      && (WasRevoked(longer, code) <==>
            || (last.RevokedBy? && last.code == code && Revoke(t, code, last.revoker).1.Success?)
            || WasRevoked(events, code))
      && Redeemers(longer, code) == Redeemers(events, code) +
           if last.Redeemed? && last.code == code && Redeem(t, code, last.member, last.now).1.Success? then [last.member]
           else []
  {
    var longer := events + [last];
    assert longer[..|longer| - 1] == events && longer[|longer| - 1] == last;
  }

  lemma TableNext(t: Table, events: seq<Event>, last: Event, e: Event)
    requires e.Generated? && t == Run(events) && TableTold(t, events, e)
    requires last.Generated? ==> last.code != e.code
    ensures TableTold(Step(t, last), events + [last], e)
  {
    EndsNext(events, last, e.code, e.now + e.validity);
    if last.Redeemed? && last.code == e.code {
      RedeemedAt(t, last, InviteTold(events, e));
    } else {
      OtherAt(t, last, e.code);
      assert Redeemers(events + [last], e.code) == Redeemers(events, e.code);
    }
  }

  /** Redeeming a code of the given terms. */
  lemma RedeemedAt(t: Table, last: Event, i: Invite)
    requires last.Redeemed? && (last.code in t ==> t[last.code] == i && !Full(i))
    ensures var (u, r) := Redeem(t, last.code, last.member, last.now);
      && (r.Success? <==> last.code in t && last.now <= i.expiresAt && last.member !in i.usedBy)
      && (last.code in u <==>
            last.code in t && last.now <= i.expiresAt && !(r.Success? && Full(UsedOnce(i, last.member))))
      && (last.code in u ==> u[last.code] == if r.Success? then UsedOnce(i, last.member) else i)
  {
  }

  /** An event that redeems another code or none. */
  lemma OtherAt(t: Table, last: Event, code: string)
    requires last.Generated? || last.Redeemed? ==> last.code != code
    ensures var u := Step(t, last);
      && (code in u <==> code in t && !(last.Cleaned? && last.now > t[code].expiresAt)
                         && !(last.RevokedBy? && last.code == code && Revoke(t, code, last.revoker).1.Success?))
      && (code in u ==> u[code] == t[code])
  {
  }

  /** After a proper run, a code is in the table exactly if nothing ended it, with its terms and its redeemers. */
  lemma {:induction false} TableIsTold(events: seq<Event>, e: Event)
    requires Proper(events) && e in events && e.Generated?
    ensures TableTold(Run(events), events, e)
  {
    var (front, last) := (events[..|events| - 1], events[|events| - 1]);
    assert events == front + [last];
    if e in front {
      TableIsTold(front, e);
      assert last.Generated? ==> last.code != e.code;
      TableNext(Run(front), front, last, e);
    } else {
      JustGenerated(front, e);
    }
  }

  /** Each answer about a generated code, and the invite shown: a code that something ended is unknown, and
      what is left is out of time, used by the member already, or open to him. */
  lemma AnswersAreTold(events: seq<Event>, e: Event, user: FederatedAddress, now: int)
    requires Proper(events) && e in events && e.Generated?
    ensures var (t, told, users) := (Run(events), InviteTold(events, e), Redeemers(events, e.code));
      && Redeem(t, e.code, user, now).1 ==
           (if !Live(events, e) then Failure(Unknown)
            else if now > e.now + e.validity then Failure(HasExpired)
            else if user in users then Failure(AlreadyUsed)
            else Success(told.(used := |users| + 1, usedBy := users + [user])))
      && InviteSpec.Validate(t, e.code, now) ==
           (if !Live(events, e) then Failure(Unknown)
            else if now > e.now + e.validity then Failure(HasExpired)
            else Success(told))
      && Revoke(t, e.code, user).1 ==
           (if !Live(events, e) then Failure(Unknown)
            else if user != e.inviter then Failure(NotInviter)
            else Success(()))
  {
    TableIsTold(events, e);
  }

  /** A code that was not generated is unknown. */
  lemma OthersAreUnknown(events: seq<Event>, code: string)
    requires Proper(events) && !Generates(events, code)
    ensures code !in Run(events)
  {
    NoCodeNoRedeemer(events, code);
    RunAgrees(events, Latest(events, 0));
    assert AgreesAt(Run(events), Ledgered(events), code, Latest(events, 0));
  }
}
