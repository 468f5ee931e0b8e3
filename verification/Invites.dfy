/** The invite manager: invite objects in a map, with a clock read by its caller. */
module Invites {
  import opened Address
  import opened InviteCodes
  import opened InviteSpec
  import opened Types
  import opened Wrappers

  class InviteCode {
    const code: string
    const inviter: FederatedAddress
    const permissions: seq<DataStoreGrant>
    const expiresAt: int
    const maxUses: int
    var used: int
    var usedBy: seq<FederatedAddress>

    constructor (code: string, inviter: FederatedAddress, permissions: seq<DataStoreGrant>, expiresAt: int, maxUses: int)
      ensures this.code == code && Copy() == Invite(inviter, permissions, expiresAt, maxUses, 0, [])
    {
      this.code, this.inviter, this.permissions := code, inviter, permissions;
      this.expiresAt, this.maxUses := expiresAt, maxUses;
      used, usedBy := 0, [];
    }

    function Copy(): Invite
      reads this
    {
      Invite(inviter, permissions, expiresAt, maxUses, used, usedBy)
    }
  }

  class InviteManager {
    var invites: map<string, InviteCode>

    /** Each invite sits under its own code, so no two codes share an object. */
    ghost predicate Valid()
      reads this
    {
      forall c <- invites :: invites[c].code == c
    }

    ghost function Abs(): (t: Table)
      reads this, invites.Values
      ensures t.Keys == invites.Keys
    {
      map c | c in invites :: invites[c].Copy()
    }

    constructor ()
      ensures Valid() && Abs() == map[] && invites == map[]
    {
      invites := map[];
    }

    /** The twelve bytes of `random` are the code's; `now` is the clock reading that sets the expiry. */
    method GenerateInvite(random: seq<Byte>, inviter: FederatedAddress, grants: seq<DataStoreGrant>, now: int,
                          validity: int, maxUses: int) returns (invite: InviteCode)
      requires Valid() && |random| == 12
      modifies this
      ensures Valid() && fresh(invite) && invite.code == InviteCodeOf(random)
      ensures Abs() == Generate(old(Abs()), InviteCodeOf(random), inviter, grants, now, validity, maxUses)
      ensures invite.code in invites && invites[invite.code] == invite
      ensures fresh(invites.Values - old(invites.Values))
    {
      invite := StoreInvite(InviteCodeOf(random), inviter, grants, now + validity, maxUses);
    }

    /** A new unused invite under its code, whatever was there. */
    method StoreInvite(code: string, inviter: FederatedAddress, grants: seq<DataStoreGrant>, expiresAt: int,
                       maxUses: int) returns (invite: InviteCode)
      requires Valid()
      modifies this
      ensures Valid() && fresh(invite) && invite.code == code && invites == old(invites)[code := invite]
      ensures Abs() == old(Abs())[code := Invite(inviter, grants, expiresAt, maxUses, 0, [])]
    {
      invite := new InviteCode(code, inviter, grants, expiresAt, maxUses);
      assert Abs() == old(Abs());
      invites := invites[code := invite];
    }

    method RedeemInvite(code: string, newMember: FederatedAddress, now: int) returns (r: Result<Invite, InviteError>)
      requires Valid()
      modifies this, invites.Values
      ensures Valid() && (Abs(), r) == Redeem(old(Abs()), code, newMember, now)
      ensures invites.Values <= old(invites.Values)
    {
      if code !in invites {
        return Failure(Unknown);
      }
      var invite := invites[code];
      if now > invite.expiresAt {
        invites := invites - {code};
        assert Abs() == old(Abs()) - {code};
        return Failure(HasExpired);
      }
      if invite.maxUses > 0 && invite.used >= invite.maxUses {
        return Failure(AtLimit);
      }
      for i := 0 to |invite.usedBy|
        invariant newMember !in invite.usedBy[..i]
        invariant Valid() && Abs() == old(Abs()) && invites == old(invites)
      {
        if invite.usedBy[i].Equal(newMember) {
          return Failure(AlreadyUsed);
        }
      }
      r := Use(code, newMember);
    }

    /** Counts one use and drops the code with its last. */
    method Use(code: string, newMember: FederatedAddress) returns (r: Result<Invite, InviteError>)
      requires Valid() && code in invites
      modifies this, invites.Values
      ensures Valid()
      ensures var i := UsedOnce(old(Abs())[code], newMember);
              && r == Success(i)
              && Abs() == if Full(i) then old(Abs()) - {code} else old(Abs())[code := i]
      ensures invites.Values <= old(invites.Values)
    {
      var invite := invites[code];
      invite.used := invite.used + 1;
      invite.usedBy := invite.usedBy + [newMember];
      if invite.maxUses > 0 && invite.used >= invite.maxUses {
        invites := invites - {code};
      }
      return Success(invite.Copy());
    }

    method ValidateInvite(code: string, now: int) returns (r: Result<Invite, InviteError>)
      ensures r == InviteSpec.Validate(Abs(), code, now)
    {
      if code !in invites {
        return Failure(Unknown);
      }
      var invite := invites[code];
      if now > invite.expiresAt {
        return Failure(HasExpired);
      }
      if invite.maxUses > 0 && invite.used >= invite.maxUses {
        return Failure(AtLimit);
      }
      return Success(invite.Copy());
    }

    method RevokeInvite(code: string, revoker: FederatedAddress) returns (r: Result<(), InviteError>)
      requires Valid()
      modifies this
      ensures Valid() && (Abs(), r) == Revoke(old(Abs()), code, revoker)
      ensures invites.Values <= old(invites.Values)
    {
      if code !in invites {
        return Failure(Unknown);
      }
      var invite := invites[code];
      if !invite.inviter.Equal(revoker) {
        return Failure(NotInviter);
      }
      invites := invites - {code};
      assert Abs() == old(Abs()) - {code};
      return Success(());
    }

    /** One tick of the cleanup loop; the map is visited in any order. */
    method CleanupExpired(now: int)
      requires Valid()
      modifies this
      ensures Valid() && Abs() == Cleanup(old(Abs()), now)
      ensures invites.Values <= old(invites.Values)
    {
      var left := invites.Keys;
      ghost var before := invites;
      while left != {}
        invariant left <= before.Keys && Sweeping(before, invites, left, now)
        decreases |left|
      {
        var code :| code in left;
        SweepOne(before, invites, left, code, now);
        left := left - {code};
        if now > invites[code].expiresAt {
          invites := invites - {code};
        }
      }
      assert forall c <- before :: SweptAt(before, invites, c, false, now);
    }
  }

  /** The invites while they are swept, with those in `left` still to come. */
  predicate Sweeping(before: map<string, InviteCode>, after: map<string, InviteCode>, left: set<string>, now: int) {
    after.Keys <= before.Keys && forall c <- before :: SweptAt(before, after, c, c in left, now)
  }

  predicate SweptAt(before: map<string, InviteCode>, after: map<string, InviteCode>, c: string, waiting: bool, now: int)
    requires c in before
  {
    if waiting || now <= before[c].expiresAt then c in after && after[c] == before[c] else c !in after
  }

  lemma SweepOne(before: map<string, InviteCode>, after: map<string, InviteCode>, left: set<string>, code: string,
                 now: int)
    requires Sweeping(before, after, left, now) && code in left && left <= before.Keys
    ensures code in after && after[code] == before[code]
    ensures Sweeping(before, if now > before[code].expiresAt then after - {code} else after, left - {code}, now)
  {
    assert SweptAt(before, after, code, true, now);
    var next := if now > before[code].expiresAt then after - {code} else after;
    forall c <- before ensures SweptAt(before, next, c, c in left - {code}, now) {
      assert SweptAt(before, after, c, c in left, now);
    }
  }

  /** Performs one event of a run; `bytes` gives the random bytes behind each code. */
  method Perform(m: InviteManager, e: Event, bytes: string -> seq<Byte>)
    requires m.Valid() && (e.Generated? ==> |bytes(e.code)| == 12 && InviteCodeOf(bytes(e.code)) == e.code)
    modifies m, m.invites.Values
    ensures m.Valid() && fresh(m.invites.Values - old(m.invites.Values))
    ensures m.Abs() == Step(old(m.Abs()), e)
  {
    match e
    case Generated(code, inviter, grants, now, validity, maxUses) =>
      var _ := m.GenerateInvite(bytes(code), inviter, grants, now, validity, maxUses);
    case Redeemed(code, member, now) => var _ := m.RedeemInvite(code, member, now);
    case RevokedBy(code, revoker, _) => var _ := m.RevokeInvite(code, revoker);
    case Cleaned(now) => m.CleanupExpired(now);
  }

  /** A new manager performing a run ends with the table the run ends in. */
  method PerformAll(events: seq<Event>, bytes: string -> seq<Byte>) returns (m: InviteManager)
    requires forall e <- events | e.Generated? :: |bytes(e.code)| == 12 && InviteCodeOf(bytes(e.code)) == e.code
    ensures fresh(m) && fresh(m.invites.Values)
    ensures m.Valid() && m.Abs() == Run(events)
  {
    if events == [] {
      m := new InviteManager();
    } else {
      m := PerformAll(events[..|events| - 1], bytes);
      Perform(m, events[|events| - 1], bytes);
    }
  }
}
