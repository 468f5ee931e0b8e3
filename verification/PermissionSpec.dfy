/** Data stores, grants and the answer cache as values, and what the cache may get wrong. */
module PermissionSpec {
  import opened Address
  import opened CacheKeys
  import opened Sequences
  import opened Strings
  import opened Wrappers

  /** A clean path: `/a/b` is absolute with names `a`, `b`; `.` is relative without names. */
  datatype StorePath = StorePath(absolute: bool, names: seq<string>)

  const SLASH := StorePath(true, [])

  datatype Permission = Permission(subject: FederatedAddress, rights: seq<Right>, validUntil: Option<int>)

  datatype Store = Store(owner: FederatedAddress, permissions: seq<Permission>)

  datatype CachedAnswer = CachedAnswer(allowed: bool, rights: seq<Right>, expiresAt: int)

  datatype State = State(stores: map<StorePath, Store>, cache: map<string, CachedAnswer>, ttl: int)

  const ALL_RIGHTS := [Read, Write, Delete, Share]

  const INIT := State(map[], map[], 60)

  // ---------------------------------------------------------------- inheritance

  /** The containing directory; `/` and `.` contain themselves. */
  function Dir(p: StorePath): StorePath {
    if p.names == [] then p else p.(names := p.names[..|p.names| - 1])
  }

  function Nearest(stores: map<StorePath, Store>, p: StorePath): (q: Option<StorePath>)
    ensures q.Some? ==> q.value in stores
    decreases |p.names|
  {
    if p in stores then Some(p)
    else if p.names != [] then Nearest(stores, Dir(p))
    else if SLASH in stores then Some(SLASH)
    else None
  }

  /** `q` is `p` or one of its ancestors. */
  predicate AtOrAbove(q: StorePath, p: StorePath) {
    q.absolute == p.absolute && q.names <= p.names
  }

  /** `q` is the deepest store at or above `p`. */
  ghost predicate Governs(stores: map<StorePath, Store>, q: StorePath, p: StorePath) {
    && q in stores && AtOrAbove(q, p)
    && forall a | a in stores && AtOrAbove(a, p) :: |a.names| <= |q.names|
  }

  /** The search upwards finds the deepest store at or above the path; failing that, `/`, which is
      above no relative path, governs it all the same. */
  lemma {:induction false} NearestGoverns(stores: map<StorePath, Store>, p: StorePath)
    ensures match Nearest(stores, p)
            case Some(q) => Governs(stores, q, p)
                            || (q == SLASH && SLASH in stores && !p.absolute && forall a <- stores :: !AtOrAbove(a, p))
            case None => SLASH !in stores && forall a <- stores :: !AtOrAbove(a, p)
    decreases |p.names|
  {
    if p !in stores && p.names != [] {
      NearestGoverns(stores, Dir(p));
      forall a | a in stores && AtOrAbove(a, p) ensures AtOrAbove(a, Dir(p)) {
        assert a.names == p.names[..|a.names|] && p.names == p.names[..|p.names|];
        assert a != p;
      }
    }
  }

  // ---------------------------------------------------------------- checks

  predicate Matches(granted: FederatedAddress, subject: FederatedAddress) {
    granted.Equal(subject)
    || (granted.localPart == "*"
        && (granted.domain == subject.domain
            || (HasPrefix(granted.domain, "*.") && HasSuffix(subject.domain, granted.domain[1..]))))
  }

  predicate Expired(p: Permission, now: int) {
    p.validUntil.Some? && now > p.validUntil.value
  }

  predicate Grants(p: Permission, subject: FederatedAddress, right: Right, now: int) {
    !Expired(p, now) && Matches(p.subject, subject) && right in p.rights
  }

  /** Index of the first permission that grants the right, or the number of permissions. */
  function FirstGrant(ps: seq<Permission>, subject: FederatedAddress, right: Right, now: int): (k: nat)
    ensures k <= |ps| && (k < |ps| ==> Grants(ps[k], subject, right, now))
    ensures forall i | 0 <= i < k :: !Grants(ps[i], subject, right, now)
  {
    IndexWhere(ps, (p: Permission) => Grants(p, subject, right, now))
  }

  ghost predicate StoreAllows(ps: seq<Permission>, subject: FederatedAddress, right: Right, now: int) {
    exists p <- ps :: Grants(p, subject, right, now)
  }

  /** The uncached answer. */
  ghost predicate Allowed(stores: map<StorePath, Store>, path: StorePath, subject: FederatedAddress, right: Right,
                          now: int)
  {
    var q := Nearest(stores, path);
    q.Some? && StoreAllows(stores[q.value].permissions, subject, right, now)
  }

  function Verdict(stores: map<StorePath, Store>, path: StorePath, subject: FederatedAddress, right: Right,
                   now: int): (r: (bool, seq<Right>))
    ensures r.0 <==> Allowed(stores, path, subject, right, now)
  {
    var q := Nearest(stores, path);
    if q.None? then (false, [])
    else
      var ps := stores[q.value].permissions;
      var k := FirstGrant(ps, subject, right, now);
      assert k == |ps| ==> !StoreAllows(ps, subject, right, now);
      if k == |ps| then (false, []) else (true, ps[k].rights)
  }

  /** Permissions only lapse: what is allowed now was allowed before. */
  lemma AllowedIsAntitone(stores: map<StorePath, Store>, path: StorePath, subject: FederatedAddress, right: Right,
                          earlier: int, now: int)
    requires earlier <= now && Allowed(stores, path, subject, right, now)
    ensures Allowed(stores, path, subject, right, earlier)
  {
    var ps := stores[Nearest(stores, path).value].permissions;
    var p :| p in ps && Grants(p, subject, right, now);
    assert Grants(p, subject, right, earlier);
  }

  // ---------------------------------------------------------------- operations

  /** Index of the first permission of the subject, or the number of permissions. */
  function IndexOf(ps: seq<Permission>, subject: FederatedAddress): (k: nat)
    ensures k <= |ps| && (k < |ps| ==> ps[k].subject == subject)
    ensures forall i | 0 <= i < k :: ps[i].subject != subject
  {
    IndexWhere(ps, (p: Permission) => p.subject == subject)
  }

  function Granted(ps: seq<Permission>, subject: FederatedAddress, rights: seq<Right>,
                   validUntil: Option<int>): seq<Permission>
  {
    var k := IndexOf(ps, subject);
    if k < |ps| then ps[k := ps[k].(rights := rights, validUntil := validUntil)]
    else ps + [Permission(subject, rights, validUntil)]
  }

  function Revoked(ps: seq<Permission>, subject: FederatedAddress): seq<Permission> {
    if ps == [] then []
    else
      var last := ps[|ps| - 1];
      Revoked(ps[..|ps| - 1], subject) + if last.subject == subject then [] else [last]
  }

  /** All rights for the new owner; the time limit of an entry already there stays. */
  function Handed(ps: seq<Permission>, newOwner: FederatedAddress): seq<Permission> {
    var k := IndexOf(ps, newOwner);
    if k < |ps| then ps[k := ps[k].(rights := ALL_RIGHTS)]
    else ps + [Permission(newOwner, ALL_RIGHTS, None)]
  }

  function WithStore(s: State, path: StorePath, store: Store): State {
    s.(stores := s.stores[path := store], cache := map[])
  }

  function Create(s: State, path: StorePath, owner: FederatedAddress): State {
    if path in s.stores then s else WithStore(s, path, Store(owner, [Permission(owner, ALL_RIGHTS, None)]))
  }

  function Grant(s: State, path: StorePath, subject: FederatedAddress, rights: seq<Right>,
                 validUntil: Option<int>): State
  {
    if path !in s.stores then s
    else
      var ps := Granted(s.stores[path].permissions, subject, rights, validUntil);
      WithStore(s, path, s.stores[path].(permissions := ps))
  }

  function Revoke(s: State, path: StorePath, subject: FederatedAddress): State {
    if path !in s.stores then s
    else WithStore(s, path, s.stores[path].(permissions := Revoked(s.stores[path].permissions, subject)))
  }

  function Transfer(s: State, path: StorePath, currentOwner: FederatedAddress, newOwner: FederatedAddress): State {
    if path !in s.stores || !s.stores[path].owner.Equal(currentOwner) then s
    else WithStore(s, path, Store(newOwner, Handed(s.stores[path].permissions, newOwner)))
  }

  function SetTTL(s: State, ttl: int): State {
    s.(ttl := ttl, cache := map[])
  }

  /** The clock readings of one check: at the cache lookup, at the scan, at the cache update. */
  datatype Clock = Clock(lookup: int, scan: int, update: int)

  predicate Hit(s: State, key: string, now: int) {
    key in s.cache && now < s.cache[key].expiresAt
  }

  function Check(s: State, path: string, at: StorePath, subject: FederatedAddress, right: Right,
                 clock: Clock): (State, bool)
  {
    var key := CacheKey(path, subject, right);
    if Hit(s, key, clock.lookup) then (s, s.cache[key].allowed)
    else
      var v := Verdict(s.stores, at, subject, right, clock.scan);
      (s.(cache := s.cache[key := CachedAnswer(v.0, v.1, clock.update + s.ttl)]), v.0)
  }

  // ---------------------------------------------------------------- one entry per subject

  predicate UniqueSubjects(ps: seq<Permission>) {
    forall i, j | 0 <= i < j < |ps| :: ps[i].subject != ps[j].subject
  }

  lemma {:induction false} RevokedKeeps(ps: seq<Permission>, subject: FederatedAddress)
    ensures forall p :: p in Revoked(ps, subject) <==> p in ps && p.subject != subject
    ensures UniqueSubjects(ps) ==> UniqueSubjects(Revoked(ps, subject))
  {
    if ps != [] {
      var front, last := ps[..|ps| - 1], ps[|ps| - 1];
      RevokedKeeps(front, subject);
      assert ps == front + [last];
      assert forall p <- Revoked(front, subject) :: p in front;
    }
  }

  lemma GrantedKeeps(ps: seq<Permission>, subject: FederatedAddress, rights: seq<Right>, validUntil: Option<int>)
    requires UniqueSubjects(ps)
    ensures UniqueSubjects(Granted(ps, subject, rights, validUntil))
    ensures forall p :: p in Granted(ps, subject, rights, validUntil) <==>
                          (p in ps && p.subject != subject) || p == Permission(subject, rights, validUntil)
  {
    var k, r := IndexOf(ps, subject), Granted(ps, subject, rights, validUntil);
    forall p | p in ps && p.subject != subject ensures p in r {
      var i :| 0 <= i < |ps| && ps[i] == p;
      assert r[i] == p;
    }
    assert r[k] == Permission(subject, rights, validUntil);
  }

  lemma HandedKeeps(ps: seq<Permission>, newOwner: FederatedAddress)
    requires UniqueSubjects(ps)
    ensures UniqueSubjects(Handed(ps, newOwner))
    ensures forall p :: p in Handed(ps, newOwner) <==>
                          (p in ps && p.subject != newOwner)
                          || p == Permission(newOwner, ALL_RIGHTS, LimitOf(ps, newOwner))
  {
    var k, r := IndexOf(ps, newOwner), Handed(ps, newOwner);
    forall p | p in ps && p.subject != newOwner ensures p in r {
      var i :| 0 <= i < |ps| && ps[i] == p;
      assert r[i] == p;
    }
    assert r[k] == Permission(newOwner, ALL_RIGHTS, LimitOf(ps, newOwner));
  }

  /** The time limit of the subject's entry, if it has one. */
  function LimitOf(ps: seq<Permission>, subject: FederatedAddress): Option<int> {
    var k := IndexOf(ps, subject);
    if k < |ps| then ps[k].validUntil else None
  }

  // ---------------------------------------------------------------- what one change does

  /** Some other entry, under a wildcard, grants the right. */
  ghost predicate WildcardGrants(ps: seq<Permission>, subject: FederatedAddress, right: Right, now: int) {
    exists p <- ps :: p.subject != subject && p.subject.localPart == "*" && Grants(p, subject, right, now)
  }

  /** A revoked subject keeps exactly the rights that another subject's wildcard entry gives it. */
  lemma RevokeLeavesWildcards(ps: seq<Permission>, subject: FederatedAddress, right: Right, now: int)
    ensures StoreAllows(Revoked(ps, subject), subject, right, now) <==> WildcardGrants(ps, subject, right, now)
  {
    RevokedKeeps(ps, subject);
    if StoreAllows(Revoked(ps, subject), subject, right, now) {
      var p :| p in Revoked(ps, subject) && Grants(p, subject, right, now);
      assert p in ps && p.subject != subject && p.subject.localPart == "*";
    }
    if WildcardGrants(ps, subject, right, now) {
      var p :| p in ps && p.subject != subject && p.subject.localPart == "*" && Grants(p, subject, right, now);
      assert p in Revoked(ps, subject);
    }
  }

  /** After a grant the subject has the right exactly when the grant gives it and is still valid, or
      a wildcard does; an earlier grant to the same subject no longer counts. */
  lemma GrantReplaces(ps: seq<Permission>, subject: FederatedAddress, rights: seq<Right>, validUntil: Option<int>,
                      right: Right, now: int)
    requires UniqueSubjects(ps)
    ensures StoreAllows(Granted(ps, subject, rights, validUntil), subject, right, now) <==>
              (right in rights && (validUntil.None? || now <= validUntil.value))
              || WildcardGrants(ps, subject, right, now)
  {
    var added := Permission(subject, rights, validUntil);
    var r := Granted(ps, subject, rights, validUntil);
    GrantedKeeps(ps, subject, rights, validUntil);
    assert added in r;
    if StoreAllows(r, subject, right, now) {
      var p :| p in r && Grants(p, subject, right, now);
      assert p != added ==> p in ps && p.subject != subject && p.subject.localPart == "*";
    }
    if WildcardGrants(ps, subject, right, now) {
      var p :| p in ps && p.subject != subject && p.subject.localPart == "*" && Grants(p, subject, right, now);
      assert p in r;
    }
  }

  /** A new owner has a right exactly when no lapsed limit of an earlier grant to it remains, or a
      wildcard gives the right: a transfer resets the rights but not the limit. */
  lemma TransferGrantsIff(ps: seq<Permission>, newOwner: FederatedAddress, right: Right, now: int)
    requires UniqueSubjects(ps)
    ensures StoreAllows(Handed(ps, newOwner), newOwner, right, now) <==>
              (LimitOf(ps, newOwner).None? || now <= LimitOf(ps, newOwner).value)
              || WildcardGrants(ps, newOwner, right, now)
  {
    var added := Permission(newOwner, ALL_RIGHTS, LimitOf(ps, newOwner));
    var r := Handed(ps, newOwner);
    HandedKeeps(ps, newOwner);
    assert added in r;
    AllRights(right);
    if StoreAllows(r, newOwner, right, now) {
      var p :| p in r && Grants(p, newOwner, right, now);
      assert p != added ==> p in ps && p.subject != newOwner && p.subject.localPart == "*";
    }
    if WildcardGrants(ps, newOwner, right, now) {
      var p :| p in ps && p.subject != newOwner && p.subject.localPart == "*" && Grants(p, newOwner, right, now);
      assert p in r;
    }
  }

  /** Another subject, the previous owner included, has a right after a transfer exactly when an entry
      that is not the new owner's gives it, or the new owner's address is a wildcard for it in time. */
  lemma TransferKeepsOthers(ps: seq<Permission>, newOwner: FederatedAddress, other: FederatedAddress, right: Right,
                            now: int)
    requires UniqueSubjects(ps) && other != newOwner
    ensures StoreAllows(Handed(ps, newOwner), other, right, now) <==>
              || OthersGrant(ps, newOwner, other, right, now)
              || (Matches(newOwner, other) && (LimitOf(ps, newOwner).None? || now <= LimitOf(ps, newOwner).value))
    ensures newOwner.localPart != "*" ==>
              (StoreAllows(Handed(ps, newOwner), other, right, now) <==> StoreAllows(ps, other, right, now))
  {
    var added := Permission(newOwner, ALL_RIGHTS, LimitOf(ps, newOwner));
    HandedKeeps(ps, newOwner);
    AllRights(right);
    assert added in Handed(ps, newOwner);
    if OthersGrant(ps, newOwner, other, right, now) {
      var p :| p in ps && p.subject != newOwner && Grants(p, other, right, now);
      assert p in Handed(ps, newOwner);
    }
    if StoreAllows(Handed(ps, newOwner), other, right, now) {
      var p :| p in Handed(ps, newOwner) && Grants(p, other, right, now);
      assert p != added ==> p in ps && p.subject != newOwner;
    }
    if StoreAllows(ps, other, right, now) && newOwner.localPart != "*" {
      var p :| p in ps && Grants(p, other, right, now);
      assert p.subject != newOwner;
    }
  }

  /** An entry that is not the new owner's grants the right. */
  ghost predicate OthersGrant(ps: seq<Permission>, newOwner: FederatedAddress, other: FederatedAddress, right: Right,
                              now: int)
  {
    exists p <- ps :: p.subject != newOwner && Grants(p, other, right, now)
  }

  lemma AllRights(right: Right)
    ensures right in ALL_RIGHTS
  {
    assert ALL_RIGHTS[0] == Read && ALL_RIGHTS[1] == Write && ALL_RIGHTS[2] == Delete && ALL_RIGHTS[3] == Share;
  }
}
