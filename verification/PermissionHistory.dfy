/** Whole runs of the permission manager: how stale a cached answer can be. */
module PermissionHistory {
  import opened Address
  import opened CacheKeys
  import opened PermissionSpec
  import opened Strings
  import opened Wrappers

  datatype Event =
    | Created(path: StorePath, owner: FederatedAddress)
    | Granting(path: StorePath, subject: FederatedAddress, rights: seq<Right>, validUntil: Option<int>)
    | Revoking(path: StorePath, subject: FederatedAddress)
    | Transferred(path: StorePath, currentOwner: FederatedAddress, newOwner: FederatedAddress)
    | TTLSet(ttl: int)
    | Checked(text: string, subject: FederatedAddress, right: Right, clock: Clock)

  /** `clean` turns the text of a path into the clean path it denotes. */
  function Step(clean: string -> StorePath, s: State, e: Event): State {
    match e
    case Created(path, owner) => Create(s, path, owner)
    case Granting(path, subject, rights, validUntil) => Grant(s, path, subject, rights, validUntil)
    case Revoking(path, subject) => Revoke(s, path, subject)
    case Transferred(path, currentOwner, newOwner) => Transfer(s, path, currentOwner, newOwner)
    case TTLSet(ttl) => SetTTL(s, ttl)
    case Checked(text, subject, right, clock) => Check(s, text, clean(text), subject, right, clock).0
  }

  function Run(clean: string -> StorePath, events: seq<Event>): State {
    if events == [] then INIT
    else Step(clean, Run(clean, events[..|events| - 1]), events[|events| - 1])
  }

  /** The latest clock reading of a run. */
  function Now(events: seq<Event>): int {
    if events == [] then 0
    else if events[|events| - 1].Checked? then events[|events| - 1].clock.update
    else Now(events[..|events| - 1])
  }

  /** Clock readings never decrease and every checked subject is an address that can be written. */
  predicate Proper(events: seq<Event>) {
    events == [] || (
      var (front, e) := (events[..|events| - 1], events[|events| - 1]);
      && Proper(front)
      && (e.Checked? ==>
            Writable(e.subject)
            && (AnyCheck(front) ==> Now(front) <= e.clock.lookup) && e.clock.lookup <= e.clock.scan <= e.clock.update))
  }

  predicate AnyCheck(events: seq<Event>) {
    exists e <- events :: e.Checked?
  }

  /** A query whose uncached answer at `scan` was stored under `key` at `update`. */
  ghost predicate Stored(clean: string -> StorePath, s: State, key: string, text: string, subject: FederatedAddress,
                         right: Right, scan: int, update: int)
  {
    && Writable(subject) && key == CacheKey(text, subject, right)
    && key in s.cache && s.cache[key].expiresAt == update + s.ttl
    && scan <= update && s.cache[key].allowed == Allowed(s.stores, clean(text), subject, right, scan)
  }

  /** Every cached answer was the uncached answer, on the stores as they are now, when it was stored. */
  ghost predicate Backed(clean: string -> StorePath, s: State, now: int) {
    forall key {:trigger key in s.cache} | key in s.cache ::
      exists text, subject, right, scan, update ::
        Stored(clean, s, key, text, subject, right, scan, update) && update <= now
  }

  lemma CheckKeepsBacked(clean: string -> StorePath, s: State, now: int, text: string, subject: FederatedAddress,
                         right: Right, clock: Clock)
    requires Backed(clean, s, now) && Writable(subject)
    requires s.cache != map[] ==> now <= clock.update
    requires clock.scan <= clock.update
    ensures Backed(clean, Check(s, text, clean(text), subject, right, clock).0, clock.update)
  {
    var s' := Check(s, text, clean(text), subject, right, clock).0;
    var key := CacheKey(text, subject, right);
    forall k | k in s'.cache
      ensures exists t, u, r, scan, update :: Stored(clean, s', k, t, u, r, scan, update) && update <= clock.update
    {
      if k == key && !Hit(s, key, clock.lookup) {
        assert Stored(clean, s', k, text, subject, right, clock.scan, clock.update);
      } else {
        var t, u, r, scan, update :| Stored(clean, s, k, t, u, r, scan, update) && update <= now;
        assert Stored(clean, s', k, t, u, r, scan, update);
      }
    }
  }

  lemma {:induction false} CacheNeedsCheck(clean: string -> StorePath, events: seq<Event>)
    ensures Run(clean, events).cache != map[] ==> AnyCheck(events)
  {
    if events != [] {
      var (front, e) := (events[..|events| - 1], events[|events| - 1]);
      CacheNeedsCheck(clean, front);
      assert events == front + [e];
      assert forall x <- front :: x in events;
      assert e in events;
    }
  }

  lemma ChangeKeepsBacked(clean: string -> StorePath, s: State, now: int, e: Event)
    requires Backed(clean, s, now) && !e.Checked?
    ensures Backed(clean, Step(clean, s, e), now)
  {
    ChangeEmptiesCache(clean, s, e);
  }

  /** Whatever changes a store or the TTL empties the cache. */
  lemma ChangeEmptiesCache(clean: string -> StorePath, s: State, e: Event)
    requires !e.Checked?
    ensures Step(clean, s, e) == s || Step(clean, s, e).cache == map[]
  {
  }

  lemma StepKeepsBacked(clean: string -> StorePath, s: State, now: int, e: Event)
    requires Backed(clean, s, now)
    requires e.Checked? ==>
               Writable(e.subject) && (s.cache != map[] ==> now <= e.clock.update) && e.clock.scan <= e.clock.update
    ensures Backed(clean, Step(clean, s, e), if e.Checked? then e.clock.update else now)
  {
    if e.Checked? {
      CheckKeepsBacked(clean, s, now, e.text, e.subject, e.right, e.clock);
    } else {
      ChangeKeepsBacked(clean, s, now, e);
    }
  }

  lemma CheckIsLater(clean: string -> StorePath, events: seq<Event>, front: seq<Event>, e: Event)
    requires Proper(events) && events != [] && front == events[..|events| - 1] && e == events[|events| - 1]
    requires e.Checked?
    ensures Proper(front) && Writable(e.subject) && e.clock.scan <= e.clock.update
    ensures Run(clean, front).cache != map[] ==> Now(front) <= e.clock.update
  {
    CacheNeedsCheck(clean, front);
  }

  lemma {:induction false} RunIsBacked(clean: string -> StorePath, events: seq<Event>)
    requires Proper(events)
    ensures Backed(clean, Run(clean, events), Now(events))
  {
    if events != [] {
      var (front, e) := (events[..|events| - 1], events[|events| - 1]);
      RunIsBacked(clean, front);
      if e.Checked? { CheckIsLater(clean, events, front, e); }
      StepKeepsBacked(clean, Run(clean, front), Now(front), e);
    }
  }

  /** An answer given after a proper run is the uncached answer, on the current stores, at an instant
      no later than the check's own scan; if it came from the cache it was stored less than the
      TTL before. */
  lemma AnswerWasRight(clean: string -> StorePath, events: seq<Event>, text: string, subject: FederatedAddress,
                       right: Right, clock: Clock) returns (scan: int, update: int)
    requires Proper(events + [Checked(text, subject, right, clock)]) && Unambiguous(text, subject)
    ensures var s := Run(clean, events);
            var answer := Check(s, text, clean(text), subject, right, clock).1;
            && answer == Allowed(s.stores, clean(text), subject, right, scan)
            && scan <= update
            && if Hit(s, CacheKey(text, subject, right), clock.lookup) then update <= clock.lookup < update + s.ttl
               else (scan, update) == (clock.scan, clock.update)
  {
    var s, key := Run(clean, events), CacheKey(text, subject, right);
    assert (events + [Checked(text, subject, right, clock)])[..|events|] == events;
    RunIsBacked(clean, events);
    CacheNeedsCheck(clean, events);
    if Hit(s, key, clock.lookup) {
      var t, u, r;
      t, u, r, scan, update :| Stored(clean, s, key, t, u, r, scan, update) && update <= Now(events);
      KeyIsUnique(text, subject, right, t, u, r);
    } else {
      scan, update := clock.scan, clock.update;
    }
  }

  /** A denial is always the current answer. */
  lemma DenialIsCurrent(clean: string -> StorePath, events: seq<Event>, text: string, subject: FederatedAddress,
                        right: Right, clock: Clock)
    requires Proper(events + [Checked(text, subject, right, clock)]) && Unambiguous(text, subject)
    requires !Check(Run(clean, events), text, clean(text), subject, right, clock).1
    ensures !Allowed(Run(clean, events).stores, clean(text), subject, right, clock.scan)
  {
    var scan, update := AnswerWasRight(clean, events, text, subject, right, clock);
    assert (events + [Checked(text, subject, right, clock)])[..|events|] == events;
    if Allowed(Run(clean, events).stores, clean(text), subject, right, clock.scan) {
      AllowedIsAntitone(Run(clean, events).stores, clean(text), subject, right, scan, clock.scan);
    }
  }

  /** A permission that is no longer valid is still honoured only by the cache, only past its time
      limit, and for less than the TTL plus the time the storing check took. */
  lemma AllowanceOverstays(clean: string -> StorePath, events: seq<Event>, text: string, subject: FederatedAddress,
                           right: Right, clock: Clock) returns (p: Permission, scan: int, update: int)
    requires Proper(events + [Checked(text, subject, right, clock)]) && Unambiguous(text, subject)
    requires Check(Run(clean, events), text, clean(text), subject, right, clock).1
    requires !Allowed(Run(clean, events).stores, clean(text), subject, right, clock.lookup)
    ensures var s := Run(clean, events);
            var q := Nearest(s.stores, clean(text));
            && Hit(s, CacheKey(text, subject, right), clock.lookup)
            && q.Some? && p in s.stores[q.value].permissions && p.validUntil.Some?
            && scan <= p.validUntil.value < clock.lookup
            && clock.lookup - p.validUntil.value < s.ttl + (update - scan)
  {
    scan, update := AnswerWasRight(clean, events, text, subject, right, clock);
    var s := Run(clean, events);
    if !Hit(s, CacheKey(text, subject, right), clock.lookup) {
      AllowedIsAntitone(s.stores, clean(text), subject, right, clock.lookup, clock.scan);
      assert false;
    }
    var ps := s.stores[Nearest(s.stores, clean(text)).value].permissions;
    p :| p in ps && Grants(p, subject, right, scan);
    assert !Grants(p, subject, right, clock.lookup);
  }

  /** Without time limits in the governing store the cache is never wrong. */
  lemma NoLimitsNoStaleness(clean: string -> StorePath, events: seq<Event>, text: string, subject: FederatedAddress,
                            right: Right, clock: Clock)
    requires Proper(events + [Checked(text, subject, right, clock)]) && Unambiguous(text, subject)
    requires var s := Run(clean, events); var q := Nearest(s.stores, clean(text));
             q.Some? ==> forall p <- s.stores[q.value].permissions :: p.validUntil.None?
    ensures Check(Run(clean, events), text, clean(text), subject, right, clock).1
            == Allowed(Run(clean, events).stores, clean(text), subject, right, clock.scan)
  {
    var s := Run(clean, events);
    var scan, update := AnswerWasRight(clean, events, text, subject, right, clock);
    var q := Nearest(s.stores, clean(text));
    if q.Some? {
      forall p | p in s.stores[q.value].permissions
        ensures Grants(p, subject, right, scan) == Grants(p, subject, right, clock.scan)
      {
      }
    }
  }

  /** A store at `/` where alice granted bob to read until 10. */
  function ExampleState(alice: FederatedAddress, bob: FederatedAddress): State {
    Grant(Create(INIT, SLASH, alice), SLASH, bob, [Read], Some(10))
  }

  lemma ExampleAnswers(alice: FederatedAddress, bob: FederatedAddress)
    requires alice != bob && alice.localPart != "*"
    ensures var s := ExampleState(alice, bob);
            && s.ttl == 60 && s.cache == map[]
            && Allowed(s.stores, SLASH, bob, Read, 5) && !Allowed(s.stores, SLASH, bob, Read, 64)
  {
    var s, ps, mine := ExampleState(alice, bob), [Permission(alice, ALL_RIGHTS, None)], Permission(bob, [Read], Some(10));
    assert IndexOf(ps, bob) == 1 by { assert ps[1..] == []; }
    assert s.stores[SLASH].permissions == ps + [mine];
    assert mine in ps + [mine] && Grants(mine, bob, Read, 5) by { assert [Read][0] == Read; }
    assert !Matches(alice, bob) && !Grants(mine, bob, Read, 64);
  }

  lemma ExampleHit(s: State, at: StorePath, bob: FederatedAddress)
    requires s.ttl == 60 && s.cache == map[] && Allowed(s.stores, at, bob, Read, 5)
    ensures var t := Check(s, "/", at, bob, Read, Clock(5, 5, 5)).0;
            t.stores == s.stores && Check(t, "/", at, bob, Read, Clock(64, 64, 64)).1
  {
  }

  /** The bound is met: a grant valid until 10 and checked at 5 is still honoured at 64. */
  lemma OverstayHappens(clean: string -> StorePath, alice: FederatedAddress, bob: FederatedAddress)
    requires clean("/") == SLASH && alice != bob && alice.localPart != "*" && bob == FederatedAddress("bob", "a.b", "")
    ensures var events := [Created(SLASH, alice), Granting(SLASH, bob, [Read], Some(10)),
                           Checked("/", bob, Read, Clock(5, 5, 5))];
            && Proper(events + [Checked("/", bob, Read, Clock(64, 64, 64))]) && Unambiguous("/", bob)
            && Check(Run(clean, events), "/", SLASH, bob, Read, Clock(64, 64, 64)).1
            && !Allowed(Run(clean, events).stores, SLASH, bob, Read, 64)
  {
    var e0, e1 := Created(SLASH, alice), Granting(SLASH, bob, [Read], Some(10));
    var e2 := Checked("/", bob, Read, Clock(5, 5, 5));
    ExampleIsProper(e0, e1, e2, Checked("/", bob, Read, Clock(64, 64, 64)), bob);
    ExampleAnswers(alice, bob);
    ExampleHit(ExampleState(alice, bob), SLASH, bob);
    ExampleRun(clean, alice, bob);
  }

  lemma ExampleRun(clean: string -> StorePath, alice: FederatedAddress, bob: FederatedAddress)
    requires clean("/") == SLASH
    ensures Run(clean, [Created(SLASH, alice), Granting(SLASH, bob, [Read], Some(10)),
                        Checked("/", bob, Read, Clock(5, 5, 5))])
         == Check(ExampleState(alice, bob), "/", SLASH, bob, Read, Clock(5, 5, 5)).0
  {
    ThreeSteps(clean, Created(SLASH, alice), Granting(SLASH, bob, [Read], Some(10)),
               Checked("/", bob, Read, Clock(5, 5, 5)));
  }

  lemma ThreeSteps(clean: string -> StorePath, e0: Event, e1: Event, e2: Event)
    ensures Run(clean, [e0, e1, e2]) == Step(clean, Step(clean, Step(clean, INIT, e0), e1), e2)
  {
    RunAppend(clean, [], e0);
    RunAppend(clean, [e0], e1);
    RunAppend(clean, [e0, e1], e2);
    assert [] + [e0] == [e0] && [e0] + [e1] == [e0, e1] && [e0, e1] + [e2] == [e0, e1, e2];
  }

  lemma ExampleIsProper(e0: Event, e1: Event, e2: Event, e3: Event, bob: FederatedAddress)
    requires !e0.Checked? && !e1.Checked? && bob == FederatedAddress("bob", "a.b", "")
    requires e2 == Checked("/", bob, Read, Clock(5, 5, 5)) && e3 == Checked("/", bob, Read, Clock(64, 64, 64))
    ensures Proper([e0, e1, e2] + [e3]) && Unambiguous("/", bob)
  {
    var all := [e0, e1, e2, e3];
    assert [e0, e1, e2] + [e3] == all && all[..3] == [e0, e1, e2];
    assert [e0, e1, e2][..2] == [e0, e1] && [e0, e1][..1] == [e0] && [e0][..0] == [];
    assert bob.domain[1] == '.';
    assert bob.localPart[0] != "/"[0];
    assert Writable(bob);
    assert !AnyCheck([e0, e1]) by { assert forall e <- [e0, e1] :: e == e0 || e == e1; }
    assert Proper([e0]);
    assert Proper([e0, e1]);
    assert Proper([e0, e1, e2]);
  }

  lemma RunAppend(clean: string -> StorePath, events: seq<Event>, e: Event)
    ensures Run(clean, events + [e]) == Step(clean, Run(clean, events), e)
  {
    assert (events + [e])[..|events|] == events;
  }

  // ---------------------------------------------------------------- shared keys

  /** After the run, the query is allowed although no store allows it. */
  ghost predicate WronglyHonoured(clean: string -> StorePath, events: seq<Event>, path: string,
                                  subject: FederatedAddress, right: Right, clock: Clock)
  {
    var s := Run(clean, events);
    && Proper(events + [Checked(path, subject, right, clock)])
    && Check(s, path, clean(path), subject, right, clock).1
    && !Allowed(s.stores, clean(path), subject, right, clock.scan)
  }

  /** The first of two queries with one key is asked on a new cache, the second after it. */
  lemma SharedAnswer(s: State, text: string, at: StorePath, owner: FederatedAddress, right: Right,
                     text': string, at': StorePath, subject: FederatedAddress)
    requires s.cache == map[] && s.ttl == 60 && Allowed(s.stores, at, owner, right, 0)
    requires CacheKey(text, owner, right) == CacheKey(text', subject, right)
    ensures var t := Check(s, text, at, owner, right, Clock(0, 0, 0)).0;
            t.stores == s.stores && Check(t, text', at', subject, right, Clock(1, 1, 1)).1
  {
  }

  lemma SharedIsProper(changes: seq<Event>, first: Event, second: Event)
    requires forall e <- changes :: !e.Checked?
    requires first.Checked? && second.Checked? && Writable(first.subject) && Writable(second.subject)
    requires first.clock == Clock(0, 0, 0) && second.clock == Clock(1, 1, 1)
    ensures Proper(changes + [first] + [second])
  {
    ChangesAreProper(changes);
    assert (changes + [first])[..|changes|] == changes;
    assert Proper(changes + [first]);
    assert (changes + [first] + [second])[..|changes| + 1] == changes + [first];
  }

  lemma {:induction false} ChangesAreProper(changes: seq<Event>)
    requires forall e <- changes :: !e.Checked?
    ensures Proper(changes) && !AnyCheck(changes)
  {
    if changes != [] {
      assert forall e <- changes[..|changes| - 1] :: e in changes;
      ChangesAreProper(changes[..|changes| - 1]);
    }
  }

  /** Whoever owns the first query's answer, the cache hands it to the second. */
  lemma HonouredAfter(clean: string -> StorePath, changes: seq<Event>, path: string, subject: FederatedAddress,
                      right: Right, path': string, owner: FederatedAddress)
    requires (forall e <- changes :: !e.Checked?) && Writable(subject) && Writable(owner)
    requires CacheKey(path', owner, right) == CacheKey(path, subject, right)
    requires var s := Run(clean, changes);
             && s.cache == map[] && s.ttl == 60 && Allowed(s.stores, clean(path'), owner, right, 0)
             && !Allowed(s.stores, clean(path), subject, right, 1)
    ensures WronglyHonoured(clean, changes + [Checked(path', owner, right, Clock(0, 0, 0))], path, subject, right,
                            Clock(1, 1, 1))
  {
    var first := Checked(path', owner, right, Clock(0, 0, 0));
    SharedIsProper(changes, first, Checked(path, subject, right, Clock(1, 1, 1)));
    SharedAnswer(Run(clean, changes), path', clean(path'), owner, right, path, clean(path), subject);
    RunThenCheck(clean, changes, Run(clean, changes), path', owner, right, Clock(0, 0, 0));
  }

  lemma RunThenCheck(clean: string -> StorePath, events: seq<Event>, s: State, text: string,
                     subject: FederatedAddress, right: Right, clock: Clock)
    requires Run(clean, events) == s
    ensures Run(clean, events + [Checked(text, subject, right, clock)])
         == Check(s, text, clean(text), subject, right, clock).0
  {
    RunAppend(clean, events, Checked(text, subject, right, clock));
  }

  /** A store of the first query's subject, who is no wildcard. */
  lemma OwnersStore(clean: string -> StorePath, at: StorePath, owner: FederatedAddress, path: StorePath,
                    subject: FederatedAddress, right: Right)
    requires owner != subject && owner.localPart != "*"
    ensures var s := Run(clean, [Created(at, owner)]);
            && s.cache == map[] && s.ttl == 60 && Allowed(s.stores, at, owner, right, 0)
            && !Allowed(s.stores, path, subject, right, 1)
  {
    var p := Permission(owner, ALL_RIGHTS, None);
    AllRights(right);
    RunAppend(clean, [], Created(at, owner));
    assert [] + [Created(at, owner)] == [Created(at, owner)];
    assert p in [p] && Grants(p, owner, right, 0);
    assert !Matches(owner, subject);
  }

  /** An owner that is nobody's address. */
  const NOBODY := FederatedAddress("", "", "")

  /** A store that grants a wildcard the right until 0. */
  function LapsingStore(at: StorePath, wildcard: FederatedAddress, right: Right): seq<Event> {
    [Created(at, NOBODY), Granting(at, wildcard, [right], Some(0))]
  }

  lemma WildcardsStore(clean: string -> StorePath, at: StorePath, wildcard: FederatedAddress, path: StorePath,
                       subject: FederatedAddress, right: Right)
    requires wildcard != NOBODY && subject != NOBODY
    ensures var s := Run(clean, LapsingStore(at, wildcard, right));
            && s.cache == map[] && s.ttl == 60 && Allowed(s.stores, at, wildcard, right, 0)
            && !Allowed(s.stores, path, subject, right, 1)
  {
    var nobody, lapsing := Permission(NOBODY, ALL_RIGHTS, None), Permission(wildcard, [right], Some(0));
    TwoSteps(clean, Created(at, NOBODY), Granting(at, wildcard, [right], Some(0)));
    assert IndexOf([nobody], wildcard) == 1 by { assert [nobody][1..] == []; }
    assert Granted([nobody], wildcard, [right], Some(0)) == [nobody, lapsing];
    assert lapsing in [nobody, lapsing] && Grants(lapsing, wildcard, right, 0) by { assert [right][0] == right; }
    assert !Matches(NOBODY, subject) && !Grants(lapsing, subject, right, 1);
  }

  lemma TwoSteps(clean: string -> StorePath, e0: Event, e1: Event)
    ensures Run(clean, [e0, e1]) == Step(clean, Step(clean, INIT, e0), e1)
  {
    RunAppend(clean, [], e0);
    RunAppend(clean, [e0], e1);
    assert [] + [e0] == [e0] && [e0] + [e1] == [e0, e1];
  }

  /** Every ambiguous query can be answered with another subject's permission: after a short run the cache
      allows it although no store does. */
  lemma SharedKeyIsHonoured(clean: string -> StorePath, path: string, subject: FederatedAddress, right: Right)
      returns (events: seq<Event>, clock: Clock)
    requires Writable(subject) && !Unambiguous(path, subject)
    ensures WronglyHonoured(clean, events, path, subject, right, clock)
  {
    var path', owner := AmbiguousKeyIsShared(path, subject, right);
    var changes;
    if owner.localPart == "*" {
      changes := LapsingStore(clean(path'), owner, right);
      WildcardsStore(clean, clean(path'), owner, clean(path), subject, right);
    } else {
      changes := [Created(clean(path'), owner)];
      OwnersStore(clean, clean(path'), owner, clean(path), subject, right);
    }
    HonouredAfter(clean, changes, path, subject, right, path', owner);
    events, clock := changes + [Checked(path', owner, right, Clock(0, 0, 0))], Clock(1, 1, 1);
  }

  // ---------------------------------------------------------------- one entry per subject

  predicate AllUnique(stores: map<StorePath, Store>) {
    forall p <- stores :: UniqueSubjects(stores[p].permissions)
  }

  /** After any run each store has at most one entry per subject. */
  lemma {:induction false} RunIsUnique(clean: string -> StorePath, events: seq<Event>)
    ensures AllUnique(Run(clean, events).stores)
  {
    if events != [] {
      var (front, e) := (events[..|events| - 1], events[|events| - 1]);
      RunIsUnique(clean, front);
      var stores := Run(clean, front).stores;
      if !e.Checked? && !e.TTLSet? && e.path in stores {
        var ps := stores[e.path].permissions;
        match e
        case Granting(_, subject, rights, validUntil) => GrantedKeeps(ps, subject, rights, validUntil);
        case Revoking(_, subject) => RevokedKeeps(ps, subject);
        case Transferred(_, _, newOwner) => HandedKeeps(ps, newOwner);
        case _ =>
      }
    }
  }

  /** After any run, a subject just revoked at the store that governs a path is allowed there exactly
      as far as another subject's wildcard entry allows it, whatever the cache held before. */
  lemma RevokedIsDenied(clean: string -> StorePath, events: seq<Event>, text: string, path: StorePath,
                        subject: FederatedAddress, right: Right, clock: Clock)
    requires var s := Run(clean, events);
             path in s.stores && Nearest(s.stores, clean(text)) == Some(path)
    ensures var s := Run(clean, events);
            Check(Revoke(s, path, subject), text, clean(text), subject, right, clock).1
            == WildcardGrants(s.stores[path].permissions, subject, right, clock.scan)
  {
    var s := Run(clean, events);
    NearestIsByKeys(s.stores, Revoke(s, path, subject).stores, clean(text));
    RevokeLeavesWildcards(s.stores[path].permissions, subject, right, clock.scan);
  }

  lemma {:induction false} NearestIsByKeys(a: map<StorePath, Store>, b: map<StorePath, Store>, p: StorePath)
    requires a.Keys == b.Keys
    ensures Nearest(a, p) == Nearest(b, p)
    decreases |p.names|
  {
    assert p in a <==> p in b.Keys;
    assert SLASH in a <==> SLASH in b.Keys;
    if p !in a && p.names != [] { NearestIsByKeys(a, b, Dir(p)); }
  }
}
