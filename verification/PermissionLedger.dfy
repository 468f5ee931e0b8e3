/** Who owns a store, who has an entry in it and how long answers are kept, told from the events of a run alone. */
module PermissionLedger {
  import opened Address
  import opened CacheKeys
  import opened PermissionSpec
  import opened PermissionHistory
  import opened PermissionReach
  import opened Wrappers

  datatype Held = Held(rights: seq<Right>, validUntil: Option<int>)

  /** The owner after one more event: the first to create the store, and then whoever its owner hands it to. */
  function OwnerNext(owner: Option<FederatedAddress>, e: Event, path: StorePath): Option<FederatedAddress> {
    match e
    case Created(q, o) => if q == path && owner.None? then Some(o) else owner
    case Transferred(q, current, next) => if q == path && owner == Some(current) then Some(next) else owner
    case _ => owner
  }

  /** What the store holds for the subject then: everything when it becomes the owner, with a time limit from before, or
      the last grant, unless revoked. */
  function HeldNext(owner: Option<FederatedAddress>, held: Option<Held>, e: Event, path: StorePath,
                    subject: FederatedAddress): Option<Held>
  {
    match e
    case Created(q, o) => if q == path && owner.None? && o == subject then Some(Held(ALL_RIGHTS, None)) else held
    case Granting(q, who, rights, until) =>
      if q == path && owner.Some? && who == subject then Some(Held(rights, until)) else held
    case Revoking(q, who) => if q == path && who == subject then None else held
    case Transferred(q, current, next) =>
      if q == path && owner == Some(current) && next == subject
      then Some(Held(ALL_RIGHTS, if held.Some? then held.value.validUntil else None)) else held
    case _ => held
  }

  function OwnerAfter(events: seq<Event>, path: StorePath): Option<FederatedAddress> {
    if events == [] then None
    else OwnerNext(OwnerAfter(events[..|events| - 1], path), events[|events| - 1], path)
  }

  function HeldAfter(events: seq<Event>, path: StorePath, subject: FederatedAddress): Option<Held> {
    if events == [] then None
    else
      var front := events[..|events| - 1];
      HeldNext(OwnerAfter(front, path), HeldAfter(front, path, subject), events[|events| - 1], path, subject)
  }

  function TTLAfter(events: seq<Event>): int {
    if events == [] then 60
    else if events[|events| - 1].TTLSet? then events[|events| - 1].ttl
    else TTLAfter(events[..|events| - 1])
  }

  /** The subject's entry, if there is one, is what is held. */
  ghost predicate EntryIs(ps: seq<Permission>, subject: FederatedAddress, held: Option<Held>) {
    forall rights, until :: Permission(subject, rights, until) in ps <==> held == Some(Held(rights, until))
  }

  ghost predicate StoreAgrees(stores: map<StorePath, Store>, path: StorePath, subject: FederatedAddress,
                              owner: Option<FederatedAddress>, held: Option<Held>)
  {
    if path in stores
    then owner == Some(stores[path].owner) && EntryIs(stores[path].permissions, subject, held)
    else owner.None? && held.None?
  }

  lemma LimitIs(ps: seq<Permission>, subject: FederatedAddress, held: Option<Held>)
    requires EntryIs(ps, subject, held)
    ensures LimitOf(ps, subject) == if held.Some? then held.value.validUntil else None
  {
    var k := IndexOf(ps, subject);
    if held.Some? { assert Permission(subject, held.value.rights, held.value.validUntil) in ps; }
    if k < |ps| { assert ps[k] == Permission(subject, ps[k].rights, ps[k].validUntil) && ps[k] in ps; }
  }

  lemma GrantAgrees(ps: seq<Permission>, subject: FederatedAddress, held: Option<Held>, who: FederatedAddress,
                    rights: seq<Right>, until: Option<int>)
    requires UniqueSubjects(ps) && EntryIs(ps, subject, held)
    ensures EntryIs(Granted(ps, who, rights, until), subject, if who == subject then Some(Held(rights, until)) else held)
  {
    GrantedKeeps(ps, who, rights, until);
  }

  lemma RevokeAgrees(ps: seq<Permission>, subject: FederatedAddress, held: Option<Held>, who: FederatedAddress)
    requires EntryIs(ps, subject, held)
    ensures EntryIs(Revoked(ps, who), subject, if who == subject then None else held)
  {
    RevokedKeeps(ps, who);
  }

  lemma TransferAgrees(ps: seq<Permission>, subject: FederatedAddress, held: Option<Held>, next: FederatedAddress)
    requires UniqueSubjects(ps) && EntryIs(ps, subject, held)
    ensures EntryIs(Handed(ps, next), subject,
                    if next == subject then Some(Held(ALL_RIGHTS, if held.Some? then held.value.validUntil else None))
                    else held)
  {
    HandedKeeps(ps, next);
    if next == subject { LimitIs(ps, subject, held); }
  }

  /** After any run a store exists, has its owner and holds for a subject what the events say. */
  lemma {:induction false} RunIsTold(clean: string -> StorePath, events: seq<Event>, path: StorePath,
                                     subject: FederatedAddress)
    ensures StoreAgrees(Run(clean, events).stores, path, subject, OwnerAfter(events, path),
                        HeldAfter(events, path, subject))
    ensures Run(clean, events).ttl == TTLAfter(events)
  {
    if events != [] {
      var (front, e) := (events[..|events| - 1], events[|events| - 1]);
      RunIsTold(clean, front, path, subject);
      RunIsUnique(clean, front);
      StepIsTold(clean, Run(clean, front), e, path, subject, OwnerAfter(front, path), HeldAfter(front, path, subject));
    }
  }

  lemma StepIsTold(clean: string -> StorePath, s: State, e: Event, path: StorePath, subject: FederatedAddress,
                   owner: Option<FederatedAddress>, held: Option<Held>)
    requires AllUnique(s.stores) && StoreAgrees(s.stores, path, subject, owner, held)
    ensures StoreAgrees(Step(clean, s, e).stores, path, subject, OwnerNext(owner, e, path),
                        HeldNext(owner, held, e, path, subject))
    ensures Step(clean, s, e).ttl == if e.TTLSet? then e.ttl else s.ttl
  {
    if !e.Checked? && !e.TTLSet? && e.path == path && path in s.stores {
      var ps := s.stores[path].permissions;
      match e
      case Granting(_, who, rights, until) => GrantAgrees(ps, subject, held, who, rights, until);
      case Revoking(_, who) => RevokeAgrees(ps, subject, held, who);
      case Transferred(_, _, next) => TransferAgrees(ps, subject, held, next);
      case _ =>
    }
  }

  /** What the store holds for `entry` gives the subject the right at the time. */
  ghost predicate HoldsRight(events: seq<Event>, path: StorePath, entry: FederatedAddress, subject: FederatedAddress,
                             right: Right, now: int)
  {
    var held := HeldAfter(events, path, entry);
    && held.Some? && Reaches(entry, subject)
    && right in held.value.rights && (held.value.validUntil.None? || now <= held.value.validUntil.value)
  }

  /** After any run the store at `path` allows a subject exactly when it holds, for an address that reaches the subject,
      the right in time. */
  lemma StoreAfterRunAllowsIff(clean: string -> StorePath, events: seq<Event>, path: StorePath,
                               subject: FederatedAddress, right: Right, now: int)
    requires path in Run(clean, events).stores
    ensures StoreAllows(Run(clean, events).stores[path].permissions, subject, right, now) <==>
              exists entry :: HoldsRight(events, path, entry, subject, right, now)
  {
    var ps := Run(clean, events).stores[path].permissions;
    StoreAllowsIff(ps, subject, right, now);
    if p :| p in ps && InForce(p, right, now) && Reaches(p.subject, subject) {
      RunIsTold(clean, events, path, p.subject);
      assert p == Permission(p.subject, p.rights, p.validUntil);
      assert HoldsRight(events, path, p.subject, subject, right, now);
    }
    if entry :| HoldsRight(events, path, entry, subject, right, now) {
      RunIsTold(clean, events, path, entry);
      var held := HeldAfter(events, path, entry).value;
      var p := Permission(entry, held.rights, held.validUntil);
      assert p in ps && InForce(p, right, now);
    }
  }

  // ---------------------------------------------------------------- cached answers

  /** The event changes something, and so empties the cache. */
  predicate TakesEffect(front: seq<Event>, e: Event) {
    match e
    case Created(q, _) => OwnerAfter(front, q).None?
    case Granting(q, _, _, _) => OwnerAfter(front, q).Some?
    case Revoking(q, _) => OwnerAfter(front, q).Some?
    case Transferred(q, current, _) => OwnerAfter(front, q) == Some(current)
    case TTLSet(_) => true
    case Checked(_, _, _, _) => false
  }

  datatype Kept = Kept(answer: bool, until: int)

  predicate InTime(kept: Option<Kept>, now: int) {
    kept.Some? && now < kept.value.until
  }

  /** The answer kept under a key: of the first check with that key since the cache was emptied or the last one's time
      was over. */
  ghost function KeptAfter(clean: string -> StorePath, events: seq<Event>, key: string): Option<Kept> {
    if events == [] then None
    else
      var (front, e) := (events[..|events| - 1], events[|events| - 1]);
      var kept := KeptAfter(clean, front, key);
      match e
      case Checked(text, subject, right, clock) =>
        if CacheKey(text, subject, right) != key || InTime(kept, clock.lookup) then kept
        else Some(Kept(Allowed(Run(clean, front).stores, clean(text), subject, right, clock.scan),
                       clock.update + TTLAfter(front)))
      case _ => if TakesEffect(front, e) then None else kept
  }

  predicate CacheAgrees(cache: map<string, CachedAnswer>, key: string, kept: Option<Kept>) {
    if key in cache then kept == Some(Kept(cache[key].allowed, cache[key].expiresAt)) else kept.None?
  }

  lemma ChangeAgrees(clean: string -> StorePath, events: seq<Event>, e: Event)
    requires !e.Checked?
    ensures var s := Run(clean, events);
            Step(clean, s, e).cache == if TakesEffect(events, e) then map[] else s.cache
  {
    var nobody := FederatedAddress("", "", "");
    if !e.TTLSet? { RunIsTold(clean, events, e.path, nobody); }
  }

  lemma CheckAgrees(clean: string -> StorePath, s: State, e: Event, key: string, kept: Option<Kept>)
    requires e.Checked? && CacheAgrees(s.cache, key, kept)
    ensures var own := CacheKey(e.text, e.subject, e.right) == key;
            CacheAgrees(Step(clean, s, e).cache, key,
              if !own || InTime(kept, e.clock.lookup) then kept
              else Some(Kept(Allowed(s.stores, clean(e.text), e.subject, e.right, e.clock.scan), e.clock.update + s.ttl)))
  {
  }

  /** After any run the cache holds what the events say. */
  lemma {:induction false} CacheIsTold(clean: string -> StorePath, events: seq<Event>, key: string)
    ensures CacheAgrees(Run(clean, events).cache, key, KeptAfter(clean, events, key))
  {
    if events != [] {
      var (front, e) := (events[..|events| - 1], events[|events| - 1]);
      CacheIsTold(clean, front, key);
      if e.Checked? {
        RunIsTold(clean, front, SLASH, e.subject);
        CheckAgrees(clean, Run(clean, front), e, key, KeptAfter(clean, front, key));
      } else {
        ChangeAgrees(clean, front, e);
      }
    }
  }

  /** A check after any run gives the answer kept for its key while that is in time, and a fresh one from then on. */
  lemma AnswerIsTold(clean: string -> StorePath, events: seq<Event>, text: string, subject: FederatedAddress,
                     right: Right, clock: Clock)
    ensures var (s, kept) := (Run(clean, events), KeptAfter(clean, events, CacheKey(text, subject, right)));
            Check(s, text, clean(text), subject, right, clock).1 ==
              if InTime(kept, clock.lookup) then kept.value.answer
              else Allowed(s.stores, clean(text), subject, right, clock.scan)
  {
    CacheIsTold(clean, events, CacheKey(text, subject, right));
  }
}
