/** The permission manager: data stores on the heap, an answer cache, and a clock read by its caller. */
module Permissions {
  import opened Address
  import opened CacheKeys
  import opened PermissionHistory
  import opened PermissionSpec
  import opened Wrappers

  datatype PermissionError = AlreadyExists | NotFound | NotOwner

  class DataStore {
    const path: StorePath
    var owner: FederatedAddress
    var permissions: seq<Permission>

    constructor (path: StorePath, owner: FederatedAddress)
      ensures this.path == path && AsStore() == Store(owner, [Permission(owner, ALL_RIGHTS, None)])
    {
      this.path := path;
      this.owner := owner;
      permissions := [Permission(owner, ALL_RIGHTS, None)];
    }

    ghost function AsStore(): Store
      reads this
    {
      Store(owner, permissions)
    }
  }

  class PermissionManager {
    const clean: string -> StorePath
    var dataStores: map<StorePath, DataStore>
    var cache: map<string, CachedAnswer>
    var cacheTTL: int

    /** Each store sits under its own path, so no two paths share an object. */
    ghost predicate Valid()
      reads this`dataStores
    {
      forall p <- dataStores :: dataStores[p].path == p
    }

    ghost function Stores(): (r: map<StorePath, Store>)
      reads this`dataStores, dataStores.Values
      ensures r.Keys == dataStores.Keys
    {
      map p | p in dataStores :: dataStores[p].AsStore()
    }

    ghost function Abs(): State
      reads this, dataStores.Values
    {
      State(Stores(), cache, cacheTTL)
    }

    constructor (clean: string -> StorePath)
      ensures Valid() && Abs() == INIT && this.clean == clean && dataStores == map[]
    {
      this.clean := clean;
      dataStores, cache, cacheTTL := map[], map[], 60;
    }

    method ClearCache()
      modifies this`cache
      ensures cache == map[]
    {
      cache := map[];
    }

    method CreateDataStore(text: string, owner: FederatedAddress) returns (r: Result<(), PermissionError>)
      requires Valid()
      modifies this`dataStores, this`cache
      ensures Valid() && Abs() == Create(old(Abs()), clean(text), owner)
      ensures fresh(dataStores.Values - old(dataStores.Values))
      ensures r == if clean(text) in old(dataStores) then Failure(AlreadyExists) else Success(())
    {
      var path := clean(text);
      if path in dataStores {
        return Failure(AlreadyExists);
      }
      var ds := new DataStore(path, owner);
      dataStores := dataStores[path := ds];
      ClearCache();
      return Success(());
    }

    method GrantPermission(text: string, subject: FederatedAddress, rights: seq<Right>, validUntil: Option<int>)
        returns (r: Result<(), PermissionError>)
      requires Valid()
      modifies this`cache, dataStores.Values
      ensures Valid() && Abs() == Grant(old(Abs()), clean(text), subject, rights, validUntil)
      ensures r == if clean(text) in dataStores then Success(()) else Failure(NotFound)
    {
      var path := clean(text);
      if path !in dataStores {
        return Failure(NotFound);
      }
      var ds := dataStores[path];
      SetGrant(ds, subject, rights, validUntil);
      ClearCache();
      return Success(());
    }

    /** Rights and limit for the subject, in its entry if it has one. */
    method SetGrant(ds: DataStore, subject: FederatedAddress, rights: seq<Right>, validUntil: Option<int>)
      modifies ds`permissions
      ensures ds.permissions == Granted(old(ds.permissions), subject, rights, validUntil)
    {
      for i := 0 to |ds.permissions|
        invariant ds.permissions == old(ds.permissions)
        invariant forall j | 0 <= j < i :: ds.permissions[j].subject != subject
      {
        if ds.permissions[i].subject.Equal(subject) {
          FirstIs(ds.permissions, subject, i);
          ds.permissions := ds.permissions[i := ds.permissions[i].(rights := rights, validUntil := validUntil)];
          return;
        }
      }
      FirstIs(ds.permissions, subject, |ds.permissions|);
      ds.permissions := ds.permissions + [Permission(subject, rights, validUntil)];
    }

    method RevokePermission(text: string, subject: FederatedAddress) returns (r: Result<(), PermissionError>)
      requires Valid()
      modifies this`cache, dataStores.Values
      ensures Valid() && Abs() == Revoke(old(Abs()), clean(text), subject)
      ensures r == if clean(text) in dataStores then Success(()) else Failure(NotFound)
    {
      var path := clean(text);
      if path !in dataStores {
        return Failure(NotFound);
      }
      var ds := dataStores[path];
      var newPerms := WithoutSubject(ds.permissions, subject);
      ds.permissions := newPerms;
      ClearCache();
      return Success(());
    }

    /** The permissions of all other subjects, in order. */
    method WithoutSubject(permissions: seq<Permission>, subject: FederatedAddress) returns (newPerms: seq<Permission>)
      ensures newPerms == Revoked(permissions, subject)
    {
      newPerms := [];
      for i := 0 to |permissions|
        invariant newPerms == Revoked(permissions[..i], subject)
      {
        assert permissions[..i + 1][..i] == permissions[..i];
        if !permissions[i].subject.Equal(subject) {
          newPerms := newPerms + [permissions[i]];
        }
      }
      assert permissions[..|permissions|] == permissions;
    }

    method TransferOwnership(text: string, currentOwner: FederatedAddress, newOwner: FederatedAddress)
        returns (r: Result<(), PermissionError>)
      requires Valid()
      modifies this`cache, dataStores.Values
      ensures Valid() && Abs() == Transfer(old(Abs()), clean(text), currentOwner, newOwner)
      ensures r == if clean(text) !in dataStores then Failure(NotFound)
                   else if old(dataStores[clean(text)].owner) != currentOwner then Failure(NotOwner)
                   else Success(())
    {
      var path := clean(text);
      if path !in dataStores {
        return Failure(NotFound);
      }
      var ds := dataStores[path];
      if !ds.owner.Equal(currentOwner) {
        return Failure(NotOwner);
      }
      ds.owner := newOwner;
      Hand(ds, newOwner);
      ClearCache();
      return Success(());
    }

    /** All rights for the new owner, in its entry if it has one. */
    method Hand(ds: DataStore, newOwner: FederatedAddress)
      modifies ds`permissions
      ensures ds.permissions == Handed(old(ds.permissions), newOwner)
    {
      var hasNewOwnerPerm := false;
      var i := 0;
      while i < |ds.permissions| && !hasNewOwnerPerm
        invariant 0 <= i <= |ds.permissions|
        invariant if hasNewOwnerPerm then ds.permissions == Handed(old(ds.permissions), newOwner)
                  else && ds.permissions == old(ds.permissions)
                       && forall j | 0 <= j < i :: ds.permissions[j].subject != newOwner
        decreases |ds.permissions| - i, !hasNewOwnerPerm
      {
        if ds.permissions[i].subject.Equal(newOwner) {
          FirstIs(ds.permissions, newOwner, i);
          ds.permissions := ds.permissions[i := ds.permissions[i].(rights := ALL_RIGHTS)];
          hasNewOwnerPerm := true;
        } else {
          i := i + 1;
        }
      }
      if !hasNewOwnerPerm {
        FirstIs(ds.permissions, newOwner, i);
        ds.permissions := ds.permissions + [Permission(newOwner, ALL_RIGHTS, None)];
      }
    }

    method SetCacheTTL(ttl: int)
      modifies this`cacheTTL, this`cache
      ensures Abs() == SetTTL(old(Abs()), ttl)
    {
      cacheTTL := ttl;
      ClearCache();
    }

    /** The store at the path or its deepest ancestor that has one, and `/` if none has. */
    method FindDataStore(path: StorePath) returns (ds: DataStore?)
      ensures ds == var q := Nearest(Stores(), path); if q.None? then null else dataStores[q.value]
    {
      if path in dataStores {
        return dataStores[path];
      }
      var parent := path;
      while parent != SLASH && parent.names != []
        invariant parent !in dataStores && Nearest(Stores(), parent) == Nearest(Stores(), path)
        decreases |parent.names|
      {
        parent := Dir(parent);
        if parent in dataStores {
          return dataStores[parent];
        }
      }
      if SLASH in dataStores {
        return dataStores[SLASH];
      }
      return null;
    }

    /** The first permission of the store that grants the right. */
    method CheckDataStorePermission(ds: DataStore, subject: FederatedAddress, right: Right, now: int)
        returns (allowed: bool, rights: seq<Right>)
      ensures allowed <==> StoreAllows(ds.permissions, subject, right, now)
      ensures var k := FirstGrant(ds.permissions, subject, right, now);
              k <= |ds.permissions| && rights == if k < |ds.permissions| then ds.permissions[k].rights else []
    {
      for i := 0 to |ds.permissions|
        invariant forall j | 0 <= j < i :: !Grants(ds.permissions[j], subject, right, now)
      {
        var perm := ds.permissions[i];
        if perm.validUntil.None? || now <= perm.validUntil.value {
          if Matches(perm.subject, subject) {
            for j := 0 to |perm.rights|
              invariant forall m | 0 <= m < j :: perm.rights[m] != right
            {
              if perm.rights[j] == right {
                FirstGrantIs(ds.permissions, subject, right, now, i);
                return true, perm.rights;
              }
            }
          }
        }
      }
      FirstGrantIs(ds.permissions, subject, right, now, |ds.permissions|);
      return false, [];
    }

    method UpdateCache(key: string, allowed: bool, rights: seq<Right>, now: int)
      modifies this`cache
      ensures cache == old(cache)[key := CachedAnswer(allowed, rights, now + cacheTTL)]
    {
      cache := cache[key := CachedAnswer(allowed, rights, now + cacheTTL)];
    }

    method CheckPermission(text: string, subject: FederatedAddress, right: Right, clock: Clock) returns (allowed: bool)
      modifies this`cache
      ensures (Abs(), allowed) == Check(old(Abs()), text, clean(text), subject, right, clock)
    {
      var key := CacheKey(text, subject, right);
      if key in cache {
        if clock.lookup < cache[key].expiresAt {
          return cache[key].allowed;
        }
      }
      var rights;
      allowed, rights := Decide(clean(text), subject, right, clock.scan);
      UpdateCache(key, allowed, rights, clock.update);
    }

    /** The uncached check. */
    method Decide(path: StorePath, subject: FederatedAddress, right: Right, now: int)
        returns (allowed: bool, rights: seq<Right>)
      ensures (allowed, rights) == Verdict(Stores(), path, subject, right, now)
    {
      var ds := FindDataStore(path);
      if ds == null {
        return false, [];
      }
      allowed, rights := CheckDataStorePermission(ds, subject, right, now);
    }
  }

  /** `write` gives the event's path as a text that `clean` reads back. */
  predicate Writes(clean: string -> StorePath, e: Event, write: StorePath -> string) {
    e.Checked? || e.TTLSet? || clean(write(e.path)) == e.path
  }

  /** Performs one event of a run. */
  method Perform(m: PermissionManager, e: Event, write: StorePath -> string)
    requires m.Valid() && Writes(m.clean, e, write)
    modifies m, m.dataStores.Values
    ensures m.Valid() && fresh(m.dataStores.Values - old(m.dataStores.Values))
    ensures m.Abs() == Step(m.clean, old(m.Abs()), e)
  {
    match e
    case Created(path, owner) => var _ := m.CreateDataStore(write(path), owner);
    case Granting(path, subject, rights, validUntil) =>
      var _ := m.GrantPermission(write(path), subject, rights, validUntil);
    case Revoking(path, subject) => var _ := m.RevokePermission(write(path), subject);
    case Transferred(path, currentOwner, newOwner) =>
      var _ := m.TransferOwnership(write(path), currentOwner, newOwner);
    case TTLSet(ttl) => m.SetCacheTTL(ttl);
    case Checked(text, subject, right, clock) => var _ := m.CheckPermission(text, subject, right, clock);
  }

  /** A new manager performing a run ends in the state the run ends in. */
  method PerformAll(clean: string -> StorePath, events: seq<Event>, write: StorePath -> string)
    returns (m: PermissionManager)
    requires forall e <- events :: Writes(clean, e, write)
    ensures fresh(m) && fresh(m.dataStores.Values)
    ensures m.Valid() && m.clean == clean && m.Abs() == Run(clean, events)
  {
    if events == [] {
      m := new PermissionManager(clean);
    } else {
      m := PerformAll(clean, events[..|events| - 1], write);
      Perform(m, events[|events| - 1], write);
    }
  }

  lemma {:induction false} FirstIs(ps: seq<Permission>, subject: FederatedAddress, k: nat)
    requires k <= |ps| && forall j | 0 <= j < k :: ps[j].subject != subject
    requires k < |ps| ==> ps[k].subject == subject
    ensures IndexOf(ps, subject) == k
  {
    var i := IndexOf(ps, subject);
    assert i < |ps| ==> ps[i].subject == subject;
  }

  lemma FirstGrantIs(ps: seq<Permission>, subject: FederatedAddress, right: Right, now: int, k: nat)
    requires k <= |ps| && forall j | 0 <= j < k :: !Grants(ps[j], subject, right, now)
    requires k < |ps| ==> Grants(ps[k], subject, right, now)
    ensures FirstGrant(ps, subject, right, now) == k
  {
    var i := FirstGrant(ps, subject, right, now);
    assert i < |ps| ==> Grants(ps[i], subject, right, now);
  }
}
