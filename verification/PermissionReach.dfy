/** Whom an entry reaches, said of the strings themselves, and what a check answers with an empty cache. */
module PermissionReach {
  import opened Address
  import opened CacheKeys
  import opened PermissionSpec
  import opened PermissionHistory
  import opened Strings
  import opened Wrappers

  predicate Wildcard(domain: string, d: string) {
    domain == "*." + d
  }

  predicate Within(domain: string, x: string, d: string) {
    domain == x + "." + d
  }

  /** The subject is the entry's own, or of its domain when it is for everyone there, or of a domain that ends in a dot
      and what follows `*.` in the entry's. */
  ghost predicate Reaches(entry: FederatedAddress, subject: FederatedAddress) {
    || entry == subject
    || (entry.localPart == "*" && entry.domain == subject.domain)
    || (entry.localPart == "*" && exists d, x :: Wildcard(entry.domain, d) && Within(subject.domain, x, d))
  }

  lemma SuffixIsWithin(g: string, s: string, d: string)
    requires Wildcard(g, d)
    ensures HasPrefix(g, "*.") && g[1..] == "." + d
    ensures HasSuffix(s, g[1..]) ==> Within(s, s[..|s| - |g[1..]|], d)
  {
    assert g[..2] == "*." && g[1..] == "." + d;
    if HasSuffix(s, g[1..]) {
      var x := s[..|s| - |g[1..]|];
      assert s == x + s[|s| - |g[1..]|..];
      assert x + ("." + d) == x + "." + d;
    }
  }

  lemma WithinIsSuffix(s: string, x: string, d: string)
    requires Within(s, x, d)
    ensures HasSuffix(s, "." + d)
  {
    assert s == x + ("." + d);
  }

  lemma MatchesIff(entry: FederatedAddress, subject: FederatedAddress)
    ensures Matches(entry, subject) <==> Reaches(entry, subject)
  {
    var (g, s) := (entry.domain, subject.domain);
    if HasPrefix(g, "*.") {
      assert g == "*." + g[2..] && Wildcard(g, g[2..]);
      SuffixIsWithin(g, s, g[2..]);
    }
    if d, x :| Wildcard(g, d) && Within(s, x, d) {
      SuffixIsWithin(g, s, d);
      WithinIsSuffix(s, x, d);
    }
  }

  /** An entry gives the right at the time. */
  predicate InForce(p: Permission, right: Right, now: int) {
    right in p.rights && (p.validUntil.None? || now <= p.validUntil.value)
  }

  lemma StoreAllowsIff(ps: seq<Permission>, subject: FederatedAddress, right: Right, now: int)
    ensures StoreAllows(ps, subject, right, now) <==>
              exists p <- ps :: InForce(p, right, now) && Reaches(p.subject, subject)
  {
    forall p <- ps ensures Grants(p, subject, right, now) <==> InForce(p, right, now) && Reaches(p.subject, subject) {
      MatchesIff(p.subject, subject);
    }
  }

  /** The store at `q` answers for `p`: the deepest at or above it, or `/` for a relative path below none. */
  ghost predicate AnswersFor(stores: map<StorePath, Store>, q: StorePath, p: StorePath) {
    || Governs(stores, q, p)
    || (q == SLASH && SLASH in stores && !p.absolute && forall a <- stores :: !AtOrAbove(a, p))
  }

  /** A query that the cache cannot answer is allowed exactly when the store that answers for its path has an entry in
      force that gives the right and reaches the subject. */
  lemma CheckIff(s: State, text: string, at: StorePath, subject: FederatedAddress, right: Right, clock: Clock)
    requires CacheKey(text, subject, right) !in s.cache
    ensures Check(s, text, at, subject, right, clock).1 <==>
              exists q <- s.stores :: AnswersFor(s.stores, q, at)
                && exists p <- s.stores[q].permissions :: InForce(p, right, clock.scan) && Reaches(p.subject, subject)
  {
    NearestGoverns(s.stores, at);
    var q := Nearest(s.stores, at);
    if q.Some? {
      StoreAllowsIff(s.stores[q.value].permissions, subject, right, clock.scan);
      forall r <- s.stores | AnswersFor(s.stores, r, at) ensures r == q.value { OneAnswers(s.stores, r, q.value, at); }
    }
  }

  lemma OneAnswers(stores: map<StorePath, Store>, q: StorePath, r: StorePath, p: StorePath)
    requires AnswersFor(stores, q, p) && AnswersFor(stores, r, p)
    ensures q == r
  {
  }

  // ---------------------------------------------------------------- one subject reached and one not

  const HOMES := FederatedAddress("*", "*.home.net", "")

  /** A store at `/` that lets everyone below `home.net` read. */
  function OpenToHomes(alice: FederatedAddress): seq<Event> {
    [Created(SLASH, alice), Granting(SLASH, HOMES, [Read], None)]
  }

  lemma OpenStore(clean: string -> StorePath, alice: FederatedAddress)
    requires alice != HOMES
    ensures var s := Run(clean, OpenToHomes(alice));
            && s.cache == map[] && SLASH in s.stores && Nearest(s.stores, SLASH) == Some(SLASH)
            && s.stores[SLASH].permissions == [Permission(alice, ALL_RIGHTS, None), Permission(HOMES, [Read], None)]
  {
    var mine := Permission(alice, ALL_RIGHTS, None);
    TwoSteps(clean, Created(SLASH, alice), Granting(SLASH, HOMES, [Read], None));
    assert IndexOf([mine], HOMES) == 1 by { assert [mine][1..] == []; }
    assert Granted([mine], HOMES, [Read], None) == [mine, Permission(HOMES, [Read], None)];
  }

  lemma HomeIsReached(d: string)
    ensures Reaches(HOMES, FederatedAddress("bob", d + ".home.net", ""))
  {
    assert d + ".home.net" == d + "." + "home.net" && "*.home.net" == "*." + "home.net";
    assert Wildcard("*.home.net", "home.net") && Within(d + ".home.net", d, "home.net");
  }

  lemma NoDotNoReach()
    ensures !Reaches(HOMES, FederatedAddress("eve", "evilhome.net", ""))
  {
    var (g, s) := ("*.home.net", "evilhome.net");
    assert g[1..] == ".home.net" && |g[1..]| == 9 && |s| == 12;
    assert s[3..][0] == 'l' && g[1..][0] == '.';
    assert !HasSuffix(s, g[1..]);
    MatchesIff(HOMES, FederatedAddress("eve", s, ""));
    assert g[0] == '*' && s[0] == 'e';
  }

  /** Someone of a domain below is let in, someone of a domain that merely ends alike is not. */
  lemma DotCounts(clean: string -> StorePath, alice: FederatedAddress, d: string)
    requires alice.localPart != "*" && alice != FederatedAddress("eve", "evilhome.net", "")
    ensures var s := Run(clean, OpenToHomes(alice));
            var (bob, eve) := (FederatedAddress("bob", d + ".home.net", ""), FederatedAddress("eve", "evilhome.net", ""));
            && Check(s, "/", SLASH, bob, Read, Clock(0, 0, 0)).1
            && !Check(s, "/", SLASH, eve, Read, Clock(0, 0, 0)).1
  {
    var (bob, eve) := (FederatedAddress("bob", d + ".home.net", ""), FederatedAddress("eve", "evilhome.net", ""));
    OpenStore(clean, alice);
    HomeIsReached(d);
    NoDotNoReach();
    var ps := [Permission(alice, ALL_RIGHTS, None), Permission(HOMES, [Read], None)];
    assert InForce(ps[1], Read, 0) && ps[1] in ps by { assert [Read][0] == Read; }
    StoreAllowsIff(ps, bob, Read, 0);
    StoreAllowsIff(ps, eve, Read, 0);
  }
}
