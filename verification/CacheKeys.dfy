/** The colon-joined string under which a permission answer is cached, and when it names one query. */
module CacheKeys {
  import opened Address
  import opened Strings

  datatype Right = Read | Write | Delete | Share

  function RightText(r: Right): string {
    match r
    case Read => "READ"
    case Write => "WRITE"
    case Delete => "DELETE"
    case Share => "SHARE"
  }

  function CacheKey(path: string, subject: FederatedAddress, right: Right): string {
    path + ":" + ToString(subject) + ":" + RightText(right)
  }

  /** No colon of the path could begin an address, and no colon of the identifier leaves one behind. */
  predicate Unambiguous(path: string, subject: FederatedAddress) {
    var id := subject.GetIdentifier();
    && (forall i | 0 <= i < |path| && path[i] == ':' :: '@' in path[i + 1..])
    && (forall i | 0 <= i < |id| && id[i] == ':' :: id[i + 1..] == "" || id[i + 1..] == "/")
  }

  /** The writable address with this identifier and domain. */
  function Named(id: string, domain: string): FederatedAddress {
    if HasPrefix(id, "/") then FederatedAddress("", domain, id) else FederatedAddress(id, domain, "")
  }

  lemma NamedIsWritable(id: string, domain: string)
    requires id != "" && id != "/" && '@' !in id && '@' !in domain && '.' in domain
    ensures Writable(Named(id, domain)) && ToString(Named(id, domain)) == id + "@" + domain
  {
  }

  lemma WritableIsNamed(a: FederatedAddress)
    requires Writable(a)
    ensures a == Named(a.GetIdentifier(), a.domain) && ToString(a) == a.GetIdentifier() + "@" + a.domain
    ensures a.GetIdentifier() != "" && a.GetIdentifier() != "/" && '@' !in a.GetIdentifier()
  {
  }

  /** Keys are equal exactly when the rights and the path-and-address halves are. */
  lemma KeyHalves(p1: string, s1: FederatedAddress, r1: Right, p2: string, s2: FederatedAddress, r2: Right)
    ensures CacheKey(p1, s1, r1) == CacheKey(p2, s2, r2) <==>
              r1 == r2 && p1 + ":" + ToString(s1) == p2 + ":" + ToString(s2)
  {
    var h1, h2 := p1 + ":" + ToString(s1), p2 + ":" + ToString(s2);
    if CacheKey(p1, s1, r1) == CacheKey(p2, s2, r2) {
      LastSeparator(h1, RightText(r1), h2, RightText(r2), ':');
    }
  }

  /** Where the text of an address splits at a colon so that the rest is again an address, the
      colon lies in the identifier. */
  lemma AddressInside(a: FederatedAddress, n: nat, b: FederatedAddress)
    requires Writable(a) && Writable(b) && n <= |ToString(a)| && ToString(a)[n..] == ToString(b)
    ensures n < |a.GetIdentifier()| && a.GetIdentifier()[n..] == b.GetIdentifier()
  {
    WritableIsNamed(a);
    WritableIsNamed(b);
    var (s, id, m) := (ToString(a), a.GetIdentifier(), n + |b.GetIdentifier()|);
    assert s[m] == ToString(b)[|b.GetIdentifier()|] == '@';
    assert forall k | 0 <= k < |id| :: s[k] == id[k] != '@';
    assert forall k | |id| < k < |s| :: s[k] == a.domain[k - |id| - 1] != '@';
    assert m == |id|;
    assert id[n..] == s[n..m] == ToString(b)[..m - n] == b.GetIdentifier();
  }

  /** Two queries whose keys agree with the colon at different places are both ambiguous. */
  lemma Overlap(path: string, subject: FederatedAddress, path': string, subject': FederatedAddress)
    requires Writable(subject) && Writable(subject') && |path| < |path'|
    requires path + ":" + ToString(subject) == path' + ":" + ToString(subject')
    ensures !Unambiguous(path, subject) && !Unambiguous(path', subject')
  {
    var s, s', n := ToString(subject), ToString(subject'), |path'| - |path|;
    var whole := path + ":" + s;
    assert whole == path' + ":" + s' && whole[|path|] == ':' && whole[|path'|] == ':';
    assert s[n..] == whole[|path'| + 1..] == s';
    AddressInside(subject, n, subject');
    WritableIsNamed(subject);
    WritableIsNamed(subject');
    var id := subject.GetIdentifier();
    assert id[n - 1] == s[n - 1] == whole[|path'|];
    assert path'[|path|] == whole[|path|];
    assert path'[|path| + 1..] == whole[|path| + 1..|path'|] == s[..n - 1] == id[..n - 1];
  }

  /** The key of an unambiguous query is the key of no other. */
  lemma KeyIsUnique(path: string, subject: FederatedAddress, right: Right,
                    path': string, subject': FederatedAddress, right': Right)
    requires Writable(subject) && Writable(subject') && Unambiguous(path, subject)
    requires CacheKey(path, subject, right) == CacheKey(path', subject', right')
    ensures path' == path && subject' == subject && right' == right
  {
    KeyHalves(path, subject, right, path', subject', right');
    if |path| != |path'| {
      if |path| < |path'| { Overlap(path, subject, path', subject'); } else { Overlap(path', subject', path, subject); }
      assert false;
    }
    var whole := path + ":" + ToString(subject);
    assert whole[..|path|] == path && whole[..|path'|] == path';
    assert whole[|path| + 1..] == ToString(subject) && whole[|path'| + 1..] == ToString(subject');
    PrintIsInjective(subject, subject');
  }

  lemma AmbiguousPath(path: string, subject: FederatedAddress, i: nat)
      returns (path': string, subject': FederatedAddress)
    requires Writable(subject) && i < |path| && path[i] == ':' && '@' !in path[i + 1..]
    ensures Writable(subject') && path' != path && path + ":" + ToString(subject) == path' + ":" + ToString(subject')
    ensures subject' != subject
  {
    WritableIsNamed(subject);
    var id, rest := subject.GetIdentifier(), path[i + 1..];
    var id' := rest + ":" + id;
    assert id'[|rest|] == ':';
    path', subject' := path[..i], Named(id', subject.domain);
    assert '@' !in id' && id' != "/";
    NamedIsWritable(id', subject.domain);
    assert path == path' + ":" + rest;
    Regroup(path', rest, id + "@" + subject.domain);
    assert id' + "@" + subject.domain == rest + ":" + (id + "@" + subject.domain);
  }

  lemma AmbiguousIdentifier(path: string, subject: FederatedAddress, i: nat)
      returns (path': string, subject': FederatedAddress)
    requires Writable(subject) && i < |subject.GetIdentifier()| && subject.GetIdentifier()[i] == ':'
    requires subject.GetIdentifier()[i + 1..] != "" && subject.GetIdentifier()[i + 1..] != "/"
    ensures Writable(subject') && path' != path && path + ":" + ToString(subject) == path' + ":" + ToString(subject')
    ensures subject' != subject
  {
    WritableIsNamed(subject);
    var id := subject.GetIdentifier();
    var rest := id[i + 1..];
    path', subject' := path + ":" + id[..i], Named(rest, subject.domain);
    NamedIsWritable(rest, subject.domain);
    assert id == id[..i] + ":" + rest;
    Regroup(path, id[..i], rest + "@" + subject.domain);
    assert id + "@" + subject.domain == id[..i] + ":" + (rest + "@" + subject.domain);
  }

  lemma Regroup(a: string, b: string, c: string)
    ensures (a + ":" + b) + ":" + c == a + ":" + (b + ":" + c)
  {
  }

  /** The path and address of another query that read the same with a colon between. */
  lemma AmbiguousHalf(path: string, subject: FederatedAddress) returns (path': string, subject': FederatedAddress)
    requires Writable(subject) && !Unambiguous(path, subject)
    ensures Writable(subject') && path' != path && path + ":" + ToString(subject) == path' + ":" + ToString(subject')
    ensures subject' != subject
  {
    var id := subject.GetIdentifier();
    if i :| 0 <= i < |path| && path[i] == ':' && '@' !in path[i + 1..] {
      path', subject' := AmbiguousPath(path, subject, i);
    } else {
      var i :| 0 <= i < |id| && id[i] == ':' && id[i + 1..] != "" && id[i + 1..] != "/";
      path', subject' := AmbiguousIdentifier(path, subject, i);
    }
  }

  /** An ambiguous query shares its key with another one, by another subject. */
  lemma AmbiguousKeyIsShared(path: string, subject: FederatedAddress, right: Right)
      returns (path': string, subject': FederatedAddress)
    requires Writable(subject) && !Unambiguous(path, subject)
    ensures Writable(subject') && path' != path && CacheKey(path', subject', right) == CacheKey(path, subject, right)
    ensures subject' != subject
  {
    path', subject' := AmbiguousHalf(path, subject);
    KeyHalves(path, subject, right, path', subject', right);
  }

  /** A query has its cache key to itself exactly when it is unambiguous. */
  lemma KeyIsUniqueIff(path: string, subject: FederatedAddress, right: Right)
    requires Writable(subject)
    ensures Unambiguous(path, subject) <==>
              forall p, s, r {:trigger CacheKey(p, s, r)} ::
                Writable(s) && CacheKey(p, s, r) == CacheKey(path, subject, right) ==>
                  p == path && s == subject && r == right
  {
    if Unambiguous(path, subject) {
      forall p, s, r | Writable(s) && CacheKey(p, s, r) == CacheKey(path, subject, right)
        ensures p == path && s == subject && r == right
      {
        KeyIsUnique(path, subject, right, p, s, r);
      }
    } else {
      var p, s := AmbiguousKeyIsShared(path, subject, right);
    }
  }
}
