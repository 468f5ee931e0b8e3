/** Invite codes (the URL-safe alphabet of RFC 4648, section 5) and the links that carry them. */
module InviteCodes {
  import opened Strings
  import opened Types
  import opened Wrappers

  type Sextet = x: int | 0 <= x < 64

  function Symbol(n: Sextet): char {
    if n < 26 then 'A' + n as char
    else if n < 52 then 'a' + (n - 26) as char
    else if n < 62 then '0' + (n - 52) as char
    else if n == 62 then '-'
    else '_'
  }

  function Value(c: char): Sextet {
    if 'A' <= c <= 'Z' then (c - 'A') as int
    else if 'a' <= c <= 'z' then (c - 'a') as int + 26
    else if '0' <= c <= '9' then (c - '0') as int + 52
    else if c == '-' then 62
    else 63
  }

  lemma ValueOfSymbol(n: Sextet)
    ensures Value(Symbol(n)) == n && Symbol(n) != '/' && Symbol(n) != '='
  {
  }

  /** Three bytes as four symbols. */
  function Quad(a: Byte, b: Byte, c: Byte): (s: string)
    ensures |s| == 4
  {
    var v := a * 65536 + b * 256 + c;
    [Symbol(v / 262144), Symbol(v / 4096 % 64), Symbol(v / 64 % 64), Symbol(v % 64)]
  }

  function Triple(s: string): seq<Byte>
    requires |s| == 4
  {
    var v := Value(s[0]) * 262144 + Value(s[1]) * 4096 + Value(s[2]) * 64 + Value(s[3]);
    [v / 65536, v / 256 % 256, v % 256]
  }

  lemma SextetsOf(v: int)
    requires 0 <= v < 16777216
    ensures v / 262144 * 262144 + v / 4096 % 64 * 4096 + v / 64 % 64 * 64 + v % 64 == v
  {
    assert v / 64 / 64 == v / 4096 && v / 4096 / 64 == v / 262144;
  }

  lemma BytesOf(a: Byte, b: Byte, c: Byte)
    ensures var v := a * 65536 + b * 256 + c; v / 65536 == a && v / 256 % 256 == b && v % 256 == c
  {
    var v := a * 65536 + b * 256 + c;
    assert v / 256 == a * 256 + b;
  }

  lemma TripleOfQuad(a: Byte, b: Byte, c: Byte)
    ensures Triple(Quad(a, b, c)) == [a, b, c]
    ensures '/' !in Quad(a, b, c)
  {
    var v := a * 65536 + b * 256 + c;
    var w, x, y, z: Sextet := v / 262144, v / 4096 % 64, v / 64 % 64, v % 64;
    SextetsOf(v);
    BytesOf(a, b, c);
    ValueOfSymbol(w);
    ValueOfSymbol(x);
    ValueOfSymbol(y);
    ValueOfSymbol(z);
    assert Quad(a, b, c) == [Symbol(w), Symbol(x), Symbol(y), Symbol(z)];
  }

  /** Encoding of the whole groups of three bytes; twelve bytes leave nothing to pad. */
  function Encode(bytes: seq<Byte>): string {
    if |bytes| < 3 then "" else Quad(bytes[0], bytes[1], bytes[2]) + Encode(bytes[3..])
  }

  function Decode(s: string): seq<Byte> {
    if |s| < 4 then [] else Triple(s[..4]) + Decode(s[4..])
  }

  lemma {:induction false} EncodeShape(bytes: seq<Byte>, n: nat)
    requires |bytes| == 3 * n
    ensures |Encode(bytes)| == 4 * n && '/' !in Encode(bytes)
  {
    if n > 0 {
      TripleOfQuad(bytes[0], bytes[1], bytes[2]);
      EncodeShape(bytes[3..], n - 1);
    }
  }

  lemma DecodeStep(q: string, rest: string)
    requires |q| == 4
    ensures Decode(q + rest) == Triple(q) + Decode(rest)
  {
    assert (q + rest)[..4] == q && (q + rest)[4..] == rest;
  }

  /** Encoding loses nothing. */
  lemma {:induction false} DecodeEncode(bytes: seq<Byte>, n: nat)
    requires |bytes| == 3 * n
    ensures Decode(Encode(bytes)) == bytes
  {
    if n > 0 {
      TripleOfQuad(bytes[0], bytes[1], bytes[2]);
      DecodeEncode(bytes[3..], n - 1);
      DecodeStep(Quad(bytes[0], bytes[1], bytes[2]), Encode(bytes[3..]));
    }
  }

  /** The code of twelve random bytes. */
  function InviteCodeOf(random: seq<Byte>): (code: string)
    requires |random| == 12
    ensures |code| == 16
  {
    EncodeShape(random, 4);
    Encode(random)[..16]
  }

  /** Different bytes give different codes, none with a slash. */
  lemma CodesAreDistinct(a: seq<Byte>, b: seq<Byte>)
    requires |a| == 12 && |b| == 12
    ensures InviteCodeOf(a) == InviteCodeOf(b) <==> a == b
    ensures '/' !in InviteCodeOf(a)
  {
    EncodeShape(a, 4);
    EncodeShape(b, 4);
    DecodeEncode(a, 4);
    DecodeEncode(b, 4);
    assert Encode(a)[..16] == Encode(a) && Encode(b)[..16] == Encode(b);
  }

  // ---------------------------------------------------------------- share links

  const PREFIX := "collective://join/"

  function FormatShareURL(coordinator: string, code: string): string {
    PREFIX + coordinator + "/" + code
  }

  function ParseShareURL(url: string): Option<(string, string)> {
    if !HasPrefix(url, PREFIX) then None
    else
      var parts := Split(url[|PREFIX|..], '/');
      if |parts| != 2 then None else Some((parts[0], parts[1]))
  }

  /** A link parses to a coordinator and a code exactly when it is their link and neither has a slash. */
  lemma ParseIffFormat(url: string, coordinator: string, code: string)
    ensures ParseShareURL(url) == Some((coordinator, code)) <==>
              url == FormatShareURL(coordinator, code) && '/' !in coordinator && '/' !in code
  {
    if HasPrefix(url, PREFIX) {
      var rest := url[|PREFIX|..];
      SplitInTwo(rest, '/', coordinator, code);
      assert url == PREFIX + rest;
      assert FormatShareURL(coordinator, code) == PREFIX + (coordinator + "/" + code);
      assert PREFIX + rest == PREFIX + (coordinator + "/" + code) ==> rest == coordinator + "/" + code by {
        assert (PREFIX + (coordinator + "/" + code))[|PREFIX|..] == coordinator + "/" + code;
      }
      if |Split(rest, '/')| == 2 {
        assert Split(rest, '/') == [Split(rest, '/')[0], Split(rest, '/')[1]];
      }
    }
  }

  /** The link of a generated code parses back exactly when the coordinator's address has no slash. */
  lemma GeneratedLinkRoundTrips(coordinator: string, random: seq<Byte>)
    requires |random| == 12
    ensures ParseShareURL(FormatShareURL(coordinator, InviteCodeOf(random))) == Some((coordinator, InviteCodeOf(random)))
            <==> '/' !in coordinator
  {
    CodesAreDistinct(random, random);
    ParseIffFormat(FormatShareURL(coordinator, InviteCodeOf(random)), coordinator, InviteCodeOf(random));
  }
}
