/** Identifiers of streamed chunks: the path with its slashes replaced, and the chunk's number. */
module ChunkIDs {
  import opened Strings

  /** `s` with each slash replaced by an underscore. */
  function Underscored(s: string): (r: string)
    ensures |r| == |s| && forall i | 0 <= i < |s| :: r[i] == if s[i] == '/' then '_' else s[i]
  {
    seq(|s|, i requires 0 <= i < |s| => if s[i] == '/' then '_' else s[i])
  }

  function Digit(d: nat): (c: char)
    requires d < 10
    ensures c != '-'
  {
    "0123456789"[d]
  }

  function Decimal(n: nat): (s: string)
    ensures '-' !in s && |s| >= 1 && (|s| == 1 <==> n < 10)
  {
    if n < 10 then [Digit(n)] else Decimal(n / 10) + [Digit(n % 10)]
  }

  lemma DigitIsInjective(a: nat, b: nat)
    requires a < 10 && b < 10 && Digit(a) == Digit(b)
    ensures a == b
  {
  }

  lemma {:induction false} DecimalIsInjective(m: nat, n: nat)
    requires Decimal(m) == Decimal(n)
    ensures m == n
  {
    var a, b := Decimal(m), Decimal(n);
    assert a[|a| - 1] == Digit(m % 10) && b[|b| - 1] == Digit(n % 10);
    DigitIsInjective(m % 10, n % 10);
    if m >= 10 {
      assert a[..|a| - 1] == Decimal(m / 10) && b[..|b| - 1] == Decimal(n / 10);
      DecimalIsInjective(m / 10, n / 10);
    }
  }

  function ChunkIDOf(path: string, index: nat): string {
    Underscored(path) + "-chunk-" + Decimal(index)
  }

  /** Chunks share an identifier exactly when they have the same number and the paths of their files
      differ in nothing but slashes and underscores. */
  lemma SameIDIff(path: string, index: nat, path': string, index': nat)
    ensures ChunkIDOf(path, index) == ChunkIDOf(path', index') <==>
              index == index' && Underscored(path) == Underscored(path')
  {
    if ChunkIDOf(path, index) == ChunkIDOf(path', index') {
      var a, b := Underscored(path) + "-chunk", Underscored(path') + "-chunk";
      assert ChunkIDOf(path, index) == a + "-" + Decimal(index);
      assert ChunkIDOf(path', index') == b + "-" + Decimal(index');
      LastSeparator(a, Decimal(index), b, Decimal(index'), '-');
      DecimalIsInjective(index, index');
      assert a[..|a| - 6] == Underscored(path) && b[..|b| - 6] == Underscored(path');
    }
  }

  /** Files in different directories can share all their chunk identifiers. */
  lemma PathsCollide(index: nat)
    ensures ChunkIDOf("/a/b", index) == ChunkIDOf("/a_b", index)
  {
    assert Underscored("/a/b") == Underscored("/a_b") == "_a_b";
  }
}
