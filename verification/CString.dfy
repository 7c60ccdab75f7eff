/** C strings as the repository uses them: `strcmp` order and the hash of a key.
    A key is the text of a NUL-terminated string, so no character of it is zero. */
module CString {

  type Byte = b: int | 0 <= b < 256

  type Char = c: int | 0 < c < 256 witness 1

  type Key = seq<Char>

  datatype Option<+T> = None | Some(value: T)

  // ---------- strcmp ----------

  /** The sign of `strcmp`, which compares characters as unsigned char. */
  function StrCmp(a: Key, b: Key): int {
    if a == [] || b == [] then
      if a == b then 0 else if a == [] then -1 else 1
    else if a[0] != b[0] then
      if a[0] < b[0] then -1 else 1
    else
      StrCmp(a[1..], b[1..])
  }

  predicate Less(a: Key, b: Key) {
    StrCmp(a, b) < 0
  }

  /** `strcmp` answers 0 for equal strings only, and swapping its arguments flips its sign. */
  lemma {:induction false} StrCmpSign(a: Key, b: Key)
    ensures StrCmp(a, b) == 0 <==> a == b
    ensures StrCmp(a, b) == -StrCmp(b, a)
    ensures -1 <= StrCmp(a, b) <= 1
  {
    if a != [] && b != [] && a[0] == b[0] {
      StrCmpSign(a[1..], b[1..]);
      assert a == [a[0]] + a[1..] && b == [b[0]] + b[1..];
    }
  }

  lemma {:induction false} LessTransitive(a: Key, b: Key, c: Key)
    requires Less(a, b) && Less(b, c)
    ensures Less(a, c)
  {
    if a != [] && b != [] && c != [] && a[0] == b[0] == c[0] {
      LessTransitive(a[1..], b[1..], c[1..]);
    }
  }

  /** What `strcmp` order is by its definition: at the first position where two strings differ,
      the end of a string counts as smaller than any character. */
  lemma {:induction false} LessMeansFirstDifference(a: Key, b: Key)
    ensures Less(a, b) <==>
            exists n: nat :: n <= |a| && n < |b| && a[..n] == b[..n] && (n == |a| || a[n] < b[n])
  {
    if a == [] || b == [] {
      if a == [] && b != [] { assert a[..0] == b[..0]; }
    } else if a[0] != b[0] {
      if a[0] < b[0] { assert a[..0] == b[..0]; }
      forall n: nat | 0 < n <= |a| && n < |b| ensures a[..n] != b[..n] {
        assert a[..n][0] != b[..n][0];
      }
    } else {
      var a', b' := a[1..], b[1..];
      LessMeansFirstDifference(a', b');
      if Less(a', b') {
        var n: nat :| n <= |a'| && n < |b'| && a'[..n] == b'[..n] && (n == |a'| || a'[n] < b'[n]);
        assert a[..n + 1] == [a[0]] + a'[..n] == [b[0]] + b'[..n] == b[..n + 1];
      }
      if n: nat :| n <= |a| && n < |b| && a[..n] == b[..n] && (n == |a| || a[n] < b[n]) {
        if n > 0 {
          assert a'[..n - 1] == a[..n][1..] == b[..n][1..] == b'[..n - 1];
        }
      }
    }
  }

  // ---------- hash_code ----------

  /** Plain `char` is signed on the platforms the makefile targets. */
  function SignedChar(c: Char): int {
    if c < 128 then c else c - 256
  }

  function CharSum(key: Key): int {
    if key == [] then 0 else CharSum(key[..|key| - 1]) + SignedChar(key[|key| - 1])
  }

  /** C's `%` truncates toward zero. */
  function TruncatedRemainder(a: int, m: int): int
    requires m > 0
  {
    if a >= 0 then a % m else -((-a) % m)
  }

  function HashCode(key: Key, rows: int): int
    requires rows > 0
  {
    TruncatedRemainder(CharSum(key), rows)
  }

  method ComputeHashCode(key: Key, rows: int) returns (h: int)
    requires rows > 0
    ensures h == HashCode(key, rows)
  {
    var index, sum := 0, 0;
    while index < |key|
      invariant 0 <= index <= |key|
      invariant sum == CharSum(key[..index])
    {
      assert key[..index + 1][..index] == key[..index];
      sum := sum + SignedChar(key[index]);
      index := index + 1;
    }
    assert key[..index] == key;
    if sum >= 0 {
      h := sum % rows;
    } else {
      h := -((-sum) % rows);
    }
  }

  /** The remainder that C's `%` leaves: smaller than the divisor, and not of the other sign than the dividend. */
  lemma TruncatedRemainderIs(a: int, m: int, q: int, r: int)
    requires -m < r < m && a == q * m + r
    requires (a > 0 ==> r >= 0) && (a < 0 ==> r <= 0) && (a == 0 ==> r == 0)
    ensures TruncatedRemainder(a, m) == r
  {
    if a >= 0 {
      RemainderUnique(a, m, q, r);
    } else {
      assert -a == (-q) * m - r;
      RemainderUnique(-a, m, -q, -r);
    }
  }

  /** The sum of a text is that of its parts. */
  lemma {:induction false} CharSumAdds(a: Key, b: Key)
    ensures CharSum(a + b) == CharSum(a) + CharSum(b)
  {
    if b == [] {
      assert a + b == a;
    } else {
      var p := b[..|b| - 1];
      assert (a + b)[..|a + b| - 1] == a + p;
      CharSumAdds(a, p);
    }
  }

  /** A 7-bit character counts as itself and any other as 256 less, wherever it stands. */
  lemma CharCounts(a: Key, c: Char, b: Key)
    ensures CharSum(a + [c] + b) == CharSum(a + b) + if c <= 127 then c else c - 256
  {
    CharSumAdds(a + [c], b);
    CharSumAdds(a, [c]);
    CharSumAdds(a, b);
    assert CharSum([c]) == CharSum([c][..0]) + SignedChar(c);
    assert [c][..0] == [];
  }

  /** The next character raises the sum by one, but lowers it by 255 from 127 to 128. */
  lemma NextChar(a: Key, c: Char, b: Key)
    requires c < 255
    ensures CharSum(a + [c + 1] + b) == CharSum(a + [c] + b) + if c == 127 then -255 else 1
  {
    CharCounts(a, c, b);
    CharCounts(a, c + 1, b);
  }

  /** A key of one 7-bit character hashes to the remainder of its code. */
  lemma HashOfOne(c: Char, rows: int)
    requires c < 128 && rows > 0
    ensures HashCode([c], rows) == c % rows
  {
    CharCounts([], c, []);
    assert [] + [c] + [] == [c];
  }

  /** The keys whose hash is a usable row number of a table with that many rows. */
  predicate Hashable(key: Key, rows: int)
    requires rows > 0
  {
    CharSum(key) >= 0 || CharSum(key) % rows == 0
  }

  /** `hash_code` answers a row of the table for exactly the hashable keys. */
  lemma HashInRangeExactly(key: Key, rows: int)
    requires rows > 0
    ensures 0 <= HashCode(key, rows) < rows <==> Hashable(key, rows)
  {
    var s := CharSum(key);
    if s < 0 {
      NegatedMultiple(s, rows);
    }
  }

  lemma NegatedMultiple(s: int, m: int)
    requires m > 0
    ensures (-s) % m == 0 <==> s % m == 0
  {
    var q, r := s / m, s % m;
    assert s == q * m + r;
    if r == 0 {
      assert -s == (-q) * m;
      RemainderUnique(-s, m, -q, 0);
    } else {
      assert -s == (-q - 1) * m + (m - r);
      RemainderUnique(-s, m, -q - 1, m - r);
    }
  }

  lemma RemainderUnique(a: int, m: int, q: int, r: int)
    requires 0 <= r < m && a == q * m + r
    ensures a % m == r
  {
    var q', r' := a / m, a % m;
    assert (q - q') * m == r' - r;
    MultipleBounds(q - q', m);
  }

  lemma MultipleBounds(d: int, m: int)
    requires m > 0
    ensures d >= 1 ==> d * m >= m
    ensures d <= -1 ==> d * m <= -m
  {
  }

  /** A key is usable on tables of every size exactly when its signed characters do not sum below zero. */
  lemma HashableEverywhereExactly(key: Key)
    ensures (forall rows: int :: rows > 0 ==> Hashable(key, rows)) <==> CharSum(key) >= 0
  {
    var s := CharSum(key);
    if s < 0 {
      var rows := -s + 1;
      RemainderUnique(s, rows, -1, 1);
      assert !Hashable(key, rows);
    }
  }

  lemma {:induction false} AsciiKeysAreHashable(key: Key, rows: int)
    requires rows > 0
    requires forall i :: 0 <= i < |key| ==> key[i] < 128
    ensures Hashable(key, rows)
    ensures CharSum(key) >= 0
  {
    if key != [] {
      AsciiKeysAreHashable(key[..|key| - 1], rows);
    }
  }

  /** A two-byte UTF-8 letter (U+00E9, bytes C3 A9) sums to -148 and falls outside a table of three rows. */
  lemma NonAsciiKeyCanMissTheTable()
    ensures HashCode([0xC3, 0xA9], 3) == -1
    ensures !Hashable([0xC3, 0xA9], 3)
  {
    var k: Key := [0xC3, 0xA9];
    assert k[..1] == [0xC3] && k[..1][..0] == [];
    assert CharSum(k) == CharSum(k[..1]) + SignedChar(0xA9);
    assert CharSum(k[..1]) == SignedChar(0xC3);
  }

  /** The running sum stays a 32-bit int for every key below 2^24 characters. */
  lemma {:induction false} CharSumFitsInt(key: Key)
    ensures -128 * |key| <= CharSum(key) <= 127 * |key|
    ensures |key| < 0x100_0000 ==> -0x8000_0000 <= CharSum(key) < 0x8000_0000
  {
    if key != [] {
      CharSumFitsInt(key[..|key| - 1]);
    }
  }
}
