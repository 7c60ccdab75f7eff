/** The key-array codec: a big-endian count followed by NUL-terminated keys. */
module Codec {
  import opened CString

  const INT_MAX := 0x7FFF_FFFF

  /** `htonl`: the four bytes of an int, most significant first. */
  function BigEndian(n: int): (b: seq<Byte>)
    requires 0 <= n <= INT_MAX
    ensures |b| == 4
  {
    [n / 0x100_0000, n / 0x1_0000 % 0x100, n / 0x100 % 0x100, n % 0x100]
  }

  /** `ntohl`, for the counts a non-negative int can hold */
  function FromBigEndian(b: seq<Byte>): int
    requires |b| == 4
  {
    var b0: int, b1: int, b2: int, b3: int := b[0], b[1], b[2], b[3];
    b0 * 0x100_0000 + b1 * 0x1_0000 + b2 * 0x100 + b3
  }

  lemma CountRoundTrip(n: int)
    requires 0 <= n <= INT_MAX
    ensures FromBigEndian(BigEndian(n)) == n
  {
    var n1, n2, n3 := n / 0x100, n / 0x1_0000, n / 0x100_0000;
    assert n == n1 * 0x100 + n % 0x100;
    assert n1 == n2 * 0x100 + n1 % 0x100;
    assert n2 == n3 * 0x100 + n2 % 0x100;
  }

  /** The count goes out most significant byte first. */
  lemma CountOnTheWire(n: int)
    requires 0 <= n <= INT_MAX
    ensures var b := BigEndian(n);
            var b0: int, b1: int, b2: int, b3: int := b[0], b[1], b[2], b[3];
            b0 * 0x100_0000 + b1 * 0x1_0000 + b2 * 0x100 + b3 == n
  {
    CountRoundTrip(n);
  }

  function EncodeKeys(keys: seq<Key>): seq<Byte> {
    if keys == [] then [] else EncodeKeys(keys[..|keys| - 1]) + keys[|keys| - 1] + [0]
  }

  function Encode(keys: seq<Key>): seq<Byte>
    requires |keys| <= INT_MAX
  {
    BigEndian(|keys|) + EncodeKeys(keys)
  }

  /** The sum of the key lengths, each with its terminator. */
  function TextSize(keys: seq<Key>): nat {
    if keys == [] then 0 else TextSize(keys[..|keys| - 1]) + |keys[|keys| - 1]| + 1
  }

  lemma {:induction false} EncodedSize(keys: seq<Key>)
    ensures |EncodeKeys(keys)| == TextSize(keys) >= |keys|
  {
    if keys != [] {
      EncodedSize(keys[..|keys| - 1]);
    }
  }

  /** Where the i-th key stands in the encoding. */
  lemma {:induction false} KeyPosition(keys: seq<Key>, i: nat)
    requires i < |keys|
    ensures TextSize(keys[..i]) + |keys[i]| + 1 == TextSize(keys[..i + 1]) <= |EncodeKeys(keys)|
    ensures forall j :: 0 <= j < |keys[i]| ==> EncodeKeys(keys)[TextSize(keys[..i]) + j] == keys[i][j]
    ensures EncodeKeys(keys)[TextSize(keys[..i]) + |keys[i]|] == 0
  {
    var n := |keys| - 1;
    var before := keys[..n];
    EncodedSize(keys);
    EncodedSize(before);
    assert keys[..i + 1][..i] == keys[..i];
    if i == n {
      assert keys[..i + 1] == keys;
    } else {
      KeyPosition(before, i);
      assert before[..i] == keys[..i] && before[..i + 1] == keys[..i + 1];
    }
  }

  // ---------- The two loops ----------

  ghost predicate Terminated(a: seq<Option<Key>>, keys: seq<Key>) {
    && |a| > |keys| && a[|keys|] == None
    && forall i :: 0 <= i < |keys| ==> a[i] == Some(keys[i])
  }

  /** `strcpy` */
  method StrCpy(buffer: array<Byte>, at: int, key: Key)
    requires 0 <= at && at + |key| < buffer.Length
    modifies buffer
    ensures buffer[..at + |key| + 1] == old(buffer[..at]) + key + [0]
    ensures buffer[at + |key| + 1..] == old(buffer[at + |key| + 1..])
  {
    for n := 0 to |key|
      invariant forall j :: 0 <= j < buffer.Length ==>
                  buffer[j] == if at <= j < at + n then key[j - at] else old(buffer[j])
    {
      buffer[at + n] := key[n];
    }
    buffer[at + |key|] := 0;
  }

  /** The text from a position up to the next NUL. */
  function TextAt(b: seq<Byte>, at: nat): Key
    decreases |b| - at
  {
    if at >= |b| || b[at] == 0 then [] else [b[at]] + TextAt(b, at + 1)
  }

  lemma {:induction false} TextIs(b: seq<Byte>, at: nat, key: Key)
    requires at + |key| < |b| && b[at + |key|] == 0
    requires forall j :: 0 <= j < |key| ==> b[at + j] == key[j]
    ensures TextAt(b, at) == key
    decreases |key|
  {
    if key != [] {
      assert b[at + 0] == key[0];
      forall j | 0 <= j < |key[1..]| ensures b[at + 1 + j] == key[1..][j] {
        assert b[at + (j + 1)] == key[j + 1];
      }
      TextIs(b, at + 1, key[1..]);
    }
  }

  /** `strdup`: the text from a position up to the next NUL. */
  method StrDup(buffer: array<Byte>, at: int, ghost key: Key) returns (text: Key)
    requires 0 <= at && at + |key| < buffer.Length
    requires buffer[at + |key|] == 0 && forall j :: 0 <= j < |key| ==> buffer[at + j] == key[j]
    ensures text == key
  {
    text := [];
    while buffer[at + |text|] != 0
      invariant |text| <= |key| && text == key[..|text|]
      decreases |key| - |text|
    {
      var c: Char := buffer[at + |text|];
      text := text + [c];
    }
    TextIs(buffer[..], at, key);
    TextIs(buffer[..], at, text);
  }

  /** The counting loop: the number of keys, and the bytes their encoding takes. */
  method Measure(keys: array<Option<Key>>, ghost listed: seq<Key>) returns (nkeys: int, size: int)
    requires Terminated(keys[..], listed)
    ensures nkeys == |listed| && size == 4 + TextSize(listed)
  {
    ghost var given := keys[..];
    nkeys, size := 0, 4;
    while keys[nkeys] != None
      invariant 0 <= nkeys <= |listed| && keys[nkeys] == given[nkeys]
      invariant size == 4 + TextSize(listed[..nkeys])
      decreases |listed| - nkeys
    {
      assert listed[..nkeys + 1][..nkeys] == listed[..nkeys];
      size := size + |keys[nkeys].value| + 1;
      nkeys := nkeys + 1;
    }
    assert listed[..nkeys] == listed;
  }

  lemma NoKeys()
    ensures EncodeKeys([]) == [] && TextSize([]) == 0
  {
  }

  /** The encoding grows key by key. */
  lemma EncodePrefix(keys: seq<Key>, i: nat)
    requires i < |keys|
    ensures EncodeKeys(keys[..i + 1]) == EncodeKeys(keys[..i]) + keys[i] + [0]
    ensures TextSize(keys[..i]) + |keys[i]| + 1 == TextSize(keys[..i + 1]) <= TextSize(keys)
  {
    KeyPosition(keys, i);
    EncodedSize(keys);
    assert keys[..i + 1][..i] == keys[..i];
  }

  /** The copying loop: the keys go behind the count, one after the other. */
  method CopyKeys(keys: array<Option<Key>>, nkeys: int, buffer: array<Byte>, ghost listed: seq<Key>)
    requires Terminated(keys[..], listed) && nkeys == |listed|
    requires buffer.Length == 4 + TextSize(listed)
    modifies buffer
    ensures buffer[..] == old(buffer[..4]) + EncodeKeys(listed)
  {
    hide EncodeKeys, TextSize;
    ghost var given, count := keys[..], buffer[..4];
    var at := 4;
    NoKeys();
    assert listed[..0] == [];
    for i := 0 to nkeys
      invariant at == 4 + TextSize(listed[..i]) <= buffer.Length
      invariant keys[..] == given
      invariant buffer[..at] == count + EncodeKeys(listed[..i])
    {
      EncodePrefix(listed, i);
      assert keys[i] == given[i] == Some(listed[i]);
      ghost var before := buffer[..at];
      StrCpy(buffer, at, keys[i].value);
      at := at + |keys[i].value| + 1;
      assert buffer[..at] == before + listed[i] + [0];
    }
    assert listed[..nkeys] == listed && buffer[..at] == buffer[..];
  }

  /** `keyArray_to_buffer`, for arrays whose encoding an int can measure */
  method KeyArrayToBuffer(keys: array<Option<Key>>, ghost listed: seq<Key>) returns (size: int, buffer: array<Byte>)
    requires Terminated(keys[..], listed)
    requires 4 + TextSize(listed) <= INT_MAX
    ensures fresh(buffer) && size == buffer.Length == 4 + TextSize(listed)
    ensures |listed| <= INT_MAX && buffer[..] == Encode(listed)
    ensures var b0: int, b1: int, b2: int, b3: int := buffer[0], buffer[1], buffer[2], buffer[3];
            b0 * 0x100_0000 + b1 * 0x1_0000 + b2 * 0x100 + b3 == |listed|
  {
    EncodedSize(listed);
    CountOnTheWire(|listed|);
    var nkeys;
    nkeys, size := Measure(keys, listed);
    buffer := new Byte[size](_ => 0);
    var count := BigEndian(nkeys);
    buffer[0], buffer[1], buffer[2], buffer[3] := count[0], count[1], count[2], count[3];
    assert buffer[..4] == count;
    CopyKeys(keys, nkeys, buffer, listed);
    assert forall j :: 0 <= j < 4 ==> buffer[..][j] == count[j];
  }

  /** `buffer_to_keyArray` inverts `keyArray_to_buffer`, whatever follows in the buffer. */
  method BufferToKeyArray(buffer: array<Byte>, ghost listed: seq<Key>, ghost trailing: seq<Byte>)
    returns (keys: array<Option<Key>>)
    requires |listed| <= INT_MAX && buffer[..] == Encode(listed) + trailing
    ensures fresh(keys) && keys.Length == |listed| + 1 && Terminated(keys[..], listed)
  {
    hide Encode, EncodeKeys, BigEndian, FromBigEndian;
    ghost var whole, text := buffer[..], EncodeKeys(listed);
    Layout(whole, listed, trailing);
    CountRoundTrip(|listed|);
    var nkeys := FromBigEndian([buffer[0], buffer[1], buffer[2], buffer[3]]);
    var at := 4;
    keys := new Option<Key>[nkeys + 1](_ => None);
    for i := 0 to nkeys
      invariant at == 4 + TextSize(listed[..i])
      invariant forall j :: 0 <= j < keys.Length ==> keys[j] == if j < i then Some(listed[j]) else None
    {
      KeyInBuffer(whole, listed, trailing, i);
      assert buffer[..] == whole;
      var key := StrDup(buffer, at, listed[i]);
      keys[i] := Some(key);
      at := at + |key| + 1;
    }
  }

  lemma Layout(whole: seq<Byte>, listed: seq<Key>, trailing: seq<Byte>)
    requires |listed| <= INT_MAX && whole == Encode(listed) + trailing
    ensures |whole| >= 4 && [whole[0], whole[1], whole[2], whole[3]] == BigEndian(|listed|)
  {
  }

  /** The i-th key inside a buffer that starts with an encoding. */
  lemma KeyInBuffer(whole: seq<Byte>, listed: seq<Key>, trailing: seq<Byte>, i: nat)
    requires |listed| <= INT_MAX && whole == Encode(listed) + trailing && i < |listed|
    ensures var at := 4 + TextSize(listed[..i]);
            && at + |listed[i]| < |whole| && whole[at + |listed[i]|] == 0
            && (forall j :: 0 <= j < |listed[i]| ==> whole[at + j] == listed[i][j])
            && at + |listed[i]| + 1 == 4 + TextSize(listed[..i + 1])
  {
    hide EncodeKeys, TextSize, BigEndian;
    var text, start := EncodeKeys(listed), TextSize(listed[..i]);
    KeyPosition(listed, i);
    assert whole == BigEndian(|listed|) + text + trailing;
    forall j | 0 <= j < |listed[i]| ensures whole[4 + start + j] == listed[i][j] {
      assert whole[4 + start + j] == text[start + j];
    }
  }

  // ---------- No two key arrays share an encoding ----------

  /** A buffer that starts with the encodings of two key arrays tells them to be the same. */
  lemma EncodingIsUnambiguous(a: seq<Key>, b: seq<Key>, s: seq<Byte>, t: seq<Byte>)
    requires |a| <= INT_MAX && |b| <= INT_MAX
    requires Encode(a) + s == Encode(b) + t
    ensures a == b && s == t
  {
    var whole := Encode(a) + s;
    assert whole[..4] == BigEndian(|a|) && whole[..4] == BigEndian(|b|);
    CountRoundTrip(|a|);
    CountRoundTrip(|b|);
    assert whole[4..] == EncodeKeys(a) + s && whole[4..] == EncodeKeys(b) + t;
    SameKeys(a, b, EncodeKeys(a) + s, |a|);
    assert a == a[..|a|] == b[..|a|] == b;
    assert s == whole[|Encode(a)|..] == t;
  }

  lemma {:induction false} SameKeys(a: seq<Key>, b: seq<Key>, whole: seq<Byte>, n: nat)
    requires n <= |a| == |b|
    requires EncodeKeys(a) <= whole && EncodeKeys(b) <= whole
    ensures a[..n] == b[..n]
  {
    if n > 0 {
      var i := n - 1;
      SameKeys(a, b, whole, i);
      KeyPosition(a, i);
      KeyPosition(b, i);
      var at := TextSize(a[..i]);
      TextIs(whole, at, a[i]);
      TextIs(whole, at, b[i]);
      assert a[..n] == a[..i] + [a[i]] && b[..n] == b[..i] + [b[i]];
    }
  }
}
