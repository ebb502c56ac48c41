/**
  Byte strings as the driver manipulates them: octets, their running sum,
  and Python's `bytes.replace`.
 */
module ByteSeq {

  /** One octet on the serial line: the integer that indexing Python `bytes` gives. */
  newtype Byte = x: int | 0 <= x < 256

  type Bytes = seq<Byte>

  /** The sum of the octets as unbounded integers, as the driver's `for` loops accumulate it. */
  function Sum(s: Bytes): (n: nat)
    ensures n <= 255 * |s|
  {
    if s == [] then 0 else Sum(s[..|s| - 1]) + s[|s| - 1] as int
  }

  lemma {:induction false} SumAppend(a: Bytes, b: Bytes)
    ensures Sum(a + b) == Sum(a) + Sum(b)
    decreases |b|
  {
    if b == [] {
      assert a + b == a;
    } else {
      var c := b[..|b| - 1];
      assert (a + b)[..|a + b| - 1] == a + c;
      SumAppend(a, c);
    }
  }

  /**
    `s.replace(pattern, replacement)` for a non-empty pattern: scanning from the
    left, every occurrence of `pattern` that does not overlap an earlier
    replaced one is replaced; replaced output is never scanned again.
   */
  function Replace(s: Bytes, pattern: Bytes, replacement: Bytes): Bytes
    requires pattern != []
    decreases |s|
  {
    if |s| < |pattern| then s
    else if s[..|pattern|] == pattern then replacement + Replace(s[|pattern|..], pattern, replacement)
    else [s[0]] + Replace(s[1..], pattern, replacement)
  }

  /** Replacing a single byte commutes with concatenation. */
  lemma {:induction false} ReplaceByteAppend(a: Bytes, b: Bytes, pattern: Bytes, replacement: Bytes)
    requires |pattern| == 1
    ensures Replace(a + b, pattern, replacement)
         == Replace(a, pattern, replacement) + Replace(b, pattern, replacement)
    decreases |a|
  {
    if a == [] {
      assert a + b == b;
    } else {
      assert (a + b)[..1] == a[..1];
      assert (a + b)[1..] == a[1..] + b;
      ReplaceByteAppend(a[1..], b, pattern, replacement);
    }
  }

  /** One step of the scan on at least two bytes: the head is replaced, or kept. */
  lemma ReplacePairHead(s: Bytes, pattern: Bytes, replacement: Bytes)
    requires |pattern| == 2 && |s| >= 2
    ensures var k := if s[..2] == pattern then 2 else 1;
      Replace(s, pattern, replacement)
        == (if k == 2 then replacement else [s[0]]) + Replace(s[k..], pattern, replacement)
  {
  }

  /** A single byte other than the pattern's first one is kept in front of anything. */
  lemma ReplacePairKeep(c: Byte, b: Bytes, pattern: Bytes, replacement: Bytes)
    requires |pattern| == 2 && c != pattern[0]
    ensures Replace([c] + b, pattern, replacement) == [c] + Replace(b, pattern, replacement)
  {
    var cb := [c] + b;
    assert cb[1..] == b;
    if |cb| >= 2 {
      assert cb[..2] != pattern by { assert cb[..2][0] == c; }
    } else {
      assert b == [];
    }
  }

  /**
    Replacing a two-byte pattern commutes with concatenation when no
    occurrence can straddle the cut: `a` does not end in the pattern's first byte.
   */
  lemma {:induction false} ReplacePairAppend(a: Bytes, b: Bytes, pattern: Bytes, replacement: Bytes)
    requires |pattern| == 2
    requires a == [] || a[|a| - 1] != pattern[0]
    ensures Replace(a + b, pattern, replacement)
         == Replace(a, pattern, replacement) + Replace(b, pattern, replacement)
    decreases |a|
  {
    if a == [] {
      assert a + b == b;
    } else if |a| == 1 {
      assert a == [a[0]];
      ReplacePairKeep(a[0], b, pattern, replacement);
      ReplacePairKeep(a[0], [], pattern, replacement);
      assert [a[0]] + [] == a;
    } else {
      var ab := a + b;
      var k := if a[..2] == pattern then 2 else 1;
      var rest := a[k..];
      assert rest != [] ==> rest[|rest| - 1] == a[|a| - 1];
      ReplacePairAppend(rest, b, pattern, replacement);
      assert ab[..2] == a[..2];
      assert ab[0] == a[0];
      assert ab[k..] == rest + b;
      ReplacePairHead(ab, pattern, replacement);
      ReplacePairHead(a, pattern, replacement);
    }
  }

  /** A pattern whose first byte does not occur leaves the string as it is. */
  lemma {:induction false} ReplaceAbsent(s: Bytes, pattern: Bytes, replacement: Bytes)
    requires pattern != []
    requires forall i :: 0 <= i < |s| ==> s[i] != pattern[0]
    ensures Replace(s, pattern, replacement) == s
    decreases |s|
  {
    if |s| >= |pattern| {
      assert s[..|pattern|] != pattern by { assert s[..|pattern|][0] == s[0]; }
      ReplaceAbsent(s[1..], pattern, replacement);
      assert [s[0]] + s[1..] == s;
    }
  }

  lemma ReplaceByteSingleton(c: Byte, pattern: Bytes, replacement: Bytes)
    requires |pattern| == 1
    ensures Replace([c], pattern, replacement) == if c == pattern[0] then replacement else [c]
  {
    assert [c][..1] == [c];
    assert [c][1..] == [];
  }

  /** On at most two bytes, a two-byte pattern is replaced only if it is the whole string. */
  lemma ReplacePairShort(s: Bytes, pattern: Bytes, replacement: Bytes)
    requires |pattern| == 2 && |s| <= 2
    ensures Replace(s, pattern, replacement) == if s == pattern then replacement else s
  {
    if |s| == 2 {
      assert s[..2] == s;
      assert s[2..] == [];
      assert [s[0]] + s[1..] == s;
    }
  }
}
