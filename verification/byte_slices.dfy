/**
  Go's `bytes.Trim(s, "\x00")`: strip every zero byte from both ends of a
  byte slice. Go performs the right-hand pass first and then the left-hand
  pass; interior zero bytes are kept. When every byte is zero the result is
  empty (Go returns nil, which the model does not distinguish from empty).
 */
module ByteSlices {
  import opened LittleEndian

  /** Drops trailing zero bytes; the result is a prefix of `s`. */
  function TrimRightZeros(s: seq<byte>): (r: seq<byte>)
    ensures r <= s
    ensures forall i :: |r| <= i < |s| ==> s[i] == 0
    ensures |r| > 0 ==> r[|r| - 1] != 0
  {
    if |s| > 0 && s[|s| - 1] == 0 then TrimRightZeros(s[..|s| - 1]) else s
  }

  /** Drops leading zero bytes; the result is a suffix of `s`. */
  function TrimLeftZeros(s: seq<byte>): (r: seq<byte>)
    ensures |r| <= |s| && r == s[|s| - |r|..]
    ensures forall i :: 0 <= i < |s| - |r| ==> s[i] == 0
    ensures |r| > 0 ==> r[0] != 0
  {
    if |s| > 0 && s[0] == 0 then TrimLeftZeros(s[1..]) else s
  }

  /**
    `r` is what is left of `s` after removing `lo` zero bytes at the front and
    every byte from `lo + |r|` on, all of which are zero, with nothing but
    non-zero bytes at the ends of `r`.
   */
  ghost predicate ZeroTrimAt(s: seq<byte>, lo: nat, r: seq<byte>)
  {
    && lo + |r| <= |s|
    && r == s[lo..lo + |r|]
    && (forall i :: 0 <= i < lo ==> s[i] == 0)
    && (forall i :: lo + |r| <= i < |s| ==> s[i] == 0)
    && (|r| > 0 ==> r[0] != 0 && r[|r| - 1] != 0)
  }

  ghost predicate IsZeroTrimOf(r: seq<byte>, s: seq<byte>)
  {
    exists lo: nat :: ZeroTrimAt(s, lo, r)
  }

  /** `bytes.Trim(s, "\x00")`. */
  function TrimZeros(s: seq<byte>): (r: seq<byte>)
    ensures IsZeroTrimOf(r, s)
    ensures |r| <= |s|
    ensures r == [] <==> forall i :: 0 <= i < |s| ==> s[i] == 0
  {
    var right := TrimRightZeros(s);
    var r := TrimLeftZeros(right);
    TrimRightLeft(s, right, r);
    ZeroTrimEmpty(s, r);
    r
  }

  /**
    What the two passes promise, put together: a prefix ending in a non-zero
    byte followed by zeros, then a suffix of it starting with a non-zero byte
    after zeros, is a zero-trim.
   */
  lemma TrimRightLeft(s: seq<byte>, right: seq<byte>, r: seq<byte>)
    requires right <= s
    requires forall i :: |right| <= i < |s| ==> s[i] == 0
    requires |right| > 0 ==> right[|right| - 1] != 0
    requires |r| <= |right| && r == right[|right| - |r|..]
    requires forall i :: 0 <= i < |right| - |r| ==> right[i] == 0
    requires |r| > 0 ==> r[0] != 0
    ensures ZeroTrimAt(s, |right| - |r|, r)
  {
    var lo := |right| - |r|;
    assert r == s[lo..lo + |r|];
    forall i | 0 <= i < lo
      ensures s[i] == 0
    {
      assert s[i] == right[i];
    }
    if |r| > 0 {
      assert r[|r| - 1] == right[|right| - 1];
    }
  }

  /** A zero-trim is empty exactly when every byte is zero. */
  lemma ZeroTrimEmpty(s: seq<byte>, r: seq<byte>)
    requires IsZeroTrimOf(r, s)
    ensures r == [] <==> forall i :: 0 <= i < |s| ==> s[i] == 0
  {
    var lo: nat :| ZeroTrimAt(s, lo, r);
    if r != [] {
      assert s[lo] == r[0];
    }
  }

  /** Two zero-trims of the same sequence are equal. */
  lemma ZeroTrimsEqual(s: seq<byte>, r: seq<byte>, t: seq<byte>)
    requires IsZeroTrimOf(r, s) && IsZeroTrimOf(t, s)
    ensures r == t
  {
    var lo: nat :| ZeroTrimAt(s, lo, r);
    var lo': nat :| ZeroTrimAt(s, lo', t);
    ZeroTrimEmpty(s, r);
    ZeroTrimEmpty(s, t);
    if r != [] {
      // both start at the first non-zero byte and end after the last one
      assert t != [];
      assert s[lo] == r[0] && s[lo'] == t[0];
      assert lo == lo';
      assert s[lo + |r| - 1] == r[|r| - 1] && s[lo' + |t| - 1] == t[|t| - 1];
      assert |r| == |t|;
    }
  }

  /** A zero-trim of `s` is unique: `TrimZeros` is the only one. */
  lemma ZeroTrimUnique(s: seq<byte>, r: seq<byte>)
    requires IsZeroTrimOf(r, s)
    ensures r == TrimZeros(s)
  {
    ZeroTrimsEqual(s, r, TrimZeros(s));
  }

  /** Trimming twice is trimming once. */
  lemma TrimZerosIdempotent(s: seq<byte>)
    ensures TrimZeros(TrimZeros(s)) == TrimZeros(s)
  {
    var r := TrimZeros(s);
    assert ZeroTrimAt(r, 0, r);
    ZeroTrimUnique(r, r);
  }

  /**
    A payload whose first and last bytes are non-zero, padded with zero bytes
    on either side, comes back unchanged, interior zero bytes included.
   */
  lemma TrimZerosPadded(before: nat, payload: seq<byte>, after: nat)
    requires |payload| > 0 ==> payload[0] != 0 && payload[|payload| - 1] != 0
    ensures TrimZeros(Zeros(before) + payload + Zeros(after)) == payload
  {
    var s := Zeros(before) + payload + Zeros(after);
    if payload == [] {
      assert ZeroTrimAt(s, 0, payload);
    } else {
      assert s[before..before + |payload|] == payload;
      assert ZeroTrimAt(s, before, payload);
    }
    ZeroTrimUnique(s, payload);
  }

  function Zeros(n: nat): (z: seq<byte>)
    ensures |z| == n && forall i :: 0 <= i < n ==> z[i] == 0
  {
    seq(n, _ => 0)
  }
}
