/** The iterator primitives every read is built from: `Iterator::next`,
    itermore's `next_array`, `take`, `take_while`, and the little-endian
    `from_le_bytes` conversions. The iterator is modelled by the bytes it has
    yet to yield, so a read returns its value together with that remainder. */
module Cursor {
  import opened Prelude

  /** A value read from the stream and the stream after the read. */
  datatype Parsed<+T> = Parsed(value: T, rest: Bytes)

  /** `Iterator::next`: the first byte, or `None` once the input is exhausted. */
  function Next(s: Bytes): (r: Option<Parsed<uint8>>)
    ensures r.Some? <==> |s| > 0
    ensures r.Some? ==> [r.value.value] + r.value.rest == s
  {
    if |s| == 0 then None else Some(Parsed(s[0], s[1..]))
  }

  /** itermore's `next_array`: exactly `n` bytes, or, when fewer remain, an
      error holding the partial chunk (everything that was left). */
  function NextArray(s: Bytes, n: nat): (r: Result<Parsed<Bytes>, Bytes>)
    ensures r.Ok? <==> |s| >= n
    ensures r.Ok? ==> |r.value.value| == n && r.value.value + r.value.rest == s
    ensures r.Err? ==> r.error == s
  {
    if |s| < n then Err(s) else Ok(Parsed(s[..n], s[n..]))
  }

  /** `take(n)`, drained: at most `n` bytes; a short stream simply ends it. */
  function Take(s: Bytes, n: nat): (r: Parsed<Bytes>)
    ensures |r.value| == Min(n, |s|)
    ensures r.value + r.rest == s
  {
    var k := Min(n, |s|);
    Parsed(s[..k], s[k..])
  }

  /** `take_while(|b| *b != 0)` over a window, drained. Returns the bytes
      before the first zero and how many bytes of the window were pulled: the
      zero itself is pulled (and dropped), nothing after it is. */
  function TakeWhileNonZero(w: Bytes): (r: (Bytes, nat))
    ensures r.0 <= w && 0 !in r.0
    ensures |r.0| < |w| ==> w[|r.0|] == 0
    ensures r.1 == Min(|r.0| + 1, |w|)
  {
    if |w| == 0 then ([], 0)
    else if w[0] == 0 then ([], 1)
    else
      var (p, k) := TakeWhileNonZero(w[1..]);
      ([w[0]] + p, k + 1)
  }

  /** Without a zero in the window, `take_while` passes every byte through. */
  lemma {:induction false} TakeWhileNonZeroWithoutZero(w: Bytes)
    requires 0 !in w
    ensures TakeWhileNonZero(w) == (w, |w|)
  {
    if |w| > 0 {
      TakeWhileNonZeroWithoutZero(w[1..]);
      assert [w[0]] + w[1..] == w;
    }
  }

  /** A zero-free run followed by a zero: `take_while` yields the run and
      pulls exactly one byte more. */
  lemma {:induction false} TakeWhileNonZeroStopsAtZero(b: Bytes, tail: Bytes)
    requires 0 !in b
    ensures TakeWhileNonZero(b + [0] + tail) == (b, |b| + 1)
  {
    if |b| > 0 {
      TakeWhileNonZeroStopsAtZero(b[1..], tail);
      assert (b + [0] + tail)[1..] == b[1..] + [0] + tail;
      assert [b[0]] + b[1..] == b;
    }
  }

  /** 256 to the power `n`: one more than the largest `n`-byte value. */
  function Pow256(n: nat): (r: nat)
    ensures r > 0
  {
    if n == 0 then 1 else 256 * Pow256(n - 1)
  }

  lemma Pow256Widths()
    ensures Pow256(2) == 0x1_0000
    ensures Pow256(4) == 0x1_0000_0000
  {
    assert Pow256(1) == 256;
    assert Pow256(3) == 0x100_0000;
  }

  /** `from_le_bytes`: the least significant byte comes first. */
  function FromLeBytes(b: Bytes): (r: nat)
    ensures r < Pow256(|b|)
  {
    if |b| == 0 then 0 else b[0] + 256 * FromLeBytes(b[1..])
  }

  /** `to_le_bytes` for an `n`-byte unsigned integer: the independent inverse
      of `FromLeBytes`. */
  function ToLeBytes(v: nat, n: nat): (r: Bytes)
    requires v < Pow256(n)
    ensures |r| == n
  {
    if n == 0 then [] else [v % 256] + ToLeBytes(v / 256, n - 1)
  }

  /** `u16::to_le_bytes` and `u32::to_le_bytes`. */
  function Le16(v: uint16): (r: Bytes)
    ensures |r| == 2
  {
    Pow256Widths();
    ToLeBytes(v, 2)
  }

  function Le32(v: uint32): (r: Bytes)
    ensures |r| == 4
  {
    Pow256Widths();
    ToLeBytes(v, 4)
  }

  lemma {:induction false} FromLeBytesOfToLeBytes(v: nat, n: nat)
    requires v < Pow256(n)
    ensures FromLeBytes(ToLeBytes(v, n)) == v
  {
    if n > 0 {
      var b := ToLeBytes(v, n);
      assert b[1..] == ToLeBytes(v / 256, n - 1);
      FromLeBytesOfToLeBytes(v / 256, n - 1);
    }
  }

  lemma {:induction false} ToLeBytesOfFromLeBytes(b: Bytes)
    ensures ToLeBytes(FromLeBytes(b), |b|) == b
  {
    if |b| > 0 {
      var v := FromLeBytes(b);
      var t := FromLeBytes(b[1..]);
      assert v % 256 == b[0] && v / 256 == t;
      ToLeBytesOfFromLeBytes(b[1..]);
      assert [b[0]] + b[1..] == b;
    }
  }

  /** The explicit two- and four-byte little-endian formulas. */
  lemma FromLeBytesWord(b: Bytes)
    requires |b| == 2
    ensures FromLeBytes(b) == b[0] as int + 0x100 * (b[1] as int)
  {
    assert FromLeBytes(b[1..][1..]) == 0;
  }

  lemma FromLeBytesDword(b: Bytes)
    requires |b| == 4
    ensures FromLeBytes(b) == b[0] as int + 0x100 * (b[1] as int) + 0x1_0000 * (b[2] as int) + 0x100_0000 * (b[3] as int)
  {
    var b1, b2, b3 := b[1..], b[2..], b[3..];
    assert b1[1..] == b2 && b2[1..] == b3 && b3[1..] == [];
    assert FromLeBytes(b3) == b[3];
    assert FromLeBytes(b2) == b[2] as int + 256 * (b[3] as int);
  }
}
