/**
Little-endian integers and in-place byte regions: the primitives that every other module
of this project reads and writes buffers with (ironsbe-core/src/buffer.rs).
*/
module Bytes {

  type byte = x: int | 0 <= x < 256

  const U32: nat := 0x1_0000_0000
  const U64: nat := 0x1_0000_0000_0000_0000

  datatype Option<+T> = None | Some(value: T)

  lemma Member<T>(s: set<T>) returns (x: T)
    requires s != {}
    ensures x in s
  {
    assert |s| != 0;
    x :| x in s;
  }

  /** 256 to the power `w`. */
  function Pow256(w: nat): (p: nat)
    ensures p >= 1
  {
    if w == 0 then 1 else 256 * Pow256(w - 1)
  }

  lemma Pow256Values()
    ensures Pow256(1) == 0x100 && Pow256(2) == 0x1_0000 && Pow256(4) == U32 && Pow256(8) == U64
  {
    assert Pow256(3) == 256 * Pow256(2) && Pow256(5) == 256 * Pow256(4) && Pow256(7) == 256 * Pow256(6);
  }

  /** The low `w` bytes of `n`, least significant first (`to_le_bytes` after a truncating cast). */
  function LE(n: nat, w: nat): (s: seq<byte>)
    ensures |s| == w
  {
    if w == 0 then [] else [n % 256] + LE(n / 256, w - 1)
  }

  /** The number a little-endian byte string denotes (`from_le_bytes`). */
  function FromLE(s: seq<byte>): (n: nat)
    ensures n < Pow256(|s|)
  {
    if s == [] then 0 else s[0] + 256 * FromLE(s[1..])
  }

  lemma MulAtLeast(d: int, m: int)
    requires d >= 1 && m >= 0
    ensures d * m >= m
  {
    assert (d - 1) * m >= 0;
  }

  /** A remainder is determined by being in range. */
  lemma ModUnique(n: int, m: int, q: int, r: int)
    requires 0 <= r < m && n == q * m + r
    ensures n % m == r
  {
    var k, s := n / m, n % m;
    assert n == k * m + s;
    assert (k - q) * m == r - s;
    if k - q >= 1 {
      MulAtLeast(k - q, m);
    } else if q - k >= 1 {
      MulAtLeast(q - k, m);
    }
  }

  /** One byte of a remainder. */
  lemma ModStep(n: nat, m: nat)
    requires m > 0
    ensures n % (256 * m) == n % 256 + 256 * ((n / 256) % m)
  {
    var q, r := (n / 256) / m, (n / 256) % m;
    assert q * (256 * m) == 256 * (q * m);
    ModUnique(n, 256 * m, q, 256 * r + n % 256);
  }

  /** Writing `w` bytes and reading them back yields the number modulo 256^w: the exact effect of
      the `as u16`/`as u32`/`as u64` casts in front of `to_le_bytes`. */
  lemma {:induction false} FromLEOfLE(n: nat, w: nat)
    ensures FromLE(LE(n, w)) == n % Pow256(w)
  {
    if w != 0 {
      FromLEOfLE(n / 256, w - 1);
      ModStep(n, Pow256(w - 1));
      assert LE(n, w)[1..] == LE(n / 256, w - 1);
    }
  }

  lemma LERoundTrip(n: nat, w: nat)
    requires n < Pow256(w)
    ensures FromLE(LE(n, w)) == n
  {
    FromLEOfLE(n, w);
  }

  /** Every byte string is the encoding of the number it denotes. */
  lemma {:induction false} LEOfFromLE(s: seq<byte>)
    ensures LE(FromLE(s), |s|) == s
  {
    if s != [] {
      LEOfFromLE(s[1..]);
      assert FromLE(s) % 256 == s[0] && FromLE(s) / 256 == FromLE(s[1..]);
    }
  }

  /** The first bytes of a wider encoding are the narrower one. */
  lemma {:induction false} LEPrefix(n: nat, w: nat, v: nat)
    requires v <= w
    ensures LE(n, w)[..v] == LE(n, v)
  {
    if v > 0 {
      LEPrefix(n / 256, w - 1, v - 1);
      assert LE(n, w)[..v] == [n % 256] + LE(n / 256, w - 1)[..v - 1];
    }
  }

  /** Encodings agree exactly if the numbers do in the bits that fit. */
  lemma LESameIff(a: nat, b: nat, w: nat)
    ensures LE(a, w) == LE(b, w) <==> a % Pow256(w) == b % Pow256(w)
  {
    FromLEOfLE(a, w);
    FromLEOfLE(b, w);
    LEOfFromLE(LE(a, w));
    LEOfFromLE(LE(b, w));
  }

  /** `buf` with the bytes from `at` on replaced by `s` (a `copy_from_slice` into a sub-slice). */
  function Splice(buf: seq<byte>, at: nat, s: seq<byte>): (r: seq<byte>)
    requires at + |s| <= |buf|
    ensures |r| == |buf|
    ensures forall i :: 0 <= i < |r| ==> r[i] == if at <= i < at + |s| then s[i - at] else buf[i]
  {
    seq(|buf|, i requires 0 <= i < |buf| => if at <= i < at + |s| then s[i - at] else buf[i])
  }

  /** Two adjacent splices are one. */
  lemma SpliceTwice(buf: seq<byte>, at: nat, a: seq<byte>, b: seq<byte>)
    requires at + |a| + |b| <= |buf|
    ensures Splice(Splice(buf, at, a), at + |a|, b) == Splice(buf, at, a + b)
  {
  }

  /** Copies `s` over `buf[at..at+|s|]` in place. */
  method CopyInto(buf: array<byte>, at: nat, s: seq<byte>)
    requires at + |s| <= buf.Length
    modifies buf
    ensures buf[..] == Splice(old(buf[..]), at, s)
  {
    for k := 0 to |s|
      invariant forall i :: 0 <= i < k ==> buf[at + i] == s[i]
      invariant forall i :: 0 <= i < buf.Length && !(at <= i < at + k) ==> buf[i] == old(buf[i])
    {
      buf[at + k] := s[k];
    }
    assert buf[..] == Splice(old(buf[..]), at, s);
  }

  // ----- Lists of writes -----

  /** Some bytes and where they go. */
  datatype Write = Write(at: nat, bytes: seq<byte>)
  {
    predicate Covers(p: int) { at <= p < at + |bytes| }
  }

  predicate InBounds(ws: seq<Write>, size: nat) {
    forall k :: 0 <= k < |ws| ==> ws[k].at + |ws[k].bytes| <= size
  }

  /** The buffer after the first `n` writes, one after the other. */
  function ApplyWrites(buf: seq<byte>, ws: seq<Write>, n: nat): (r: seq<byte>)
    requires n <= |ws| && InBounds(ws, |buf|)
    ensures |r| == |buf|
  {
    if n == 0 then buf
    else Splice(ApplyWrites(buf, ws, n - 1), ws[n - 1].at, ws[n - 1].bytes)
  }

  /** The last of the first `n` writes that covers a position. */
  function LastCover(ws: seq<Write>, n: nat, p: nat): (r: Option<nat>)
    requires n <= |ws|
    ensures r.Some? ==> r.value < n && ws[r.value].Covers(p)
    ensures r.Some? ==> forall k :: r.value < k < n ==> !ws[k].Covers(p)
    ensures r.None? ==> forall k :: 0 <= k < n ==> !ws[k].Covers(p)
  {
    if n == 0 then None
    else if ws[n - 1].Covers(p) then Some(n - 1)
    else LastCover(ws, n - 1, p)
  }

  /** Each byte is decided by the last write that covers it. */
  lemma {:induction false} AppliedByte(buf: seq<byte>, ws: seq<Write>, n: nat, p: nat)
    requires n <= |ws| && InBounds(ws, |buf|) && p < |buf|
    ensures ApplyWrites(buf, ws, n)[p]
            == match LastCover(ws, n, p)
               case None => buf[p]
               case Some(k) => ws[k].bytes[p - ws[k].at]
  {
    if n > 0 {
      AppliedByte(buf, ws, n - 1, p);
    }
  }
}
