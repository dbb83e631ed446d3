/** Bytes, fixed-width little-endian integers and C strings. */
module Bytes {

  type byte = x: int | 0 <= x < 256
  type bytes = seq<byte>

  datatype Option<+T> = None | Some(value: T)

  /** A reader's answer: a value and the input it left over, or a malformed input. */
  datatype Parsed<+T> = Ok(value: T, rest: bytes) | Bad

  /** r is what remains of s after a reader has consumed a non-empty prefix. */
  ghost predicate ProperSuffix(r: bytes, s: bytes) {
    |r| < |s| && s[|s| - |r|..] == r
  }

  function Pow256(w: nat): (r: nat)
    ensures r >= 1
  {
    if w == 0 then 1 else 256 * Pow256(w - 1)
  }

  /** The low w bytes of v, least significant first. */
  function ToLE(v: nat, w: nat): (r: bytes)
    ensures |r| == w
  {
    if w == 0 then [] else [v % 256] + ToLE(v / 256, w - 1)
  }

  function FromLE(s: bytes): nat {
    if s == [] then 0 else s[0] + 256 * FromLE(s[1..])
  }

  lemma {:induction false} FromToLE(v: nat, w: nat)
    requires v < Pow256(w)
    ensures FromLE(ToLE(v, w)) == v
  {
    if w > 0 {
      assert ToLE(v, w)[1..] == ToLE(v / 256, w - 1);
      FromToLE(v / 256, w - 1);
    }
  }

  /** v shifted right by i bytes. */
  function Shift(v: nat, i: nat): nat {
    if i == 0 then v else Shift(v / 256, i - 1)
  }

  /** The byte of weight 256^i is at position i. */
  lemma {:induction false} LittleEndian(v: nat, w: nat, i: nat)
    requires i < w
    ensures ToLE(v, w)[i] == Shift(v, i) % 256
  {
    if i > 0 {
      LittleEndian(v / 256, w - 1, i - 1);
    }
  }

  lemma Digits(low: byte, high: nat)
    ensures (low + 256 * high) % 256 == low && (low + 256 * high) / 256 == high
  {
  }

  lemma {:induction false} ToFromLE(s: bytes)
    ensures FromLE(s) < Pow256(|s|) && ToLE(FromLE(s), |s|) == s
  {
    if s != [] {
      ToFromLE(s[1..]);
      Digits(s[0], FromLE(s[1..]));
      assert s == [s[0]] + s[1..];
    }
  }

  /** The bytes of an integer of each width, the byte of weight 1 first. */
  lemma LittleEndianBytes(b: bytes)
    ensures |b| == 1 ==> ToLE(b[0], 1) == b
    ensures |b| == 2 ==> ToLE(b[0] as int + 0x100 * b[1] as int, 2) == b
    ensures |b| == 4 ==> ToLE(b[0] as int + 0x100 * b[1] as int + 0x1_0000 * b[2] as int
                              + 0x100_0000 * b[3] as int, 4) == b
    ensures |b| == 8 ==> ToLE(b[0] as int + 0x100 * b[1] as int + 0x1_0000 * b[2] as int + 0x100_0000 * b[3] as int
                              + 0x1_0000_0000 * b[4] as int + 0x100_0000_0000 * b[5] as int
                              + 0x1_0000_0000_0000 * b[6] as int + 0x100_0000_0000_0000 * b[7] as int, 8) == b
  {
    hide ToLE;
    ToFromLE(b);
    if |b| > 0 { FromLEStep(b, 0); }
    if |b| > 1 { FromLEStep(b, 1); }
    if |b| > 2 {
      FromLEStep(b, 2);
      if |b| > 3 { FromLEStep(b, 3); }
    }
    if |b| == 8 {
      FromLEStep(b, 4);
      FromLEStep(b, 5);
      FromLEStep(b, 6);
      FromLEStep(b, 7);
    }
    assert b[0..] == b;
    assert b[|b|..] == [] && FromLE([]) == 0;
  }

  lemma FromLEStep(b: bytes, i: nat)
    requires i < |b|
    ensures FromLE(b[i..]) == b[i] + 256 * FromLE(b[i + 1..])
  {
    assert b[i..][1..] == b[i + 1..];
  }

  lemma PowersOf256()
    ensures Pow256(1) == 0x100 && Pow256(2) == 0x1_0000
    ensures Pow256(4) == 0x1_0000_0000 && Pow256(8) == 0x1_0000_0000_0000_0000
  {
    assert Pow256(1) == 256 * Pow256(0);
    assert Pow256(2) == 256 * Pow256(1);
    assert Pow256(3) == 256 * Pow256(2);
    assert Pow256(4) == 256 * Pow256(3);
    assert Pow256(5) == 256 * Pow256(4);
    assert Pow256(6) == 256 * Pow256(5);
    assert Pow256(7) == 256 * Pow256(6);
  }

  /** Two's complement of width w bytes, both ways. */
  function Signed(u: nat, w: nat): int {
    if 2 * u < Pow256(w) then u else u - Pow256(w)
  }

  function Unsigned(i: int, w: nat): (u: nat)
    requires -(Pow256(w) as int) <= 2 * i < Pow256(w)
  {
    if i >= 0 then i else i + Pow256(w)
  }

  /** What a C string argument or std::string(const char*) sees: the bytes before the first zero. */
  function CString(s: bytes): (r: bytes)
    ensures r <= s && 0 !in r
    ensures |r| < |s| ==> s[|r|] == 0
  {
    if s == [] || s[0] == 0 then [] else [s[0]] + CString(s[1..])
  }

  lemma {:induction false} CStringStopsAtZero(s: bytes, t: bytes)
    requires 0 !in s
    ensures CString(s + [0] + t) == s && CString(s) == s
  {
    if s != [] {
      assert s == [s[0]] + s[1..];
      assert (s + [0] + t)[1..] == s[1..] + [0] + t;
      CStringStopsAtZero(s[1..], t);
    } else {
      assert (s + [0] + t)[0] == 0;
    }
  }
  /** A string that ends within a ends there, whatever follows. */
  lemma {:induction false} CStringWithin(a: bytes, b: bytes)
    requires 0 in a
    ensures CString(a + b) == CString(a)
  {
    if a[0] != 0 {
      assert a == [a[0]] + a[1..];
      assert (a + b)[1..] == a[1..] + b;
      CStringWithin(a[1..], b);
    }
  }
}
