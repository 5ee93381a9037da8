/** UTF-8 as RFC 3629 sections 3 and 4 define it, with Go's way of stepping over a
    string: a well-formed rune, or one stray byte at a time. */
module Utf8 {

  type byte = x: int | 0 <= x < 256 witness 0

  type bytes = seq<byte>

  predicate Cont(b: byte) { 0x80 <= b <= 0xBF }

  /** Length of the well-formed rune at the front of `s`, or 0 when there is none. */
  function RuneLen(s: bytes): (n: nat)
    ensures n <= 4 && n <= |s|
  {
    if |s| == 0 then 0
    else if s[0] < 0x80 then 1
    else if |s| >= 2 && 0xC2 <= s[0] <= 0xDF && Cont(s[1]) then 2
    else if |s| >= 3 && Lead3(s[0], s[1]) && Cont(s[2]) then 3
    else if |s| >= 4 && Lead4(s[0], s[1]) && Cont(s[2]) && Cont(s[3]) then 4
    else 0
  }

  predicate Lead3(a: byte, b: byte) {
    || (a == 0xE0 && 0xA0 <= b <= 0xBF)
    || (a == 0xED && 0x80 <= b <= 0x9F)
    || ((0xE1 <= a <= 0xEC || 0xEE <= a <= 0xEF) && Cont(b))
  }

  predicate Lead4(a: byte, b: byte) {
    || (a == 0xF0 && 0x90 <= b <= 0xBF)
    || (a == 0xF4 && 0x80 <= b <= 0x8F)
    || (0xF1 <= a <= 0xF3 && Cont(b))
  }

  const REPLACEMENT: bytes := [0xEF, 0xBF, 0xBD]   // U+FFFD, what Go writes for a stray byte

  /** One turn of Go's range loop: how far it steps, and what writing the rune back gives. */
  function Step(s: bytes): (n: nat)
    requires s != []
    ensures 1 <= n <= 4 && n <= |s|
  {
    if RuneLen(s) == 0 then 1 else RuneLen(s)
  }

  function Spell(s: bytes): (r: bytes)
    requires s != []
    ensures RuneLen(r) == |r| > 0
    ensures Valid(s) ==> r == s[..Step(s)]
    ensures s[0] < 0x80 ==> r == [s[0]]
    ensures s[0] >= 0x80 ==> forall i :: 0 <= i < |r| ==> r[i] >= 0x80
  {
    RuneLenOfPrefix(s, RuneLen(s));
    if RuneLen(s) == 0 then REPLACEMENT else s[..RuneLen(s)]
  }

  predicate Valid(s: bytes) {
    s == [] || (RuneLen(s) > 0 && Valid(s[RuneLen(s)..]))
  }

  /** `k` is reached by stepping over well-formed runes from the front. */
  predicate Boundary(s: bytes, k: nat) {
    k == 0 || (0 < RuneLen(s) <= k && Boundary(s[RuneLen(s)..], k - RuneLen(s)))
  }

  /** The last boundary of `s` at or below `k`. */
  function Floor(s: bytes, k: nat): (f: nat)
    ensures f <= k && f <= |s|
  {
    if RuneLen(s) == 0 || RuneLen(s) > k then 0
    else RuneLen(s) + Floor(s[RuneLen(s)..], k - RuneLen(s))
  }

  /** A rune is recognised from its own bytes alone, and from nothing less. */
  lemma RuneLenOfPrefix(s: bytes, k: nat)
    requires k <= |s|
    ensures RuneLen(s[..k]) == if RuneLen(s) <= k then RuneLen(s) else 0
  {
  }

  lemma {:induction false} ValidPrefixIsBoundary(s: bytes, k: nat)
    requires k <= |s|
    ensures Valid(s[..k]) <==> Boundary(s, k)
    decreases |s|
  {
    RuneLenOfPrefix(s, k);
    var n := RuneLen(s);
    if 0 < n <= k {
      assert s[..k][n..] == s[n..][..k - n];
      ValidPrefixIsBoundary(s[n..], k - n);
    }
  }

  /** `Floor` is a boundary, and no boundary lies between it and `k`. */
  lemma {:induction false} FloorIsLast(s: bytes, k: nat, j: nat)
    requires k <= |s| && j <= k
    ensures Boundary(s, Floor(s, k))
    ensures Boundary(s, j) ==> j <= Floor(s, k)
    decreases |s|
  {
    var n := RuneLen(s);
    if 0 < n <= k {
      FloorIsLast(s[n..], k - n, if j >= n then j - n else 0);
    }
  }

  /** Backing off to a boundary costs at most three bytes, unless an ill-formed
      byte stops the walk earlier. */
  lemma {:induction false} FloorIsNear(s: bytes, k: nat)
    requires k <= |s|
    ensures Floor(s, k) + 3 >= k || RuneLen(s[Floor(s, k)..]) == 0
    ensures Valid(s) ==> Floor(s, k) + 3 >= k
    decreases |s|
  {
    var n := RuneLen(s);
    if 0 < n <= k {
      FloorIsNear(s[n..], k - n);
      assert s[n..][Floor(s[n..], k - n)..] == s[Floor(s, k)..];
    }
  }

  /** Cutting a well-formed string at any place leaves a suffix that is either
      well-formed (a boundary) or starts with a continuation byte, so that no
      non-empty prefix of it is well-formed. */
  lemma {:induction false} SuffixOfValid(s: bytes, k: nat)
    requires Valid(s) && k <= |s|
    ensures Boundary(s, k) ==> Valid(s[k..])
    ensures !Boundary(s, k) ==> k < |s| && Cont(s[k])
    decreases |s|
  {
    var n := RuneLen(s);
    if k > 0 && n <= k {
      SuffixOfValid(s[n..], k - n);
      assert s[n..][k - n..] == s[k..];
    }
  }

  /** An ASCII byte inside a well-formed prefix always stands on a boundary. */
  lemma {:induction false} AsciiIsBoundary(s: bytes, e: nat, i: nat)
    requires Boundary(s, e) && i < e <= |s| && s[i] < 0x80
    ensures Boundary(s, i)
    decreases |s|
  {
    var n := RuneLen(s);
    if i >= n {
      AsciiIsBoundary(s[n..], e - n, i - n);
    }
  }

  lemma {:induction false} BoundaryInBounds(s: bytes, k: nat)
    requires Boundary(s, k)
    ensures k <= |s|
    decreases |s|
  {
    if k > 0 { BoundaryInBounds(s[RuneLen(s)..], k - RuneLen(s)); }
  }

  lemma RuneThenValid(r: bytes, s: bytes)
    requires RuneLen(r) == |r| > 0 && Valid(s)
    ensures Valid(r + s)
  {
    assert Valid(r) by { assert r[|r|..] == []; }
    ValidConcat(r, s);
  }

  lemma {:induction false} ValidConcat(a: bytes, b: bytes)
    requires Valid(a) && Valid(b)
    ensures Valid(a + b)
    decreases |a|
  {
    if a == [] {
      assert a + b == b;
    } else {
      var n := RuneLen(a);
      RuneLenOfPrefix(a + b, |a|);
      assert (a + b)[..|a|] == a;
      assert (a + b)[n..] == a[n..] + b;
      ValidConcat(a[n..], b);
    }
  }

  // ---------- runes are the encodings of Unicode scalar values ----------

  predicate Scalar(cp: nat) { cp <= 0x10FFFF && !(0xD800 <= cp <= 0xDFFF) }

  /** The encoding table of RFC 3629, section 3. */
  function Encode(cp: nat): (r: bytes)
    requires Scalar(cp)
    ensures 1 <= |r| <= 4
  {
    if cp < 0x80 then [cp]
    else if cp < 0x800 then [0xC0 + cp / 64, 0x80 + cp % 64]
    else if cp < 0x10000 then [0xE0 + cp / 64 / 64, 0x80 + cp / 64 % 64, 0x80 + cp % 64]
    else [0xF0 + cp / 64 / 64 / 64, 0x80 + cp / 64 / 64 % 64, 0x80 + cp / 64 % 64, 0x80 + cp % 64]
  }

  /** The encoding of a scalar value is recognised, whatever follows. */
  lemma EncodingIsRune(cp: nat, rest: bytes)
    requires Scalar(cp)
    ensures RuneLen(Encode(cp) + rest) == |Encode(cp)|
  {
    var s, r := Encode(cp) + rest, Encode(cp);
    assert forall i :: 0 <= i < |r| ==> s[i] == r[i];
    assert cp == 64 * (cp / 64) + cp % 64;
    assert cp / 64 == 64 * (cp / 64 / 64) + cp / 64 % 64;
    assert cp / 64 / 64 == 64 * (cp / 64 / 64 / 64) + cp / 64 / 64 % 64;
  }

  function Tail(a: nat, b: byte): nat { 64 * a + (b % 64) }

  lemma TailSplits(a: nat, b: byte)
    requires Cont(b)
    ensures Tail(a, b) / 64 == a && 0x80 + Tail(a, b) % 64 == b
  {
  }

  lemma TwoBytes(a: byte, b: byte)
    requires 0xC2 <= a <= 0xDF && Cont(b)
    ensures var cp := Tail(a - 0xC0, b); Scalar(cp) && Encode(cp) == [a, b]
  {
    TailSplits(a - 0xC0, b);
  }

  lemma ThreeBytes(a: byte, b: byte, c: byte)
    requires Lead3(a, b) && Cont(c)
    ensures var cp := Tail(Tail(a - 0xE0, b), c); Scalar(cp) && Encode(cp) == [a, b, c]
  {
    TailSplits(a - 0xE0, b);
    TailSplits(Tail(a - 0xE0, b), c);
  }

  lemma FourBytes(a: byte, b: byte, c: byte, d: byte)
    requires Lead4(a, b) && Cont(c) && Cont(d)
    ensures var cp := Tail(Tail(Tail(a - 0xF0, b), c), d); Scalar(cp) && Encode(cp) == [a, b, c, d]
  {
    TailSplits(a - 0xF0, b);
    TailSplits(Tail(a - 0xF0, b), c);
    TailSplits(Tail(Tail(a - 0xF0, b), c), d);
  }

  /** And what is recognised is the encoding of a scalar value. */
  lemma RuneIsEncoding(s: bytes) returns (cp: nat)
    requires RuneLen(s) > 0
    ensures Scalar(cp) && s[..RuneLen(s)] == Encode(cp)
  {
    var n := RuneLen(s);
    if n == 1 {
      cp := s[0];
      return;
    }
    hide Tail, Encode, Scalar;
    if n == 2 {
      cp := Tail(s[0] - 0xC0, s[1]);
      TwoBytes(s[0], s[1]);
    } else if n == 3 {
      cp := Tail(Tail(s[0] - 0xE0, s[1]), s[2]);
      ThreeBytes(s[0], s[1], s[2]);
    } else {
      cp := Tail(Tail(Tail(s[0] - 0xF0, s[1]), s[2]), s[3]);
      FourBytes(s[0], s[1], s[2], s[3]);
    }
  }
}
