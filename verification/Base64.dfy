/** base64.encode, encodeURL, decode and decodeURL (src/interpreter_setup.cpp).

    The specification is the one of section 4 of RFC 4648: the octets, written as one
    string of bits, are cut into groups of six. The loops work on a 32-bit accumulator that
    wraps around; shifts and masks are written as multiplications, divisions and
    remainders by powers of two. */
module Base64 {
  import opened Wrappers
  import opened Arithmetic
  import opened Sequences

  type Byte = b: int | 0 <= b < 0x100
  type Bit = b: int | 0 <= b < 2
  type Int32 = x: int | -0x8000_0000 <= x < 0x8000_0000

  // ---------------------------------------------------------------------------
  // Strings of bits
  // ---------------------------------------------------------------------------

  /** The number a string of bits writes, first bit most significant. */
  function Num(bs: seq<Bit>): nat {
    if bs == [] then 0 else 2 * Num(bs[..|bs| - 1]) + bs[|bs| - 1] as int
  }

  function Bits(x: nat, n: nat): (r: seq<Bit>)
    requires x < Pow2(n)
    ensures |r| == n && Num(r) == x
  {
    if n == 0 then [] else Bits(x / 2, n - 1) + [x % 2]
  }

  function Zeros(n: nat): seq<Bit> {
    seq(n, _ => 0)
  }

  ghost predicate Below(xs: seq<nat>, n: nat) {
    forall i | 0 <= i < |xs| :: xs[i] < Pow2(n)
  }

  /** The numbers written one after the other, `n` bits each. */
  function Join(xs: seq<nat>, n: nat): (r: seq<Bit>)
    requires Below(xs, n)
    ensures |r| == |xs| * n
  {
    if xs == [] then [] else Bits(xs[0], n) + Join(xs[1..], n)
  }

  /** The whole groups of `n` bits; what is left at the end is dropped. */
  function Cut(bs: seq<Bit>, n: nat): seq<nat>
    requires n > 0
  {
    if |bs| < n then [] else [Num(bs[..n])] + Cut(bs[n..], n)
  }

  lemma {:induction false} NumBound(bs: seq<Bit>)
    ensures Num(bs) < Pow2(|bs|)
  {
    if bs != [] { NumBound(bs[..|bs| - 1]); }
  }

  lemma {:induction false} NumOfJoined(a: seq<Bit>, b: seq<Bit>)
    ensures Num(a + b) == Num(a) * Pow2(|b|) + Num(b)
  {
    if b == [] {
      assert a + b == a;
    } else {
      var c := b[..|b| - 1];
      NumOfJoined(a, c);
      assert (a + b)[..|a + b| - 1] == a + c;
      assert Pow2(|b|) == 2 * Pow2(|c|);
      assert Num(a) * Pow2(|b|) == 2 * (Num(a) * Pow2(|c|));
    }
  }

  lemma {:induction false} BitsOfNum(bs: seq<Bit>)
    ensures Num(bs) < Pow2(|bs|) && Bits(Num(bs), |bs|) == bs
  {
    NumBound(bs);
    if bs != [] {
      BitsOfNum(bs[..|bs| - 1]);
      assert Num(bs) / 2 == Num(bs[..|bs| - 1]);
    }
  }

  lemma {:induction false} NumOfZeros(n: nat)
    ensures Num(Zeros(n)) == 0
  {
    if n > 0 {
      NumOfZeros(n - 1);
      assert Zeros(n)[..n - 1] == Zeros(n - 1);
    }
  }

  lemma CutFirst(a: seq<Bit>, b: seq<Bit>)
    requires |a| > 0
    ensures Cut(a + b, |a|) == [Num(a)] + Cut(b, |a|)
  {
    assert (a + b)[..|a|] == a && (a + b)[|a|..] == b;
  }

  lemma CutOne(x: nat, n: nat, body: seq<Bit>, tail: seq<Bit>)
    requires n > 0 && x < Pow2(n)
    ensures Cut((Bits(x, n) + body) + tail, n) == [x] + Cut(body + tail, n)
  {
    Regrouped(Bits(x, n), body, tail);
    CutFirst(Bits(x, n), body + tail);
  }

  /** Cutting undoes joining, whatever short tail follows. */
  lemma {:induction false} CutJoined(xs: seq<nat>, n: nat, tail: seq<Bit>)
    requires n > 0 && Below(xs, n) && |tail| < n
    ensures Cut(Join(xs, n) + tail, n) == xs
  {
    if xs == [] {
      assert Join(xs, n) + tail == tail;
    } else {
      var x, rest := xs[0], xs[1..];
      CutJoined(rest, n, tail);
      CutOne(x, n, Join(rest, n), tail);
      assert Join(xs, n) == Bits(x, n) + Join(rest, n);
      assert xs == [x] + rest;
    }
  }

  /** Joining undoes cutting when nothing was left over. */
  lemma {:induction false} JoinCut(bs: seq<Bit>, n: nat)
    requires n > 0 && |bs| % n == 0
    ensures Below(Cut(bs, n), n) && Join(Cut(bs, n), n) == bs
    decreases |bs|
  {
    if |bs| >= n {
      assert |bs[n..]| % n == 0 by { SubModulus(|bs|, n); }
      JoinCut(bs[n..], n);
      NumBound(bs[..n]);
      BitsOfNum(bs[..n]);
      var xs := Cut(bs, n);
      assert xs[1..] == Cut(bs[n..], n);
      assert bs == bs[..n] + bs[n..];
    } else {
      SmallModulus(|bs|, n);
    }
  }

  lemma {:induction false} JoinAppend(xs: seq<nat>, x: nat, n: nat)
    requires Below(xs, n) && x < Pow2(n)
    ensures Below(xs + [x], n) && Join(xs + [x], n) == Join(xs, n) + Bits(x, n)
  {
    if xs == [] {
      assert [x][1..] == [];
      assert Join([x], n) == Bits(x, n) + [];
    } else {
      JoinAppend(xs[1..], x, n);
      assert (xs + [x])[1..] == xs[1..] + [x];
      assert Join(xs + [x], n) == Bits(xs[0], n) + Join(xs[1..] + [x], n);
      Regrouped(Bits(xs[0], n), Join(xs[1..], n), Bits(x, n));
    }
  }

  // ---------------------------------------------------------------------------
  // Arithmetic of shifts and masks
  // ---------------------------------------------------------------------------

  lemma MulMonotone(a: int, b: int, d: int)
    requires a <= b && d >= 0
    ensures a * d <= b * d
  {
  }

  lemma NextMultiple(q: int, q': int, d: int)
    requires d >= 0
    ensures q < q' ==> q * d + d <= q' * d
  {
    if q < q' { MulMonotone(q + 1, q', d); }
  }

  lemma QuotientUnique(d: int, q: int, r: int, q': int, r': int)
    requires 0 <= r < d && 0 <= r' < d && q * d + r == q' * d + r'
    ensures q == q' && r == r'
  {
    NextMultiple(q, q', d);
    NextMultiple(q', q, d);
  }

  lemma DivModUnique(a: int, d: int, q: int, r: int)
    requires d > 0 && 0 <= r < d && a == q * d + r
    ensures a / d == q && a % d == r
  {
    QuotientUnique(d, q, r, a / d, a % d);
  }

  lemma SubModulus(a: int, n: nat)
    requires n > 0
    ensures (a - n) % n == a % n
  {
    DivModUnique(a - n, n, a / n - 1, a % n);
  }

  lemma SmallModulus(a: nat, n: nat)
    requires a < n
    ensures a % n == a
  {
  }

  lemma Powers()
    ensures Pow2(6) == 0x40 && Pow2(8) == 0x100
  {
    assert Pow2(4) == 16;
    assert Pow2(6) == 4 * Pow2(4) && Pow2(8) == 4 * Pow2(6);
  }

  lemma Pow32()
    ensures Pow2(32) == 0x1_0000_0000
  {
    Powers();
    PowSum(8, 8);
    PowSum(16, 16);
  }

  lemma Regroup(a: int, q: int, b: int, p: int)
    ensures (a * q + b) * p == a * (p * q) + b * p
  {
    calc {
      (a * q + b) * p;
      a * q * p + b * p;
      a * (p * q) + b * p;
    }
  }

  /** Shifting down and masking is masking and shifting down. */
  lemma ShiftThenMask(v: int, p: int, q: int)
    requires p > 0 && q > 0
    ensures p * q > 0 && v / p % q == v % (p * q) / p
    ensures v % p == v % (p * q) % p
  {
    assert p * q > 0;
    var d := p * q;
    var a, t := v / d, v % d;
    var b, r := t / p, t % p;
    if b >= q { MulMonotone(q, b, p); }
    Regroup(a, q, b, p);
    var e := a * q + b;
    DivModUnique(v, p, e, r);
    DivModUnique(e, q, a, b);
  }

  lemma LowPart(v: int, c: nat, p: int, s: int)
    requires c < s && p > 0
    ensures p * s > 0 && (v * s + c) % (p * s) == v % p * s + c
  {
    var q, t := v / p, v % p;
    Regroup(q, p, t, s);
    assert s * p == p * s > 0;
    NextMultiple(t, p, s);
    assert t * s >= 0;
    DivModUnique(v * s + c, p * s, q, t * s + c);
  }

  /** The low bits of `v * 2^k + c`. */
  lemma LowBitsShifted(v: int, c: nat, low: nat, k: nat)
    requires c < Pow2(k)
    ensures (v * Pow2(k) + c) % Pow2(low + k) == v % Pow2(low) * Pow2(k) + c
  {
    PowSum(low, k);
    LowPart(v, c, Pow2(low), Pow2(k));
  }

  lemma ExactQuotient(x: int, z: int, p: int)
    requires p > 0
    ensures x * (p * z) / p == x * z
  {
    Regroup(x, z, 0, p);
    DivModUnique(x * (p * z), p, x * z, 0);
  }

  lemma SameResidue(a: int, b: int, c: int, p: int)
    requires p > 0 && a % p == b % p
    ensures (a + c) % p == (b + c) % p
  {
    var m := a / p - b / p;
    assert m * p == a / p * p - b / p * p;
    AddMultiple(b + c, m, p);
  }

  /** What a 32-bit two's complement register keeps of `x`. */
  function Wrap(x: int): Int32 {
    (x + 0x8000_0000) % 0x1_0000_0000 - 0x8000_0000
  }

  lemma AddMultiple(x: int, m: int, p: int)
    requires p > 0
    ensures (x + m * p) % p == x % p && (x + m * p) / p == x / p + m
  {
    assert (x / p + m) * p == x / p * p + m * p;
    DivModUnique(x + m * p, p, x / p + m, x % p);
  }

  lemma WrapKeepsLowBits(x: int, k: nat)
    requires k <= 32
    ensures Wrap(x) as int % Pow2(k) == x % Pow2(k)
  {
    Pow32();
    PowSum(k, 32 - k);
    var p, s := Pow2(k), Pow2(32 - k);
    var m := -((x + 0x8000_0000) / 0x1_0000_0000);
    assert m * (p * s) == m * s * p by { Regroup(m, s, 0, p); }
    AddMultiple(x, m * s, p);
  }

  lemma RoomBelowMultiple(w: int, p: int, s: int, c: int)
    requires p > 0 && w % p == 0 && w < s * p && c < p
    ensures w + c < s * p
  {
    if s <= w / p { MulMonotone(s, w / p, p); }
    NextMultiple(w / p, s, p);
  }

  /** Adding to the freed low bits does not overflow. */
  lemma RoomBelow(x: int, c: nat, k: nat)
    requires k <= 8 && c < Pow2(k)
    ensures Wrap(x * Pow2(k)) as int + c < 0x8000_0000
  {
    WrapKeepsLowBits(x * Pow2(k), k);
    AddMultiple(0, x, Pow2(k));
    Pow32();
    PowSum(31 - k, k);
    RoomBelowMultiple(Wrap(x * Pow2(k)), Pow2(k), Pow2(31 - k), c);
  }

  // ---------------------------------------------------------------------------
  // The accumulator: its low bits are the bits not yet written out
  // ---------------------------------------------------------------------------

  ghost predicate Holds(val: int, pending: seq<Bit>) {
    val % Pow2(|pending|) == Num(pending)
  }

  /** val = (val << k) + c */
  function Shifted(val: Int32, c: nat, k: nat): Int32
    requires k <= 8 && c < Pow2(k)
  {
    RoomBelow(val, c, k);
    Wrap(val * Pow2(k)) as int + c
  }

  lemma ShiftedLow(val: Int32, c: nat, k: nat, low: nat, m: int)
    requires k <= 8 && c < Pow2(k) && low < 8 && val % Pow2(low) == m
    ensures Shifted(val, c, k) as int % Pow2(low + k) == m * Pow2(k) + c
  {
    LowBitsShifted(val, c, low, k);
    WrapKeepsLowBits(val * Pow2(k), low + k);
    SameResidue(Wrap(val * Pow2(k)), val * Pow2(k), c, Pow2(low + k));
  }

  lemma ShiftedHolds(val: Int32, c: nat, k: nat, pending: seq<Bit>)
    requires k <= 8 && c < Pow2(k) && |pending| < 8 && Holds(val, pending)
    ensures Holds(Shifted(val, c, k), pending + Bits(c, k))
  {
    ShiftedLow(val, c, k, |pending|, Num(pending));
    NumOfJoined(pending, Bits(c, k));
    HoldsWhen(Shifted(val, c, k), pending + Bits(c, k), |pending| + k);
  }

  lemma HoldsWhen(val: int, pending: seq<Bit>, n: nat)
    requires |pending| == n && val % Pow2(n) == Num(pending)
    ensures Holds(val, pending)
  {
  }

  /** The top `n` pending bits, and what stays below them. */
  lemma TopBits(val: Int32, pending: seq<Bit>, n: nat)
    requires n <= |pending| && Holds(val, pending)
    ensures var b := |pending| - n;
            && val / Pow2(b) % Pow2(n) == Num(pending[..n])
            && Holds(val, pending[n..])
  {
    var b := |pending| - n;
    PowSum(b, n);
    ShiftThenMask(val, Pow2(b), Pow2(n));
    assert pending == pending[..n] + pending[n..];
    NumOfJoined(pending[..n], pending[n..]);
    NumBound(pending[n..]);
    DivModUnique(Num(pending), Pow2(b), Num(pending[..n]), Num(pending[n..]));
  }

  /** ((val << 8) >> (valb + 8)) & 0x3F: the last bits, filled up with zeros. */
  lemma LastBits(val: Int32, pending: seq<Bit>)
    requires |pending| < 6 && Holds(val, pending)
    ensures Wrap(val * 0x100) as int / Pow2(|pending| + 2) % 0x40 == Num(pending + Zeros(6 - |pending|))
  {
    var k := |pending|;
    Powers();
    PowSum(k + 2, 6);
    ShiftThenMask(Wrap(val * 0x100), Pow2(k + 2), 0x40);
    WrapKeepsLowBits(val * 0x100, k + 8);
    LowBitsShifted(val, 0, k, 8);
    PowSum(k + 2, 6 - k);
    NumOfJoined(pending, Zeros(6 - k));
    NumOfZeros(6 - k);
    ExactQuotient(Num(pending), Pow2(6 - k), Pow2(k + 2));
  }

  // ---------------------------------------------------------------------------
  // The alphabets of sections 4 and 5
  // ---------------------------------------------------------------------------

  function EncodeChar(d: nat, url: bool): Byte
    requires d < 0x40
  {
    if d < 26 then 'A' as int + d
    else if d < 52 then 'a' as int + (d - 26)
    else if d < 62 then '0' as int + (d - 52)
    else if d == 62 then (if url then '-' else '+') as int
    else (if url then '_' else '/') as int
  }

  function DecodeChar(c: Byte, url: bool): (r: Option<nat>)
    ensures r.Some? ==> r.value < 0x40
  {
    if 'A' as int <= c <= 'Z' as int then Some(c - 'A' as int)
    else if 'a' as int <= c <= 'z' as int then Some(c - 'a' as int + 26)
    else if '0' as int <= c <= '9' as int then Some(c - '0' as int + 52)
    else if c == (if url then '-' else '+') as int then Some(62)
    else if c == (if url then '_' else '/') as int then Some(63)
    else None
  }

  const PAD: Byte := '=' as int

  /** Tables 1 and 2 of RFC 4648: capital letters, small letters and figures, each in order,
      and two more characters. */
  lemma AlphabetTable(d: nat, url: bool)
    ensures EncodeChar(0, url) == 'A' as int && EncodeChar(25, url) == 'Z' as int
    ensures EncodeChar(26, url) == 'a' as int && EncodeChar(51, url) == 'z' as int
    ensures EncodeChar(52, url) == '0' as int && EncodeChar(61, url) == '9' as int
    ensures EncodeChar(62, false) == '+' as int && EncodeChar(63, false) == '/' as int
    ensures EncodeChar(62, true) == '-' as int && EncodeChar(63, true) == '_' as int
    ensures d < 61 && d != 25 && d != 51 ==> EncodeChar(d + 1, url) == EncodeChar(d, url) + 1
  {
  }

  /** The characters of an alphabet stand for the numbers below 64, one for one. */
  lemma DigitHasOneChar(d: nat, url: bool)
    requires d < 0x40
    ensures EncodeChar(d, url) != PAD && DecodeChar(EncodeChar(d, url), url) == Some(d)
  {
  }

  ghost predicate Digits(ds: seq<nat>) {
    forall i | 0 <= i < |ds| :: ds[i] < 0x40
  }

  ghost function Chars(ds: seq<nat>, url: bool): (r: seq<Byte>)
    requires Digits(ds)
    ensures |r| == |ds|
  {
    seq(|ds|, i requires 0 <= i < |ds| => EncodeChar(ds[i], url))
  }

  /** The digits decode uses: those before the first '=', other characters skipped. */
  ghost function DigitsIn(s: seq<Byte>, url: bool): (r: seq<nat>)
    ensures Digits(r)
  {
    if s == [] || s[0] == PAD then []
    else if DecodeChar(s[0], url).None? then DigitsIn(s[1..], url)
    else [DecodeChar(s[0], url).value] + DigitsIn(s[1..], url)
  }

  lemma {:induction false} DigitsInChars(ds: seq<nat>, url: bool, pad: seq<Byte>)
    requires Digits(ds) && forall i | 0 <= i < |pad| :: pad[i] == PAD
    ensures DigitsIn(Chars(ds, url) + pad, url) == ds
  {
    var s := Chars(ds, url) + pad;
    if ds == [] {
      assert s == pad;
    } else {
      DigitHasOneChar(ds[0], url);
      DigitsInChars(ds[1..], url, pad);
      assert s[1..] == Chars(ds[1..], url) + pad;
      assert s[0] == EncodeChar(ds[0], url);
    }
  }

  // ---------------------------------------------------------------------------
  // Specification
  // ---------------------------------------------------------------------------

  ghost function ToNats(s: seq<Byte>): (r: seq<nat>)
    ensures |r| == |s| && Below(r, 8) && forall i | 0 <= i < |s| :: r[i] == s[i]
  {
    Powers();
    seq(|s|, i requires 0 <= i < |s| => s[i] as int as nat)
  }

  ghost function Octets(s: seq<Byte>): seq<Bit> {
    Join(ToNats(s), 8)
  }

  /** Zero bits are added on the right to form a whole number of 6-bit groups. */
  ghost function Filled(bs: seq<Bit>): seq<Bit> {
    bs + Zeros((6 - |bs| % 6) % 6)
  }

  ghost function Sextets(s: seq<Byte>): (r: seq<nat>)
    ensures Digits(r)
  {
    FilledIsWhole(Octets(s));
    JoinCut(Filled(Octets(s)), 6);
    Powers();
    Cut(Filled(Octets(s)), 6)
  }

  lemma FilledIsWhole(bs: seq<Bit>)
    ensures |Filled(bs)| % 6 == 0
  {
  }

  lemma FilledAlready(bs: seq<Bit>)
    requires |bs| % 6 == 0
    ensures Filled(bs) == bs && bs + [] == bs
  {
    assert Zeros(0) == [];
  }

  lemma FilledTail(bs: seq<Bit>, n: nat)
    requires 0 < n < 6 && |bs| % 6 == n
    ensures Filled(bs) == bs + Zeros(6 - n)
  {
    assert (6 - n) % 6 == 6 - n;
  }

  ghost function Padding(n: nat): seq<Byte> {
    seq((4 - n % 4) % 4, _ => PAD)
  }

  /** The encoded text: section 4, padded; section 5, not padded. */
  ghost function Encoded(s: seq<Byte>, url: bool): seq<Byte> {
    Chars(Sextets(s), url) + if url then [] else Padding(|Sextets(s)|)
  }

  /** The octets of the digits of a text; bits short of an octet are dropped. */
  ghost function Decoded(s: seq<Byte>, url: bool): seq<nat> {
    Powers();
    Cut(Join(DigitsIn(s, url), 6), 8)
  }

  // ---------------------------------------------------------------------------
  // The loops
  // ---------------------------------------------------------------------------

  /** What the encoding loop keeps: the digits written and the pending bits are the bits
      of the octets read. */
  ghost predicate Encoding(s: seq<Byte>, i: nat, ds: seq<nat>, pending: seq<Bit>) {
    Powers();
    i <= |s| && Digits(ds) && Join(ds, 6) + pending == Octets(s[..i])
  }

  lemma ReadOctet(s: seq<Byte>, i: nat, ds: seq<nat>, pending: seq<Bit>)
    requires i < |s| && Encoding(s, i, ds, pending) && s[i] < Pow2(8)
    ensures Encoding(s, i + 1, ds, pending + Bits(s[i], 8))
  {
    Powers();
    JoinAppend(ToNats(s[..i]), s[i], 8);
    assert ToNats(s[..i + 1]) == ToNats(s[..i]) + [s[i] as int as nat];
    Regrouped(Join(ds, 6), pending, Bits(s[i], 8));
  }

  lemma WriteDigit(s: seq<Byte>, i: nat, ds: seq<nat>, pending: seq<Bit>)
    requires |pending| >= 6 && Encoding(s, i, ds, pending)
    ensures Num(pending[..6]) < 0x40
    ensures Encoding(s, i, ds + [Num(pending[..6])], pending[6..])
  {
    Powers();
    BitsOfNum(pending[..6]);
    JoinAppend(ds, Num(pending[..6]), 6);
    Regrouped(Join(ds, 6), pending[..6], pending[6..]);
    assert pending[..6] + pending[6..] == pending;
  }

  lemma SextetsAre(s: seq<Byte>, ds: seq<nat>)
    requires Below(ds, 6) && Join(ds, 6) == Filled(Octets(s))
    ensures ds == Sextets(s)
  {
    CutJoined(ds, 6, []);
    assert Join(ds, 6) + [] == Join(ds, 6);
  }

  lemma WholeDigits(s: seq<Byte>, ds: seq<nat>)
    requires Encoding(s, |s|, ds, [])
    ensures Below(ds, 6) && Join(ds, 6) == Octets(s)
  {
    assert s[..|s|] == s;
    assert Join(ds, 6) + [] == Join(ds, 6);
  }

  lemma NothingPending(s: seq<Byte>, ds: seq<nat>)
    requires Encoding(s, |s|, ds, [])
    ensures ds == Sextets(s)
  {
    WholeDigits(s, ds);
    DivModUnique(|Octets(s)|, 6, |ds|, 0);
    FilledAlready(Octets(s));
    SextetsAre(s, ds);
  }

  /** The last digit is written from the pending bits, filled up with zeros. */
  lemma LastWritten(s: seq<Byte>, ds: seq<nat>, pending: seq<Bit>, d: nat)
    requires Encoding(s, |s|, ds, pending) && 0 < |pending| < 6
    requires d == Num(pending + Zeros(6 - |pending|))
    ensures d < 0x40 && ds + [d] == Sextets(s)
  {
    Powers();
    assert s[..|s|] == s;
    var last := pending + Zeros(6 - |pending|);
    BitsOfNum(last);
    JoinAppend(ds, d, 6);
    Regrouped(Join(ds, 6), pending, Zeros(6 - |pending|));
    DivModUnique(|Octets(s)|, 6, |ds|, |pending|);
    FilledTail(Octets(s), |pending|);
    SextetsAre(s, ds + [d]);
  }

  /** The whole state of the encoding loop. */
  ghost predicate Encoder(s: seq<Byte>, i: nat, url: bool, val: Int32, valb: int, out: seq<Byte>,
                          ds: seq<nat>, pending: seq<Bit>) {
    && Encoding(s, i, ds, pending) && out == Chars(ds, url)
    && valb == |pending| - 6 && Holds(val, pending)
  }

  lemma EncoderReads(s: seq<Byte>, i: nat, url: bool, val: Int32, valb: int, out: seq<Byte>,
                     ds: seq<nat>, pending: seq<Bit>)
    requires i < |s| && valb < 0 && Encoder(s, i, url, val, valb, out, ds, pending)
    ensures s[i] < Pow2(8)
    ensures Encoder(s, i + 1, url, Shifted(val, s[i], 8), valb + 8, out, ds, pending + Bits(s[i], 8))
  {
    Powers();
    ReadOctet(s, i, ds, pending);
    ShiftedHolds(val, s[i], 8, pending);
  }

  lemma EncoderWrites(s: seq<Byte>, i: nat, url: bool, val: Int32, valb: int, out: seq<Byte>,
                      ds: seq<nat>, pending: seq<Bit>)
    requires valb >= 0 && Encoder(s, i, url, val, valb, out, ds, pending)
    ensures Encoder(s, i, url, val, valb - 6, out + [EncodeChar(val / Pow2(valb) % 0x40, url)],
                    ds + [Num(pending[..6])], pending[6..])
  {
    Powers();
    TopBits(val, pending, 6);
    WriteDigit(s, i, ds, pending);
  }

  /** What is written after the loop. */
  lemma EncoderEnds(s: seq<Byte>, url: bool, val: Int32, valb: int, out: seq<Byte>,
                    ds: seq<nat>, pending: seq<Bit>)
    requires valb < 0 && Encoder(s, |s|, url, val, valb, out, ds, pending)
    ensures if valb > -6
            then out + [EncodeChar(Wrap(val * 0x100) as int / Pow2(valb + 8) % 0x40, url)] == Chars(Sextets(s), url)
            else out == Chars(Sextets(s), url)
  {
    if valb > -6 {
      LastBits(val, pending);
      LastWritten(s, ds, pending, Num(pending + Zeros(6 - |pending|)));
    } else {
      assert pending == [];
      NothingPending(s, ds);
    }
  }

  /** The encoding loop, without padding. */
  method EncodeDigits(s: seq<Byte>, url: bool) returns (out: seq<Byte>)
    ensures out == Chars(Sextets(s), url)
  {
    out := [];
    var val: Int32, valb := 0, -6;
    ghost var ds: seq<nat>, pending: seq<Bit> := [], [];
    assert s[..0] == [];
    for i := 0 to |s|
      invariant valb < 0 && Encoder(s, i, url, val, valb, out, ds, pending)
    {
      EncoderReads(s, i, url, val, valb, out, ds, pending);
      val := Shifted(val, s[i], 8);
      valb := valb + 8;
      pending := pending + Bits(s[i], 8);
      while valb >= 0
        invariant valb >= -6 && Encoder(s, i + 1, url, val, valb, out, ds, pending)
      {
        EncoderWrites(s, i + 1, url, val, valb, out, ds, pending);
        out := out + [EncodeChar(val / Pow2(valb) % 0x40, url)];
        ds := ds + [Num(pending[..6])];
        pending := pending[6..];
        valb := valb - 6;
      }
    }
    EncoderEnds(s, url, val, valb, out, ds, pending);
    if valb > -6 {
      out := out + [EncodeChar(Wrap(val * 0x100) as int / Pow2(valb + 8) % 0x40, url)];
    }
  }

  /** base64.encode, and base64.encodeURL when `url`. */
  method Encode(s: seq<Byte>, url: bool) returns (out: seq<Byte>)
    ensures out == Encoded(s, url)
    ensures !url ==> |out| % 4 == 0
  {
    out := EncodeDigits(s, url);
    if !url { out := Pad(out); }
  }

  lemma ShortOfFour(m: nat, n: nat)
    requires m <= n <= m + (4 - m % 4) % 4
    ensures if n % 4 == 0 then n - m == (4 - m % 4) % 4 else n < m + (4 - m % 4) % 4
  {
  }

  /** Adds '=' up to a multiple of four characters. */
  method Pad(body: seq<Byte>) returns (out: seq<Byte>)
    ensures out == body + Padding(|body|) && |out| % 4 == 0
  {
    out := body;
    while |out| % 4 != 0
      invariant |body| <= |out| <= |body| + (4 - |body| % 4) % 4
      invariant out == body + seq(|out| - |body|, _ => PAD)
      decreases |body| + 4 - |out|
    {
      ShortOfFour(|body|, |out|);
      out := out + [PAD];
    }
    ShortOfFour(|body|, |out|);
  }

  /** What the decoding loop keeps. */
  ghost predicate Decoding(ds: seq<nat>, out: seq<Byte>, pending: seq<Bit>) {
    Powers();
    Digits(ds) && Octets(out) + pending == Join(ds, 6)
  }

  lemma ReadDigit(ds: seq<nat>, d: nat, out: seq<Byte>, pending: seq<Bit>)
    requires Decoding(ds, out, pending) && d < 0x40 == Pow2(6)
    ensures Decoding(ds + [d], out, pending + Bits(d, 6))
  {
    JoinAppend(ds, d, 6);
    Regrouped(Octets(out), pending, Bits(d, 6));
  }

  lemma WriteOctet(ds: seq<nat>, out: seq<Byte>, pending: seq<Bit>)
    requires Decoding(ds, out, pending) && |pending| >= 8
    ensures Num(pending[..8]) < 0x100
    ensures Decoding(ds, out + [Num(pending[..8])], pending[8..])
  {
    Powers();
    BitsOfNum(pending[..8]);
    var x := Num(pending[..8]);
    JoinAppend(ToNats(out), x, 8);
    assert ToNats(out + [x]) == ToNats(out) + [x];
    Regrouped(Octets(out), pending[..8], pending[8..]);
    assert pending[..8] + pending[8..] == pending;
  }

  lemma NextDigit(s: seq<Byte>, i: nat, url: bool, ds: seq<nat>)
    requires i < |s| && s[i] != PAD && ds + DigitsIn(s[i..], url) == DigitsIn(s, url)
    ensures var d := DecodeChar(s[i], url);
            (if d.Some? then ds + [d.value] else ds) + DigitsIn(s[i + 1..], url) == DigitsIn(s, url)
  {
    assert s[i..][1..] == s[i + 1..];
  }

  /** What is decoded so far, and the digits still to come. */
  ghost predicate Decoder(val: Int32, valb: int, out: seq<Byte>, ds: seq<nat>, pending: seq<Bit>) {
    Decoding(ds, out, pending) && valb == |pending| - 8 && Holds(val, pending)
  }

  lemma DecoderReads(d: nat, val: Int32, valb: int, out: seq<Byte>, ds: seq<nat>, pending: seq<Bit>)
    requires d < 0x40 && valb < 0 && Decoder(val, valb, out, ds, pending)
    ensures d < Pow2(6)
    ensures Decoder(Shifted(val, d, 6), valb + 6, out, ds + [d], pending + Bits(d, 6))
  {
    Powers();
    ReadDigit(ds, d, out, pending);
    ShiftedHolds(val, d, 6, pending);
  }

  lemma DecoderWrites(val: Int32, valb: int, out: seq<Byte>, ds: seq<nat>, pending: seq<Bit>)
    requires valb >= 0 && Decoder(val, valb, out, ds, pending)
    ensures Decoder(val, valb - 8, out + [val / Pow2(valb) % 0x100], ds, pending[8..])
  {
    Powers();
    TopBits(val, pending, 8);
    WriteOctet(ds, out, pending);
  }

  /** What the decoding loop keeps. */
  ghost predicate DecoderAt(s: seq<Byte>, i: nat, url: bool, val: Int32, valb: int, out: seq<Byte>,
                            ds: seq<nat>, pending: seq<Bit>) {
    && i <= |s| && ds + DigitsIn(s[i..], url) == DigitsIn(s, url)
    && valb < 0 && Decoder(val, valb, out, ds, pending)
  }

  lemma DecoderEnds(s: seq<Byte>, i: nat, url: bool, val: Int32, valb: int, out: seq<Byte>,
                    ds: seq<nat>, pending: seq<Bit>)
    requires DecoderAt(s, i, url, val, valb, out, ds, pending) && (i == |s| || s[i] == PAD)
    ensures ToNats(out) == Decoded(s, url)
  {
    assert DigitsIn(s[i..], url) == [];
    assert ds + [] == ds;
    CutJoined(ToNats(out), 8, pending);
  }

  /** base64.decode, and base64.decodeURL when `url`. */
  method Decode(s: seq<Byte>, url: bool) returns (out: seq<Byte>)
    ensures ToNats(out) == Decoded(s, url)
  {
    out := [];
    var val: Int32, valb := 0, -8;
    ghost var ds: seq<nat>, pending: seq<Bit> := [], [];
    var i := 0;
    assert s[0..] == s && ds + DigitsIn(s, url) == DigitsIn(s, url);
    while i < |s| && s[i] != PAD
      invariant DecoderAt(s, i, url, val, valb, out, ds, pending)
    {
      var d := DecodeChar(s[i], url);
      NextDigit(s, i, url, ds);
      if d.Some? {
        DecoderReads(d.value, val, valb, out, ds, pending);
        val := Shifted(val, d.value, 6);
        valb := valb + 6;
        ds, pending := ds + [d.value], pending + Bits(d.value, 6);
        if valb >= 0 {
          DecoderWrites(val, valb, out, ds, pending);
          var c: Byte := val / Pow2(valb) % 0x100;
          out := out + [c];
          pending := pending[8..];
          valb := valb - 8;
        }
      }
      i := i + 1;
    }
    DecoderEnds(s, i, url, val, valb, out, ds, pending);
  }

  // ---------------------------------------------------------------------------
  // Round trip
  // ---------------------------------------------------------------------------

  /** Decoding undoes encoding for every byte string, in both alphabets. */
  lemma DecodedOfEncoded(s: seq<Byte>, url: bool)
    ensures Decoded(Encoded(s, url), url) == ToNats(s)
  {
    var ds := Sextets(s);
    DigitsInChars(ds, url, if url then [] else Padding(|ds|));
    FilledIsWhole(Octets(s));
    JoinCut(Filled(Octets(s)), 6);
    CutJoined(ToNats(s), 8, Zeros((6 - |Octets(s)| % 6) % 6));
  }

  /** Four characters for every three octets begun; without padding, as many as the bits
      need. */
  lemma EncodedLength(s: seq<Byte>, url: bool)
    ensures |Encoded(s, url)| == if url then (4 * |s| + 2) / 3 else (|s| + 2) / 3 * 4
  {
    SextetsLength(s);
    SextetCount(|s| / 3, |s| % 3, |Sextets(s)|);
  }

  lemma SextetsLength(s: seq<Byte>)
    ensures 6 * |Sextets(s)| == 8 * |s| + (6 - 8 * |s| % 6) % 6
  {
    FilledIsWhole(Octets(s));
    JoinCut(Filled(Octets(s)), 6);
  }

  lemma SextetCount(q: nat, r: nat, k: nat)
    requires r < 3 && var n := 3 * q + r; 6 * k == 8 * n + (6 - 8 * n % 6) % 6
    ensures var n := 3 * q + r; k == (4 * n + 2) / 3 && k + (4 - k % 4) % 4 == (n + 2) / 3 * 4
  {
    assert k == 4 * q + if r == 0 then 0 else r + 1;
  }

  /** Characters outside the alphabet, in front of the first '=', change nothing; from the
      first '=' on nothing is read. */
  lemma {:induction false} OthersAreSkipped(a: seq<Byte>, c: Byte, b: seq<Byte>, url: bool)
    ensures c != PAD && DecodeChar(c, url).None? ==> DigitsIn(a + [c] + b, url) == DigitsIn(a + b, url)
    ensures c == PAD ==> DigitsIn(a + [c] + b, url) == DigitsIn(a, url)
  {
    var s := a + [c] + b;
    if a == [] {
      assert s[1..] == b && a + b == b;
    } else {
      OthersAreSkipped(a[1..], c, b, url);
      assert s[1..] == a[1..] + [c] + b && (a + b)[1..] == a[1..] + b;
    }
  }

  method EncodeThenDecode(s: seq<Byte>, url: bool) returns (r: seq<Byte>)
    ensures r == s
  {
    var e := Encode(s, url);
    r := Decode(e, url);
    DecodedOfEncoded(s, url);
    assert |r| == |ToNats(r)| == |s|;
    assert forall i | 0 <= i < |s| :: r[i] == ToNats(r)[i] == s[i];
  }
}
