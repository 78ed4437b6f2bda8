/** UTF-8 validation and the UTF-8/UTF-16 conversions (src/encoding.cpp, `walkUtf8`,
    `encode`, `decode`; src/unicode.cpp, `utf8_encode`).

    Bytes and code units are integers; masks and shifts by constants are written as
    divisions and remainders. */
module Utf {
  import opened Wrappers

  type Byte = b: int | 0 <= b < 0x100
  type Unit = u: int | 0 <= u < 0x10000

  // ---------------------------------------------------------------------------
  // Section 4 of RFC 3629
  // ---------------------------------------------------------------------------

  predicate Tail(b: Byte) {
    0x80 <= b <= 0xBF
  }

  predicate Utf8One(s: seq<Byte>) {
    |s| == 1 && s[0] <= 0x7F
  }

  predicate Utf8Two(s: seq<Byte>) {
    |s| == 2 && 0xC2 <= s[0] <= 0xDF && Tail(s[1])
  }

  predicate Utf8Three(s: seq<Byte>) {
    && |s| == 3 && Tail(s[2])
    && (|| (s[0] == 0xE0 && 0xA0 <= s[1] <= 0xBF)
        || (0xE1 <= s[0] <= 0xEC && Tail(s[1]))
        || (s[0] == 0xED && 0x80 <= s[1] <= 0x9F)
        || (0xEE <= s[0] <= 0xEF && Tail(s[1])))
  }

  predicate Utf8Four(s: seq<Byte>) {
    && |s| == 4 && Tail(s[2]) && Tail(s[3])
    && (|| (s[0] == 0xF0 && 0x90 <= s[1] <= 0xBF)
        || (0xF1 <= s[0] <= 0xF3 && Tail(s[1]))
        || (s[0] == 0xF4 && 0x80 <= s[1] <= 0x8F))
  }

  predicate Utf8Char(s: seq<Byte>) {
    Utf8One(s) || Utf8Two(s) || Utf8Three(s) || Utf8Four(s)
  }

  /** UTF8-octets: any number of UTF8-char. */
  ghost predicate Utf8Octets(s: seq<Byte>) {
    s == [] || exists n {:trigger s[..n]} :: 1 <= n <= |s| && Utf8Char(s[..n]) && Utf8Octets(s[n..])
  }

  // ---------------------------------------------------------------------------
  // Code points
  // ---------------------------------------------------------------------------

  /** The code points UTF-8 and UTF-16 can carry. */
  predicate Scalar(c: int) {
    0 <= c <= 0x10FFFF && !(0xD800 <= c <= 0xDFFF)
  }

  predicate AllScalar(cs: seq<int>) {
    forall i | 0 <= i < |cs| :: Scalar(cs[i])
  }

  /** utf8_encode; nothing above the Unicode range. */
  function Utf8Encode(c: int): seq<Byte>
    requires c >= 0
  {
    if c < 0x80 then [c]
    else if c < 0x800 then [0xC0 + c / 0x40, 0x80 + c % 0x40]
    else if c < 0x10000 then [0xE0 + c / 0x1000, 0x80 + c / 0x40 % 0x40, 0x80 + c % 0x40]
    else if c <= 0x10FFFF then
      [0xF0 + c / 0x40000, 0x80 + c / 0x1000 % 0x40, 0x80 + c / 0x40 % 0x40, 0x80 + c % 0x40]
    else []
  }

  function Utf8(cs: seq<int>): seq<Byte>
    requires AllScalar(cs)
  {
    if cs == [] then [] else Utf8Encode(cs[0]) + Utf8(cs[1..])
  }

  /** Section 2.1 of RFC 2781. */
  function Utf16Encode(c: int): seq<Unit>
    requires Scalar(c)
  {
    if c < 0x10000 then [c]
    else [0xD800 + (c - 0x10000) / 0x400, 0xDC00 + (c - 0x10000) % 0x400]
  }

  function Emit(u: Unit, le: bool): seq<Byte> {
    if le then [u % 0x100, u / 0x100] else [u / 0x100, u % 0x100]
  }

  function EmitAll(us: seq<Unit>, le: bool): seq<Byte> {
    if us == [] then [] else Emit(us[0], le) + EmitAll(us[1..], le)
  }

  function Utf16(cs: seq<int>, le: bool): seq<Byte>
    requires AllScalar(cs)
  {
    if cs == [] then [] else EmitAll(Utf16Encode(cs[0]), le) + Utf16(cs[1..], le)
  }

  lemma {:induction false} Utf8Append(cs: seq<int>, c: int)
    requires AllScalar(cs) && Scalar(c)
    ensures AllScalar(cs + [c]) && Utf8(cs + [c]) == Utf8(cs) + Utf8Encode(c)
  {
    if cs == [] {
      assert [c][1..] == [];
    } else {
      Utf8Append(cs[1..], c);
      assert (cs + [c])[1..] == cs[1..] + [c];
    }
  }

  lemma {:induction false} Utf16Append(cs: seq<int>, c: int, le: bool)
    requires AllScalar(cs) && Scalar(c)
    ensures AllScalar(cs + [c]) && Utf16(cs + [c], le) == Utf16(cs, le) + EmitAll(Utf16Encode(c), le)
  {
    if cs == [] {
      assert [c][1..] == [];
    } else {
      Utf16Append(cs[1..], c, le);
      assert (cs + [c])[1..] == cs[1..] + [c];
    }
  }

  // ---------------------------------------------------------------------------
  // walkUtf8
  // ---------------------------------------------------------------------------

  /** How many bytes follow the lead byte, if it is one. */
  function Need(b: Byte): Option<nat> {
    if b < 0x80 then Some(0)
    else if 0xC0 <= b < 0xE0 then Some(1)
    else if 0xE0 <= b < 0xF0 then Some(2)
    else if 0xF0 <= b < 0xF8 then Some(3)
    else None
  }

  /** The value bits of the lead byte. */
  function LeadBits(b: Byte): nat {
    if b < 0x80 then b else if b < 0xE0 then b % 0x20 else if b < 0xF0 then b % 0x10 else b % 0x08
  }

  predicate Overlong(need: nat, c: int) {
    (need == 1 && c < 0x80) || (need == 2 && c < 0x800) || (need == 3 && c < 0x10000)
  }

  /** The code point of a lead byte and its continuation bytes. */
  function Assemble(s: seq<Byte>): int
    requires s != []
  {
    if |s| == 1 then LeadBits(s[0])
    else Assemble(s[..|s| - 1]) * 0x40 + s[|s| - 1] % 0x40
  }

  /** The checks of one turn of the loop on the bytes from the lead byte on. */
  predicate Accepts(s: seq<Byte>) {
    && s != [] && Need(s[0]).Some?
    && var n := Need(s[0]).value;
       && n < |s|
       && (forall k | 1 <= k <= n :: Tail(s[k]))
       && var c := Assemble(s[..n + 1]);
          !Overlong(n, c) && Scalar(c)
  }

  lemma AssembleTwo(a: Byte, b: Byte)
    ensures Assemble([a, b]) == LeadBits(a) * 0x40 + b % 0x40
  {
    assert [a, b][..1] == [a];
  }

  lemma AssembleThree(a: Byte, b: Byte, c: Byte)
    ensures Assemble([a, b, c]) == LeadBits(a) * 0x1000 + b % 0x40 * 0x40 + c % 0x40
  {
    AssembleTwo(a, b);
    assert [a, b, c][..2] == [a, b];
  }

  lemma AssembleFour(a: Byte, b: Byte, c: Byte, d: Byte)
    ensures Assemble([a, b, c, d]) == LeadBits(a) * 0x40000 + b % 0x40 * 0x1000 + c % 0x40 * 0x40 + d % 0x40
  {
    AssembleThree(a, b, c);
    assert [a, b, c, d][..3] == [a, b, c];
  }

  lemma AcceptsOne(a: Byte)
    requires Need(a) == Some(0)
    ensures Utf8Char([a]) && Scalar(Assemble([a])) && Utf8Encode(Assemble([a])) == [a]
  {
  }

  lemma AcceptsTwo(a: Byte, b: Byte)
    requires Need(a) == Some(1) && Tail(b)
    ensures var c := Assemble([a, b]);
            && (!Overlong(1, c) && Scalar(c) <==> Utf8Two([a, b]))
            && (Utf8Two([a, b]) ==> Utf8Encode(c) == [a, b])
  {
    AssembleTwo(a, b);
  }

  lemma AcceptsThree(a: Byte, b: Byte, d: Byte)
    requires Need(a) == Some(2) && Tail(b) && Tail(d)
    ensures var c := Assemble([a, b, d]);
            && (!Overlong(2, c) && Scalar(c) <==> Utf8Three([a, b, d]))
            && (Utf8Three([a, b, d]) ==> Utf8Encode(c) == [a, b, d])
  {
    AssembleThree(a, b, d);
    var y, z, w := a - 0xE0, b - 0x80, d - 0x80;
    ThreeDigits(y, z, w);
    assert [0xE0 + y, 0x80 + z, 0x80 + w] == [a, b, d];
  }

  lemma ThreeDigits(y: int, z: int, w: int)
    requires 0 <= y < 0x10 && 0 <= z < 0x40 && 0 <= w < 0x40
    ensures var c, s := y * 0x1000 + z * 0x40 + w, [0xE0 + y, 0x80 + z, 0x80 + w];
            && (c >= 0x800 && Scalar(c) <==> Utf8Three(s))
            && (Utf8Three(s) ==> Utf8Encode(c) == s)
  {
    Digits(0, y, z, w);
  }

  lemma AcceptsFour(a: Byte, b: Byte, d: Byte, e: Byte)
    requires Need(a) == Some(3) && Tail(b) && Tail(d) && Tail(e)
    ensures var c := Assemble([a, b, d, e]);
            && (!Overlong(3, c) && Scalar(c) <==> Utf8Four([a, b, d, e]))
            && (Utf8Four([a, b, d, e]) ==> Utf8Encode(c) == [a, b, d, e])
  {
    var x, y, z, w := a - 0xF0, b - 0x80, d - 0x80, e - 0x80;
    FourTails(x, y, z, w);
    FourDigits(x, y, z, w);
    assert [0xF0 + x, 0x80 + y, 0x80 + z, 0x80 + w] == [a, b, d, e];
  }

  lemma FourDigits(x: int, y: int, z: int, w: int)
    requires 0 <= x < 8 && 0 <= y < 0x40 && 0 <= z < 0x40 && 0 <= w < 0x40
    ensures var c, s := x * 0x40000 + y * 0x1000 + z * 0x40 + w, [0xF0 + x, 0x80 + y, 0x80 + z, 0x80 + w];
            && (c >= 0x10000 && Scalar(c) <==> Utf8Four(s))
            && (Utf8Four(s) ==> Utf8Encode(c) == s)
  {
    Digits(x, y, z, w);
    var c := x * 0x40000 + y * 0x1000 + z * 0x40 + w;
    if 0x10000 <= c <= 0x10FFFF { EncodeDigits(x, y, z, w); }
  }

  lemma EncodeDigits(x: int, y: int, z: int, w: int)
    requires 0 <= x < 8 && 0 <= y < 0x40 && 0 <= z < 0x40 && 0 <= w < 0x40
    requires 0x10000 <= x * 0x40000 + y * 0x1000 + z * 0x40 + w <= 0x10FFFF
    ensures Utf8Encode(x * 0x40000 + y * 0x1000 + z * 0x40 + w) == [0xF0 + x, 0x80 + y, 0x80 + z, 0x80 + w]
  {
    Digits(x, y, z, w);
  }

  /** The base-64 digits of a four-byte code point. */
  lemma Digits(x: int, y: int, z: int, w: int)
    requires 0 <= x < 8 && 0 <= y < 0x40 && 0 <= z < 0x40 && 0 <= w < 0x40
    ensures var c := x * 0x40000 + y * 0x1000 + z * 0x40 + w;
            && c / 0x40000 == x && c / 0x1000 % 0x40 == y && c / 0x40 % 0x40 == z && c % 0x40 == w
            && (c >= 0x10000 <==> x > 0 || y >= 0x10)
            && (c <= 0x10FFFF <==> x < 4 || (x == 4 && y < 0x10))
  {
    var c := x * 0x40000 + y * 0x1000 + z * 0x40 + w;
    assert c / 0x1000 == x * 0x40 + y;
    assert c / 0x40 == (x * 0x40 + y) * 0x40 + z;
  }

  /** One turn accepts exactly the characters of the grammar, and recovers the code point
      whose encoding they are. */
  lemma AcceptsIsUtf8Char(s: seq<Byte>, n: nat)
    requires s != [] && Need(s[0]) == Some(n)
    ensures Accepts(s) <==> n + 1 <= |s| && Utf8Char(s[..n + 1])
    ensures Accepts(s) ==> Utf8Encode(Assemble(s[..n + 1])) == s[..n + 1]
  {
    if n < |s| {
      CharIsByLength(s[..n + 1], n);
      assert s[..n + 1][0] == s[0];
      if forall k | 1 <= k <= n :: Tail(s[k]) {
        TurnIsUtf8Char(s[..n + 1], n);
      } else {
        var k :| 1 <= k <= n && !Tail(s[k]);
        assert s[..n + 1][k] == s[k];
        NoTailNoChar(s[..n + 1], k);
      }
    }
  }

  lemma CharIsByLength(t: seq<Byte>, n: nat)
    requires |t| == n + 1 && Need(t[0]) == Some(n)
    ensures n == 0 ==> Utf8Char(t)
  {
  }

  lemma NoTailNoChar(t: seq<Byte>, k: nat)
    requires 1 <= k < |t| && !Tail(t[k])
    ensures !Utf8Char(t)
  {
  }

  lemma TurnIsUtf8Char(t: seq<Byte>, n: nat)
    requires |t| == n + 1 && Need(t[0]) == Some(n) && forall k | 1 <= k <= n :: Tail(t[k])
    ensures !Overlong(n, Assemble(t)) && Scalar(Assemble(t)) <==> Utf8Char(t)
    ensures Utf8Char(t) ==> Utf8Encode(Assemble(t)) == t
  {
    if n == 0 {
      assert t == [t[0]];
      AcceptsOne(t[0]);
    } else if n == 1 {
      assert t == [t[0], t[1]];
      AcceptsTwo(t[0], t[1]);
    } else if n == 2 {
      assert t == [t[0], t[1], t[2]];
      AcceptsThree(t[0], t[1], t[2]);
    } else {
      assert t == [t[0], t[1], t[2], t[3]];
      AcceptsFour(t[0], t[1], t[2], t[3]);
    }
  }

  lemma CharLength(s: seq<Byte>)
    requires Utf8Char(s)
    ensures Need(s[0]) == Some(|s| - 1)
  {
  }

  /** A byte string is in the grammar exactly when its first turn is accepted and the rest
      is in the grammar. */
  lemma OctetsStep(s: seq<Byte>)
    requires s != []
    ensures Utf8Octets(s) <==> Accepts(s) && Utf8Octets(s[Need(s[0]).value + 1..])
  {
    if Need(s[0]).Some? {
      AcceptsIsUtf8Char(s, Need(s[0]).value);
    }
    if Utf8Octets(s) {
      var n :| 1 <= n <= |s| && Utf8Char(s[..n]) && Utf8Octets(s[n..]);
      CharLength(s[..n]);
      assert s[..n][0] == s[0];
    }
  }

  /** One turn of the loop: the code point at offset `i` and how many bytes follow its lead
      byte, or None where the source throws. */
  method ReadChar(s: seq<Byte>, i: nat) returns (r: Option<(int, nat)>)
    requires i < |s|
    ensures r.Some? <==> Accepts(s[i..])
    ensures r.Some? ==>
              var (c, n) := r.value;
              Need(s[i]) == Some(n) && i + n < |s| && c == Assemble(s[i..i + n + 1])
  {
    var need := Need(s[i]);
    if need.None? || i + need.value >= |s| { return None; }
    var n := need.value;
    var c := LeadBits(s[i]);
    var k := 1;
    while k <= n
      invariant 1 <= k <= n + 1
      invariant c == Assemble(s[i..i + k])
      invariant forall j | 1 <= j < k :: Tail(s[i..][j])
    {
      if s[i + k] / 0x40 != 2 {
        assert !Tail(s[i..][k]);
        return None;
      }
      assert s[i..i + k + 1][..k] == s[i..i + k];
      c := c * 0x40 + s[i + k] % 0x40;
      k := k + 1;
    }
    assert s[i..][..n + 1] == s[i..i + n + 1];
    if Overlong(n, c) || 0xD800 <= c <= 0xDFFF || c > 0x10FFFF { return None; }
    AssembleNonNegative(s[i..i + n + 1]);
    r := Some((c, n));
  }

  lemma {:induction false} AssembleNonNegative(s: seq<Byte>)
    requires s != []
    ensures Assemble(s) >= 0
    decreases |s|
  {
    if |s| > 1 { AssembleNonNegative(s[..|s| - 1]); }
  }

  /** What an accepted turn adds. */
  lemma TurnAccepted(s: seq<Byte>, i: nat, cs: seq<int>, c: int, n: nat)
    requires i < |s| && AllScalar(cs) && Utf8(cs) == s[..i]
    requires Accepts(s[i..]) && Need(s[i]) == Some(n) && i + n < |s| && c == Assemble(s[i..i + n + 1])
    ensures Scalar(c) && AllScalar(cs + [c]) && Utf8(cs + [c]) == s[..i + n + 1]
    ensures Utf8Octets(s[i..]) <==> Utf8Octets(s[i + n + 1..])
  {
    var t := s[i..];
    assert t[..n + 1] == s[i..i + n + 1] && t[n + 1..] == s[i + n + 1..];
    AcceptsIsUtf8Char(t, n);
    OctetsStep(t);
    Utf8Append(cs, c);
    assert s[..i + n + 1] == s[..i] + s[i..i + n + 1];
  }

  /** walkUtf8: the code points, or None where the source throws. */
  method WalkUtf8(s: seq<Byte>) returns (r: Option<seq<int>>)
    ensures r.Some? <==> Utf8Octets(s)
    ensures r.Some? ==> AllScalar(r.value) && Utf8(r.value) == s
  {
    var cs := [];
    var i := 0;
    assert s[0..] == s;
    while i < |s|
      invariant i <= |s| && AllScalar(cs) && Utf8(cs) == s[..i]
      invariant Utf8Octets(s) <==> Utf8Octets(s[i..])
    {
      var one := ReadChar(s, i);
      if one.None? {
        OctetsStep(s[i..]);
        return None;
      }
      var (c, n) := one.value;
      TurnAccepted(s, i, cs, c, n);
      cs := cs + [c];
      i := i + n + 1;
    }
    assert s[..i] == s;
    r := Some(cs);
  }

  // ---------------------------------------------------------------------------
  // UTF-8 to UTF-16
  // ---------------------------------------------------------------------------

  /** `s` and `b` are the UTF-8 and the UTF-16 form of the same code points. */
  ghost predicate SameText(s: seq<Byte>, b: seq<Byte>, le: bool) {
    exists cs {:trigger Utf8(cs)} :: AllScalar(cs) && Utf8(cs) == s && Utf16(cs, le) == b
  }

  /** encode(s, "utf-16le") or encode(s, "utf-16be"). */
  method EncodeUtf16(s: seq<Byte>, le: bool) returns (r: Option<seq<Byte>>)
    ensures r.Some? <==> Utf8Octets(s)
    ensures r.Some? ==> SameText(s, r.value, le)
  {
    var walked := WalkUtf8(s);
    if walked.None? { return None; }
    var cs, out := walked.value, [];
    for i := 0 to |cs|
      invariant AllScalar(cs[..i]) && out == Utf16(cs[..i], le)
    {
      Utf16Append(cs[..i], cs[i], le);
      assert cs[..i + 1] == cs[..i] + [cs[i]];
      out := out + EmitAll(Utf16Encode(cs[i]), le);
    }
    assert cs[..|cs|] == cs;
    r := Some(out);
  }

  // ---------------------------------------------------------------------------
  // UTF-16 to UTF-8
  // ---------------------------------------------------------------------------

  ghost predicate IsUtf16(b: seq<Byte>, le: bool) {
    exists cs {:trigger Utf16(cs, le)} :: AllScalar(cs) && Utf16(cs, le) == b
  }

  function ReadUnit(b: seq<Byte>, i: nat, le: bool): Unit
    requires i + 1 < |b|
  {
    if le then b[i] as int + b[i + 1] as int * 0x100 else b[i] as int * 0x100 + b[i + 1] as int
  }

  lemma ReadEmitted(u: Unit, le: bool, rest: seq<Byte>)
    ensures |Emit(u, le)| == 2
    ensures ReadUnit(Emit(u, le) + rest, 0, le) == u
  {
  }

  lemma EmitRead(b: seq<Byte>, le: bool)
    requires |b| >= 2
    ensures Emit(ReadUnit(b, 0, le), le) == b[..2]
  {
  }

  predicate High(u: Unit) {
    0xD800 <= u <= 0xDBFF
  }

  predicate Low(u: Unit) {
    0xDC00 <= u <= 0xDFFF
  }

  /** The first code point of a UTF-16 byte string and the bytes it takes; None where the
      source throws. */
  function First16(b: seq<Byte>, le: bool): (r: Option<(int, nat)>)
    requires |b| >= 2
    ensures r.Some? ==> Scalar(r.value.0) && 2 <= r.value.1 <= |b| && r.value.1 % 2 == 0
  {
    var u := ReadUnit(b, 0, le);
    if High(u) then
      if |b| < 4 then None
      else
        var low := ReadUnit(b, 2, le);
        if !Low(low) then None
        else Some((0x10000 + (u - 0xD800) * 0x400 + (low - 0xDC00), 4))
    else if Low(u) then None
    else Some((u, 2))
  }

  /** It undoes the encoding of one code point. */
  lemma First16OfEncoded(c: int, le: bool, rest: seq<Byte>)
    requires Scalar(c)
    ensures var e := EmitAll(Utf16Encode(c), le);
            |e + rest| >= 2 && First16(e + rest, le) == Some((c, |e|))
  {
    var us := Utf16Encode(c);
    if |us| == 1 {
      assert us == [us[0]] && us[1..] == [];
      assert EmitAll(us, le) == Emit(us[0], le) + [] == Emit(us[0], le);
      ReadEmitted(us[0], le, rest);
    } else {
      assert us == [us[0], us[1]];
      EmitPair(us[0], us[1], le);
      ReadPair(us[0], us[1], le, rest);
    }
  }

  /** Two emitted units are read back one after the other. */
  lemma ReadPair(u: Unit, v: Unit, le: bool, rest: seq<Byte>)
    ensures var b := Emit(u, le) + Emit(v, le) + rest;
            |b| >= 4 && ReadUnit(b, 0, le) == u && ReadUnit(b, 2, le) == v
  {
    var b := Emit(u, le) + Emit(v, le) + rest;
    ReadEmitted(u, le, Emit(v, le) + rest);
    ReadEmitted(v, le, rest);
    assert b == Emit(u, le) + (Emit(v, le) + rest);
    assert ReadUnit(b, 2, le) == ReadUnit(Emit(v, le) + rest, 0, le);
  }

  lemma EmitPair(u: Unit, v: Unit, le: bool)
    ensures EmitAll([u, v], le) == Emit(u, le) + Emit(v, le)
  {
    assert [u, v][1..] == [v] && [v][1..] == [];
    assert EmitAll([v], le) == Emit(v, le) + EmitAll([], le) == Emit(v, le);
  }

  /** And the encoding undoes it. */
  lemma EncodedOfFirst16(b: seq<Byte>, le: bool)
    requires |b| >= 2 && First16(b, le).Some?
    ensures var (c, n) := First16(b, le).value; EmitAll(Utf16Encode(c), le) == b[..n]
  {
    var (c, n) := First16(b, le).value;
    EmitRead(b, le);
    if n == 4 {
      EmitRead(b[2..], le);
      var u, low := ReadUnit(b, 0, le), ReadUnit(b, 2, le);
      assert ReadUnit(b[2..], 0, le) == low;
      assert Utf16Encode(c) == [u, low];
      EmitPair(u, low, le);
      assert b[..4] == b[..2] + b[2..][..2];
    } else {
      assert Utf16Encode(c)[1..] == [];
    }
  }

  lemma Utf16Prepend(c: int, cs: seq<int>, le: bool)
    requires Scalar(c) && AllScalar(cs)
    ensures AllScalar([c] + cs) && Utf16([c] + cs, le) == EmitAll(Utf16Encode(c), le) + Utf16(cs, le)
  {
    assert ([c] + cs)[1..] == cs;
  }

  /** A byte string is UTF-16 exactly when its first code point reads and the rest is. */
  lemma Utf16Step(b: seq<Byte>, le: bool)
    requires b != []
    ensures IsUtf16(b, le) <==>
              |b| >= 2 && First16(b, le).Some? && IsUtf16(b[First16(b, le).value.1..], le)
  {
    if cs :| AllScalar(cs) && Utf16(cs, le) == b {
      First16OfEncoded(cs[0], le, Utf16(cs[1..], le));
      var e := EmitAll(Utf16Encode(cs[0]), le);
      assert b == e + Utf16(cs[1..], le) && b[|e|..] == Utf16(cs[1..], le);
    }
    if |b| >= 2 && First16(b, le).Some? {
      var (c, n) := First16(b, le).value;
      if IsUtf16(b[n..], le) {
        var cs :| AllScalar(cs) && Utf16(cs, le) == b[n..];
        EncodedOfFirst16(b, le);
        Utf16Prepend(c, cs, le);
        assert Utf16([c] + cs, le) == b[..n] + b[n..];
        assert b[..n] + b[n..] == b;
      }
    }
  }

  lemma {:induction false} Utf16IsEven(cs: seq<int>, le: bool)
    requires AllScalar(cs)
    ensures |Utf16(cs, le)| % 2 == 0
  {
    if cs != [] {
      Utf16IsEven(cs[1..], le);
      First16OfEncoded(cs[0], le, []);
      var e := EmitAll(Utf16Encode(cs[0]), le);
      assert e + [] == e;
    }
  }

  /** One turn of the decoding loop. */
  method ReadCode(b: seq<Byte>, i: nat, le: bool) returns (r: Option<(int, nat)>)
    requires i + 2 <= |b|
    ensures r == First16(b[i..], le)
  {
    var u := ReadUnit(b, i, le);
    assert ReadUnit(b[i..], 0, le) == u;
    var next := i + 2;
    if High(u) {
      if next + 2 > |b| { return None; }
      var low := ReadUnit(b, next, le);
      assert ReadUnit(b[i..], 2, le) == low;
      if !Low(low) { return None; }
      r := Some((0x10000 + (u as int - 0xD800) * 0x400 + (low as int - 0xDC00), 4));
    } else if Low(u) {
      r := None;
    } else {
      r := Some((u as int, 2));
    }
  }

  /** What the decoding loop keeps: the code points read are those written. */
  ghost predicate Converting(b: seq<Byte>, i: nat, le: bool, cs: seq<int>, out: seq<Byte>) {
    && i <= |b| && i % 2 == 0 && AllScalar(cs) && out == Utf8(cs) && Utf16(cs, le) == b[..i]
    && (IsUtf16(b, le) <==> IsUtf16(b[i..], le))
  }

  lemma UnitAccepted(b: seq<Byte>, i: nat, cs: seq<int>, c: int, n: nat, le: bool, out: seq<Byte>)
    requires i + 2 <= |b| && Converting(b, i, le, cs, out)
    requires First16(b[i..], le) == Some((c, n))
    ensures n > 0 && Scalar(c) && Converting(b, i + n, le, cs + [c], out + Utf8Encode(c))
  {
    SumIsEven(i, n);
    UnitRead(b, i, cs, c, n, le);
    Utf8Append(cs, c);
    RestIsUtf16(b, i, c, n, le);
  }

  lemma SumIsEven(i: nat, n: nat)
    requires i % 2 == 0 && n % 2 == 0
    ensures (i + n) % 2 == 0
  {
  }

  lemma RestIsUtf16(b: seq<Byte>, i: nat, c: int, n: nat, le: bool)
    requires i + 2 <= |b| && First16(b[i..], le) == Some((c, n))
    ensures i + n <= |b| && (IsUtf16(b[i..], le) <==> IsUtf16(b[i + n..], le))
  {
    Utf16Step(b[i..], le);
    assert b[i..][n..] == b[i + n..];
  }

  lemma UnitRead(b: seq<Byte>, i: nat, cs: seq<int>, c: int, n: nat, le: bool)
    requires i + 2 <= |b| && AllScalar(cs) && Utf16(cs, le) == b[..i]
    requires First16(b[i..], le) == Some((c, n))
    ensures i + n <= |b| && AllScalar(cs + [c]) && Utf16(cs + [c], le) == b[..i + n]
  {
    EncodedOfFirst16(b[i..], le);
    Utf16Append(cs, c, le);
    assert b[i..][..n] == b[i..i + n];
    assert b[..i + n] == b[..i] + b[i..i + n];
  }

  lemma Converted(b: seq<Byte>, le: bool, cs: seq<int>, out: seq<Byte>)
    requires Converting(b, |b|, le, cs, out)
    ensures IsUtf16(b, le) && SameText(out, b, le)
  {
    assert b[..|b|] == b && Utf16([], le) == b[|b|..];
  }

  /** decode(b, "utf-16le") or decode(b, "utf-16be"). */
  method DecodeUtf16(b: seq<Byte>, le: bool) returns (r: Option<seq<Byte>>)
    ensures r.Some? <==> IsUtf16(b, le)
    ensures r.Some? ==> SameText(r.value, b, le)
  {
    if |b| % 2 != 0 {
      forall cs | AllScalar(cs) ensures Utf16(cs, le) != b { Utf16IsEven(cs, le); }
      return None;
    }
    var out := [];
    ghost var cs := [];
    var i := 0;
    assert b[0..] == b;
    while i < |b|
      invariant i <= |b| && i % 2 == 0
      invariant Converting(b, i, le, cs, out)
      decreases |b| - i
    {
      var one := ReadCode(b, i, le);
      if one.None? {
        Utf16Step(b[i..], le);
        return None;
      }
      var (c, n) := one.value;
      UnitAccepted(b, i, cs, c, n, le, out);
      cs := cs + [c];
      out := out + Utf8Encode(c);
      i := i + n;
    }
    Converted(b, le, cs, out);
    r := Some(out);
  }

  // ---------------------------------------------------------------------------
  // The conversions undo each other
  // ---------------------------------------------------------------------------

  /** Different code points have different UTF-16 forms. */
  lemma {:induction false} Utf16Injective(cs: seq<int>, ds: seq<int>, le: bool)
    requires AllScalar(cs) && AllScalar(ds) && Utf16(cs, le) == Utf16(ds, le)
    ensures cs == ds
  {
    if cs != [] { First16OfEncoded(cs[0], le, Utf16(cs[1..], le)); }
    if ds != [] { First16OfEncoded(ds[0], le, Utf16(ds[1..], le)); }
    if cs != [] && ds != [] {
      var e := EmitAll(Utf16Encode(cs[0]), le);
      assert Utf16(cs, le)[|e|..] == Utf16(cs[1..], le);
      assert Utf16(ds, le)[|e|..] == Utf16(ds[1..], le);
      Utf16Injective(cs[1..], ds[1..], le);
      assert cs == [cs[0]] + cs[1..] && ds == [ds[0]] + ds[1..];
    }
  }

  /** The lead byte of an encoded code point tells how long it is. */
  lemma EncodedIsChar(c: int)
    requires Scalar(c)
    ensures Utf8Char(Utf8Encode(c))
    ensures var e := Utf8Encode(c); Need(e[0]) == Some(|e| - 1) && Assemble(e) == c
  {
    if c < 0x800 {
      if c >= 0x80 { AssembleTwo(0xC0 + c / 0x40, 0x80 + c % 0x40); }
    } else {
      DigitsOf(c);
      if c < 0x10000 {
        ThreeBytes(c / 0x1000, c / 0x40 % 0x40, c % 0x40);
      } else {
        FourBytes(c / 0x40000, c / 0x1000 % 0x40, c / 0x40 % 0x40, c % 0x40);
      }
    }
  }

  lemma DigitsOf(c: nat)
    ensures c == c / 0x1000 * 0x1000 + c / 0x40 % 0x40 * 0x40 + c % 0x40
    ensures c == c / 0x40000 * 0x40000 + c / 0x1000 % 0x40 * 0x1000 + c / 0x40 % 0x40 * 0x40 + c % 0x40
  {
    assert c / 0x40 / 0x40 == c / 0x1000;
    assert c / 0x1000 / 0x40 == c / 0x40000;
  }

  lemma ThreeBytes(y: int, z: int, w: int)
    requires 0 <= y < 0x10 && 0 <= z < 0x40 && 0 <= w < 0x40
    requires var c := y * 0x1000 + z * 0x40 + w; c >= 0x800 && Scalar(c)
    ensures var c := y * 0x1000 + z * 0x40 + w;
            var e := Utf8Encode(c);
            Utf8Char(e) && |e| == 3 && Need(e[0]) == Some(2) && Assemble(e) == c
  {
    Digits(0, y, z, w);
    AssembleThree(0xE0 + y, 0x80 + z, 0x80 + w);
  }

  lemma FourBytes(x: int, y: int, z: int, w: int)
    requires 0 <= x < 8 && 0 <= y < 0x40 && 0 <= z < 0x40 && 0 <= w < 0x40
    requires var c := x * 0x40000 + y * 0x1000 + z * 0x40 + w; 0x10000 <= c <= 0x10FFFF
    ensures var c := x * 0x40000 + y * 0x1000 + z * 0x40 + w;
            var e := Utf8Encode(c);
            Utf8Char(e) && |e| == 4 && Need(e[0]) == Some(3) && Assemble(e) == c
  {
    EncodeDigits(x, y, z, w);
    FourTails(x, y, z, w);
    FourIsChar(x, y, z, w);
  }

  lemma FourTails(x: int, y: int, z: int, w: int)
    requires 0 <= x < 8 && 0 <= y < 0x40 && 0 <= z < 0x40 && 0 <= w < 0x40
    ensures Assemble([0xF0 + x, 0x80 + y, 0x80 + z, 0x80 + w]) == x * 0x40000 + y * 0x1000 + z * 0x40 + w
  {
    AssembleFour(0xF0 + x, 0x80 + y, 0x80 + z, 0x80 + w);
    assert (0x80 + y) % 0x40 == y;
    assert (0x80 + z) % 0x40 == z;
    assert (0x80 + w) % 0x40 == w;
  }

  lemma FourIsChar(x: int, y: int, z: int, w: int)
    requires 0 <= x < 8 && 0 <= y < 0x40 && 0 <= z < 0x40 && 0 <= w < 0x40
    requires var c := x * 0x40000 + y * 0x1000 + z * 0x40 + w; 0x10000 <= c <= 0x10FFFF
    ensures Utf8Char([0xF0 + x, 0x80 + y, 0x80 + z, 0x80 + w])
  {
    Digits(x, y, z, w);
    assert Utf8Four([0xF0 + x, 0x80 + y, 0x80 + z, 0x80 + w]);
  }

  /** Different code points have different UTF-8 forms. */
  lemma {:induction false} Utf8Injective(cs: seq<int>, ds: seq<int>)
    requires AllScalar(cs) && AllScalar(ds) && Utf8(cs) == Utf8(ds)
    ensures cs == ds
  {
    if cs != [] { EncodedIsChar(cs[0]); }
    if ds != [] { EncodedIsChar(ds[0]); }
    if cs != [] && ds != [] {
      var e, f := Utf8Encode(cs[0]), Utf8Encode(ds[0]);
      assert Utf8(cs)[0] == e[0] && Utf8(ds)[0] == f[0];
      assert Utf8(cs)[..|e|] == e && Utf8(ds)[..|f|] == f;
      assert Utf8(cs)[|e|..] == Utf8(cs[1..]) && Utf8(ds)[|f|..] == Utf8(ds[1..]);
      Utf8Injective(cs[1..], ds[1..]);
      assert cs == [cs[0]] + cs[1..] && ds == [ds[0]] + ds[1..];
    }
  }

  /** Each text has one UTF-16 form and each UTF-16 form is of one text. */
  lemma SameTextIsBijective(s: seq<Byte>, b: seq<Byte>, s': seq<Byte>, b': seq<Byte>, le: bool)
    requires SameText(s, b, le) && SameText(s', b', le)
    ensures s == s' <==> b == b'
  {
    var cs :| AllScalar(cs) && Utf8(cs) == s && Utf16(cs, le) == b;
    var ds :| AllScalar(ds) && Utf8(ds) == s' && Utf16(ds, le) == b';
    if s == s' { Utf8Injective(cs, ds); }
    if b == b' { Utf16Injective(cs, ds, le); }
  }

  /** Decoding undoes encoding, on every byte string encode accepts. */
  method EncodeThenDecode(s: seq<Byte>, le: bool) returns (r: Option<seq<Byte>>)
    ensures r == if Utf8Octets(s) then Some(s) else None
  {
    var e := EncodeUtf16(s, le);
    if e.None? { return None; }
    r := DecodeUtf16(e.value, le);
    var cs :| AllScalar(cs) && Utf8(cs) == s && Utf16(cs, le) == e.value;
    SameTextIsBijective(s, e.value, r.value, e.value, le);
  }

  /** Encoding undoes decoding, on every byte string decode accepts. */
  method DecodeThenEncode(b: seq<Byte>, le: bool) returns (r: Option<seq<Byte>>)
    ensures r == if IsUtf16(b, le) then Some(b) else None
  {
    var d := DecodeUtf16(b, le);
    if d.None? { return None; }
    EncodedIsOctets(d.value, b, le);
    r := EncodeUtf16(d.value, le);
    SameTextIsBijective(d.value, b, d.value, r.value, le);
  }

  lemma EncodedIsOctets(s: seq<Byte>, b: seq<Byte>, le: bool)
    requires SameText(s, b, le)
    ensures Utf8Octets(s)
  {
    var cs :| AllScalar(cs) && Utf8(cs) == s && Utf16(cs, le) == b;
    Utf8IsOctets(cs);
  }

  lemma {:induction false} Utf8IsOctets(cs: seq<int>)
    requires AllScalar(cs)
    ensures Utf8Octets(Utf8(cs))
  {
    if cs != [] {
      Utf8IsOctets(cs[1..]);
      EncodedIsChar(cs[0]);
      var s, e := Utf8(cs), Utf8Encode(cs[0]);
      assert s[..|e|] == e && s[|e|..] == Utf8(cs[1..]);
    }
  }

  // ---------------------------------------------------------------------------
  // Known texts
  // ---------------------------------------------------------------------------

  /** The first example of section 7 of RFC 3629. */
  lemma KnownUtf8()
    ensures Utf8([0x41, 0x2262, 0x391, 0x2E]) == [0x41, 0xE2, 0x89, 0xA2, 0xCE, 0x91, 0x2E]
  {
    assert [0x41, 0x2262, 0x391, 0x2E][1..] == [0x2262, 0x391, 0x2E];
    assert [0x2262, 0x391, 0x2E][1..] == [0x391, 0x2E] && [0x391, 0x2E][1..] == [0x2E] && [0x2E][1..] == [];
  }

  /** The character U+12345, the example of section 4 of RFC 2781, in both byte orders. */
  lemma KnownUtf16()
    ensures Utf16([0x12345], false) == [0xD8, 0x08, 0xDF, 0x45]
    ensures Utf16([0x12345], true) == [0x08, 0xD8, 0x45, 0xDF]
    ensures Utf8([0x12345]) == [0xF0, 0x92, 0x8D, 0x85]
  {
    assert [0x12345][1..] == [];
    assert Utf16Encode(0x12345) == [0xD808, 0xDF45];
    EmitPair(0xD808, 0xDF45, false);
    EmitPair(0xD808, 0xDF45, true);
  }
}
