/** Percent encoding and query strings (src/interpreter_setup.cpp, the url namespace). */
module Query {
  import opened Wrappers
  import opened Sequences

  /** A byte string: its characters stand for the bytes. */
  ghost predicate Bytes(s: string) {
    forall i | 0 <= i < |s| :: s[i] as int < 0x100
  }

  // ---------------------------------------------------------------------------
  // Percent encoding
  // ---------------------------------------------------------------------------

  predicate Digit(c: char) {
    '0' <= c <= '9'
  }

  predicate Alpha(c: char) {
    'a' <= c <= 'z' || 'A' <= c <= 'Z'
  }

  /** Section 2.3 of RFC 3986. */
  predicate Unreserved(c: char) {
    Alpha(c) || Digit(c) || c == '-' || c == '_' || c == '.' || c == '~'
  }

  function HexDigit(n: nat): char
    requires n < 16
  {
    if n < 10 then '0' + n as char else 'A' + (n - 10) as char
  }

  function HexVal(c: char): (r: Option<nat>)
    ensures r.Some? ==> r.value < 16
  {
    if '0' <= c <= '9' then Some((c - '0') as nat)
    else if 'a' <= c <= 'f' then Some((c - 'a') as nat + 10)
    else if 'A' <= c <= 'F' then Some((c - 'A') as nat + 10)
    else None
  }

  /** One byte in the encoded text. */
  function EncodedOctet(c: char): string {
    if Unreserved(c) then [c] else ['%', HexDigit(c as nat / 16 % 16), HexDigit(c as nat % 16)]
  }

  function Encoded(s: string): string {
    if s == [] then [] else EncodedOctet(s[0]) + Encoded(s[1..])
  }

  predicate EscapeAt(s: string, i: nat) {
    && i + 2 < |s| && s[i] == '%' && HexVal(s[i + 1]).Some? && HexVal(s[i + 2]).Some?
  }

  function Escaped(hi: char, lo: char): char
    requires HexVal(hi).Some? && HexVal(lo).Some?
  {
    (HexVal(hi).value * 16 + HexVal(lo).value) as char
  }

  function Decoded(s: string): string {
    if s == [] then []
    else if s[0] == '+' then [' '] + Decoded(s[1..])
    else if EscapeAt(s, 0) then [Escaped(s[1], s[2])] + Decoded(s[3..])
    else [s[0]] + Decoded(s[1..])
  }

  lemma {:induction false} EncodedAppend(s: string, c: char)
    ensures Encoded(s + [c]) == Encoded(s) + EncodedOctet(c)
  {
    if s == [] {
      assert [c][1..] == [];
    } else {
      EncodedAppend(s[1..], c);
      assert (s + [c])[1..] == s[1..] + [c] && (s + [c])[0] == s[0];
      Regrouped(EncodedOctet(s[0]), Encoded(s[1..]), EncodedOctet(c));
    }
  }

  /** Section 2.3 of RFC 3986: letters, figures and four more characters. */
  lemma UnreservedSet(c: char)
    ensures Unreserved(c) <==>
              || 'A' <= c <= 'Z' || 'a' <= c <= 'z' || '0' <= c <= '9'
              || c in ['-', '.', '_', '~']
    ensures !Unreserved(c) ==> |Encoded([c])| == 3 && Encoded([c])[0] == '%'
  {
    assert [c][1..] == [];
  }

  /** The digits are those of base 16, capital letters above 9; small letters are read too. */
  lemma HexTable(n: nat)
    requires n < 16
    ensures HexDigit(n) == "0123456789ABCDEF"[n] && HexVal(HexDigit(n)) == Some(n)
    ensures HexVal("0123456789abcdef"[n]) == Some(n)
    ensures forall c | HexVal(c) == Some(n) :: c == "0123456789ABCDEF"[n] || c == "0123456789abcdef"[n]
  {
  }

  function Spaced(s: string): string {
    seq(|s|, i requires 0 <= i < |s| => if s[i] == '+' then ' ' else s[i])
  }

  /** A plus is read as a space. */
  lemma {:induction false} PlusIsSpace(s: string)
    ensures Decoded(Spaced(s)) == Decoded(s)
    decreases |s|
  {
    if s != [] {
      var n := if EscapeAt(s, 0) && s[0] != '+' then 3 else 1;
      PlusIsSpace(s[n..]);
      assert Spaced(s)[n..] == Spaced(s[n..]);
      assert EscapeAt(Spaced(s), 0) == EscapeAt(s, 0);
    }
  }

  /** Text without '%' and '+' is read as it stands. */
  lemma {:induction false} PlainIsKept(s: string)
    requires '%' !in s && '+' !in s
    ensures Decoded(s) == s
  {
    if s != [] {
      PlainIsKept(s[1..]);
      assert s == [s[0]] + s[1..];
    }
  }

  /** An escape in either case is one character; a broken one stays. */
  lemma EscapesAreRead(rest: string)
    ensures Decoded("%2F" + rest) == "/" + Decoded(rest) && Decoded("%2f" + rest) == "/" + Decoded(rest)
    ensures Decoded("%2") == "%2" && Decoded("%zz") == "%zz" && Encoded("/ ") == "%2F%20"
  {
    assert ("%2F" + rest)[3..] == rest && ("%2f" + rest)[3..] == rest;
    assert "%2"[1..] == "2" && "%zz"[1..] == "zz";
    assert !EscapeAt("%2", 0) && !EscapeAt("%zz", 0);
    PlainIsKept("2");
    PlainIsKept("zz");
    assert "/ "[1..] == " " && " "[1..] == "";
  }

  method PercentEncode(s: string) returns (out: string)
    ensures out == Encoded(s)
  {
    out := [];
    for i := 0 to |s|
      invariant out == Encoded(s[..i])
    {
      EncodedAppend(s[..i], s[i]);
      assert s[..i + 1] == s[..i] + [s[i]];
      var c := s[i];
      if Unreserved(c) {
        out := out + [c];
      } else {
        out := out + ['%', HexDigit(c as nat / 16 % 16), HexDigit(c as nat % 16)];
      }
    }
    assert s[..|s|] == s;
  }

  /** How many characters of the text the next byte takes, and the byte. */
  function Next(s: string, i: nat): (nat, char)
    requires i < |s|
  {
    if s[i] == '+' then (1, ' ')
    else if EscapeAt(s, i) then (3, Escaped(s[i + 1], s[i + 2]))
    else (1, s[i])
  }

  lemma DecodeStep(s: string, i: nat)
    requires i < |s|
    ensures var (n, c) := Next(s, i);
            i + n <= |s| && Decoded(s[i..]) == [c] + Decoded(s[i + n..])
  {
    var rest := s[i..];
    assert EscapeAt(rest, 0) == EscapeAt(s, i);
    assert rest[Next(s, i).0..] == s[i + Next(s, i).0..];
  }

  method PercentDecode(s: string) returns (out: string)
    ensures out == Decoded(s)
  {
    out := [];
    var i: nat := 0;
    while i < |s|
      invariant i <= |s| && out + Decoded(s[i..]) == Decoded(s)
    {
      DecodeStep(s, i);
      Regrouped(out, [Next(s, i).1], Decoded(s[i + Next(s, i).0..]));
      if s[i] == '+' {
        out := out + [' '];
        i := i + 1;
      } else if EscapeAt(s, i) {
        out := out + [Escaped(s[i + 1], s[i + 2])];
        i := i + 3;
      } else {
        out := out + [s[i]];
        i := i + 1;
      }
    }
  }

  lemma HexRoundTrip(n: nat)
    requires n < 16
    ensures HexVal(HexDigit(n)) == Some(n) && Unreserved(HexDigit(n))
  {
  }

  lemma DecodedOctet(c: char, rest: string)
    requires c as int < 0x100
    ensures Decoded(EncodedOctet(c) + rest) == [c] + Decoded(rest)
  {
    var s := EncodedOctet(c) + rest;
    if Unreserved(c) {
      assert s[1..] == rest;
    } else {
      var hi, lo := c as nat / 16 % 16, c as nat % 16;
      HexRoundTrip(hi);
      HexRoundTrip(lo);
      assert s == ['%', HexDigit(hi), HexDigit(lo)] + rest && s[3..] == rest;
      assert (hi * 16 + lo) as char == c;
    }
  }

  /** Decoding undoes encoding for every byte string. */
  lemma {:induction false} DecodedOfEncoded(s: string)
    requires Bytes(s)
    ensures Decoded(Encoded(s)) == s
  {
    if s != [] {
      DecodedOfEncoded(s[1..]);
      DecodedOctet(s[0], Encoded(s[1..]));
    }
  }

  /** Encoded text holds unreserved characters and '%' only. */
  lemma {:induction false} EncodedIsPlain(s: string)
    ensures forall i | 0 <= i < |Encoded(s)| :: Unreserved(Encoded(s)[i]) || Encoded(s)[i] == '%'
  {
    if s != [] {
      EncodedIsPlain(s[1..]);
      HexRoundTrip(s[0] as nat / 16 % 16);
      HexRoundTrip(s[0] as nat % 16);
    }
  }

  // ---------------------------------------------------------------------------
  // buildQuery
  // ---------------------------------------------------------------------------

  type Pair = (string, string)

  function PairText(p: Pair): string {
    Encoded(p.0) + ['='] + Encoded(p.1)
  }

  function QueryText(pairs: seq<Pair>): string {
    if pairs == [] then []
    else if |pairs| == 1 then PairText(pairs[0])
    else QueryText(pairs[..|pairs| - 1]) + ['&'] + PairText(pairs[|pairs| - 1])
  }

  /** The values of the map; strings, booleans and numbers are given by their text. */
  datatype Element = NilElement | TextElement(text: string) | NestedElement
  datatype QueryValue = NilValue | TextValue(text: string) | ArrayValue(elements: seq<Element>) | OtherValue

  /** The pairs of the elements up to the first nested one. */
  function ElementPairs(key: string, es: seq<Element>): seq<Pair> {
    if es == [] then []
    else if es[|es| - 1].TextElement? then
      ElementPairs(key, es[..|es| - 1]) + [(key, es[|es| - 1].text)]
    else ElementPairs(key, es[..|es| - 1])
  }

  /** The pairs an entry stands for, or None where the source throws. */
  function PairsOf(key: string, v: QueryValue): Option<seq<Pair>> {
    match v
    case NilValue => Some([])
    case TextValue(t) => Some([(key, t)])
    case ArrayValue(es) =>
      if NestedElement in es then None else Some(ElementPairs(key, es))
    case OtherValue => None
  }

  function EntryPairs(entries: seq<(string, QueryValue)>): Option<seq<Pair>> {
    if entries == [] then Some([])
    else
      var before, last := EntryPairs(entries[..|entries| - 1]), entries[|entries| - 1];
      var pairs := PairsOf(last.0, last.1);
      if before.None? || pairs.None? then None else Some(before.value + pairs.value)
  }

  /** Building throws exactly on a value that is no text, nil or array, and on an array with
      a nested one. */
  lemma {:induction false} BuildFailsExactlyWhen(entries: seq<(string, QueryValue)>)
    ensures EntryPairs(entries).None? <==>
            exists e | e in entries :: e.1.OtherValue? || (e.1.ArrayValue? && NestedElement in e.1.elements)
  {
    if entries != [] {
      BuildFailsExactlyWhen(entries[..|entries| - 1]);
      assert entries == entries[..|entries| - 1] + [entries[|entries| - 1]];
    }
  }

  /** The pairs of two lists of entries are those of the first, then those of the second. */
  lemma {:induction false} EntriesJoin(a: seq<(string, QueryValue)>, b: seq<(string, QueryValue)>)
    requires EntryPairs(a).Some? && EntryPairs(b).Some?
    ensures EntryPairs(a + b) == Some(EntryPairs(a).value + EntryPairs(b).value)
  {
    if b == [] {
      assert a + b == a && EntryPairs(a).value + [] == EntryPairs(a).value;
    } else {
      var init := b[..|b| - 1];
      EntriesJoin(a, init);
      assert (a + b)[..|a + b| - 1] == a + init;
      Regrouped(EntryPairs(a).value, EntryPairs(init).value, PairsOf(b[|b| - 1].0, b[|b| - 1].1).value);
    }
  }

  lemma {:induction false} ElementsJoin(key: string, a: seq<Element>, b: seq<Element>)
    ensures ElementPairs(key, a + b) == ElementPairs(key, a) + ElementPairs(key, b)
  {
    if b == [] {
      assert a + b == a;
    } else {
      ElementsJoin(key, a, b[..|b| - 1]);
      assert (a + b)[..|a + b| - 1] == a + b[..|b| - 1];
    }
  }

  lemma OneEntry(key: string, v: QueryValue)
    requires PairsOf(key, v).Some?
    ensures EntryPairs([(key, v)]) == PairsOf(key, v)
  {
    assert [(key, v)][..0] == [];
    assert [] + PairsOf(key, v).value == PairsOf(key, v).value;
  }

  lemma OneElement(key: string, e: Element)
    ensures ElementPairs(key, [e]) == if e.TextElement? then [(key, e.text)] else []
  {
    assert [e][..0] == [];
  }

  /** A text is one pair, nil none, an array one pair for each text in it. */
  lemma SinglePairs(key: string, t: string, u: string)
    ensures EntryPairs([(key, TextValue(t))]) == Some([(key, t)])
    ensures EntryPairs([(key, NilValue)]) == Some([])
    ensures var v := ArrayValue([TextElement(t), NilElement, TextElement(u)]);
            EntryPairs([(key, v)]) == Some([(key, t), (key, u)])
  {
    OneEntry(key, TextValue(t));
    OneEntry(key, NilValue);
    var es := [TextElement(t), NilElement, TextElement(u)];
    assert es == [TextElement(t)] + [NilElement] + [TextElement(u)];
    ElementsJoin(key, [TextElement(t)] + [NilElement], [TextElement(u)]);
    ElementsJoin(key, [TextElement(t)], [NilElement]);
    OneElement(key, TextElement(t));
    OneElement(key, NilElement);
    OneElement(key, TextElement(u));
    assert ElementPairs(key, es) == [(key, t), (key, u)];
    OneEntry(key, ArrayValue(es));
  }

  lemma QueryTextAppend(pairs: seq<Pair>, p: Pair)
    ensures QueryText(pairs + [p]) ==
            (if pairs == [] then [] else QueryText(pairs) + ['&']) + PairText(p)
    ensures QueryText(pairs + [p]) != []
  {
    assert (pairs + [p])[..|pairs|] == pairs;
  }

  lemma QueryTextEmpty(pairs: seq<Pair>)
    ensures QueryText(pairs) == [] <==> pairs == []
  {
    if pairs != [] {
      var n := |pairs| - 1;
      assert pairs == pairs[..n] + [pairs[n]];
      QueryTextAppend(pairs[..n], pairs[n]);
    }
  }

  /** `append` of the source. */
  method AppendPair(out: string, key: string, value: string, ghost pairs: seq<Pair>) returns (r: string)
    requires out == QueryText(pairs)
    ensures r == QueryText(pairs + [(key, value)])
  {
    QueryTextEmpty(pairs);
    QueryTextAppend(pairs, (key, value));
    r := out;
    if r != [] { r := r + ['&']; }
    var k := PercentEncode(key);
    var v := PercentEncode(value);
    r := r + (k + ['='] + v);
  }

  lemma ElementsNext(key: string, es: seq<Element>, i: nat, pairs: seq<Pair>)
    requires i < |es|
    ensures pairs + ElementPairs(key, es[..i + 1]) ==
            if es[i].TextElement? then pairs + ElementPairs(key, es[..i]) + [(key, es[i].text)]
            else pairs + ElementPairs(key, es[..i])
  {
    assert es[..i + 1][..i] == es[..i];
  }

  /** The loop over an array value. */
  method BuildElements(out: string, key: string, es: seq<Element>, ghost pairs: seq<Pair>)
    returns (r: Option<string>)
    requires out == QueryText(pairs)
    ensures r.None? <==> NestedElement in es
    ensures r.Some? ==> r.value == QueryText(pairs + ElementPairs(key, es))
  {
    var s := out;
    assert pairs + [] == pairs;
    for i := 0 to |es|
      invariant NestedElement !in es[..i] && s == QueryText(pairs + ElementPairs(key, es[..i]))
    {
      ElementsNext(key, es, i, pairs);
      if es[i].NestedElement? { return None; }
      if es[i].TextElement? {
        s := AppendPair(s, key, es[i].text, pairs + ElementPairs(key, es[..i]));
      }
    }
    assert es[..|es|] == es;
    r := Some(s);
  }

  method BuildQueryPair(out: string, key: string, v: QueryValue, ghost pairs: seq<Pair>)
    returns (r: Option<string>)
    requires out == QueryText(pairs)
    ensures r.Some? <==> PairsOf(key, v).Some?
    ensures r.Some? ==> r.value == QueryText(pairs + PairsOf(key, v).value)
  {
    assert pairs + [] == pairs;
    match v
    case NilValue =>
      r := Some(out);
    case TextValue(t) =>
      var s := AppendPair(out, key, t, pairs);
      r := Some(s);
    case ArrayValue(es) =>
      r := BuildElements(out, key, es, pairs);
    case OtherValue =>
      r := None;
  }

  /** url.buildQuery, over the entries in the order the map yields them. */
  method BuildQuery(entries: seq<(string, QueryValue)>) returns (r: Option<string>)
    ensures r.Some? <==> EntryPairs(entries).Some?
    ensures r.Some? ==> r.value == QueryText(EntryPairs(entries).value)
  {
    var out: string := [];
    ghost var pairs: seq<Pair> := [];
    for i := 0 to |entries|
      invariant EntryPairs(entries[..i]) == Some(pairs) && out == QueryText(pairs)
    {
      assert entries[..i + 1][..i] == entries[..i];
      var (k, v) := entries[i];
      var next := BuildQueryPair(out, k, v, pairs);
      if next.None? {
        EntriesFail(entries, i + 1);
        return None;
      }
      out := next.value;
      pairs := pairs + PairsOf(k, v).value;
    }
    assert entries[..|entries|] == entries;
    r := Some(out);
  }

  lemma {:induction false} EntriesFail(entries: seq<(string, QueryValue)>, i: nat)
    requires i <= |entries| && EntryPairs(entries[..i]).None?
    ensures EntryPairs(entries).None?
    decreases |entries|
  {
    if i == |entries| {
      assert entries[..i] == entries;
    } else {
      assert entries[..|entries| - 1][..i] == entries[..i];
      EntriesFail(entries[..|entries| - 1], i);
    }
  }

  // ---------------------------------------------------------------------------
  // parseQuery
  // ---------------------------------------------------------------------------

  /** std::string::find: the first `c` at `from` or later, or the length. */
  function FindFrom(s: string, c: char, from: nat): (r: nat)
    requires from <= |s|
    ensures from <= r <= |s|
    decreases |s| - from
  {
    if from == |s| || s[from] == c then from else FindFrom(s, c, from + 1)
  }

  lemma {:induction false} FindFinds(s: string, c: char, from: nat)
    requires from <= |s|
    ensures var r := FindFrom(s, c, from);
            (r < |s| ==> s[r] == c) && forall i | from <= i < r :: s[i] != c
    decreases |s| - from
  {
    if from < |s| && s[from] != c { FindFinds(s, c, from + 1); }
  }

  function Find(s: string, c: char): nat {
    FindFrom(s, c, 0)
  }

  /** One segment between ampersands. */
  function SegmentPair(seg: string): Pair {
    var e := Find(seg, '=');
    (Decoded(seg[..e]), if e < |seg| then Decoded(seg[e + 1..]) else [])
  }

  function NonEmpty(seg: string): seq<string> {
    if seg == [] then [] else [seg]
  }

  /** The segments between ampersands from `i` on, empty ones left out. */
  function Segments(s: string, i: nat): seq<string>
    requires i <= |s|
    decreases |s| - i, 1
  {
    SegmentsTo(s, i, FindFrom(s, '&', i))
  }

  /** The same, given where the first segment ends. */
  function SegmentsTo(s: string, i: nat, amp: nat): seq<string>
    requires i <= amp <= |s|
    decreases |s| - i, 0
  {
    if amp < |s| then NonEmpty(s[i..amp]) + Segments(s, amp + 1) else NonEmpty(s[i..amp])
  }

  function PairsIn(segs: seq<string>): (r: seq<Pair>)
    ensures |r| == |segs|
  {
    seq(|segs|, k requires 0 <= k < |segs| => SegmentPair(segs[k]))
  }

  function ParsedPairs(s: string): seq<Pair> {
    PairsIn(Segments(s, 0))
  }

  lemma {:induction false} FindIs(s: string, c: char, from: nat, r: nat)
    requires from <= r <= |s| && (r < |s| ==> s[r] == c)
    requires forall i | from <= i < r :: s[i] != c
    ensures FindFrom(s, c, from) == r
    decreases r - from
  {
    if from < r { FindIs(s, c, from + 1, r); }
  }

  lemma FindIn(s: string, c: char, i: nat, j: nat)
    requires i <= j <= |s|
    ensures i + Find(s[i..j], c) == if FindFrom(s, c, i) < j then FindFrom(s, c, i) else j
  {
    var f := FindFrom(s, c, i);
    FindFinds(s, c, i);
    FindIs(s[i..j], c, 0, (if f < j then f else j) - i);
  }

  /** The body of the loop, for a segment that is not empty. */
  method ParseSegment(s: string, i: nat, end: nat) returns (p: Pair)
    requires i < end <= |s|
    ensures p == SegmentPair(s[i..end])
  {
    var eq := FindFrom(s, '=', i);
    FindIn(s, '=', i, end);
    var k, v: string := s[i..end], [];
    if eq < end {
      assert Find(s[i..end], '=') == eq - i;
      assert s[i..end][..eq - i] == s[i..eq] && s[i..end][eq - i + 1..] == s[eq + 1..end];
      k, v := s[i..eq], s[eq + 1..end];
    } else {
      assert Find(s[i..end], '=') == end - i;
      assert s[i..end][..end - i] == s[i..end];
    }
    var dk := PercentDecode(k);
    var dv := PercentDecode(v);
    p := (dk, dv);
  }

  lemma PairsInAppend(segs: seq<string>, seg: string)
    ensures PairsIn(segs + [seg]) == PairsIn(segs) + [SegmentPair(seg)]
  {
  }

  /** One turn of the loop on what is collected and what is still to come. */
  lemma SegmentDone(s: string, i: nat, amp: nat, segs: seq<string>, whole: seq<string>)
    requires i <= |s| && amp == FindFrom(s, '&', i) && segs + Segments(s, i) == whole
    ensures var now := if amp > i then segs + [s[i..amp]] else segs;
            && (amp < |s| ==> now + Segments(s, amp + 1) == whole)
            && (amp == |s| ==> now == whole)
  {
    if amp < |s| { Regrouped(segs, NonEmpty(s[i..amp]), Segments(s, amp + 1)); }
  }

  method ParseQueryToPairs(s: string) returns (pairs: seq<Pair>)
    ensures pairs == ParsedPairs(s)
  {
    pairs := [];
    if s == [] { return; }
    var i: nat := 0;
    ghost var segs: seq<string>, whole := [], Segments(s, 0);
    while i <= |s|
      invariant i <= |s| && pairs == PairsIn(segs) && segs + Segments(s, i) == whole
      decreases |s| - i
    {
      var amp := FindFrom(s, '&', i);
      SegmentDone(s, i, amp, segs, whole);
      if amp > i {
        var p := ParseSegment(s, i, amp);
        PairsInAppend(segs, s[i..amp]);
        pairs, segs := pairs + [p], segs + [s[i..amp]];
      }
      if amp == |s| { break; }
      i := amp + 1;
    }
  }

  /** A segment is cut at its first '='; without one, it is a key with an empty value. */
  lemma SegmentRules(k: string, v: string)
    requires '=' !in k
    ensures SegmentPair(k + ['='] + v) == (Decoded(k), Decoded(v)) && SegmentPair(k) == (Decoded(k), "")
  {
    var s := k + ['='] + v;
    FindIs(s, '=', 0, |k|);
    FindIs(k, '=', 0, |k|);
    assert s[..|k|] == k && s[|k| + 1..] == v && k[..|k|] == k;
  }

  /** The text up to the first '&' is a segment, left out if it is empty, and the rest is
      parsed in the same way. */
  lemma QueryRules(seg: string, rest: string)
    requires '&' !in seg
    ensures ParsedPairs(seg) == (if seg == "" then [] else [SegmentPair(seg)])
    ensures ParsedPairs(seg + ['&'] + rest) ==
            (if seg == "" then [] else [SegmentPair(seg)]) + ParsedPairs(rest)
  {
    var s := seg + ['&'] + rest;
    FindIs(seg, '&', 0, |seg|);
    FindIs(s, '&', 0, |seg|);
    assert seg[..|seg|] == seg && s[..|seg|] == seg;
    SegmentsShifted(seg + ['&'], rest, 0);
    assert Segments(s, 0) == NonEmpty(seg) + Segments(rest, 0);
    assert Segments(seg, 0) == NonEmpty(seg);
    PairsJoin(NonEmpty(seg), Segments(rest, 0));
    assert PairsIn(NonEmpty(seg)) == if seg == "" then [] else [SegmentPair(seg)];
  }

  lemma PairsJoin(a: seq<string>, b: seq<string>)
    ensures PairsIn(a + b) == PairsIn(a) + PairsIn(b)
  {
  }

  // ---------------------------------------------------------------------------
  // Parsing undoes building
  // ---------------------------------------------------------------------------

  lemma PlainHasNo(s: string, c: char)
    requires !Unreserved(c) && c != '%'
    ensures c !in Encoded(s)
  {
    EncodedIsPlain(s);
  }

  ghost predicate BytePair(p: Pair) {
    Bytes(p.0) && Bytes(p.1)
  }

  lemma SegmentOfPair(p: Pair)
    requires BytePair(p)
    ensures SegmentPair(PairText(p)) == p && '&' !in PairText(p) && PairText(p) != []
  {
    PlainHasNo(p.0, '=');
    PlainHasNo(p.0, '&');
    PlainHasNo(p.1, '&');
    var t, k := PairText(p), |Encoded(p.0)|;
    FindIs(t, '=', 0, k);
    assert t[..k] == Encoded(p.0) && t[k + 1..] == Encoded(p.1);
    DecodedOfEncoded(p.0);
    DecodedOfEncoded(p.1);
  }

  lemma OneSegment(t: string)
    requires t != [] && '&' !in t
    ensures Segments(t, 0) == [t]
  {
    FindIs(t, '&', 0, |t|);
    assert t[0..|t|] == t;
  }

  lemma {:induction false} SegmentsShifted(s: string, t: string, i: nat)
    requires i <= |t|
    ensures Segments(s + t, |s| + i) == Segments(t, i)
    decreases |t| - i
  {
    var amp := FindFrom(t, '&', i);
    FindShifted(s, t, '&', i);
    if amp < |t| { SegmentsShifted(s, t, amp + 1); }
    SegmentShifted(s, t, i, amp);
    SegmentsUnfold(s + t, |s| + i, |s| + amp);
    SegmentsUnfold(t, i, amp);
  }

  lemma FindShifted(s: string, t: string, c: char, i: nat)
    requires i <= |t|
    ensures FindFrom(s + t, c, |s| + i) == |s| + FindFrom(t, c, i)
  {
    FindFinds(t, c, i);
    FindIs(s + t, c, |s| + i, |s| + FindFrom(t, c, i));
  }

  lemma SegmentsUnfold(s: string, i: nat, amp: nat)
    requires i <= |s| && amp == FindFrom(s, '&', i)
    ensures Segments(s, i) == SegmentsTo(s, i, amp)
  {
  }

  lemma SegmentShifted(s: string, t: string, i: nat, amp: nat)
    requires i <= amp <= |t|
    requires amp < |t| ==> Segments(s + t, |s| + amp + 1) == Segments(t, amp + 1)
    ensures SegmentsTo(s + t, |s| + i, |s| + amp) == SegmentsTo(t, i, amp)
  {
    assert (s + t)[|s| + i..|s| + amp] == t[i..amp];
  }

  /** What follows an ampersand is parsed on its own. */
  lemma {:induction false} SegmentsAppend(s: string, t: string, i: nat)
    requires i <= |s|
    ensures Segments(s + ['&'] + t, i) == Segments(s, i) + Segments(t, 0)
    decreases |s| - i
  {
    var u, amp := s + ['&'] + t, FindFrom(s, '&', i);
    FindFinds(s, '&', i);
    FindIs(u, '&', i, amp);
    assert u[i..amp] == s[i..amp];
    if amp < |s| {
      SegmentsAppend(s, t, amp + 1);
      Regrouped(NonEmpty(s[i..amp]), Segments(s, amp + 1), Segments(t, 0));
    } else {
      SegmentsShifted(s + ['&'], t, 0);
    }
  }

  ghost predicate AllBytes(pairs: seq<Pair>) {
    forall i | 0 <= i < |pairs| :: BytePair(pairs[i])
  }

  ghost function PairTexts(pairs: seq<Pair>): (r: seq<string>)
    ensures |r| == |pairs|
  {
    seq(|pairs|, i requires 0 <= i < |pairs| => PairText(pairs[i]))
  }

  lemma {:induction false} SegmentsOfQuery(pairs: seq<Pair>)
    requires AllBytes(pairs)
    ensures pairs != [] ==> Segments(QueryText(pairs), 0) == PairTexts(pairs)
  {
    if |pairs| == 1 {
      SegmentOfPair(pairs[0]);
      OneSegment(PairText(pairs[0]));
    } else if pairs != [] {
      var n := |pairs| - 1;
      SegmentsOfQuery(pairs[..n]);
      SegmentOfPair(pairs[n]);
      OneSegment(PairText(pairs[n]));
      SegmentsAppend(QueryText(pairs[..n]), PairText(pairs[n]), 0);
      LastPairText(pairs);
    }
  }

  lemma LastPairText(pairs: seq<Pair>)
    requires pairs != []
    ensures PairTexts(pairs) == PairTexts(pairs[..|pairs| - 1]) + [PairText(pairs[|pairs| - 1])]
  {
  }

  /** parseQueryToPairs recovers every list of pairs of byte strings. */
  lemma ParsedOfQueryText(pairs: seq<Pair>)
    requires AllBytes(pairs)
    ensures ParsedPairs(QueryText(pairs)) == pairs
  {
    SegmentsOfQuery(pairs);
    assert pairs == [] ==> Segments(QueryText(pairs), 0) == [];
    forall i | 0 <= i < |pairs| ensures SegmentPair(PairText(pairs[i])) == pairs[i] {
      SegmentOfPair(pairs[i]);
    }
  }

  /** url.buildQuery, then parseQueryToPairs. */
  method BuildThenParse(entries: seq<(string, QueryValue)>) returns (r: Option<seq<Pair>>)
    requires EntryPairs(entries).Some? ==>
               AllBytes(EntryPairs(entries).value)
    ensures r == EntryPairs(entries)
  {
    var s := BuildQuery(entries);
    if s.None? { return None; }
    var pairs := ParseQueryToPairs(s.value);
    ParsedOfQueryText(EntryPairs(entries).value);
    r := Some(pairs);
  }
}
