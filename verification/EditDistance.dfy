/** Typo suggestions (src/string_distance.h): the two-row edit-distance table and the scan
    for a close name. */
module EditDistance {
  import opened Wrappers

  const INT_MAX: int := 0x7FFF_FFFF

  // ---------------------------------------------------------------------------
  // Edit scripts
  // ---------------------------------------------------------------------------

  datatype Edit = Insert(at: nat, c: char) | Delete(at: nat) | Replace(at: nat, c: char)

  /** One single-character edit; None when its position is outside the string. */
  function Apply(s: string, e: Edit): Option<string> {
    match e
    case Insert(i, c) => if i <= |s| then Some(s[..i] + [c] + s[i..]) else None
    case Delete(i) => if i < |s| then Some(s[..i] + s[i + 1..]) else None
    case Replace(i, c) => if i < |s| then Some(s[..i] + [c] + s[i + 1..]) else None
  }

  function ApplyAll(s: string, es: seq<Edit>): Option<string>
    decreases |es|
  {
    if es == [] then Some(s)
    else
      var t := Apply(s, es[0]);
      if t.None? then None else ApplyAll(t.value, es[1..])
  }

  /** `n` edits lead from `a` to `b`. */
  ghost predicate Reachable(a: string, b: string, n: nat) {
    exists es {:trigger ApplyAll(a, es)} :: |es| == n && ApplyAll(a, es) == Some(b)
  }

  /** `d` edits lead from `a` to `b`, and no fewer do. */
  ghost predicate IsDistance(a: string, b: string, d: int) {
    && d >= 0 && Reachable(a, b, d)
    && forall n {:trigger Reachable(a, b, n)} | Reachable(a, b, n) :: d <= n
  }

  // ---------------------------------------------------------------------------
  // The recurrence
  // ---------------------------------------------------------------------------

  function Min3(x: int, y: int, z: int): int {
    if x <= y && x <= z then x else if y <= z then y else z
  }

  function Init(s: string): string
    requires s != []
  {
    s[..|s| - 1]
  }

  function Last(s: string): char
    requires s != []
  {
    s[|s| - 1]
  }

  function Cost(x: char, y: char): int {
    if x == y then 0 else 1
  }

  function Lev(a: string, b: string): nat
    decreases |a| + |b|
  {
    if a == [] then |b|
    else if b == [] then |a|
    else Min3(Lev(a[..|a| - 1], b) + 1, Lev(a, b[..|b| - 1]) + 1,
              Lev(a[..|a| - 1], b[..|b| - 1]) + Cost(a[|a| - 1], b[|b| - 1]))
  }

  // ---------------------------------------------------------------------------
  // No script is shorter than the recurrence says
  // ---------------------------------------------------------------------------

  lemma {:induction false} LevSelf(a: string)
    ensures Lev(a, a) == 0
  {
    if a != [] { LevSelf(Init(a)); }
  }

  lemma LevOfAppend(u: string, c: char, b: string)
    requires b != []
    ensures Lev(u + [c], b) == Min3(Lev(u, b) + 1, Lev(u + [c], Init(b)) + 1,
                                    Lev(u, Init(b)) + Cost(c, Last(b)))
  {
    assert Init(u + [c]) == u && Last(u + [c]) == c;
  }

  lemma LevAppendTarget(u: string, b: string)
    requires b != []
    ensures Lev(u, b) <= Lev(u, Init(b)) + 1
  {
  }

  lemma {:induction false} LevDropLast(u: string, c: char, b: string)
    ensures Lev(u, b) <= Lev(u + [c], b) + 1
    ensures Lev(u + [c], b) <= Lev(u, b) + 1
    decreases |b|
  {
    if b != [] {
      LevOfAppend(u, c, b);
      LevAppendTarget(u, b);
      LevDropLast(u, c, Init(b));
    }
  }

  lemma {:induction false} LevReplaceLast(u: string, c: char, d: char, b: string)
    ensures Lev(u + [c], b) <= Lev(u + [d], b) + 1
    decreases |b|
  {
    if b != [] {
      LevOfAppend(u, c, b);
      LevOfAppend(u, d, b);
      LevReplaceLast(u, c, d, Init(b));
    }
  }

  lemma LevChangeAtEnd(u: string, x: string, y: string, b: string)
    requires |x| <= 1 && |y| <= 1
    ensures Lev(u + x, b) <= Lev(u + y, b) + 1
  {
    assert u + [] == u;
    if x != [] && y != [] {
      assert x == [x[0]] && y == [y[0]];
      LevReplaceLast(u, x[0], y[0], b);
    } else if x != [] {
      assert x == [x[0]];
      LevDropLast(u, x[0], b);
    } else if y != [] {
      assert y == [y[0]];
      LevDropLast(u, y[0], b);
    }
  }

  lemma SameLast(s: string, t: string, z: char, b: string)
    requires b != [] && Lev(s, b) <= Lev(t, b) + 1 && Lev(s, Init(b)) <= Lev(t, Init(b)) + 1
    requires Lev(s + [z], Init(b)) <= Lev(t + [z], Init(b)) + 1
    ensures Lev(s + [z], b) <= Lev(t + [z], b) + 1
  {
    LevOfAppend(s, z, b);
    LevOfAppend(t, z, b);
  }

  /** Replacing at most one character by at most one, anywhere, changes the distance to
      any string by at most one. */
  lemma {:induction false} LevChange(u: string, x: string, y: string, v: string, b: string)
    requires |x| <= 1 && |y| <= 1
    ensures Lev(u + x + v, b) <= Lev(u + y + v, b) + 1
    decreases |v| + |b|
  {
    if v == [] {
      assert u + x + v == u + x && u + y + v == u + y;
      LevChangeAtEnd(u, x, y, b);
    } else if b != [] {
      var w, z := Init(v), Last(v);
      assert u + x + v == (u + x + w) + [z] && u + y + v == (u + y + w) + [z];
      LevChange(u, x, y, w, b);
      LevChange(u, x, y, v, Init(b));
      LevChange(u, x, y, w, Init(b));
      SameLast(u + x + w, u + y + w, z, b);
    }
  }

  lemma OneEdit(s: string, e: Edit, b: string)
    requires Apply(s, e).Some?
    ensures Lev(s, b) <= Lev(Apply(s, e).value, b) + 1
  {
    var t := Apply(s, e).value;
    match e
    case Insert(i, c) =>
      assert s == s[..i] + [] + s[i..];
      LevChange(s[..i], [], [c], s[i..], b);
    case Delete(i) =>
      assert s == s[..i] + [s[i]] + s[i + 1..] && t == s[..i] + [] + s[i + 1..];
      LevChange(s[..i], [s[i]], [], s[i + 1..], b);
    case Replace(i, c) =>
      assert s == s[..i] + [s[i]] + s[i + 1..];
      LevChange(s[..i], [s[i]], [c], s[i + 1..], b);
  }

  lemma {:induction false} NoShorterScript(a: string, b: string, es: seq<Edit>)
    requires ApplyAll(a, es) == Some(b)
    ensures Lev(a, b) <= |es|
    decreases |es|
  {
    if es == [] {
      LevSelf(a);
    } else {
      OneEdit(a, es[0], b);
      NoShorterScript(Apply(a, es[0]).value, b, es[1..]);
    }
  }

  // ---------------------------------------------------------------------------
  // A script as short as the recurrence says
  // ---------------------------------------------------------------------------

  /** A script works in front of any tail. */
  lemma {:induction false} ApplyBefore(s: string, es: seq<Edit>, tail: string)
    requires ApplyAll(s, es).Some?
    ensures ApplyAll(s + tail, es) == Some(ApplyAll(s, es).value + tail)
    decreases |es|
  {
    if es != [] {
      var t := Apply(s, es[0]).value;
      ApplyOneBefore(s, es[0], tail);
      ApplyBefore(t, es[1..], tail);
    }
  }

  lemma ApplyOneBefore(s: string, e: Edit, tail: string)
    requires Apply(s, e).Some?
    ensures Apply(s + tail, e) == Some(Apply(s, e).value + tail)
  {
    var i := e.at;
    assert (s + tail)[..i] == s[..i] && (s + tail)[i..] == s[i..] + tail;
    if e.Insert? {
      assert s[..i] + [e.c] + (s[i..] + tail) == s[..i] + [e.c] + s[i..] + tail;
    } else {
      assert (s + tail)[i + 1..] == s[i + 1..] + tail;
      var mid := if e.Delete? then [] else [e.c];
      assert s[..i] + mid + (s[i + 1..] + tail) == s[..i] + mid + s[i + 1..] + tail;
      assert s[..i] + [] == s[..i];
    }
  }

  lemma {:induction false} ApplyThen(s: string, es: seq<Edit>, e: Edit)
    requires ApplyAll(s, es).Some?
    ensures ApplyAll(s, es + [e]) == Apply(ApplyAll(s, es).value, e)
    decreases |es|
  {
    if es == [] {
      assert [e][1..] == [];
    } else {
      ApplyThen(Apply(s, es[0]).value, es[1..], e);
      assert (es + [e])[1..] == es[1..] + [e];
    }
  }

  lemma ReachAfterDelete(a: string, b: string, n: nat)
    requires a != [] && Reachable(Init(a), b, n)
    ensures Reachable(a, b, n + 1)
  {
    var es :| |es| == n && ApplyAll(Init(a), es) == Some(b);
    var fs := [Delete(|a| - 1)] + es;
    assert a[..|a| - 1] + a[|a|..] == Init(a) && fs[1..] == es;
    assert ApplyAll(a, fs) == Some(b);
  }

  lemma ReachBeforeInsert(a: string, b: string, n: nat)
    requires b != [] && Reachable(a, Init(b), n)
    ensures Reachable(a, b, n + 1)
  {
    var es :| |es| == n && ApplyAll(a, es) == Some(Init(b));
    var e := Insert(|b| - 1, Last(b));
    ApplyThen(a, es, e);
    assert Init(b) + [Last(b)] + [] == b;
    assert Init(b)[..|b| - 1] == Init(b) && Init(b)[|b| - 1..] == [];
    assert Apply(Init(b), e) == Some(b);
    assert ApplyAll(a, es + [e]) == Some(b);
  }

  lemma ReachBeforeReplace(a: string, b: string, n: nat)
    requires a != [] && b != [] && Reachable(Init(a), Init(b), n)
    ensures Reachable(a, b, n + Cost(Last(a), Last(b)))
  {
    var es :| |es| == n && ApplyAll(Init(a), es) == Some(Init(b));
    ApplyBefore(Init(a), es, [Last(a)]);
    assert a == Init(a) + [Last(a)] && b == Init(b) + [Last(b)];
    if Last(a) == Last(b) {
      assert ApplyAll(a, es) == Some(b);
    } else {
      var e := Replace(|b| - 1, Last(b));
      ApplyThen(a, es, e);
      var t := Init(b) + [Last(a)];
      assert t[..|b| - 1] + [Last(b)] + t[|b|..] == b;
      assert Apply(t, e) == Some(b);
      assert ApplyAll(a, es + [e]) == Some(b);
    }
  }

  lemma {:induction false} ScriptOfLev(a: string, b: string)
    ensures Reachable(a, b, Lev(a, b))
    decreases |a| + |b|
  {
    if a == [] && b == [] {
      assert ApplyAll(a, []) == Some(b);
    } else if a == [] {
      ScriptOfLev(a, Init(b));
      ReachBeforeInsert(a, b, |b| - 1);
    } else if b == [] {
      ScriptOfLev(Init(a), b);
      ReachAfterDelete(a, b, |a| - 1);
    } else {
      var d := Lev(a, b);
      if d == Lev(Init(a), b) + 1 {
        ScriptOfLev(Init(a), b);
        ReachAfterDelete(a, b, d - 1);
      } else if d == Lev(a, Init(b)) + 1 {
        ScriptOfLev(a, Init(b));
        ReachBeforeInsert(a, b, d - 1);
      } else {
        ScriptOfLev(Init(a), Init(b));
        ReachBeforeReplace(a, b, Lev(Init(a), Init(b)));
      }
    }
  }

  /** The recurrence is the least number of single-character edits, over all scripts. */
  lemma LevIsDistance(a: string, b: string)
    ensures IsDistance(a, b, Lev(a, b))
  {
    ScriptOfLev(a, b);
    forall n | Reachable(a, b, n) ensures Lev(a, b) <= n {
      var es :| |es| == n && ApplyAll(a, es) == Some(b);
      NoShorterScript(a, b, es);
    }
  }

  // ---------------------------------------------------------------------------
  // The table
  // ---------------------------------------------------------------------------

  /** The row of the table for the first `i` characters of `a`, up to column `n`. */
  ghost predicate Row(row: seq<int>, a: string, i: nat, b: string, n: nat) {
    i <= |a| && n <= |b| + 1 && n <= |row| && forall j | 0 <= j < n :: row[j] == Lev(a[..i], b[..j])
  }

  lemma Cell(a: string, i: nat, b: string, j: nat)
    requires 1 <= i <= |a| && 1 <= j <= |b|
    ensures Lev(a[..i], b[..j]) ==
            Min3(Lev(a[..i - 1], b[..j]) + 1, Lev(a[..i], b[..j - 1]) + 1,
                 Lev(a[..i - 1], b[..j - 1]) + Cost(a[i - 1], b[j - 1]))
  {
    assert Init(a[..i]) == a[..i - 1] && Init(b[..j]) == b[..j - 1];
  }

  lemma CellFromRows(prev: seq<int>, curr: seq<int>, a: string, i: nat, b: string, j: nat)
    requires 1 <= i && 1 <= j <= |b| && Row(prev, a, i - 1, b, |b| + 1) && i <= |a| && Row(curr, a, i, b, j)
    ensures Min3(prev[j] + 1, curr[j - 1] + 1, prev[j - 1] + Cost(a[i - 1], b[j - 1])) == Lev(a[..i], b[..j])
  {
    Cell(a, i, b, j);
  }

  lemma RowNext(row: seq<int>, a: string, i: nat, b: string, j: nat, d: int)
    requires j <= |b| && j < |row| && Row(row, a, i, b, j) && d == Lev(a[..i], b[..j])
    ensures Row(row[j := d], a, i, b, j + 1)
  {
  }

  /** One turn of the outer loop. */
  method FillRow(a: string, i: nat, b: string, prev: array<int>, curr: array<int>)
    requires 1 <= i <= |a| && prev != curr && prev.Length == curr.Length == |b| + 1
    requires Row(prev[..], a, i - 1, b, |b| + 1)
    modifies curr
    ensures Row(curr[..], a, i, b, |b| + 1)
  {
    curr[0] := i;
    for j := 1 to |b| + 1
      invariant Row(prev[..], a, i - 1, b, |b| + 1) && Row(curr[..], a, i, b, j)
    {
      var cost := if a[i - 1] == b[j - 1] then 0 else 1;
      var d := Min3(prev[j] + 1, curr[j - 1] + 1, prev[j - 1] + cost);
      CellFromRows(prev[..], curr[..], a, i, b, j);
      RowNext(curr[..], a, i, b, j, d);
      ghost var was := curr[..];
      curr[j] := d;
      assert curr[..] == was[j := d];
    }
  }

  /** editDistance: the least number of edits, or INT_MAX when a string is too long. */
  method EditDistance(a: string, b: string, maxLen: int) returns (d: int)
    ensures |a| > maxLen || |b| > maxLen ==> d == INT_MAX
    ensures |a| <= maxLen && |b| <= maxLen ==> d == Lev(a, b) && IsDistance(a, b, d)
  {
    LevIsDistance(a, b);
    if |a| > maxLen || |b| > maxLen { return INT_MAX; }
    if |a| == 0 { return |b|; }
    if |b| == 0 { return |a|; }
    var prev, curr := new int[|b| + 1], new int[|b| + 1];
    for j := 0 to |b| + 1
      invariant Row(prev[..], a, 0, b, j)
    {
      prev[j] := j;
    }
    for i := 1 to |a| + 1
      invariant prev != curr && prev.Length == curr.Length == |b| + 1
      invariant fresh(prev) && fresh(curr)
      invariant Row(prev[..], a, i - 1, b, |b| + 1)
    {
      FillRow(a, i, b, prev, curr);
      prev, curr := curr, prev;
    }
    assert a[..|a|] == a && b[..|b|] == b;
    d := prev[..][|b|];
  }

  // ---------------------------------------------------------------------------
  // closestCallable
  // ---------------------------------------------------------------------------

  const MAX_LEN := 64

  function SuggestionThreshold(name: string): int {
    if |name| <= 3 then 1 else 2
  }

  /** What the scan looks for, with no look at the lengths beyond the table's limit. */
  ghost predicate Suggested(name: string, candidate: string) {
    && candidate != name && |name| <= MAX_LEN && |candidate| <= MAX_LEN
    && exists n: nat {:trigger Reachable(name, candidate, n)} ::
         n <= SuggestionThreshold(name) && Reachable(name, candidate, n)
  }

  lemma {:induction false} LengthGap(a: string, b: string)
    ensures |a| - |b| <= Lev(a, b) && |b| - |a| <= Lev(a, b)
    decreases |a| + |b|
  {
    if a != [] && b != [] {
      LengthGap(Init(a), b);
      LengthGap(a, Init(b));
      LengthGap(Init(a), Init(b));
    }
  }

  lemma SuggestedByDistance(name: string, candidate: string)
    requires candidate != name && |name| <= MAX_LEN && |candidate| <= MAX_LEN
    ensures Suggested(name, candidate) <==> Lev(name, candidate) <= SuggestionThreshold(name)
  {
    LevIsDistance(name, candidate);
  }

  /** The length filter never rejects a name the unfiltered scan would suggest. */
  lemma FilterIsSafe(name: string, candidate: string)
    requires Suggested(name, candidate)
    ensures var delta := |candidate| - |name|;
            (if delta < 0 then -delta else delta) <= SuggestionThreshold(name)
  {
    SuggestedByDistance(name, candidate);
    LengthGap(name, candidate);
  }

  /** closestCallable: the first name within the threshold, in the order of the scan. */
  method ClosestCallable(name: string, callables: seq<string>) returns (r: Option<string>)
    ensures r.None? ==> forall i | 0 <= i < |callables| :: !Suggested(name, callables[i])
    ensures r.Some? ==> exists i | 0 <= i < |callables| ::
                          && callables[i] == r.value && Suggested(name, callables[i])
                          && forall k | 0 <= k < i :: !Suggested(name, callables[k])
  {
    var threshold := SuggestionThreshold(name);
    for i := 0 to |callables|
      invariant forall k | 0 <= k < i :: !Suggested(name, callables[k])
    {
      var candidate := callables[i];
      if candidate == name { continue; }
      var delta := |candidate| - |name|;
      if delta < 0 { delta := -delta; }
      if delta > threshold {
        assert !Suggested(name, candidate) by {
          if Suggested(name, candidate) { FilterIsSafe(name, candidate); }
        }
        continue;
      }
      var d := EditDistance(name, candidate, MAX_LEN);
      if d <= threshold {
        SuggestedByDistance(name, candidate);
        return Some(candidate);
      }
      if d != INT_MAX { SuggestedByDistance(name, candidate); }
    }
    r := None;
  }

  // ---------------------------------------------------------------------------
  // Which names are suggested
  // ---------------------------------------------------------------------------

  lemma SingleEdit(a: string, b: string, e: Edit)
    requires Apply(a, e) == Some(b)
    ensures Reachable(a, b, 1)
  {
    assert [e][1..] == [];
    assert ApplyAll(a, [e]) == Some(b);
  }

  lemma TwoEdits(a: string, m: string, b: string, d: Edit, e: Edit)
    requires Apply(a, d) == Some(m) && Apply(m, e) == Some(b)
    ensures Reachable(a, b, 2)
  {
    assert [d, e][1..] == [e] && [e][1..] == [];
    assert ApplyAll(m, [e]) == Some(b);
    assert ApplyAll(a, [d, e]) == Some(b);
  }

  /** A name of more than three characters may be two edits away, a shorter one only one. */
  lemma ThresholdCases()
    ensures Suggested("Deqeu", "Deque") && Suggested("MyServie", "MyService")
    ensures Suggested("abcd", "abcdef") && !Suggested("abc", "abcde") && Suggested("abc", "abcd")
  {
    assert "Deqeu"[..3] + ['u'] + "Deqeu"[4..] == "Dequu" && "Dequu"[..4] + ['e'] + "Dequu"[5..] == "Deque";
    TwoEdits("Deqeu", "Dequu", "Deque", Replace(3, 'u'), Replace(4, 'e'));
    assert "MyServie"[..7] + ['c'] + "MyServie"[7..] == "MyService";
    SingleEdit("MyServie", "MyService", Insert(7, 'c'));
    assert "abcd"[..4] + ['e'] + "abcd"[4..] == "abcde" && "abcde"[..5] + ['f'] + "abcde"[5..] == "abcdef";
    TwoEdits("abcd", "abcde", "abcdef", Insert(4, 'e'), Insert(5, 'f'));
    assert "abc"[..3] + ['d'] + "abc"[3..] == "abcd";
    SingleEdit("abc", "abcd", Insert(3, 'd'));
    if Suggested("abc", "abcde") { FilterIsSafe("abc", "abcde"); }
  }

  function Repeated(n: nat): string {
    seq(n, _ => 'a')
  }

  /** Names of up to 64 characters are compared, longer ones never suggested. */
  lemma LimitCases(other: string)
    ensures Suggested(Repeated(64), Repeated(63)) && !Suggested(Repeated(65), other) && !Suggested(other, Repeated(65))
  {
    assert Repeated(64)[..0] + Repeated(64)[1..] == Repeated(63);
    SingleEdit(Repeated(64), Repeated(63), Delete(0));
  }

  /** Two names of two characters that share one of them are one edit apart, so the one is
      suggested for the other. */
  lemma ShortNamesMatch()
    ensures Suggested("Ok", "On") && Suggested("Ok", "Or")
  {
    assert "Ok"[..1] + ['n'] + "Ok"[2..] == "On" && "Ok"[..1] + ['r'] + "Ok"[2..] == "Or";
    SingleEdit("Ok", "On", Replace(1, 'n'));
    SingleEdit("Ok", "Or", Replace(1, 'r'));
  }
}
