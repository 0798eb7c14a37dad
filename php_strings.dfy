/** The PHP string built-ins that `NetworkAggregate::parseQuery` relies on:
    `strpos` (IndexOf), `str_replace` (ReplaceAll), `explode`/`implode`
    (Split/Join), `substr` with a start offset (Substr) and the decimal
    rendering of an integer in a string concatenation (NatToString). */
module PhpStrings {

  datatype Option<T> = None | Some(value: T)

  /** `pat` occurs in `s` starting at index `k`. */
  predicate Occurs(s: string, pat: string, k: nat) {
    k + |pat| <= |s| && s[k..k + |pat|] == pat
  }

  /** `pat` occurs nowhere in `s`. */
  ghost predicate Absent(s: string, pat: string) {
    forall k: nat :: !Occurs(s, pat, k)
  }

  /** Index of the first occurrence of `pat` in `s` at or after `from`. */
  function IndexOf(s: string, pat: string, from: nat): (r: Option<nat>)
    ensures r.Some? ==> from <= r.value && Occurs(s, pat, r.value)
    ensures r.Some? ==> forall k: nat :: from <= k < r.value ==> !Occurs(s, pat, k)
    ensures r.None? ==> forall k: nat :: from <= k ==> !Occurs(s, pat, k)
    decreases |s| - from
  {
    if from + |pat| > |s| then None
    else if Occurs(s, pat, from) then Some(from)
    else IndexOf(s, pat, from + 1)
  }

  lemma OccursShift(s: string, pat: string, k: nat)
    requires 0 < |s|
    ensures Occurs(s[1..], pat, k) <==> Occurs(s, pat, k + 1)
  {
    if k + 1 + |pat| <= |s| {
      assert s[1..][k..k + |pat|] == s[k + 1..k + 1 + |pat|];
    }
  }

  /** `str_replace(from, to, s)`: scans `s` left to right and replaces each
      occurrence of `from` that does not overlap an earlier replaced one;
      the replacement text is never rescanned. An empty needle leaves the
      subject unchanged. */
  function ReplaceAll(s: string, from: string, to: string): (r: string)
    decreases |s|
  {
    if |from| == 0 || |s| == 0 then s
    else if Occurs(s, from, 0) then to + ReplaceAll(s[|from|..], from, to)
    else [s[0]] + ReplaceAll(s[1..], from, to)
  }

  /** `explode(sep, s)`: the pieces of `s` between the leftmost
      non-overlapping occurrences of `sep`. */
  function Split(s: string, sep: string): (parts: seq<string>)
    requires |sep| > 0
    ensures |parts| >= 1
    decreases |s|
  {
    match IndexOf(s, sep, 0)
    case None => [s]
    case Some(k) => [s[..k]] + Split(s[k + |sep|..], sep)
  }

  /** `implode(sep, parts)`. */
  function Join(parts: seq<string>, sep: string): string
    decreases |parts|
  {
    if |parts| == 0 then ""
    else if |parts| == 1 then parts[0]
    else parts[0] + sep + Join(parts[1..], sep)
  }

  /** `substr(s, start)` for a non-negative start: the empty string once
      `start` runs past the end. */
  function Substr(s: string, start: nat): string
  {
    if start <= |s| then s[start..] else ""
  }

  predicate IsDigit(c: char) {
    '0' <= c <= '9'
  }

  /** The decimal text of `n`, as PHP renders an integer id in a string. */
  function NatToString(n: nat): (r: string)
    ensures |r| >= 1
    ensures forall i :: 0 <= i < |r| ==> IsDigit(r[i])
    ensures r[0] == '0' ==> n == 0 && r == "0"
    decreases n
  {
    if n < 10 then [('0' as int + n) as char]
    else NatToString(n / 10) + [('0' as int + n % 10) as char]
  }

  /** The value of a string of decimal digits. */
  function ParseDecimal(s: string): nat
    requires forall i :: 0 <= i < |s| ==> IsDigit(s[i])
    decreases |s|
  {
    if |s| == 0 then 0
    else
      assert IsDigit(s[|s| - 1]);
      ParseDecimal(s[..|s| - 1]) * 10 + (s[|s| - 1] as int - '0' as int)
  }

  // ---------------------------------------------------------------------
  // Properties

  /** Rendering an id and reading it back gives the id: distinct ids have
      distinct decimal texts. */
  lemma {:induction false} ParseNatToString(n: nat)
    ensures ParseDecimal(NatToString(n)) == n
    decreases n
  {
    var r := NatToString(n);
    if n >= 10 {
      ParseNatToString(n / 10);
      assert r[..|r| - 1] == NatToString(n / 10);
    }
  }

  lemma NatToStringInjective(a: nat, b: nat)
    requires NatToString(a) == NatToString(b)
    ensures a == b
  {
    ParseNatToString(a);
    ParseNatToString(b);
  }

  /** When `from` occurs nowhere, `str_replace` changes nothing. */
  lemma {:induction false} ReplaceAllAbsent(s: string, from: string, to: string)
    requires Absent(s, from)
    ensures ReplaceAll(s, from, to) == s
    decreases |s|
  {
    if |from| != 0 && |s| != 0 {
      assert !Occurs(s, from, 0);
      forall k: nat ensures !Occurs(s[1..], from, k) {
        OccursShift(s, from, k);
      }
      ReplaceAllAbsent(s[1..], from, to);
    }
  }

  /** Replacing a string by itself is the identity. */
  lemma {:induction false} ReplaceAllSame(s: string, from: string)
    ensures ReplaceAll(s, from, from) == s
    decreases |s|
  {
    if |from| != 0 && |s| != 0 {
      if Occurs(s, from, 0) {
        ReplaceAllSame(s[|from|..], from);
        assert s == s[..|from|] + s[|from|..];
      } else {
        ReplaceAllSame(s[1..], from);
        assert s == [s[0]] + s[1..];
      }
    }
  }

  /** Text before the first occurrence passes through unchanged. */
  lemma {:induction false} ReplaceAllSkip(s: string, from: string, to: string, k: nat)
    requires |from| > 0 && k <= |s|
    requires forall t: nat :: t < k ==> !Occurs(s, from, t)
    ensures ReplaceAll(s, from, to) == s[..k] + ReplaceAll(s[k..], from, to)
    decreases k
  {
    if k > 0 {
      assert !Occurs(s, from, 0);
      forall t: nat | t < k - 1 ensures !Occurs(s[1..], from, t) {
        OccursShift(s, from, t);
      }
      ReplaceAllSkip(s[1..], from, to, k - 1);
      assert s[1..][k - 1..] == s[k..];
      assert s[..k] == [s[0]] + s[1..][..k - 1];
    }
  }

  /** `str_replace` is `implode(to, explode(from, s))`: it substitutes `to`
      at exactly the separators `explode` finds and keeps every other
      character. */
  lemma {:induction false} ReplaceAllIsJoinOfSplit(s: string, from: string, to: string)
    requires |from| > 0
    ensures ReplaceAll(s, from, to) == Join(Split(s, from), to)
    decreases |s|
  {
    match IndexOf(s, from, 0)
    case None =>
      ReplaceAllAbsent(s, from, to);
    case Some(k) =>
      var rest := s[k + |from|..];
      ReplaceAllIsJoinOfSplit(rest, from, to);
      JoinOfSplitStep(s, from, to, k);
  }

  /** One step of `ReplaceAllIsJoinOfSplit`: the text up to the first
      occurrence, the replacement, then the rest. */
  lemma JoinOfSplitStep(s: string, from: string, to: string, k: nat)
    requires |from| > 0 && IndexOf(s, from, 0) == Some(k)
    requires ReplaceAll(s[k + |from|..], from, to) == Join(Split(s[k + |from|..], from), to)
    ensures ReplaceAll(s, from, to) == Join(Split(s, from), to)
  {
    var pre, rest := s[..k], s[k + |from|..];
    var tail := Join(Split(rest, from), to);
    assert Join(Split(s, from), to) == pre + to + tail by {
      SplitAtFirst(s, from, k);
      JoinCons(pre, Split(rest, from), to);
    }
    assert ReplaceAll(s, from, to) == pre + ReplaceAll(s[k..], from, to) by {
      ReplaceAllSkip(s, from, to, k);
    }
    assert ReplaceAll(s[k..], from, to) == to + tail by {
      SliceAtOccurrence(s, from, k);
      ReplaceAllAtFront(rest, from, to);
    }
    AppendAssoc(pre, to, tail);
  }

  lemma SplitAtFirst(s: string, sep: string, k: nat)
    requires |sep| > 0 && IndexOf(s, sep, 0) == Some(k)
    ensures Split(s, sep) == [s[..k]] + Split(s[k + |sep|..], sep)
  {
  }

  lemma SliceAtOccurrence(s: string, pat: string, k: nat)
    requires Occurs(s, pat, k)
    ensures s[k..] == pat + s[k + |pat|..]
  {
  }

  lemma AppendAssoc(a: string, b: string, c: string)
    ensures a + (b + c) == a + b + c
  {
  }

  lemma JoinCons(first: string, rest: seq<string>, sep: string)
    requires |rest| >= 1
    ensures Join([first] + rest, sep) == first + sep + Join(rest, sep)
  {
    assert ([first] + rest)[1..] == rest;
  }

  /** `implode(sep, explode(sep, s)) == s`: replacing the separator by
      itself is `implode` after `explode`, and changes nothing. */
  lemma SplitJoinRoundTrip(s: string, sep: string)
    requires |sep| > 0
    ensures Join(Split(s, sep), sep) == s
  {
    ReplaceAllIsJoinOfSplit(s, sep, sep);
    ReplaceAllSame(s, sep);
  }

  /** No piece `explode` returns contains the separator. */
  lemma {:induction false} SplitPiecesFree(s: string, sep: string)
    requires |sep| > 0
    ensures forall n :: 0 <= n < |Split(s, sep)| ==> Absent(Split(s, sep)[n], sep)
    decreases |s|
  {
    match IndexOf(s, sep, 0)
    case None =>
    case Some(k) =>
      var rest := s[k + |sep|..];
      SplitPiecesFree(rest, sep);
      forall t: nat ensures !Occurs(s[..k], sep, t) {
        if Occurs(s[..k], sep, t) {
          assert s[..k][t..t + |sep|] == s[t..t + |sep|];
          assert Occurs(s, sep, t);
        }
      }
  }

  /** Every character outside the separators survives `str_replace`: the
      subject is the pieces joined by `from`, the result the same pieces
      joined by `to`, and no piece contains `from`. */
  lemma ReplaceAllKeepsTheRest(s: string, from: string, to: string)
    requires |from| > 0
    ensures exists parts: seq<string> ::
      && s == Join(parts, from)
      && ReplaceAll(s, from, to) == Join(parts, to)
      && forall n :: 0 <= n < |parts| ==> Absent(parts[n], from)
  {
    var parts := Split(s, from);
    SplitJoinRoundTrip(s, from);
    ReplaceAllIsJoinOfSplit(s, from, to);
    SplitPiecesFree(s, from);
  }

  /** The joined text starts with the first part. */
  lemma {:induction false} JoinStartsWithFirst(parts: seq<string>, sep: string)
    requires |parts| >= 1
    ensures |parts[0]| <= |Join(parts, sep)|
    ensures Join(parts, sep)[..|parts[0]|] == parts[0]
  {
    if |parts| > 1 {
      var r := Join(parts, sep);
      assert r == parts[0] + (sep + Join(parts[1..], sep));
    }
  }

  // ---------------------------------------------------------------------
  // Stepping through a concrete subject

  /** `strpos` passes over a stretch that holds no occurrence. */
  lemma {:induction false} IndexOfSkipRange(s: string, pat: string, from: nat, to: nat)
    requires from <= to
    requires forall t: nat :: from <= t < to ==> !Occurs(s, pat, t)
    ensures IndexOf(s, pat, from) == IndexOf(s, pat, to)
    decreases (to as int) - (from as int)
  {
    if from < to {
      assert !Occurs(s, pat, from);
      IndexOfSkipRange(s, pat, from + 1, to);
    }
  }

  /** Nothing can start where the first character of `pat` is missing. */
  lemma NoStartWithoutFirstChar(pre: string, x: string, rest: string, pat: string)
    requires |pat| > 0 && pat[0] !in x
    ensures forall t: nat :: |pre| <= t < |pre| + |x| ==> !Occurs(pre + x + rest, pat, t)
  {
    var s := pre + x + rest;
    forall t: nat | |pre| <= t < |pre| + |x| ensures !Occurs(s, pat, t) {
      assert s[t] == x[t - |pre|];
    }
  }

  /** The three parts of a concatenation, taken back out by slicing. */
  lemma SlicesOfThree(a: string, b: string, c: string)
    ensures (a + (b + c))[..|a|] == a
    ensures (a + (b + c))[|a|..|a| + |b|] == b
    ensures (a + (b + c))[|a| + |b|..] == c
  {
  }

  /** An occurrence in the second part of a concatenation is an
      occurrence in the whole, shifted by the length of the first part. */
  lemma OccursAfter(pre: string, s: string, pat: string, t: nat)
    ensures Occurs(pre + s, pat, |pre| + t) <==> Occurs(s, pat, t)
  {
    if t + |pat| <= |s| {
      assert (pre + s)[|pre| + t..|pre| + t + |pat|] == s[t..t + |pat|];
    }
  }

  /** `str_replace` copies a stretch without the first character of `from`. */
  lemma ReplaceAllPastClean(x: string, rest: string, from: string, to: string)
    requires |from| > 0 && from[0] !in x
    ensures ReplaceAll(x + rest, from, to) == x + ReplaceAll(rest, from, to)
  {
    NoStartWithoutFirstChar([], x, rest, from);
    assert [] + x + rest == x + rest;
    ReplaceAllSkip(x + rest, from, to, |x|);
    assert (x + rest)[..|x|] == x && (x + rest)[|x|..] == rest;
  }

  /** A string occurs at the front of any text it starts. */
  lemma OccursAtFront(pat: string, rest: string)
    ensures Occurs(pat + rest, pat, 0)
  {
    assert (pat + rest)[..|pat|] == pat;
  }

  /** In `a + (b + (pat + c))`, where no `pat` starts inside `b`, the first
      `pat` after `a` is the one before `c`. */
  lemma IndexOfAfterClean(a: string, b: string, pat: string, c: string)
    requires forall t :: 0 <= t < |b| ==> !Occurs(b + (pat + c), pat, t)
    ensures IndexOf(a + (b + (pat + c)), pat, |a|) == Some(|a| + |b|)
  {
    var tail := b + (pat + c);
    var s := a + tail;
    forall t: nat | |a| <= t < |a| + |b| ensures !Occurs(s, pat, t) {
      OccursAfter(a, tail, pat, t - |a|);
    }
    IndexOfSkipRange(s, pat, |a|, |a| + |b|);
    OccursAfterTwo(a, b, pat, c);
  }

  lemma OccursAfterTwo(a: string, b: string, pat: string, c: string)
    ensures Occurs(a + (b + (pat + c)), pat, |a| + |b|)
  {
    OccursAtFront(pat, c);
    OccursAfter(b, pat + c, pat, 0);
    OccursAfter(a, b + (pat + c), pat, |b|);
  }

  /** `str_replace` replaces an occurrence at the front. */
  lemma ReplaceAllAtFront(rest: string, from: string, to: string)
    requires |from| > 0
    ensures ReplaceAll(from + rest, from, to) == to + ReplaceAll(rest, from, to)
  {
    assert Occurs(from + rest, from, 0);
    assert (from + rest)[|from|..] == rest;
  }

  /** `str_replace` leaves a subject without the first character of
      `from` unchanged. */
  lemma ReplaceAllClean(c: string, from: string, to: string)
    requires |from| > 0 && from[0] !in c
    ensures ReplaceAll(c, from, to) == c
  {
    assert c + [] == c;
    ReplaceAllPastClean(c, [], from, to);
  }

  /** `str_replace` on a subject holding `from` once, where nothing else
      starts with the first character of `from`. */
  lemma ReplaceAllOnce(a: string, c: string, from: string, to: string)
    requires |from| > 0 && from[0] !in a && from[0] !in c
    ensures ReplaceAll(a + (from + c), from, to) == a + (to + c)
  {
    ReplaceAllPastClean(a, from + c, from, to);
    ReplaceAllAtFront(c, from, to);
    ReplaceAllClean(c, from, to);
  }

  /** `str_replace` on a subject holding `from` twice, where nothing else
      starts with the first character of `from`. */
  lemma ReplaceAllTwice(a: string, b: string, c: string, from: string, to: string)
    requires |from| > 0 && from[0] !in a && from[0] !in b && from[0] !in c
    ensures ReplaceAll(a + (from + (b + (from + c))), from, to) == a + (to + (b + (to + c)))
  {
    ReplaceAllPastClean(a, from + (b + (from + c)), from, to);
    ReplaceAllAtFront(b + (from + c), from, to);
    ReplaceAllOnce(b, c, from, to);
  }
}
