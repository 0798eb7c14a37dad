/** The query shape test of `NetworkAggregate::parseQuery`: the pattern
    `/(SELECT SQL_CALC_FOUND_ROWS)(.*?)(ORDER.*?)$/` applied with PCRE's
    default options, where `.` matches any character but a newline and `$`
    matches at the end of the subject or just before a final newline. */
module QueryMatch {
  import opened PhpStrings

  /** The three capture groups of a successful match. */
  datatype Matched = Matched(anchor: string, body: string, order: string)

  const Anchor: string := "SELECT SQL_CALC_FOUND_ROWS"
  const OrderWord: string := "ORDER"

  /** The position at which the pattern's `$` matches. */
  function End(q: string): (e: nat)
    ensures e <= |q|
    ensures e == |q| || (e == |q| - 1 && q[e] == '\n')
  {
    if |q| > 0 && q[|q| - 1] == '\n' then |q| - 1 else |q|
  }

  /** Start of the last line of `s`: just after its last newline. */
  function LineStart(s: string): (r: nat)
    ensures r <= |s|
    ensures forall k :: r <= k < |s| ==> s[k] != '\n'
    ensures r > 0 ==> s[r - 1] == '\n'
    decreases |s|
  {
    if |s| == 0 then 0
    else if s[|s| - 1] == '\n' then |s|
    else LineStart(s[..|s| - 1])
  }

  /** The pattern matches `q` with group 1 starting at `i` and group 3 at
      `j`: the anchor at `i`, `ORDER` at `j` after it, and no newline from
      `i` up to where `$` matches. */
  ghost predicate Candidate(q: string, i: nat, j: nat) {
    var e := End(q);
    && i + |Anchor| <= j
    && j + |OrderWord| <= e
    && Occurs(q, Anchor, i)
    && Occurs(q, OrderWord, j)
    && forall k :: i <= k < e ==> q[k] != '\n'
  }

  /** The match PCRE reports: the leftmost start, and for that start the
      shortest lazy body. */
  ghost predicate Preferred(q: string, i: nat, j: nat) {
    && Candidate(q, i, j)
    && forall i': nat, j': nat :: Candidate(q, i', j') ==> i < i' || (i == i' && j <= j')
  }

  /** The capture groups of the match at `i`, `j`. */
  function Groups(q: string, i: nat, j: nat): Matched
    requires i + |Anchor| <= j <= End(q)
  {
    Matched(q[i..i + |Anchor|], q[i + |Anchor|..j], q[j..End(q)])
  }

  /** `preg_match` with the shape pattern: `None` when it does not match. */
  function Match(q: string): (r: Option<Matched>)
    ensures r.Some? ==> r.value.anchor == Anchor
    ensures r.Some? ==> Occurs(r.value.order, OrderWord, 0)
    ensures r.Some? ==> Absent(r.value.body, OrderWord)
  {
    var text := q[..End(q)];
    match IndexOf(text, Anchor, LineStart(text))
    case None => None
    case Some(i) =>
      match IndexOf(text, OrderWord, i + |Anchor|)
      case None => None
      case Some(j) =>
        BeforeFirstIsFree(text, OrderWord, i + |Anchor|, j);
        Some(Matched(text[i..i + |Anchor|], text[i + |Anchor|..j], text[j..]))
  }

  /** No occurrence lies wholly between `from` and the first one at or
      after `from`. */
  lemma BeforeFirstIsFree(s: string, pat: string, from: nat, j: nat)
    requires |pat| > 0 && IndexOf(s, pat, from) == Some(j)
    ensures Absent(s[from..j], pat)
  {
    forall k: nat ensures !Occurs(s[from..j], pat, k) {
      if Occurs(s[from..j], pat, k) {
        assert s[from + k..from + k + |pat|] == s[from..j][k..k + |pat|];
        assert Occurs(s, pat, from + k);
      }
    }
  }

  // ---------------------------------------------------------------------
  // Properties

  /** The three groups together are a newline-free stretch that ends where
      `$` matches. */
  lemma MatchOnLastLine(q: string)
    requires Match(q).Some?
    ensures
      var m := Match(q).value;
      var whole := m.anchor + m.body + m.order;
      && |whole| <= End(q)
      && q[End(q) - |whole|..End(q)] == whole
      && forall k :: 0 <= k < |whole| ==> whole[k] != '\n'
  {
    var text := q[..End(q)];
    match IndexOf(text, Anchor, LineStart(text))
    case Some(i) =>
      match IndexOf(text, OrderWord, i + |Anchor|)
      case Some(j) =>
        MatchIsFirsts(q, i, j);
        GroupsOnLastLine(q, i, j);
  }

  lemma GroupsOnLastLine(q: string, i: nat, j: nat)
    requires i + |Anchor| <= j <= End(q)
    requires LineStart(q[..End(q)]) <= i
    ensures
      var m := Groups(q, i, j);
      var whole := m.anchor + m.body + m.order;
      && |whole| <= End(q)
      && q[End(q) - |whole|..End(q)] == whole
      && forall k :: 0 <= k < |whole| ==> whole[k] != '\n'
  {
    var e := End(q);
    var text := q[..e];
    var whole := q[i..i + |Anchor|] + q[i + |Anchor|..j] + q[j..e];
    assert whole == q[i..e];
    forall k | 0 <= k < |whole| ensures whole[k] != '\n' {
      assert whole[k] == text[i + k];
    }
  }

  lemma OccursInPrefix(q: string, e: nat, pat: string, k: nat)
    requires e <= |q|
    ensures Occurs(q[..e], pat, k) <==> Occurs(q, pat, k) && k + |pat| <= e
  {
    if k + |pat| <= e {
      assert q[..e][k..k + |pat|] == q[k..k + |pat|];
    }
  }

  /** Every match starts on the last line of the text `$` can see. */
  lemma CandidateOnLastLine(q: string, i: nat, j: nat)
    requires Candidate(q, i, j)
    ensures LineStart(q[..End(q)]) <= i
    ensures Occurs(q[..End(q)], Anchor, i) && Occurs(q[..End(q)], OrderWord, j)
  {
    OccursInPrefix(q, End(q), Anchor, i);
    OccursInPrefix(q, End(q), OrderWord, j);
  }

  /** Without an anchor on the last line nothing matches. */
  lemma NoAnchorNoCandidate(q: string)
    requires IndexOf(q[..End(q)], Anchor, LineStart(q[..End(q)])).None?
    ensures forall i: nat, j: nat :: !Candidate(q, i, j)
  {
    forall i: nat, j: nat ensures !Candidate(q, i, j) {
      if Candidate(q, i, j) {
        CandidateOnLastLine(q, i, j);
      }
    }
  }

  /** Without `ORDER` after the first anchor of the last line nothing
      matches. */
  lemma NoOrderNoCandidate(q: string, i: nat)
    requires IndexOf(q[..End(q)], Anchor, LineStart(q[..End(q)])) == Some(i)
    requires IndexOf(q[..End(q)], OrderWord, i + |Anchor|).None?
    ensures forall i': nat, j': nat :: !Candidate(q, i', j')
  {
    forall i': nat, j': nat ensures !Candidate(q, i', j') {
      if Candidate(q, i', j') {
        CandidateOnLastLine(q, i', j');
      }
    }
  }

  /** The first anchor of the last line and the first `ORDER` after it are
      the match PCRE prefers. */
  lemma FirstsArePreferred(q: string, i: nat, j: nat)
    requires IndexOf(q[..End(q)], Anchor, LineStart(q[..End(q)])) == Some(i)
    requires IndexOf(q[..End(q)], OrderWord, i + |Anchor|) == Some(j)
    ensures Preferred(q, i, j)
  {
    var e := End(q);
    var text := q[..e];
    OccursInPrefix(q, e, Anchor, i);
    OccursInPrefix(q, e, OrderWord, j);
    forall k | i <= k < e ensures q[k] != '\n' {
      assert text[k] == q[k];
    }
    assert Candidate(q, i, j);
    forall i': nat, j': nat | Candidate(q, i', j')
      ensures i < i' || (i == i' && j <= j')
    {
      CandidateOnLastLine(q, i', j');
    }
  }

  lemma MatchIsFirsts(q: string, i: nat, j: nat)
    requires IndexOf(q[..End(q)], Anchor, LineStart(q[..End(q)])) == Some(i)
    requires IndexOf(q[..End(q)], OrderWord, i + |Anchor|) == Some(j)
    ensures i + |Anchor| <= j <= End(q)
    ensures Match(q) == Some(Groups(q, i, j))
  {
    SlicesOfPrefix(q, End(q), i, i + |Anchor|, j);
  }

  lemma SlicesOfPrefix(q: string, e: nat, i: nat, m: nat, j: nat)
    requires i <= m <= j <= e <= |q|
    ensures q[..e][i..m] == q[i..m] && q[..e][m..j] == q[m..j] && q[..e][j..] == q[j..e]
  {
  }

  /** `Match` finds exactly what PCRE finds: nothing when no placement of
      the pattern fits, and otherwise the groups of the leftmost start with
      the shortest body. */
  lemma MatchIsLeftmostLazy(q: string)
    ensures Match(q).None? <==> forall i: nat, j: nat :: !Candidate(q, i, j)
    ensures Match(q).Some? ==>
      exists i: nat, j: nat :: Preferred(q, i, j) && Match(q).value == Groups(q, i, j)
  {
    var text := q[..End(q)];
    match IndexOf(text, Anchor, LineStart(text))
    case None =>
      NoAnchorNoCandidate(q);
    case Some(i) =>
      match IndexOf(text, OrderWord, i + |Anchor|)
      case None =>
        NoOrderNoCandidate(q, i);
      case Some(j) =>
        FirstsArePreferred(q, i, j);
        MatchIsFirsts(q, i, j);
  }

  /** On a query without newlines the body runs from the end of the first
      `SELECT SQL_CALC_FOUND_ROWS` to the first `ORDER` after it, and the
      order part from there to the end; text before the anchor is dropped. */
  lemma MatchNewlineFree(q: string, i: nat, j: nat)
    requires forall k :: 0 <= k < |q| ==> q[k] != '\n'
    requires IndexOf(q, Anchor, 0) == Some(i)
    requires IndexOf(q, OrderWord, i + |Anchor|) == Some(j)
    ensures Match(q) == Some(Matched(Anchor, q[i + |Anchor|..j], q[j..]))
  {
    assert End(q) == |q| && q[..End(q)] == q;
    assert LineStart(q) == 0;
    MatchIsFirsts(q, i, j);
  }

  /** A one-line query made of the anchor, a body in which no `ORDER`
      starts, and a tail starting with `ORDER` splits into exactly those
      three groups. */
  lemma MatchAssembled(body: string, rest: string)
    requires '\n' !in body && '\n' !in rest
    requires forall t :: 0 <= t < |body| ==> !Occurs(body + (OrderWord + rest), OrderWord, t)
    ensures Match(Anchor + (body + (OrderWord + rest))) == Some(Matched(Anchor, body, OrderWord + rest))
  {
    var q := Anchor + (body + (OrderWord + rest));
    var j := |Anchor| + |body|;
    AssembledNewlineFree(body, rest);
    AssembledAnchorFirst(body, rest);
    AssembledOrderFirst(body, rest);
    SlicesOfThree(Anchor, body, OrderWord + rest);
    MatchNewlineFree(q, 0, j);
  }

  lemma AssembledNewlineFree(body: string, rest: string)
    requires '\n' !in body && '\n' !in rest
    ensures forall k :: 0 <= k < |Anchor + (body + (OrderWord + rest))| ==> (Anchor + (body + (OrderWord + rest)))[k] != '\n'
  {
    assert '\n' !in Anchor && '\n' !in OrderWord;
  }

  lemma AssembledAnchorFirst(body: string, rest: string)
    ensures IndexOf(Anchor + (body + (OrderWord + rest)), Anchor, 0) == Some(0)
  {
    OccursAtFront(Anchor, body + (OrderWord + rest));
  }

  /** The first `ORDER` after the anchor is the one the tail starts with. */
  lemma AssembledOrderFirst(body: string, rest: string)
    requires forall t :: 0 <= t < |body| ==> !Occurs(body + (OrderWord + rest), OrderWord, t)
    ensures IndexOf(Anchor + (body + (OrderWord + rest)), OrderWord, |Anchor|) == Some(|Anchor| + |body|)
  {
    IndexOfAfterClean(Anchor, body, OrderWord, rest);
  }
}
