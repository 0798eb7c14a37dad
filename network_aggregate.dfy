/** `NetworkAggregate::parseQuery`: rewrites the main posts query of the
    home site into one UNION over the posts tables of every site of the
    network. The site list (`$this->blog_ids`), the home site id
    (`BLOG_ID_CURRENT_SITE`), the table prefix and the posts table name
    (`$wpdb->prefix`, `$wpdb->posts`) are parameters. */
module NetworkAggregate {
  import opened PhpStrings
  import opened QueryMatch

  /** Separator `implode` puts between the per-site SELECTs. */
  const UnionSeparator: string := " UNION "

  // ---------------------------------------------------------------------
  // Per-site table names

  /** The posts table of site `id`: the prefix, the id, `_`, then the posts
      table with as many leading characters dropped as the prefix has. */
  function TableFor(prefix: string, postTable: string, id: nat): (r: string)
    ensures |prefix| < |r| && r[..|prefix|] == prefix
  {
    prefix + NatToString(id) + "_" + Substr(postTable, |prefix|)
  }

  /** With the usual naming, where the posts table is the prefix followed
      by a base name, site `id` reads `<prefix><id>_<base>`. */
  lemma TableForPrefixed(prefix: string, base: string, id: nat)
    ensures TableFor(prefix, prefix + base, id) == prefix + NatToString(id) + "_" + base
  {
    assert (prefix + base)[|prefix|..] == base;
  }

  /** Two different sites never share a posts table. */
  lemma TableForInjective(prefix: string, postTable: string, a: nat, b: nat)
    requires TableFor(prefix, postTable, a) == TableFor(prefix, postTable, b)
    ensures a == b
  {
    var suffix := "_" + Substr(postTable, |prefix|);
    var ta, tb := TableFor(prefix, postTable, a), TableFor(prefix, postTable, b);
    assert ta == prefix + NatToString(a) + suffix;
    assert tb == prefix + NatToString(b) + suffix;
    assert |NatToString(a)| == |NatToString(b)|;
    assert NatToString(a) == ta[|prefix|..|ta| - |suffix|];
    assert NatToString(b) == tb[|prefix|..|tb| - |suffix|];
    NatToStringInjective(a, b);
  }

  // ---------------------------------------------------------------------
  // Which sites get a branch

  /** The ids of `ids` that are not in `seen`, each once, in the order of
      their first occurrence. */
  function Fresh(ids: seq<nat>, seen: set<nat>): (r: seq<nat>)
    ensures forall x :: x in r <==> x in ids && x !in seen
    ensures forall a, b :: 0 <= a < b < |r| ==> r[a] != r[b]
    decreases |ids|
  {
    if |ids| == 0 then []
    else if ids[0] in seen then Fresh(ids[1..], seen)
    else [ids[0]] + Fresh(ids[1..], seen + {ids[0]})
  }

  /** The sites other than the home site, once each, in first-seen order. */
  function OtherBlogs(ids: seq<nat>, home: nat): seq<nat> {
    Fresh(ids, {home})
  }

  /** Position of the first occurrence of `x` in `s`. */
  function FirstIndex(s: seq<nat>, x: nat): (r: nat)
    requires x in s
    ensures r < |s| && s[r] == x
    ensures forall k :: 0 <= k < r ==> s[k] != x
    decreases |s|
  {
    if s[0] == x then 0 else 1 + FirstIndex(s[1..], x)
  }

  /** Appending one id extends the result exactly as assigning a new key
      to a PHP array does: a new id goes last, a known or excluded one
      changes nothing. */
  lemma {:induction false} FreshSnoc(ids: seq<nat>, seen: set<nat>, x: nat)
    ensures Fresh(ids + [x], seen)
         == if x in seen || x in Fresh(ids, seen) then Fresh(ids, seen) else Fresh(ids, seen) + [x]
    decreases |ids|
  {
    if |ids| > 0 {
      assert (ids + [x])[1..] == ids[1..] + [x];
      if ids[0] in seen {
        FreshSnoc(ids[1..], seen, x);
      } else {
        FreshSnoc(ids[1..], seen + {ids[0]}, x);
      }
    }
  }

  /** Visiting one more site id, as the loop over the site list does. */
  lemma OtherBlogsSnoc(ids: seq<nat>, n: nat, home: nat)
    requires n < |ids|
    ensures OtherBlogs(ids[..n + 1], home)
         == if ids[n] == home || ids[n] in OtherBlogs(ids[..n], home) then OtherBlogs(ids[..n], home)
            else OtherBlogs(ids[..n], home) + [ids[n]]
  {
    assert ids[..n + 1] == ids[..n] + [ids[n]];
    FreshSnoc(ids[..n], {home}, ids[n]);
  }

  /** The ids come out ordered by where each first appears in the input. */
  lemma {:induction false} FreshInFirstSeenOrder(ids: seq<nat>, seen: set<nat>, a: nat, b: nat)
    requires a < b < |Fresh(ids, seen)|
    ensures FirstIndex(ids, Fresh(ids, seen)[a]) < FirstIndex(ids, Fresh(ids, seen)[b])
    decreases |ids|
  {
    var r := Fresh(ids, seen);
    if ids[0] in seen {
      FreshInFirstSeenOrder(ids[1..], seen, a, b);
    } else if a > 0 {
      FreshInFirstSeenOrder(ids[1..], seen + {ids[0]}, a - 1, b - 1);
    } else {
      assert r[b] != ids[0];
    }
  }

  /** The ids a sequence mentions. */
  function Elements(s: seq<nat>): set<nat> {
    set x | x in s
  }

  lemma {:induction false} DistinctCardinality(s: seq<nat>)
    requires forall a, b :: 0 <= a < b < |s| ==> s[a] != s[b]
    ensures |Elements(s)| == |s|
    decreases |s|
  {
    if |s| > 0 {
      DistinctCardinality(s[1..]);
      assert Elements(s) == Elements(s[1..]) + {s[0]};
      assert s[0] !in Elements(s[1..]);
    }
  }

  /** One site per distinct id other than the home id. */
  lemma OtherBlogsCount(ids: seq<nat>, home: nat)
    ensures |OtherBlogs(ids, home)| == |Elements(ids) - {home}|
  {
    var r := OtherBlogs(ids, home);
    DistinctCardinality(r);
    assert Elements(r) == Elements(ids) - {home};
  }

  // ---------------------------------------------------------------------
  // The rewrite

  /** The SELECT for a site other than the home site: the captured body
      with the home posts table renamed to that site's table. */
  function OtherBranch(body: string, prefix: string, postTable: string, id: nat): string {
    "SELECT " + ReplaceAll(body, postTable, TableFor(prefix, postTable, id))
  }

  /** The values of the `$query` array in order: the home SELECT, then one
      SELECT per other site. */
  function Branches(m: Matched, ids: seq<nat>, home: nat, prefix: string, postTable: string): seq<string>
  {
    var others := OtherBlogs(ids, home);
    [m.anchor + m.body]
      + seq(|others|, k requires 0 <= k < |others| => OtherBranch(m.body, prefix, postTable, others[k]))
  }

  /** The ORDER clause with every `<posts table>.` qualifier deleted. */
  function StripOrder(order: string, postTable: string): string {
    ReplaceAll(order, postTable + ".", "")
  }

  /** What `parseQuery` returns. */
  function Rewrite(query: string, ids: seq<nat>, home: nat, prefix: string, postTable: string): string {
    match Match(query)
    case None => query
    case Some(m) => Join(Branches(m, ids, home, prefix, postTable), UnionSeparator) + StripOrder(m.order, postTable)
  }

  /** The values of a PHP array held as its keys in order and its map. */
  function Values(keys: seq<nat>, entries: map<nat, string>): seq<string>
    requires forall k :: 0 <= k < |keys| ==> keys[k] in entries
  {
    seq(|keys|, k requires 0 <= k < |keys| => entries[keys[k]])
  }

  /** The `$query` array after the loop has visited the ids `seen`, held as
      its keys in order and its entries: the home entry first, then each
      other site in first-seen order with its renamed SELECT. */
  ghost predicate Filled(keys: seq<nat>, entries: map<nat, string>, m: Matched,
                         seen: seq<nat>, home: nat, prefix: string, postTable: string) {
    && keys == [home] + OtherBlogs(seen, home)
    && entries.Keys == Elements(keys)
    && home in entries
    && entries[home] == m.anchor + m.body
    && forall k :: k in entries && k != home ==> entries[k] == OtherBranch(m.body, prefix, postTable, k)
  }

  /** One iteration of the loop: an id other than the home one is assigned
      its branch, appended to the keys when new and overwritten in place
      when already present; the home id changes nothing. */
  lemma FillStep(keys: seq<nat>, entries: map<nat, string>, m: Matched,
                 ids: seq<nat>, n: nat, home: nat, prefix: string, postTable: string)
    requires n < |ids|
    requires Filled(keys, entries, m, ids[..n], home, prefix, postTable)
    ensures ids[n] == home ==> Filled(keys, entries, m, ids[..n + 1], home, prefix, postTable)
    ensures ids[n] != home ==>
      var entries' := entries[ids[n] := OtherBranch(m.body, prefix, postTable, ids[n])];
      var keys' := if ids[n] in entries then keys else keys + [ids[n]];
      Filled(keys', entries', m, ids[..n + 1], home, prefix, postTable)
  {
    var id := ids[n];
    var before := OtherBlogs(ids[..n], home);
    OtherBlogsSnoc(ids, n, home);
    assert id in entries <==> id == home || id in before;
    if id == home {
      assert OtherBlogs(ids[..n + 1], home) == before;
    } else if id in entries {
      assert OtherBlogs(ids[..n + 1], home) == before;
      FillOverwrite(keys, entries, m, ids[..n + 1], home, prefix, postTable, id);
    } else {
      assert OtherBlogs(ids[..n + 1], home) == before + [id];
      FillAppend(keys, entries, m, ids[..n], ids[..n + 1], home, prefix, postTable, id);
    }
  }

  /** Assigning a key that is already present keeps its position. */
  lemma FillOverwrite(keys: seq<nat>, entries: map<nat, string>, m: Matched,
                      seen: seq<nat>, home: nat, prefix: string, postTable: string, id: nat)
    requires id != home && id in entries
    requires Filled(keys, entries, m, seen, home, prefix, postTable)
    ensures Filled(keys, entries[id := OtherBranch(m.body, prefix, postTable, id)], m, seen, home, prefix, postTable)
  {
    var entries' := entries[id := OtherBranch(m.body, prefix, postTable, id)];
    assert entries'.Keys == entries.Keys;
  }

  /** Assigning a new key appends it. */
  lemma FillAppend(keys: seq<nat>, entries: map<nat, string>, m: Matched,
                   seen: seq<nat>, seen': seq<nat>, home: nat, prefix: string, postTable: string, id: nat)
    requires id != home && id !in entries
    requires OtherBlogs(seen', home) == OtherBlogs(seen, home) + [id]
    requires Filled(keys, entries, m, seen, home, prefix, postTable)
    ensures Filled(keys + [id], entries[id := OtherBranch(m.body, prefix, postTable, id)], m, seen', home, prefix, postTable)
  {
    assert Elements(keys + [id]) == Elements(keys) + {id};
    assert keys + [id] == [home] + OtherBlogs(seen', home);
  }

  /** Once every id has been visited, the array holds exactly `Branches`. */
  lemma ValuesAreBranches(keys: seq<nat>, entries: map<nat, string>, m: Matched,
                          ids: seq<nat>, home: nat, prefix: string, postTable: string)
    requires Filled(keys, entries, m, ids, home, prefix, postTable)
    ensures forall k :: 0 <= k < |keys| ==> keys[k] in entries
    ensures Values(keys, entries) == Branches(m, ids, home, prefix, postTable)
  {
    assert forall k :: 0 <= k < |keys| ==> keys[k] in Elements(keys);
    var vs := Values(keys, entries);
    var bs := Branches(m, ids, home, prefix, postTable);
    forall k | 0 <= k < |keys| ensures vs[k] == bs[k] {
      ValueIsBranch(keys, entries, m, ids, home, prefix, postTable, k);
    }
  }

  /** The k-th entry of the branch list. */
  lemma BranchAt(m: Matched, ids: seq<nat>, home: nat, prefix: string, postTable: string, k: nat)
    requires k <= |OtherBlogs(ids, home)|
    ensures |Branches(m, ids, home, prefix, postTable)| == 1 + |OtherBlogs(ids, home)|
    ensures Branches(m, ids, home, prefix, postTable)[k]
         == if k == 0 then m.anchor + m.body
            else OtherBranch(m.body, prefix, postTable, OtherBlogs(ids, home)[k - 1])
  {
  }

  lemma ValueIsBranch(keys: seq<nat>, entries: map<nat, string>, m: Matched,
                      ids: seq<nat>, home: nat, prefix: string, postTable: string, k: nat)
    requires Filled(keys, entries, m, ids, home, prefix, postTable)
    requires k < |keys|
    ensures keys[k] in entries
    ensures entries[keys[k]] == Branches(m, ids, home, prefix, postTable)[k]
  {
    assert keys[k] in Elements(keys);
    var others := OtherBlogs(ids, home);
    BranchAt(m, ids, home, prefix, postTable, k);
    if k == 0 {
      assert keys[k] == home;
    } else {
      assert keys[k] == others[k - 1];
      assert home !in others;
    }
  }

  /** The `foreach` of `parseQuery`: the `$query` array, started with the
      home entry, gets an entry for every listed id other than the home
      one. Its values in key order are the branch list. */
  method FillBranches(m: Matched, blogIds: seq<nat>, home: nat, prefix: string, postTable: string)
    returns (keys: seq<nat>, branches: map<nat, string>)
    ensures Filled(keys, branches, m, blogIds, home, prefix, postTable)
    ensures forall k :: 0 <= k < |keys| ==> keys[k] in branches
    ensures Values(keys, branches) == Branches(m, blogIds, home, prefix, postTable)
  {
    keys := [home];
    branches := map[home := m.anchor + m.body];
    var suffix := Substr(postTable, |prefix|);
    assert Elements(keys) == {home};
    for n := 0 to |blogIds|
      invariant Filled(keys, branches, m, blogIds[..n], home, prefix, postTable)
    {
      var id := blogIds[n];
      FillStep(keys, branches, m, blogIds, n, home, prefix, postTable);
      if id != home {
        var table := prefix + NatToString(id) + "_" + suffix;
        var branch := "SELECT " + ReplaceAll(m.body, postTable, table);
        assert branch == OtherBranch(m.body, prefix, postTable, id);
        keys := if id in branches then keys else keys + [id];
        branches := branches[id := branch];
      }
    }
    assert blogIds[..|blogIds|] == blogIds;
    ValuesAreBranches(keys, branches, m, blogIds, home, prefix, postTable);
  }

  /** `parseQuery`: split the query with the shape pattern, then fill the
      `$query` array keyed by site id, home site first, and implode it
      followed by the stripped ORDER tail. */
  method ParseQuery(query: string, blogIds: seq<nat>, home: nat, prefix: string, postTable: string)
    returns (result: string)
    ensures result == Rewrite(query, blogIds, home, prefix, postTable)
  {
    var matched := Match(query);
    if matched.None? {
      return query;
    }
    var m := matched.value;
    var order := ReplaceAll(m.order, postTable + ".", "");
    var keys, branches := FillBranches(m, blogIds, home, prefix, postTable);
    result := Join(Values(keys, branches), UnionSeparator) + order;
  }

  // ---------------------------------------------------------------------
  // Properties of the rewrite

  /** A query the shape pattern cannot match is returned unchanged. */
  lemma UnmatchedPassesThrough(query: string, ids: seq<nat>, home: nat, prefix: string, postTable: string)
    requires forall i: nat, j: nat :: !Candidate(query, i, j)
    ensures Rewrite(query, ids, home, prefix, postTable) == query
  {
    MatchIsLeftmostLazy(query);
  }

  /** On a match the result opens with the home SELECT: the anchor, still
      carrying SQL_CALC_FOUND_ROWS, and the untouched body; any text before
      the anchor is gone. */
  lemma HomeBranchFirst(query: string, ids: seq<nat>, home: nat, prefix: string, postTable: string)
    requires Match(query).Some?
    ensures var head := Anchor + Match(query).value.body;
            var r := Rewrite(query, ids, home, prefix, postTable);
            |head| <= |r| && r[..|head|] == head
  {
    var m := Match(query).value;
    var bs := Branches(m, ids, home, prefix, postTable);
    JoinStartsWithFirst(bs, UnionSeparator);
    var joined := Join(bs, UnionSeparator);
    assert (joined + StripOrder(m.order, postTable))[..|bs[0]|] == joined[..|bs[0]|];
  }

  /** There is one branch for the home site plus one per distinct other
      id, whatever the repetitions in the site list. */
  lemma BranchCount(m: Matched, ids: seq<nat>, home: nat, prefix: string, postTable: string)
    ensures |Branches(m, ids, home, prefix, postTable)| == 1 + |Elements(ids) - {home}|
  {
    OtherBlogsCount(ids, home);
  }

  /** Branch `k` after the home one belongs to the `k`-th other site in
      first-seen order; the home site has no renamed branch, and no other
      site has two. */
  lemma BranchesInInsertionOrder(m: Matched, ids: seq<nat>, home: nat, prefix: string, postTable: string)
    ensures var bs := Branches(m, ids, home, prefix, postTable);
            var others := OtherBlogs(ids, home);
            && bs[0] == m.anchor + m.body
            && (forall k :: 0 < k < |bs| ==> bs[k] == OtherBranch(m.body, prefix, postTable, others[k - 1]))
            && home !in others
            && (forall x :: x in others <==> x in ids && x != home)
            && (forall a, b :: 0 <= a < b < |others| ==> FirstIndex(ids, others[a]) < FirstIndex(ids, others[b]))
  {
    var others := OtherBlogs(ids, home);
    forall a, b | 0 <= a < b < |others|
      ensures FirstIndex(ids, others[a]) < FirstIndex(ids, others[b])
    {
      FreshInFirstSeenOrder(ids, {home}, a, b);
    }
  }

  /** No two branches read the same per-site table. */
  lemma BranchTablesDistinct(ids: seq<nat>, home: nat, prefix: string, postTable: string)
    ensures var others := OtherBlogs(ids, home);
            forall a, b :: 0 <= a < b < |others| ==>
              TableFor(prefix, postTable, others[a]) != TableFor(prefix, postTable, others[b])
  {
    var others := OtherBlogs(ids, home);
    forall a, b | 0 <= a < b < |others|
      ensures TableFor(prefix, postTable, others[a]) != TableFor(prefix, postTable, others[b])
    {
      if TableFor(prefix, postTable, others[a]) == TableFor(prefix, postTable, others[b]) {
        TableForInjective(prefix, postTable, others[a], others[b]);
      }
    }
  }

  /** A site's branch is `SELECT ` and the body with each occurrence of the
      posts table renamed, every other character kept. */
  lemma OtherBranchRenamesOnlyTable(body: string, prefix: string, postTable: string, id: nat)
    requires |postTable| > 0
    ensures exists parts: seq<string> ::
      && body == Join(parts, postTable)
      && OtherBranch(body, prefix, postTable, id) == "SELECT " + Join(parts, TableFor(prefix, postTable, id))
      && forall n :: 0 <= n < |parts| ==> Absent(parts[n], postTable)
  {
    ReplaceAllKeepsTheRest(body, postTable, TableFor(prefix, postTable, id));
  }

  /** When the body never names the posts table, every other site's
      branch re-reads the home table. */
  lemma UnrenamedBodyRepeatsHome(body: string, prefix: string, postTable: string, id: nat)
    requires Absent(body, postTable)
    ensures OtherBranch(body, prefix, postTable, id) == "SELECT " + body
  {
    ReplaceAllAbsent(body, postTable, TableFor(prefix, postTable, id));
  }

  /** The ORDER tail loses each `<posts table>.` qualifier and nothing else. */
  lemma StripOrderDeletesQualifiers(order: string, postTable: string)
    ensures exists parts: seq<string> ::
      && order == Join(parts, postTable + ".")
      && StripOrder(order, postTable) == Join(parts, "")
      && forall n :: 0 <= n < |parts| ==> Absent(parts[n], postTable + ".")
  {
    ReplaceAllKeepsTheRest(order, postTable + ".", "");
  }

  /** Stripping the qualifiers twice can remove more than stripping once:
      deletion can bring a new qualifier together. */
  lemma StripOrderNotIdempotent()
    ensures StripOrder("tt..x", "t") == "t.x"
    ensures StripOrder(StripOrder("tt..x", "t"), "t") == "x"
  {
    assert "t" + "." == "t.";
    assert ReplaceAll("tt..x", "t.", "") == "t" + ReplaceAll("t..x", "t.", "");
  }
}
