/** A worked rewrite: the main posts query of a network of three sites,
    seen from site 1, with the usual `wp_` table prefix. The query is
    written with the posts table as a parameter `t`, so that the steps are
    proved once for any table name and then used for `wp_posts`. */
module RewriteExample {
  import opened PhpStrings
  import opened QueryMatch
  import opened NetworkAggregate

  /** The text between the anchor and `ORDER`, reading table `t`. */
  function BodyWith(t: string): string {
    " " + (t + (".* FROM " + (t + " WHERE 1=1 ")))
  }

  /** The ORDER clause, qualified by table `t`. */
  function OrderWith(t: string): string {
    "ORDER BY " + (t + "." + "post_date DESC")
  }

  /** The query WP_Query builds for the posts page; for `wp_posts` it reads
      `SELECT SQL_CALC_FOUND_ROWS wp_posts.* FROM wp_posts WHERE 1=1 ORDER BY wp_posts.post_date DESC`. */
  function QueryWith(t: string): string {
    Anchor + (BodyWith(t) + OrderWith(t))
  }

  /** The body cut at its only `O`, the one of `FROM`. */
  lemma BodyCut(t: string)
    ensures BodyWith(t) == (" " + t + ".* FR") + "O" + ("M " + t + " WHERE 1=1 ")
  {
    assert ".* FROM " == ".* FR" + "O" + "M ";
  }

  /** No `ORDER` starts in a text whose only `O` is not followed by `R`. */
  lemma NoOrderAcross(f: string, b: string, tail: string)
    requires 'O' !in f && 'O' !in b && |b| > 0 && b[0] != 'R'
    ensures forall k :: 0 <= k < |f + "O" + b| ==> !Occurs(f + "O" + b + tail, OrderWord, k)
  {
    var s := f + "O" + b + tail;
    forall k | 0 <= k < |f + "O" + b| && k + |OrderWord| <= |s| ensures !Occurs(s, OrderWord, k) {
      if k < |f| {
        assert s[k..k + 5][0] == f[k];
      } else if k == |f| {
        assert s[k..k + 5][1] == b[0];
      } else {
        assert s[k..k + 5][0] == b[k - |f| - 1];
      }
    }
  }

  /** The pattern splits the query after the anchor and before `ORDER`. */
  lemma QueryMatched(t: string)
    requires 'O' !in t && '\n' !in t
    ensures Match(QueryWith(t)) == Some(Matched(Anchor, BodyWith(t), OrderWith(t)))
  {
    var rest := " BY " + (t + "." + "post_date DESC");
    assert OrderWith(t) == OrderWord + rest by {
      assert "ORDER BY " == OrderWord + " BY ";
    }
    BodyCut(t);
    assert 'O' !in " " + t + ".* FR" && 'O' !in "M " + t + " WHERE 1=1 ";
    NoOrderAcross(" " + t + ".* FR", "M " + t + " WHERE 1=1 ", OrderWith(t));
    assert '\n' !in BodyWith(t) && '\n' !in rest;
    MatchAssembled(BodyWith(t), rest);
  }

  /** Both mentions of the posts table in the body are renamed. */
  lemma BodyRenamed(t: string, table: string)
    requires |t| > 0 && t[0] !in " " && t[0] !in ".* FROM " && t[0] !in " WHERE 1=1 "
    ensures ReplaceAll(BodyWith(t), t, table) == BodyWith(table)
  {
    ReplaceAllTwice(" ", ".* FROM ", " WHERE 1=1 ", t, table);
  }

  /** The ORDER clause loses its table qualifier. */
  lemma OrderStripped(t: string)
    requires |t| > 0 && t[0] !in "ORDER BY " && t[0] !in "post_date DESC"
    ensures StripOrder(OrderWith(t), t) == "ORDER BY " + "post_date DESC"
  {
    ReplaceAllOnce("ORDER BY ", "post_date DESC", t + ".", "");
  }

  /** Sites 2 and 3 read their own posts tables. */
  lemma SiteTables()
    ensures TableFor("wp_", "wp_posts", 2) == "wp_2_posts"
    ensures TableFor("wp_", "wp_posts", 3) == "wp_3_posts"
  {
    TableForPrefixed("wp_", "posts", 2);
    TableForPrefixed("wp_", "posts", 3);
    assert "wp_" + "posts" == "wp_posts";
  }

  /** Seen from site 1, the network 1, 2, 3 gives the home SELECT and one
      renamed SELECT for each of sites 2 and 3. */
  lemma ThreeSiteBranches(prefix: string, t: string)
    requires |t| > 0 && t[0] !in " " && t[0] !in ".* FROM " && t[0] !in " WHERE 1=1 "
    ensures Branches(Matched(Anchor, BodyWith(t), OrderWith(t)), [1, 2, 3], 1, prefix, t)
         == [Anchor + BodyWith(t), "SELECT " + BodyWith(TableFor(prefix, t, 2)), "SELECT " + BodyWith(TableFor(prefix, t, 3))]
  {
    assert OtherBlogs([1, 2, 3], 1) == [2, 3];
    BodyRenamed(t, TableFor(prefix, t, 2));
    BodyRenamed(t, TableFor(prefix, t, 3));
  }

  lemma JoinThree(a: string, b: string, c: string, sep: string)
    ensures Join([a, b, c], sep) == a + sep + b + sep + c
  {
    JoinCons(a, [b, c], sep);
    JoinCons(b, [c], sep);
    assert [a, b, c] == [a] + [b, c] && [b, c] == [b] + [c];
  }

  /** `parseQuery` over the sites 1, 2, 3 seen from site 1: the three
      SELECTs joined by ` UNION `, followed by the ORDER clause without its
      table qualifier. */
  lemma ThreeSiteRewrite(prefix: string, t: string)
    requires 'O' !in t && '\n' !in t
    requires |t| > 0 && t[0] !in " " && t[0] !in ".* FROM " && t[0] !in " WHERE 1=1 "
    requires t[0] !in "ORDER BY " && t[0] !in "post_date DESC"
    ensures Rewrite(QueryWith(t), [1, 2, 3], 1, prefix, t)
         == Anchor + BodyWith(t)
          + UnionSeparator + ("SELECT " + BodyWith(TableFor(prefix, t, 2)))
          + UnionSeparator + ("SELECT " + BodyWith(TableFor(prefix, t, 3)))
          + ("ORDER BY " + "post_date DESC")
  {
    var m := Matched(Anchor, BodyWith(t), OrderWith(t));
    var a, b, c := Anchor + BodyWith(t), "SELECT " + BodyWith(TableFor(prefix, t, 2)), "SELECT " + BodyWith(TableFor(prefix, t, 3));
    assert Match(QueryWith(t)) == Some(m) by {
      QueryMatched(t);
    }
    assert Branches(m, [1, 2, 3], 1, prefix, t) == [a, b, c] by {
      ThreeSiteBranches(prefix, t);
    }
    assert Join([a, b, c], UnionSeparator) == a + UnionSeparator + b + UnionSeparator + c by {
      JoinThree(a, b, c, UnionSeparator);
    }
    assert StripOrder(OrderWith(t), t) == "ORDER BY " + "post_date DESC" by {
      OrderStripped(t);
    }
  }

  /** The posts query of the main site of a `wp_` network of sites 1, 2
      and 3 becomes the home SELECT, then ` UNION SELECT  wp_2_posts.* …`
      and the same for `wp_3_posts`, then `ORDER BY post_date DESC`. */
  lemma ExampleRewrite()
    ensures Rewrite(QueryWith("wp_posts"), [1, 2, 3], 1, "wp_", "wp_posts")
         == Anchor + BodyWith("wp_posts")
          + UnionSeparator + ("SELECT " + BodyWith("wp_2_posts"))
          + UnionSeparator + ("SELECT " + BodyWith("wp_3_posts"))
          + ("ORDER BY " + "post_date DESC")
  {
    assert 'O' !in "wp_posts" && '\n' !in "wp_posts";
    assert 'w' !in " " && 'w' !in ".* FROM " && 'w' !in " WHERE 1=1 ";
    assert 'w' !in "ORDER BY " && 'w' !in "post_date DESC";
    SiteTables();
    ThreeSiteRewrite("wp_", "wp_posts");
  }
}
