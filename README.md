# Network Aggregate: the query rewrite

The Network Aggregate WordPress plugin makes the home page of a multisite
network show posts from every site. It hooks the `posts_request` filter and
rewrites the main posts query so that it becomes a `UNION` of one SELECT per
site. This project models that rewrite, `NetworkAggregate::parseQuery`, and
proves what it does:

- **The shape test.** The query is matched against
  `/(SELECT SQL_CALC_FOUND_ROWS)(.*?)(ORDER.*?)$/` with PCRE's default
  options. `QueryMatch.Match` computes the three groups (anchor, body,
  order). `QueryMatch.Candidate` and `QueryMatch.Preferred` say
  independently which placements the pattern admits and which one PCRE
  reports: the leftmost start, then the shortest body. `.` does not match a
  newline, and `$` matches at the end or just before a final newline. So
  the match lies on the last line of the query, and that is modelled rather
  than excluded by a precondition.
- **The rewrite.** `NetworkAggregate.ParseQuery` matches the query, calls
  `NetworkAggregate.FillBranches`, which holds the source's `foreach` loop,
  then implodes the result with `" UNION "` and appends the ORDER tail with
  every `<posts table>.` deleted. The loop fills a PHP array keyed by site
  id: the home site's entry first, then one entry per other site. The array
  is held as the key order plus a map. `NetworkAggregate.Rewrite` is the
  function `ParseQuery` is proved against. It and `NetworkAggregate.Branches`
  (the list of SELECTs, home first) are reference definitions built from an
  independent description of which sites get a branch (`Fresh`: the
  distinct ids other than the home id, in first-seen order).
- **PHP string functions.** `PhpStrings` models `str_replace` (leftmost,
  non-overlapping, one pass), `explode`/`implode`, `substr` with a start
  past the end, and the decimal rendering of an id. Partner lemmas tie
  `str_replace` to `implode(to, explode(from, s))`.
- **A worked rewrite.** `RewriteExample.ExampleRewrite` shows the posts query
  `SELECT SQL_CALC_FOUND_ROWS wp_posts.* FROM wp_posts WHERE 1=1 ORDER BY wp_posts.post_date DESC`
  over sites 1, 2 and 3, seen from site 1. It becomes the home SELECT, then
  ` UNION SELECT  wp_2_posts.* …`, then the same for `wp_3_posts`, then
  `ORDER BY post_date DESC`.

Two facts about the code are worth stating plainly:

- No branch gets a `tenant_id` column. Each other site's SELECT is the
  captured body with only the posts table renamed.
- Stripping the table qualifier from the ORDER tail is one `str_replace`
  pass and is not idempotent: `NetworkAggregate.StripOrderNotIdempotent`
  shows a second pass removing a qualifier the first one brought together.

The home branch keeps `SQL_CALC_FOUND_ROWS`. Text before the anchor is
dropped from the result.

Files: `php_strings.dfy` (module `PhpStrings`), `query_match.dfy` (module
`QueryMatch`), `network_aggregate.dfy` (module `NetworkAggregate`) and
`rewrite_example.dfy` (module `RewriteExample`).

## Model

| member | source | states |
|---|---|---|
| NetworkAggregate.ParseQuery | network-aggregate.php:41-61 | The loop that fills the keyed `$query` array and the implode return exactly `Rewrite`: the query itself when the pattern fails; otherwise the home branch, one branch per distinct other site in first-seen order, joined by ` UNION `, then the stripped ORDER tail. |
| NetworkAggregate.FillBranches | network-aggregate.php:46-57 | The `foreach` over the site ids leaves the array keyed by the home id and then each other id in first-seen order, every value the right SELECT, and its values in key order are exactly the branch list. |
| NetworkAggregate.FillStep | network-aggregate.php:52-56 | One loop iteration keeps the array filled for the ids seen so far: the home id changes nothing, a known id has its entry overwritten in place, a new id is appended. |
| NetworkAggregate.ValueIsBranch | network-aggregate.php:46-58 | In a filled array, the value under the k-th key is the k-th branch. |
| NetworkAggregate.ValuesAreBranches | network-aggregate.php:46-58 | Once every id is visited, the array's values in key order are exactly the branch list: home first, then each other site. |
| NetworkAggregate.UnmatchedPassesThrough | network-aggregate.php:43-60 | When no placement of the pattern fits, the query comes back unchanged. |
| NetworkAggregate.HomeBranchFirst | network-aggregate.php:47 | On a match, the result starts with `SELECT SQL_CALC_FOUND_ROWS` and the untouched body. |
| NetworkAggregate.BranchCount | network-aggregate.php:46-58 | The branch count is 1 plus the number of distinct ids other than the home id, however often ids repeat. |
| NetworkAggregate.BranchesInInsertionOrder | network-aggregate.php:47-58 | Branch 0 is the anchor and body. Branch k is the renamed SELECT of the k-th other site. The home id never gets a renamed branch. The other sites are exactly the listed ids other than home, ordered by first appearance. |
| NetworkAggregate.Fresh | network-aggregate.php:52-56 | The ids kept are exactly those listed and not yet seen, each once. |
| NetworkAggregate.FreshSnoc | network-aggregate.php:52-56 | Visiting one more id changes the kept list the way a keyed PHP array assignment does: a new id is appended, a known or home id changes nothing. |
| NetworkAggregate.OtherBlogsSnoc | network-aggregate.php:52-56 | One loop step over the site list either appends the id or leaves the list of other sites as it was. |
| NetworkAggregate.FreshInFirstSeenOrder | network-aggregate.php:52-56 | Kept ids are ordered by the position of their first occurrence in the input. |
| NetworkAggregate.OtherBlogsCount | network-aggregate.php:52-56 | The number of other sites equals the number of distinct ids minus the home id. |
| NetworkAggregate.TableFor | network-aggregate.php:54 | A site's posts table starts with the table prefix. |
| NetworkAggregate.TableForPrefixed | network-aggregate.php:48-54 | When the posts table is the prefix plus a base name, site `id` reads `<prefix><id>_<base>`. |
| NetworkAggregate.TableForInjective | network-aggregate.php:54 | Different site ids give different table names. |
| NetworkAggregate.BranchTablesDistinct | network-aggregate.php:52-56 | No two branches read the same per-site table. |
| NetworkAggregate.OtherBranchRenamesOnlyTable | network-aggregate.php:55 | A site's branch is `SELECT ` plus the body with each occurrence of the posts table replaced by the site's table. The stretches between occurrences are kept unchanged. |
| NetworkAggregate.UnrenamedBodyRepeatsHome | network-aggregate.php:55 | A body that never names the posts table gives every other site a branch identical to the home body: the home rows are duplicated. |
| NetworkAggregate.StripOrderDeletesQualifiers | network-aggregate.php:50 | The ORDER tail loses each `<posts table>.` and keeps the text between them. |
| NetworkAggregate.StripOrderNotIdempotent | network-aggregate.php:50 | A second strip can delete a qualifier that the first strip brought together, so stripping is not idempotent. |
| QueryMatch.Match | network-aggregate.php:43 | On a match, the anchor is `SELECT SQL_CALC_FOUND_ROWS` and the order part starts with `ORDER`. The body holds no `ORDER`. |
| QueryMatch.MatchOnLastLine | network-aggregate.php:43 | Anchor, body and order together form a newline-free stretch of the query that ends where `$` matches. |
| QueryMatch.MatchIsLeftmostLazy | network-aggregate.php:43 | `Match` fails exactly when no placement of the pattern fits. Otherwise it returns the groups of the leftmost start with the shortest body. |
| QueryMatch.FirstsArePreferred | network-aggregate.php:43 | The first anchor on the last line and the first `ORDER` after it form the placement PCRE prefers. |
| QueryMatch.NoAnchorNoCandidate | network-aggregate.php:43 | Without an anchor on the last line, the pattern cannot match. |
| QueryMatch.NoOrderNoCandidate | network-aggregate.php:43 | Without an `ORDER` after that anchor, the pattern cannot match. |
| QueryMatch.MatchNewlineFree | network-aggregate.php:43 | On a one-line query, the body runs from the first anchor to the first `ORDER` after it, and the order part runs to the end. |
| QueryMatch.MatchAssembled | network-aggregate.php:43 | A one-line query made of the anchor, a body in which no `ORDER` starts, and `ORDER` plus a tail splits into exactly those three groups. |
| QueryMatch.End | network-aggregate.php:43 | `$` matches at the end, or just before one final newline. |
| QueryMatch.LineStart | network-aggregate.php:43 | The last line starts just after the last newline, and no newline follows it. |
| PhpStrings.IndexOf | network-aggregate.php:43 | The result is the first occurrence at or after the start position, and `None` means there is none. |
| PhpStrings.ReplaceAllIsJoinOfSplit | network-aggregate.php:55 | `str_replace(from, to, s)` equals `implode(to, explode(from, s))`. |
| PhpStrings.SplitJoinRoundTrip | network-aggregate.php:55 | `implode(sep, explode(sep, s))` gives back `s`. |
| PhpStrings.SplitPiecesFree | network-aggregate.php:55 | No piece of `explode` contains the separator. |
| PhpStrings.ReplaceAllKeepsTheRest | network-aggregate.php:55 | `str_replace` cuts the subject at the occurrences of the needle, keeps the stretches between them, and puts the replacement at each cut. |
| PhpStrings.IndexOfSkipRange | network-aggregate.php:43 | Searching from the start of a stretch without occurrences finds the same as searching from its end. |
| PhpStrings.IndexOfAfterClean | network-aggregate.php:43 | When nothing before a given occurrence matches, the search finds that occurrence. |
| PhpStrings.ReplaceAllAbsent | network-aggregate.php:55 | A subject without the needle is left unchanged. |
| PhpStrings.ReplaceAllSame | network-aggregate.php:55 | Replacing a needle by itself changes nothing. |
| PhpStrings.ReplaceAllClean | network-aggregate.php:55 | A subject without the first character of the needle is left unchanged. |
| PhpStrings.ReplaceAllOnce | network-aggregate.php:50 | A subject holding the needle once gets exactly that occurrence replaced. |
| PhpStrings.ReplaceAllTwice | network-aggregate.php:55 | A subject holding the needle twice gets both occurrences replaced. |
| PhpStrings.NatToString | network-aggregate.php:54 | An id renders as a non-empty string of decimal digits with no leading zero. |
| PhpStrings.ParseNatToString | network-aggregate.php:54 | Reading the rendered digits back gives the id. |
| PhpStrings.NatToStringInjective | network-aggregate.php:54 | Different ids render differently. |
| PhpStrings.JoinStartsWithFirst | network-aggregate.php:58 | `implode` starts with its first piece. |
| RewriteExample.QueryMatched | network-aggregate.php:43 | The example query over a posts table `t` (without `O` or a newline) splits into the anchor, the body ` t.* FROM t WHERE 1=1 ` and `ORDER BY t.post_date DESC`. |
| RewriteExample.BodyRenamed | network-aggregate.php:55 | Both mentions of `wp_posts` in the example body are renamed. |
| RewriteExample.OrderStripped | network-aggregate.php:50 | The example ORDER tail becomes `ORDER BY post_date DESC`. |
| RewriteExample.SiteTables | network-aggregate.php:48-54 | Sites 2 and 3 read `wp_2_posts` and `wp_3_posts`. |
| RewriteExample.ThreeSiteBranches | network-aggregate.php:46-57 | Seen from site 1, the sites 1, 2, 3 give the home SELECT and one renamed SELECT for each of sites 2 and 3. |
| RewriteExample.ThreeSiteRewrite | network-aggregate.php:41-61 | For any posts table name of the right shape, the example rewrite is three SELECTs joined by ` UNION `, then `ORDER BY post_date DESC`. |
| RewriteExample.ExampleRewrite | network-aggregate.php:41-61 | The whole example rewrite for `wp_posts`: three SELECTs over `wp_posts`, `wp_2_posts` and `wp_3_posts` joined by ` UNION `, then `ORDER BY post_date DESC`. |

## Left out

- `filterQuery` (network-aggregate.php:28-39) is not modelled. It decides through `WP_Query::parse_query` and `is_home`, WordPress code that is not part of this model.
- `loadBlogIds` (network-aggregate.php:24-26) is a database read. The site ids are a parameter of `ParseQuery`.
- The debug write to `/tmp/request.txt` (network-aggregate.php:42) is file I/O with no effect on the result, so it is left out.
- The constructor, `onInit` and the `add_action` registration (network-aggregate.php:15-22, 64-65) are hook wiring and are left out. The global `$wpdb` is replaced by parameters: the table prefix, the posts table name and `BLOG_ID_CURRENT_SITE` (`home`).
- ParseQuery: site ids are natural numbers rendered in decimal. PHP's loose `!=` between the string ids from the database and the integer constant, and its folding of numeric string keys into integer keys, are not modelled. For the unsigned decimal ids a `blog_id` column holds, both give the same result.
- QueryMatch.Match: a PCRE failure such as hitting the backtracking limit, where `preg_match` returns false and the query is returned unchanged, is not modelled.
