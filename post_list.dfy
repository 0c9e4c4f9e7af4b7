/**
 * The post list's view logic: the search, user filter and sort pipeline that
 * turns the store's posts into the cards shown, the user filter's options, and
 * the handlers that reset and toggle the controls.
 */
module PostList {
  import opened Posts
  import opened JsStrings
  import Seqs

  /** The `sortBy` options: 'id', 'title' and 'userId'. */
  datatype SortKey = ById | ByTitle | ByUserId

  /** The `sortOrder` values 'asc' and 'desc'. */
  datatype SortOrder = Asc | Desc

  /** The `filterByUser` value: 'all' or one user id. */
  datatype UserFilter = AllUsers | OnlyUser(userId: int)

  /** The filtering and sorting controls of the list. */
  datatype ListControls = ListControls(searchTerm: string, sortBy: SortKey, sortOrder: SortOrder, filterByUser: UserFilter)

  /** The controls' initial state: no search, all users, by id, descending. */
  const InitialControls := ListControls("", ById, Desc, AllUsers)

  /** `handleClearFilters`: every control goes back to its initial value. */
  function ClearFilters(c: ListControls): (r: ListControls)
    ensures r == InitialControls
  {
    c.(searchTerm := "", filterByUser := AllUsers, sortBy := ById, sortOrder := Desc)
  }

  /** The sort-order button: 'asc' becomes 'desc', anything else becomes 'asc'. */
  function ToggleSortOrder(o: SortOrder): (r: SortOrder)
    ensures r != o
  {
    if o == Asc then Desc else Asc
  }

  /** Two presses of the sort-order button restore the order. */
  lemma ToggleSortOrderTwice(o: SortOrder)
    ensures ToggleSortOrder(ToggleSortOrder(o)) == o
  {
  }

  // ---------------------------------------------------------------------------
  // Search

  /** `toLowerCase` on one character, for the ASCII letters. */
  function LowerChar(c: char): char
  {
    if 'A' <= c <= 'Z' then (c as int + 32) as char else c
  }

  /** `toLowerCase`, character by character. */
  function Lower(s: string): (r: string)
    ensures |r| == |s|
    ensures forall i :: 0 <= i < |s| ==> r[i] == LowerChar(s[i])
    ensures forall i :: 0 <= i < |r| ==> !('A' <= r[i] <= 'Z')
  {
    seq(|s|, i requires 0 <= i < |s| => LowerChar(s[i]))
  }

  /** `needle` occurs in `hay` starting at code unit `i`. */
  predicate OccursAt(hay: seq<CodeUnit>, needle: seq<CodeUnit>, i: int)
  {
    0 <= i && i + |needle| <= |hay| && hay[i..i + |needle|] == needle
  }

  /** `hay.includes(needle)`: `needle` is a prefix of `hay` or occurs in its tail. */
  predicate Includes(hay: seq<CodeUnit>, needle: seq<CodeUnit>)
    decreases |hay|
  {
    |needle| <= |hay| && (hay[..|needle|] == needle || Includes(hay[1..], needle))
  }

  /** `Includes` holds exactly when `needle` occurs somewhere in `hay`. */
  lemma {:induction false} IncludesOccurs(hay: seq<CodeUnit>, needle: seq<CodeUnit>)
    ensures Includes(hay, needle) <==> exists i :: OccursAt(hay, needle, i)
    decreases |hay|
  {
    if |needle| <= |hay| {
      if hay[..|needle|] == needle {
        assert OccursAt(hay, needle, 0);
      } else {
        IncludesOccurs(hay[1..], needle);
        if Includes(hay[1..], needle) {
          var i :| OccursAt(hay[1..], needle, i);
          assert hay[i + 1..i + 1 + |needle|] == hay[1..][i..i + |needle|];
          assert OccursAt(hay, needle, i + 1);
        }
        if i :| OccursAt(hay, needle, i) {
          assert i != 0;
          assert hay[1..][i - 1..i - 1 + |needle|] == hay[i..i + |needle|];
          assert OccursAt(hay[1..], needle, i - 1);
        }
      }
    } else {
      if i :| OccursAt(hay, needle, i) {
        assert false;
      }
    }
  }

  /** The search test: the lowercased title or body contains the lowercased term. */
  predicate MatchesSearch(p: Post, term: string)
  {
    Includes(Utf16(Lower(p.title)), Utf16(Lower(term))) || Includes(Utf16(Lower(p.body)), Utf16(Lower(term)))
  }

  /** The search step: applied only when the search term is non-empty. */
  function SearchStep(posts: seq<Post>, term: string): seq<Post>
  {
    if term != "" then Seqs.Filter(posts, (p: Post) => MatchesSearch(p, term)) else posts
  }

  /** The user step: applied only when a single user is selected. */
  function UserStep(posts: seq<Post>, filter: UserFilter): seq<Post>
  {
    match filter
    case AllUsers => posts
    case OnlyUser(u) => Seqs.Filter(posts, (p: Post) => p.userId == u)
  }

  /** The posts the list selects, before sorting. */
  function Selected(posts: seq<Post>, c: ListControls): seq<Post>
  {
    UserStep(SearchStep(posts, c.searchTerm), c.filterByUser)
  }

  /** Whether `p` passes both the search and the user filter of `c`. */
  predicate Shown(p: Post, c: ListControls)
  {
    (c.searchTerm == "" || MatchesSearch(p, c.searchTerm)) &&
    (c.filterByUser.AllUsers? || p.userId == c.filterByUser.userId)
  }

  /**
   * The selection keeps exactly the posts that pass both filters, every copy of
   * each, in their original order, and adds nothing.
   */
  lemma SelectedSpec(posts: seq<Post>, c: ListControls)
    ensures forall p :: multiset(Selected(posts, c))[p] == if Shown(p, c) then multiset(posts)[p] else 0
    ensures Seqs.IsSubsequence(Selected(posts, c), posts)
  {
    var term, afterSearch := c.searchTerm, SearchStep(posts, c.searchTerm);
    var bySearch := (p: Post) => MatchesSearch(p, term);
    if term != "" {
      Seqs.FilterIsSubsequence(posts, bySearch);
      forall p ensures multiset(afterSearch)[p] == if term == "" || MatchesSearch(p, term) then multiset(posts)[p] else 0 {
        Seqs.FilterMultiset(posts, bySearch, p);
      }
    } else {
      SubsequenceReflexive(posts);
    }
    match c.filterByUser
    case AllUsers =>
    case OnlyUser(u) =>
      var byUser := (p: Post) => p.userId == u;
      Seqs.FilterIsSubsequence(afterSearch, byUser);
      SubsequenceTransitive(Selected(posts, c), afterSearch, posts);
      forall p ensures multiset(Selected(posts, c))[p] == if p.userId == u then multiset(afterSearch)[p] else 0 {
        Seqs.FilterMultiset(afterSearch, byUser, p);
      }
  }

  /** Every sequence is a subsequence of itself. */
  lemma {:induction false} SubsequenceReflexive(s: seq<Post>)
    ensures Seqs.IsSubsequence(s, s)
  {
    if s != [] {
      SubsequenceReflexive(s[1..]);
    }
  }

  /** A subsequence of a subsequence of `s` is a subsequence of `s`. */
  lemma {:induction false} SubsequenceTransitive(a: seq<Post>, b: seq<Post>, c: seq<Post>)
    requires Seqs.IsSubsequence(a, b) && Seqs.IsSubsequence(b, c)
    ensures Seqs.IsSubsequence(a, c)
    decreases |c|
  {
    if a != [] {
      assert b != [] && c != [];
      if b[0] == c[0] {
        if a[0] == b[0] {
          SubsequenceTransitive(a[1..], b[1..], c[1..]);
        } else {
          SubsequenceTransitive(a, b[1..], c[1..]);
        }
      } else {
        SubsequenceTransitive(a, b, c[1..]);
        if a[0] == c[0] {
          Seqs.SubsequenceDropHead(a, c[1..]);
        }
      }
    }
  }

  // ---------------------------------------------------------------------------
  // Sorting

  /** `x` may precede `y` in ascending order of the `sortBy` key; titles compare lowercased. */
  predicate KeyLe(sortBy: SortKey, x: Post, y: Post)
  {
    match sortBy
    case ById => x.id <= y.id
    case ByUserId => x.userId <= y.userId
    case ByTitle => LexLe(Utf16(Lower(x.title)), Utf16(Lower(y.title)))
  }

  /** `x` may precede `y` in the chosen direction. */
  predicate InOrder(x: Post, y: Post, sortBy: SortKey, order: SortOrder)
  {
    if order == Asc then KeyLe(sortBy, x, y) else KeyLe(sortBy, y, x)
  }

  /** Non-decreasing by the key for 'asc', non-increasing for 'desc'. */
  predicate Sorted(s: seq<Post>, sortBy: SortKey, order: SortOrder)
  {
    forall i, j :: 0 <= i < j < |s| ==> InOrder(s[i], s[j], sortBy, order)
  }

  /** Of two posts, one may always precede the other. */
  lemma InOrderTotal(x: Post, y: Post, sortBy: SortKey, order: SortOrder)
    ensures InOrder(x, y, sortBy, order) || InOrder(y, x, sortBy, order)
  {
    if sortBy == ByTitle {
      LexLeTotal(Utf16(Lower(x.title)), Utf16(Lower(y.title)));
    }
  }

  /** Ordering is transitive. */
  lemma InOrderTransitive(x: Post, y: Post, z: Post, sortBy: SortKey, order: SortOrder)
    requires InOrder(x, y, sortBy, order) && InOrder(y, z, sortBy, order)
    ensures InOrder(x, z, sortBy, order)
  {
    if sortBy == ByTitle {
      if order == Asc {
        LexLeTransitive(Utf16(Lower(x.title)), Utf16(Lower(y.title)), Utf16(Lower(z.title)));
      } else {
        LexLeTransitive(Utf16(Lower(z.title)), Utf16(Lower(y.title)), Utf16(Lower(x.title)));
      }
    }
  }

  /**
   * The list's comparator as written: `aValue > bValue ? 1 : -1` for 'asc' and
   * `aValue < bValue ? 1 : -1` otherwise. It never answers 0.
   */
  function CompareAsWritten(x: Post, y: Post, sortBy: SortKey, order: SortOrder): (v: int)
    ensures v == 1 || v == -1
  {
    if order == Asc then (if !KeyLe(sortBy, x, y) then 1 else -1)
    else (if !KeyLe(sortBy, y, x) then 1 else -1)
  }

  /**
   * A comparator `Array.prototype.sort` can rely on answers 0 for a post
   * compared with itself and, swapping its arguments, answers with the
   * opposite sign.
   */
  predicate ConsistentOn(v: int, vSwapped: int, vSelf: int)
  {
    vSelf == 0 && (v < 0 <==> vSwapped > 0) && (v == 0 <==> vSwapped == 0)
  }

  /**
   * Any two posts of the same user, sorted by user id: the comparator as
   * written says each goes before the other, and a post goes before itself.
   */
  lemma CompareAsWrittenInconsistent(x: Post, y: Post, order: SortOrder)
    requires x.userId == y.userId
    ensures CompareAsWritten(x, y, ByUserId, order) == -1 && CompareAsWritten(y, x, ByUserId, order) == -1
    ensures !ConsistentOn(CompareAsWritten(x, y, ByUserId, order), CompareAsWritten(y, x, ByUserId, order),
                          CompareAsWritten(x, x, ByUserId, order))
  {
  }

  /** The comparator with ties answered by 0, as `Array.prototype.sort` expects. */
  function Compare(x: Post, y: Post, sortBy: SortKey, order: SortOrder): (v: int)
    ensures -1 <= v <= 1
  {
    if !InOrder(x, y, sortBy, order) then 1
    else if !InOrder(y, x, sortBy, order) then -1
    else 0
  }

  /**
   * `Compare` is a consistent comparator, it agrees with the comparator as
   * written wherever the keys differ, and it puts `x` no later than `y`
   * exactly when they are in order.
   */
  lemma CompareConsistent(x: Post, y: Post, sortBy: SortKey, order: SortOrder)
    ensures ConsistentOn(Compare(x, y, sortBy, order), Compare(y, x, sortBy, order), Compare(x, x, sortBy, order))
    ensures Compare(x, y, sortBy, order) <= 0 <==> InOrder(x, y, sortBy, order)
    ensures Compare(x, y, sortBy, order) != 0 ==> Compare(x, y, sortBy, order) == CompareAsWritten(x, y, sortBy, order)
    ensures Compare(x, y, sortBy, order) == 0 ==> CompareAsWritten(x, y, sortBy, order) == -1
    ensures Compare(x, y, sortBy, order) > 0 <==> CompareAsWritten(x, y, sortBy, order) > 0
  {
    InOrderTotal(x, y, sortBy, order);
    InOrderTotal(x, x, sortBy, order);
  }

  /** The comparator as written answers 1, and so makes the sort swap, exactly on pairs out of order. */
  lemma CompareAsWrittenSwaps(x: Post, y: Post, sortBy: SortKey, order: SortOrder)
    ensures CompareAsWritten(x, y, sortBy, order) > 0 <==> !InOrder(x, y, sortBy, order)
  {
  }

  /** A sequence whose neighbours are in order is sorted. */
  lemma {:induction false} AdjacentInOrderSorted(s: seq<Post>, sortBy: SortKey, order: SortOrder)
    requires forall k :: 0 < k < |s| ==> InOrder(s[k - 1], s[k], sortBy, order)
    ensures Sorted(s, sortBy, order)
  {
    if |s| > 1 {
      AdjacentInOrderSorted(s[1..], sortBy, order);
      forall j | 1 < j < |s| ensures InOrder(s[0], s[j], sortBy, order) {
        assert s[1..][j - 1] == s[j];
        InOrderTransitive(s[0], s[1], s[j], sortBy, order);
      }
      forall i, j | 0 <= i < j < |s| ensures InOrder(s[i], s[j], sortBy, order) {
        if i > 0 {
          assert s[1..][i - 1] == s[i] && s[1..][j - 1] == s[j];
        }
      }
    }
  }

  /** Exchanges `a[j - 1]` and `a[j]`. */
  method SwapWithPrevious(a: array<Post>, j: int)
    requires 0 < j < a.Length
    modifies a
    ensures a[j - 1] == old(a[j]) && a[j] == old(a[j - 1])
    ensures forall k :: 0 <= k < a.Length && k != j - 1 && k != j ==> a[k] == old(a[k])
    ensures multiset(a[..]) == multiset(old(a[..]))
  {
    a[j - 1], a[j] := a[j], a[j - 1];
  }

  /**
   * One pass of the sort: `a[i]` moves left past every neighbour it must
   * follow, so that `a[..i + 1]` is in order afterwards. `le` is a total order
   * on posts and `cmp` a comparator that answers positive exactly on pairs out
   * of that order.
   */
  method SinkIntoPlace(a: array<Post>, i: int, le: (Post, Post) -> bool, cmp: (Post, Post) -> int)
    requires 0 <= i < a.Length
    requires forall x, y :: cmp(x, y) > 0 <==> !le(x, y)
    requires forall x, y :: le(x, y) || le(y, x)
    requires forall k :: 0 < k < i ==> le(a[k - 1], a[k])
    modifies a
    ensures forall k :: 0 < k <= i ==> le(a[k - 1], a[k])
    ensures multiset(a[..]) == multiset(old(a[..]))
  {
    var j := i;
    while j > 0 && cmp(a[j - 1], a[j]) > 0
      invariant 0 <= j <= i
      invariant forall k :: 0 < k <= i && k != j ==> le(a[k - 1], a[k])
      invariant 0 < j < i ==> le(a[j - 1], a[j + 1])
      invariant multiset(a[..]) == multiset(old(a[..]))
    {
      SwapWithPrevious(a, j);
      j := j - 1;
    }
  }

  /**
   * The in-place `sort` with the list's comparator as written: the array ends
   * up sorted in the chosen direction and holds the same posts.
   */
  method SortPosts(a: array<Post>, sortBy: SortKey, order: SortOrder)
    modifies a
    ensures Sorted(a[..], sortBy, order)
    ensures multiset(a[..]) == multiset(old(a[..]))
  {
    var le := (x: Post, y: Post) => InOrder(x, y, sortBy, order);
    var cmp := (x: Post, y: Post) => CompareAsWritten(x, y, sortBy, order);
    forall x, y ensures cmp(x, y) > 0 <==> !le(x, y) {
      CompareAsWrittenSwaps(x, y, sortBy, order);
    }
    forall x, y ensures le(x, y) || le(y, x) {
      InOrderTotal(x, y, sortBy, order);
    }
    var i := 0;
    while i < a.Length
      invariant 0 <= i <= a.Length
      invariant forall k :: 0 < k < i ==> le(a[k - 1], a[k])
      invariant multiset(a[..]) == multiset(old(a[..]))
    {
      SinkIntoPlace(a, i, le, cmp);
      i := i + 1;
    }
    AdjacentInOrderSorted(a[..], sortBy, order);
  }

  /**
   * `getFilteredAndSortedPosts`: copy the posts, apply the search step, then
   * the user step, then sort. The result holds exactly the selected posts and
   * is sorted; with no search and all users it is a permutation of the posts.
   */
  method FilteredAndSortedPosts(posts: seq<Post>, c: ListControls) returns (r: seq<Post>)
    ensures multiset(r) == multiset(Selected(posts, c))
    ensures forall p :: p in r <==> p in posts && Shown(p, c)
    ensures |r| <= |posts|
    ensures Sorted(r, c.sortBy, c.sortOrder)
    ensures c.searchTerm == "" && c.filterByUser == AllUsers ==> multiset(r) == multiset(posts)
  {
    var filtered := posts;
    if c.searchTerm != "" {
      filtered := Seqs.Filter(filtered, (p: Post) => MatchesSearch(p, c.searchTerm));
    }
    if c.filterByUser.OnlyUser? {
      var u := c.filterByUser.userId;
      filtered := Seqs.Filter(filtered, (p: Post) => p.userId == u);
    }
    assert filtered == Selected(posts, c);
    var a := new Post[|filtered|](i requires 0 <= i < |filtered| => filtered[i]);
    assert a[..] == filtered;
    SortPosts(a, c.sortBy, c.sortOrder);
    r := a[..];
    ArrangementOfSelected(posts, c, r);
  }

  /**
   * Any arrangement of the selection holds exactly the posts that pass both
   * filters, is no longer than the posts, and with no search and all users is
   * an arrangement of the posts themselves.
   */
  lemma ArrangementOfSelected(posts: seq<Post>, c: ListControls, r: seq<Post>)
    requires multiset(r) == multiset(Selected(posts, c))
    ensures forall p :: p in r <==> p in posts && Shown(p, c)
    ensures |r| <= |posts|
    ensures c.searchTerm == "" && c.filterByUser == AllUsers ==> multiset(r) == multiset(posts)
  {
    SelectedSpec(posts, c);
    assert |r| == |multiset(r)| == |multiset(Selected(posts, c))|;
    SelectedLength(posts, c);
  }

  /** The selection is never longer than the posts. */
  lemma SelectedLength(posts: seq<Post>, c: ListControls)
    ensures |Selected(posts, c)| <= |posts|
  {
  }

  // ---------------------------------------------------------------------------
  // User filter options

  /** Every element is smaller than the next: ascending and free of duplicates. */
  predicate StrictlyIncreasing(s: seq<int>)
  {
    forall i, j :: 0 <= i < j < |s| ==> s[i] < s[j]
  }

  /** `x` put into its place in an ascending, duplicate-free list, unless already there. */
  function InsertSorted(s: seq<int>, x: int): (r: seq<int>)
    requires StrictlyIncreasing(s)
    ensures StrictlyIncreasing(r)
    ensures forall y :: y in r <==> y in s || y == x
  {
    if s == [] then [x]
    else if x < s[0] then [x] + s
    else if x == s[0] then s
    else
      var rest := InsertSorted(s[1..], x);
      forall k | 0 <= k < |rest| ensures s[0] < rest[k] {
        if rest[k] != x {
          assert rest[k] in s[1..];
          var m :| 0 <= m < |s[1..]| && s[1..][m] == rest[k];
          assert s[m + 1] == rest[k];
        }
      }
      ConsIncreasing(s[0], rest);
      [s[0]] + rest
  }

  /** A value below every element of a strictly increasing list can go in front of it. */
  lemma ConsIncreasing(h: int, s: seq<int>)
    requires StrictlyIncreasing(s)
    requires forall k :: 0 <= k < |s| ==> h < s[k]
    ensures StrictlyIncreasing([h] + s)
  {
    var r := [h] + s;
    forall i, j | 0 <= i < j < |r| ensures r[i] < r[j] {
      assert r[j] == s[j - 1];
      if i > 0 {
        assert r[i] == s[i - 1];
      }
    }
  }

  /** The distinct values of `xs`, ascending: `new Set(xs)` then `sort((a, b) => a - b)`. */
  function DistinctSorted(xs: seq<int>): (r: seq<int>)
    ensures StrictlyIncreasing(r)
    ensures forall y :: y in r <==> y in xs
  {
    if xs == [] then []
    else
      var init := xs[..|xs| - 1];
      assert xs == init + [xs[|xs| - 1]];
      InsertSorted(DistinctSorted(init), xs[|xs| - 1])
  }

  /**
   * Only one ascending, duplicate-free list holds a given set of values, so
   * `DistinctSorted` is the result of any de-duplicate-then-sort.
   */
  lemma {:induction false} StrictlyIncreasingUnique(a: seq<int>, b: seq<int>)
    requires StrictlyIncreasing(a) && StrictlyIncreasing(b)
    requires forall y :: y in a <==> y in b
    ensures a == b
  {
    assert a != [] ==> a[0] in a;
    assert b != [] ==> b[0] in b;
    if a == [] || b == [] {
    } else {
      HeadIsLeast(b, a[0]);
      HeadIsLeast(a, b[0]);
      forall y ensures y in a[1..] <==> y in b[1..] {
        assert y in a[1..] <==> y in a && y != a[0];
        assert y in b[1..] <==> y in b && y != b[0];
      }
      StrictlyIncreasingUnique(a[1..], b[1..]);
      assert a == [a[0]] + a[1..] && b == [b[0]] + b[1..];
    }
  }

  /** The first element of an ascending list is its least. */
  lemma HeadIsLeast(s: seq<int>, y: int)
    requires StrictlyIncreasing(s) && y in s
    ensures s[0] <= y
  {
    var i :| 0 <= i < |s| && s[i] == y;
  }

  /** The user ids of the posts, in list order. */
  function UserIds(posts: seq<Post>): (r: seq<int>)
    ensures |r| == |posts| && forall i :: 0 <= i < |posts| ==> r[i] == posts[i].userId
  {
    seq(|posts|, i requires 0 <= i < |posts| => posts[i].userId)
  }

  /**
   * `userOptions`: 'all' first, then one entry per distinct user id of the
   * posts, ascending.
   */
  function UserOptions(posts: seq<Post>): (r: seq<UserFilter>)
    ensures |r| >= 1 && r[0] == AllUsers
    ensures forall i :: 1 <= i < |r| ==> r[i].OnlyUser?
    ensures forall i, j :: 1 <= i < j < |r| ==> r[i].userId < r[j].userId
    ensures forall u :: OnlyUser(u) in r <==> exists p :: p in posts && p.userId == u
  {
    var ids := DistinctSorted(UserIds(posts));
    var r := [AllUsers] + seq(|ids|, i requires 0 <= i < |ids| => OnlyUser(ids[i]));
    assert forall u :: OnlyUser(u) in r <==> u in ids by {
      forall u ensures OnlyUser(u) in r <==> u in ids {
        if u in ids {
          var i :| 0 <= i < |ids| && ids[i] == u;
          assert r[i + 1] == OnlyUser(u);
        }
      }
    }
    assert forall u :: u in UserIds(posts) <==> exists p :: p in posts && p.userId == u by {
      forall u ensures u in UserIds(posts) <==> exists p :: p in posts && p.userId == u {
        if u in UserIds(posts) {
          var i :| 0 <= i < |posts| && UserIds(posts)[i] == u;
          assert posts[i] in posts;
        }
        if p :| p in posts && p.userId == u {
          var i :| 0 <= i < |posts| && posts[i] == p;
          assert UserIds(posts)[i] == u;
        }
      }
    }
    r
  }
}
