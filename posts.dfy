/**
 The community board's post list as values: the post record, the category
 filter and lookup of the board routes, and pure reference definitions of
 what delete, create and like do to the list. The class in board.dfy
 performs the same changes in place and is proved against these.
 */
module Posts {

  import opened Wrappers

  /** One post record of the board: `{id, title, content, likes, category}`. */
  datatype Post = Post(id: int, title: string, content: string, likes: int, category: string)

  /** What a board route answers: a value, or "Post not found" with status 404. */
  datatype Response<T> = Ok(value: T) | NotFound

  /** The test every route applies to find a post: same id and same category. */
  predicate Matches(p: Post, category: string, id: int)
  {
    p.id == id && p.category == category
  }

  // ---------------------------------------------------------------------
  // Category filter (view_posts, and the first step of list and deletepost)
  // ---------------------------------------------------------------------

  /** The posts of one category, in list order. */
  function Filter(posts: seq<Post>, category: string): (r: seq<Post>)
    ensures |r| <= |posts|
    ensures forall p :: p in r <==> p in posts && p.category == category
  {
    if posts == [] then []
    else
      (if posts[0].category == category then [posts[0]] else []) + Filter(posts[1..], category)
  }

  /** Filtering a concatenation filters each part. */
  lemma {:induction false} FilterAppend(a: seq<Post>, b: seq<Post>, category: string)
    ensures Filter(a + b, category) == Filter(a, category) + Filter(b, category)
  {
    if a == [] {
      assert a + b == b;
    } else {
      assert (a + b)[1..] == a[1..] + b;
      FilterAppend(a[1..], b, category);
    }
  }

  /** The positions of the posts of one category, in increasing order. */
  function CategoryIndices(posts: seq<Post>, category: string): (idx: seq<nat>)
    ensures forall k :: 0 <= k < |idx| ==> idx[k] < |posts| && posts[idx[k]].category == category
    ensures forall k, l :: 0 <= k < l < |idx| ==> idx[k] < idx[l]
    ensures forall i :: 0 <= i < |posts| && posts[i].category == category ==> i in idx
  {
    if posts == [] then []
    else
      var n := |posts| - 1;
      var rest := CategoryIndices(posts[..n], category);
      assert forall k :: 0 <= k < |rest| ==> posts[..n][rest[k]] == posts[rest[k]];
      if posts[n].category == category then rest + [n] else rest
  }

  /** Filtering a non-empty list: filter all but the last post, then the last post. */
  lemma FilterSnoc(posts: seq<Post>, category: string)
    requires posts != []
    ensures var n := |posts| - 1;
            Filter(posts, category) ==
              Filter(posts[..n], category) + (if posts[n].category == category then [posts[n]] else [])
  {
    var n := |posts| - 1;
    assert posts == posts[..n] + [posts[n]];
    FilterAppend(posts[..n], [posts[n]], category);
  }

  /**
   The filter keeps exactly the posts of the category and keeps them in
   order: its k-th element is the post at the k-th matching position.
   */
  lemma {:induction false} FilterIsOrderedSelection(posts: seq<Post>, category: string)
    ensures |Filter(posts, category)| == |CategoryIndices(posts, category)|
    ensures forall k :: 0 <= k < |Filter(posts, category)| ==>
              Filter(posts, category)[k] == posts[CategoryIndices(posts, category)[k]]
  {
    if posts != [] {
      var n := |posts| - 1;
      var init := posts[..n];
      FilterIsOrderedSelection(init, category);
      FilterSnoc(posts, category);
      var f, fi := Filter(posts, category), Filter(init, category);
      var ii := CategoryIndices(init, category);
      forall k | 0 <= k < |fi|
        ensures f[k] == posts[ii[k]]
      {
        assert f[k] == fi[k] == init[ii[k]];
      }
    }
  }

  /** A post of the category occurs in the listing as often as in the whole list. */
  lemma {:induction false} FilterKeepsMultiplicity(posts: seq<Post>, category: string, p: Post)
    requires p.category == category
    ensures multiset(Filter(posts, category))[p] == multiset(posts)[p]
  {
    if posts != [] {
      FilterKeepsMultiplicity(posts[1..], category, p);
      assert posts == [posts[0]] + posts[1..];
      var head := if posts[0].category == category then [posts[0]] else [];
      assert Filter(posts, category) == head + Filter(posts[1..], category);
    }
  }

  /** Filtering twice by the same category changes nothing more. */
  lemma {:induction false} FilterIdempotent(posts: seq<Post>, category: string)
    ensures Filter(Filter(posts, category), category) == Filter(posts, category)
  {
    if posts != [] {
      FilterIdempotent(posts[1..], category);
      var head := if posts[0].category == category then [posts[0]] else [];
      FilterAppend(head, Filter(posts[1..], category), category);
    }
  }

  // ---------------------------------------------------------------------
  // Lookup (list)
  // ---------------------------------------------------------------------

  /** The position of the first post with this category and id, if any. */
  function FirstMatch(posts: seq<Post>, category: string, id: int): (r: Option<nat>)
    ensures r.Some? ==> r.value < |posts| && Matches(posts[r.value], category, id)
    ensures forall j :: 0 <= j < |posts| && (r.None? || j < r.value) ==> !Matches(posts[j], category, id)
  {
    if posts == [] then None
    else if Matches(posts[0], category, id) then Some(0)
    else
      match FirstMatch(posts[1..], category, id)
      case None => None
      case Some(k) => Some(k + 1)
  }

  /** A matching position with no match before it is the first match. */
  lemma FirstMatchUnique(posts: seq<Post>, category: string, id: int, i: nat)
    requires i < |posts| && Matches(posts[i], category, id)
    requires forall j :: 0 <= j < i ==> !Matches(posts[j], category, id)
    ensures FirstMatch(posts, category, id) == Some(i)
  {
  }

  /** The first post of `ps` with this id (the search of the list route), or NotFound. */
  function FindById(ps: seq<Post>, id: int): (r: Response<Post>)
    ensures r.Ok? ==> r.value in ps && r.value.id == id
    ensures r.NotFound? <==> forall p :: p in ps ==> p.id != id
  {
    if ps == [] then NotFound
    else if ps[0].id == id then Ok(ps[0])
    else FindById(ps[1..], id)
  }

  /** The post found is the first one with the id: no earlier post has it. */
  lemma {:induction false} FindByIdIsFirst(ps: seq<Post>, id: int)
    ensures FindById(ps, id).Ok? ==>
              exists i :: 0 <= i < |ps| && ps[i] == FindById(ps, id).value &&
                          forall j :: 0 <= j < i ==> ps[j].id != id
  {
    if ps != [] && ps[0].id != id {
      FindByIdIsFirst(ps[1..], id);
      if FindById(ps, id).Ok? {
        var i :| 0 <= i < |ps[1..]| && ps[1..][i] == FindById(ps[1..], id).value &&
                 forall j :: 0 <= j < i ==> ps[1..][j].id != id;
        assert ps[i + 1] == FindById(ps, id).value;
      }
    }
  }

  /** The post a board route finds for a category and id: filter first, then search by id. */
  function Lookup(posts: seq<Post>, category: string, id: int): (r: Response<Post>)
    ensures r.Ok? ==> r.value in posts && Matches(r.value, category, id)
    ensures r.NotFound? <==> forall p :: p in posts ==> !Matches(p, category, id)
  {
    FindById(Filter(posts, category), id)
  }

  /** Filtering and then searching by id finds the first post of the whole list that matches both. */
  lemma {:induction false} LookupIsFirstMatch(posts: seq<Post>, category: string, id: int)
    ensures FirstMatch(posts, category, id).None? ==> Lookup(posts, category, id) == NotFound
    ensures FirstMatch(posts, category, id).Some? ==>
              Lookup(posts, category, id) == Ok(posts[FirstMatch(posts, category, id).value])
  {
    if posts != [] {
      var rest := posts[1..];
      var head := if posts[0].category == category then [posts[0]] else [];
      var fr := Filter(rest, category);
      assert Filter(posts, category) == head + fr;
      if Matches(posts[0], category, id) {
        assert (head + fr)[0] == posts[0];
      } else {
        LookupIsFirstMatch(rest, category, id);
        if head != [] {
          assert posts[0].id != id;
          assert (head + fr)[0] == posts[0];
          assert (head + fr)[1..] == fr;
        } else {
          assert head + fr == fr;
        }
        match FirstMatch(rest, category, id)
        case None =>
        case Some(k) => assert rest[k] == posts[k + 1];
      }
    }
  }

  // ---------------------------------------------------------------------
  // Delete (deletepost)
  // ---------------------------------------------------------------------

  /** The position of the first element equal to `x`, where Python's list removal looks. */
  function IndexOf(s: seq<Post>, x: Post): (r: Option<nat>)
    ensures r.Some? ==> r.value < |s| && s[r.value] == x && x !in s[..r.value]
    ensures r.None? <==> x !in s
  {
    if s == [] then None
    else if s[0] == x then Some(0)
    else
      match IndexOf(s[1..], x)
      case None => None
      case Some(k) =>
        assert s[..k + 1] == [s[0]] + s[1..][..k];
        Some(k + 1)
  }

  /** Python's list removal: drop the first element equal to `x` (it fails when there is none). */
  function RemoveFirst(s: seq<Post>, x: Post): (r: seq<Post>)
    requires x in s
    ensures IndexOf(s, x).Some?
    ensures var i := IndexOf(s, x).value; r == s[..i] + s[i + 1..]
  {
    if s[0] == x then s[1..]
    else
      var rest := RemoveFirst(s[1..], x);
      assert s == [s[0]] + s[1..];
      [s[0]] + rest
  }

  /** deletepost on the list: NotFound, or the list after the found post is removed. */
  function Delete(posts: seq<Post>, category: string, id: int): (r: Response<seq<Post>>)
    ensures r.NotFound? <==> forall p :: p in posts ==> !Matches(p, category, id)
    ensures r.Ok? ==> |r.value| == |posts| - 1
  {
    match Lookup(posts, category, id)
    case NotFound => NotFound
    case Ok(p) => Ok(RemoveFirst(posts, p))
  }

  /** The first post equal to the first match is the first match itself. */
  lemma IndexOfFirstMatch(posts: seq<Post>, category: string, id: int, i: nat)
    requires FirstMatch(posts, category, id) == Some(i)
    ensures IndexOf(posts, posts[i]) == Some(i)
  {
    assert posts[i] in posts;
    var k := IndexOf(posts, posts[i]).value;
    assert Matches(posts[k], category, id);
  }

  /**
   A delete removes exactly the first post matching category and id and
   keeps every other post, in order; with no match it reports NotFound.
   */
  lemma DeleteRemovesFirstMatch(posts: seq<Post>, category: string, id: int)
    ensures FirstMatch(posts, category, id).None? ==> Delete(posts, category, id) == NotFound
    ensures FirstMatch(posts, category, id).Some? ==>
              var i := FirstMatch(posts, category, id).value;
              Delete(posts, category, id) == Ok(posts[..i] + posts[i + 1..])
  {
    LookupIsFirstMatch(posts, category, id);
    match FirstMatch(posts, category, id)
    case None =>
    case Some(i) =>
      assert Lookup(posts, category, id) == Ok(posts[i]);
      IndexOfFirstMatch(posts, category, id, i);
      assert RemoveFirst(posts, posts[i]) == posts[..i] + posts[i + 1..];
  }

  // ---------------------------------------------------------------------
  // Create (posting)
  // ---------------------------------------------------------------------

  /** The content as stored: every line break replaced by the markup `<br>`. */
  function ReplaceNewlines(s: string): (r: string)
    ensures '\n' !in r
  {
    if s == [] then []
    else
      assert s == [s[0]] + s[1..];
      (if s[0] == '\n' then "<br>" else [s[0]]) + ReplaceNewlines(s[1..])
  }

  /** Each line break grows the text by three characters: `<br>` replaces one. */
  lemma {:induction false} ReplaceNewlinesLength(s: string)
    ensures |ReplaceNewlines(s)| == |s| + 3 * multiset(s)['\n']
  {
    if s != [] {
      ReplaceNewlinesLength(s[1..]);
      assert s == [s[0]] + s[1..];
    }
  }

  /** Rewriting a text that starts with `c` rewrites `c`, then the rest. */
  lemma ReplaceNewlinesCons(c: char, rest: string)
    ensures ReplaceNewlines([c] + rest) == (if c == '\n' then "<br>" else [c]) + ReplaceNewlines(rest)
  {
    var s := [c] + rest;
    assert s[0] == c && s[1..] == rest;
  }

  /** Rewriting a concatenation rewrites each part. */
  lemma {:induction false} ReplaceNewlinesAppend(a: string, b: string)
    ensures ReplaceNewlines(a + b) == ReplaceNewlines(a) + ReplaceNewlines(b)
  {
    if a == [] {
      assert a + b == b;
    } else {
      var head := if a[0] == '\n' then "<br>" else [a[0]];
      var ra, rb := ReplaceNewlines(a[1..]), ReplaceNewlines(b);
      calc {
        ReplaceNewlines(a + b);
        { assert a + b == [a[0]] + (a[1..] + b); ReplaceNewlinesCons(a[0], a[1..] + b); }
        head + ReplaceNewlines(a[1..] + b);
        { ReplaceNewlinesAppend(a[1..], b); }
        head + (ra + rb);
        (head + ra) + rb;
        { assert a == [a[0]] + a[1..]; ReplaceNewlinesCons(a[0], a[1..]); }
        ReplaceNewlines(a) + rb;
      }
    }
  }

  /** Text without a line break is stored as it is; so rewriting twice is rewriting once. */
  lemma {:induction false} ReplaceNewlinesKeepsPlainText(s: string)
    requires '\n' !in s
    ensures ReplaceNewlines(s) == s
  {
    if s != [] {
      ReplaceNewlinesKeepsPlainText(s[1..]);
    }
  }

  /** Reads the display markup back: each `<br>` becomes a line break again. */
  function RestoreNewlines(s: string): string
  {
    if |s| >= 4 && s[..4] == "<br>" then "\n" + RestoreNewlines(s[4..])
    else if s == [] then []
    else [s[0]] + RestoreNewlines(s[1..])
  }

  lemma RestoreMarkup(rest: string)
    ensures RestoreNewlines("<br>" + rest) == "\n" + RestoreNewlines(rest)
  {
    var r := "<br>" + rest;
    assert r[..4] == "<br>" && r[4..] == rest;
  }

  lemma RestorePlainChar(c: char, rest: string)
    requires c != '<'
    ensures RestoreNewlines([c] + rest) == [c] + RestoreNewlines(rest)
  {
    var r := [c] + rest;
    assert r[0] == c && r[1..] == rest;
    assert |r| >= 4 ==> r[..4][0] != "<br>"[0];
  }

  /** The rewrite loses no line break: in text without `<`, the markup gives the original back. */
  lemma {:induction false} RestoreReplaceNewlines(s: string)
    requires '<' !in s
    ensures RestoreNewlines(ReplaceNewlines(s)) == s
  {
    if s != [] {
      assert s == [s[0]] + s[1..];
      RestoreReplaceNewlines(s[1..]);
      if s[0] == '\n' {
        RestoreMarkup(ReplaceNewlines(s[1..]));
      } else {
        RestorePlainChar(s[0], ReplaceNewlines(s[1..]));
      }
    }
  }

  /** The post that posting adds: id one more than the length of the list, no likes, rewritten content. */
  function NewPost(posts: seq<Post>, title: string, content: string, category: string): (p: Post)
    ensures p.id == |posts| + 1 && p.likes == 0
    ensures p.title == title && p.category == category
    ensures '\n' !in p.content
  {
    Post(|posts| + 1, title, ReplaceNewlines(content), 0, category)
  }

  /** posting on the list: the new post goes at the end. */
  function Create(posts: seq<Post>, title: string, content: string, category: string): (r: seq<Post>)
    ensures |r| == |posts| + 1 && r[..|posts|] == posts
    ensures r[|posts|] == NewPost(posts, title, content, category)
  {
    posts + [NewPost(posts, title, content, category)]
  }

  /** After a create, the category's listing is the old listing followed by the new post. */
  lemma CreateThenFilter(posts: seq<Post>, title: string, content: string, category: string, shown: string)
    ensures Filter(Create(posts, title, content, category), shown) ==
              Filter(posts, shown) + (if category == shown then [NewPost(posts, title, content, category)] else [])
  {
    FilterAppend(posts, [NewPost(posts, title, content, category)], shown);
  }

  // ---------------------------------------------------------------------
  // Like (like_post)
  // ---------------------------------------------------------------------

  /**
   like_post on the list, walking it from the front as the route's loop
   does: the new count and the new list, or NotFound and the same list.
   */
  function Like(posts: seq<Post>, category: string, id: int): (r: (Response<int>, seq<Post>))
    ensures |r.1| == |posts|
    ensures FirstMatch(posts, category, id).None? ==> r.0 == NotFound && r.1 == posts
    ensures FirstMatch(posts, category, id).Some? ==>
              var i := FirstMatch(posts, category, id).value;
              && r.0 == Ok(posts[i].likes + 1)
              && r.1[i] == posts[i].(likes := posts[i].likes + 1)
              && (forall j :: 0 <= j < |posts| && j != i ==> r.1[j] == posts[j])
  {
    if posts == [] then (NotFound, posts)
    else if Matches(posts[0], category, id) then
      var liked := posts[0].(likes := posts[0].likes + 1);
      (Ok(liked.likes), [liked] + posts[1..])
    else
      var r := Like(posts[1..], category, id);
      (r.0, [posts[0]] + r.1)
  }

  /** The state after `n` likes of the same category and id in a row. */
  function LikeTimes(posts: seq<Post>, category: string, id: int, n: nat): (r: seq<Post>)
    ensures |r| == |posts|
    decreases n
  {
    if n == 0 then posts else LikeTimes(Like(posts, category, id).1, category, id, n - 1)
  }

  /** `after` is `posts` with the like count at `i` raised by `n`. */
  ghost predicate LikedAt(after: seq<Post>, posts: seq<Post>, i: nat, n: nat)
  {
    && |after| == |posts|
    && i < |posts|
    && after[i] == posts[i].(likes := posts[i].likes + n)
    && (forall j :: 0 <= j < |posts| && j != i ==> after[j] == posts[j])
  }

  lemma LikedAtCompose(c: seq<Post>, b: seq<Post>, a: seq<Post>, i: nat, m: nat, k: nat)
    requires LikedAt(c, b, i, k) && LikedAt(b, a, i, m)
    ensures LikedAt(c, a, i, m + k)
  {
  }

  /** One like on a state whose first match is at `i` raises that count by one, and the first match stays at `i`. */
  lemma LikeOnce(posts: seq<Post>, category: string, id: int, i: nat)
    requires FirstMatch(posts, category, id) == Some(i)
    ensures LikedAt(Like(posts, category, id).1, posts, i, 1)
    ensures FirstMatch(Like(posts, category, id).1, category, id) == Some(i)
  {
    FirstMatchUnique(Like(posts, category, id).1, category, id, i);
  }

  /** `n` likes in a row raise the first match's count by exactly `n` and touch nothing else. */
  lemma {:induction false} LikeTimesAddsN(posts: seq<Post>, category: string, id: int, i: nat, n: nat)
    requires FirstMatch(posts, category, id) == Some(i)
    ensures LikedAt(LikeTimes(posts, category, id, n), posts, i, n)
    decreases n
  {
    if n == 0 {
      assert posts[i].(likes := posts[i].likes + 0) == posts[i];
    } else {
      var once := Like(posts, category, id).1;
      LikeOnce(posts, category, id, i);
      LikeTimesAddsN(once, category, id, i, n - 1);
      LikedAtCompose(LikeTimes(once, category, id, n - 1), once, posts, i, 1, n - 1);
    }
  }

  // ---------------------------------------------------------------------
  // Well-formedness kept by the operations
  // ---------------------------------------------------------------------

  /** No post has a negative like count. */
  ghost predicate NonNegativeLikes(posts: seq<Post>)
  {
    forall k :: 0 <= k < |posts| ==> posts[k].likes >= 0
  }

  /** Create keeps every like count non-negative (the new post starts at 0). */
  lemma CreateKeepsNonNegativeLikes(posts: seq<Post>, title: string, content: string, category: string)
    requires NonNegativeLikes(posts)
    ensures NonNegativeLikes(Create(posts, title, content, category))
  {
  }

  /** Delete keeps every like count non-negative. */
  lemma DeleteKeepsNonNegativeLikes(posts: seq<Post>, category: string, id: int)
    requires NonNegativeLikes(posts)
    ensures Delete(posts, category, id).Ok? ==> NonNegativeLikes(Delete(posts, category, id).value)
  {
    DeleteRemovesFirstMatch(posts, category, id);
  }

  /** Like keeps every like count non-negative. */
  lemma LikeKeepsNonNegativeLikes(posts: seq<Post>, category: string, id: int)
    requires NonNegativeLikes(posts)
    ensures NonNegativeLikes(Like(posts, category, id).1)
  {
  }
}
