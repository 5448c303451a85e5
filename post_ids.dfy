/**
 How posting numbers posts. The id of a new post is the length of the list
 plus one. Starting from an empty board and only posting, that numbers the
 posts 1, 2, 3, ... with no repeats. On a board numbered that way, deleting
 one post other than the last and then posting gives the new post an id that
 is still in use.
 */
module PostIds {

  import opened Wrappers
  import opened Posts

  /** Post k (counting from 0) has id k + 1. */
  ghost predicate IdsAreOneToN(posts: seq<Post>)
  {
    forall k :: 0 <= k < |posts| ==> posts[k].id == k + 1
  }

  /** No two posts share an id. */
  ghost predicate DistinctIds(posts: seq<Post>)
  {
    forall i, j :: 0 <= i < j < |posts| ==> posts[i].id != posts[j].id
  }

  /** What the posting form submits. */
  datatype Draft = Draft(title: string, content: string, category: string)

  /** The list after posting each draft in turn. */
  function CreateAll(posts: seq<Post>, drafts: seq<Draft>): (r: seq<Post>)
    ensures |r| == |posts| + |drafts|
    ensures r[..|posts|] == posts
    decreases |drafts|
  {
    if drafts == [] then posts
    else CreateAll(Create(posts, drafts[0].title, drafts[0].content, drafts[0].category), drafts[1..])
  }

  /** Ids 1..n are pairwise distinct. */
  lemma OneToNDistinct(posts: seq<Post>)
    requires IdsAreOneToN(posts)
    ensures DistinctIds(posts)
  {
  }

  /** Posting onto a list numbered 1..n numbers the new post n + 1. */
  lemma {:induction false} CreateAllKeepsOneToN(posts: seq<Post>, drafts: seq<Draft>)
    requires IdsAreOneToN(posts)
    ensures |CreateAll(posts, drafts)| == |posts| + |drafts|
    ensures IdsAreOneToN(CreateAll(posts, drafts))
    decreases |drafts|
  {
    if drafts != [] {
      var d := drafts[0];
      var next := Create(posts, d.title, d.content, d.category);
      assert IdsAreOneToN(next);
      CreateAllKeepsOneToN(next, drafts[1..]);
    }
  }

  /** From an empty board, only posting gives ids 1..n, all distinct. */
  lemma CreatesFromEmptyBoard(drafts: seq<Draft>)
    ensures |CreateAll([], drafts)| == |drafts|
    ensures IdsAreOneToN(CreateAll([], drafts))
    ensures DistinctIds(CreateAll([], drafts))
  {
    CreateAllKeepsOneToN([], drafts);
    OneToNDistinct(CreateAll([], drafts));
  }

  /** On a list numbered 1..n, the post with id k (k <= n) is found at position k - 1. */
  lemma FirstMatchOfOneToN(posts: seq<Post>, category: string, id: int)
    requires IdsAreOneToN(posts) && 1 <= id <= |posts| && posts[id - 1].category == category
    ensures FirstMatch(posts, category, id) == Some(id - 1)
  {
    FirstMatchUnique(posts, category, id, id - 1);
  }

  /**
   Deleting any post but the last from a list numbered 1..n and then posting
   gives the new post the id n, which the old last post still has.
   */
  lemma DeleteThenCreateDuplicatesId(posts: seq<Post>, category: string, id: int,
                                     title: string, content: string, newCategory: string)
    requires IdsAreOneToN(posts) && 1 <= id < |posts| && posts[id - 1].category == category
    ensures Delete(posts, category, id).Ok?
    ensures var after := Create(Delete(posts, category, id).value, title, content, newCategory);
            && |after| == |posts|
            && after[|posts| - 1].id == after[|posts| - 2].id == |posts|
            && !DistinctIds(after)
  {
    FirstMatchOfOneToN(posts, category, id);
    DeleteRemovesFirstMatch(posts, category, id);
    var kept := Delete(posts, category, id).value;
    assert kept == posts[..id - 1] + posts[id..];
    assert kept[|posts| - 2] == posts[|posts| - 1];
  }

  /** Deleting the last post of a list numbered 1..n and then posting numbers the list 1..n again. */
  lemma DeleteLastThenCreateKeepsOneToN(posts: seq<Post>, category: string,
                                        title: string, content: string, newCategory: string)
    requires IdsAreOneToN(posts) && posts != [] && posts[|posts| - 1].category == category
    ensures Delete(posts, category, |posts|).Ok?
    ensures IdsAreOneToN(Create(Delete(posts, category, |posts|).value, title, content, newCategory))
  {
    var n := |posts|;
    FirstMatchOfOneToN(posts, category, n);
    DeleteRemovesFirstMatch(posts, category, n);
    var kept := Delete(posts, category, n).value;
    assert kept == posts[..n - 1];
    var after := Create(kept, title, content, newCategory);
    forall k | 0 <= k < |after|
      ensures after[k].id == k + 1
    {
      if k < n - 1 {
        assert after[k] == posts[k];
      }
    }
  }

  /** The smallest example: two posts, delete the first, post again: two posts with id 2. */
  lemma DuplicateIdExample()
    ensures var start := [Post(1, "a", "", 0, "free_talk"), Post(2, "b", "", 0, "free_talk")];
            && Delete(start, "free_talk", 1).Ok?
            && Create(Delete(start, "free_talk", 1).value, "c", "", "others") ==
                 [Post(2, "b", "", 0, "free_talk"), Post(2, "c", "", 0, "others")]
  {
    var start := [Post(1, "a", "", 0, "free_talk"), Post(2, "b", "", 0, "free_talk")];
    DeleteThenCreateDuplicatesId(start, "free_talk", 1, "c", "", "others");
    assert ReplaceNewlines("") == "";
  }

  /** With distinct ids, a deleted post can no longer be looked up. */
  lemma DeleteThenLookupNotFound(posts: seq<Post>, category: string, id: int)
    requires DistinctIds(posts)
    ensures Delete(posts, category, id).Ok? ==> Lookup(Delete(posts, category, id).value, category, id) == NotFound
  {
    DeleteRemovesFirstMatch(posts, category, id);
    var m := FirstMatch(posts, category, id);
    if m.Some? {
      var i := m.value;
      var kept := posts[..i] + posts[i + 1..];
      forall k | 0 <= k < |kept|
        ensures kept[k].id != id
      {
        if k < i {
          assert kept[k] == posts[k] && posts[k].id != posts[i].id;
        } else {
          assert kept[k] == posts[k + 1] && posts[i].id != posts[k + 1].id;
        }
      }
      assert forall p :: p in kept ==> !Matches(p, category, id);
    }
  }

  /** On a list numbered 1..n, the post just created is found under its category and id n + 1. */
  lemma CreateThenLookup(posts: seq<Post>, title: string, content: string, category: string)
    requires IdsAreOneToN(posts)
    ensures Lookup(Create(posts, title, content, category), category, |posts| + 1) ==
              Ok(NewPost(posts, title, content, category))
  {
    var after := Create(posts, title, content, category);
    FirstMatchUnique(after, category, |posts| + 1, |posts|);
    LookupIsFirstMatch(after, category, |posts| + 1);
  }

  /**
   The board's example session: post, like the new post twice, and it has
   two likes; delete it, and it can no longer be looked up.
   */
  lemma PostLikeTwiceDelete(posts: seq<Post>, title: string, content: string, category: string)
    requires IdsAreOneToN(posts)
    ensures var id := |posts| + 1;
            var created := Create(posts, title, content, category);
            var liked := LikeTimes(created, category, id, 2);
            && Lookup(liked, category, id).Ok?
            && Lookup(liked, category, id).value.likes == 2
            && Delete(liked, category, id).Ok?
            && Lookup(Delete(liked, category, id).value, category, id) == NotFound
  {
    var id := |posts| + 1;
    var created := Create(posts, title, content, category);
    FirstMatchUnique(created, category, id, |posts|);
    LikeTimesAddsN(created, category, id, |posts|, 2);
    var liked := LikeTimes(created, category, id, 2);
    FirstMatchUnique(liked, category, id, |posts|);
    LookupIsFirstMatch(liked, category, id);
    assert IdsAreOneToN(liked);
    OneToNDistinct(liked);
    DeleteThenLookupNotFound(liked, category, id);
  }
}
