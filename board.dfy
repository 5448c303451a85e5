/**
 The board's in-memory post list and the routes that change it in place:
 deletepost removes a post from the list, posting appends one, like_post
 walks the list and raises one like count.
 */
module Board {

  import opened Posts

  class PostStore {
    /** The board's one list of posts, standing for both the module-level list and the posts document. */
    var posts: seq<Post>

    /** The store starts from the list read from the posts document at start-up. */
    constructor (loaded: seq<Post>)
      ensures posts == loaded
    {
      posts := loaded;
    }

    /**
     deletepost: find the post among the category's posts by id; without
     one answer NotFound and change nothing, otherwise remove it.
     */
    method DeletePost(category: string, postId: int) returns (r: Response<()>)
      modifies this
      ensures r.NotFound? <==> forall p :: p in old(posts) ==> !Matches(p, category, postId)
      ensures r.NotFound? ==> posts == old(posts)
      ensures r.Ok? ==>
                && FirstMatch(old(posts), category, postId).Some?
                && var i := FirstMatch(old(posts), category, postId).value;
                   posts == old(posts)[..i] + old(posts)[i + 1..]
      ensures r.Ok? ==> posts == Delete(old(posts), category, postId).value
    {
      var postToDelete := Lookup(posts, category, postId);
      if postToDelete.NotFound? {
        return NotFound;
      }
      DeleteRemovesFirstMatch(posts, category, postId);
      posts := RemoveFirst(posts, postToDelete.value);
      r := Ok(());
    }

    /**
     posting: the new post gets id `len(posts) + 1`, no likes, the content
     with its line breaks turned into `<br>`, and goes at the end.
     */
    method Posting(title: string, content: string, category: string)
      modifies this
      ensures |posts| == |old(posts)| + 1 && posts[..|old(posts)|] == old(posts)
      ensures posts[|old(posts)|] == Post(|old(posts)| + 1, title, ReplaceNewlines(content), 0, category)
      ensures '\n' !in posts[|old(posts)|].content
      ensures posts == Create(old(posts), title, content, category)
    {
      var text := ReplaceNewlines(content);
      var postId := |posts| + 1;
      posts := posts + [Post(postId, title, text, 0, category)];
    }

    /**
     like_post: the first post with this id and category gets one more
     like and the new count is returned; without one, NotFound.
     */
    method LikePost(category: string, postId: int) returns (r: Response<int>)
      modifies this
      ensures FirstMatch(old(posts), category, postId).None? ==> r == NotFound && posts == old(posts)
      ensures FirstMatch(old(posts), category, postId).Some? ==>
                var i := FirstMatch(old(posts), category, postId).value;
                && posts == old(posts)[i := old(posts)[i].(likes := old(posts)[i].likes + 1)]
                && r == Ok(posts[i].likes)
      ensures (r, posts) == Like(old(posts), category, postId)
    {
      var k := 0;
      while k < |posts|
        invariant 0 <= k <= |posts|
        invariant posts == old(posts)
        invariant forall j :: 0 <= j < k ==> !Matches(posts[j], category, postId)
      {
        if posts[k].id == postId && posts[k].category == category {
          FirstMatchUnique(posts, category, postId, k);
          posts := posts[k := posts[k].(likes := posts[k].likes + 1)];
          assert posts == Like(old(posts), category, postId).1;
          return Ok(posts[k].likes);
        }
        k := k + 1;
      }
      return NotFound;
    }
  }
}
