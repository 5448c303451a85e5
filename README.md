# Stroke-risk service: community board and upload check

This project models the part of the stroke-risk web service (`appy.py`) that
has logic of its own. That part has two pieces:

- **The community board's post list.** An ordered list of post records
  `{id, title, content, likes, category}`, held module-wide. Five board routes
  use it:
  - the category view: the posts of one category, in list order;
  - the single-post view: filter by category, then take the first post with
    the id, or answer "Post not found" (404);
  - delete: find the post the same way, remove it from the list, or answer 404;
  - posting: append a post with id `len(posts) + 1`, 0 likes, and the content's
    line breaks rewritten as `<br>`;
  - like: walk the list, raise the likes of the first post with that id and
    category by one, and return the new count, or answer 404.
- **The upload filename check.** A name is accepted when it has a dot and the
  lower-cased text after the last dot is `png`, `jpg`, `jpeg` or `gif`.

Files:

- `wrappers.dfy` holds `Option`.
- `uploads.dfy` (module `Uploads`) holds the filename check. It has a model of
  Python's right split and lower-casing.
- `posts.dfy` (module `Posts`) holds the `Post` record and the route answer
  `Response` (`Ok(value)` or `NotFound`). It has the filter and the lookup as
  functions, and pure reference definitions of delete (`Delete`), create
  (`Create`) and like (`Like`), with their lemmas.
- `board.dfy` (module `Board`) holds class `PostStore`. Its field `posts` is the
  one list to which the model reduces both the module-level list and the posts
  document (see "## Left out"). Its methods `DeletePost`, `Posting` and
  `LikePost` change that field in place. `LikePost` keeps the route's loop.
  Each method is proved against the reference functions.
- `post_ids.dfy` (module `PostIds`) holds lemmas on how ids are handed out
  over a run of calls.

Three points where a natural design differs from what the code does. The
model follows the code in each:

- **Ids.** A natural rule would give a new post the largest id present plus
  one. The code uses the length of the list plus one (appy.py:337), and so
  does the model. `PostIds.DeleteThenCreateDuplicatesId` and
  `PostIds.DuplicateIdExample` show what follows. Take a board numbered
  1..n, for example one built only by posting. Delete any post but the last,
  then post: the new post gets an id that the old last post still has.
- **Categories.** The posting form offers three categories (appy.py:268,
  341), but posting stores whatever category the request sends (appy.py:336).
  So a category here is any string.
- **Concurrency.** Nothing serialises the changes to the list or the
  document: the code has no lock, and concurrency is not modelled.

Lower-casing changes only `A`..`Z`. Python's `str.lower` also changes other
letters, but this does not affect the check. Outside ASCII, only two
characters lower-case to something containing an ASCII letter: U+212A KELVIN
SIGN becomes `k`, and U+0130 becomes `i` followed by a combining dot. Neither
can turn an extension into one of the four allowed ones.

## Model

| member | source | states |
|---|---|---|
| `Uploads.LowerChar` | appy.py:56 | Lower-casing one character never yields an upper-case ASCII letter, and changes only upper-case ASCII letters. |
| `Uploads.AllowedFile` | appy.py:54-56 | The filename check itself. An accepted name has a dot and is at least 4 characters long. `Uploads.AllowedFileIff` and `Uploads.NoDotRejected` prove exactly which names it accepts. |
| `Uploads.Lower` | appy.py:56 | The lower-cased text has the same length, and each character is the lower case of the character at the same position. |
| `Uploads.RSplitOnce` | appy.py:56 | With no separator the result is the whole string. Otherwise there are two parts: the text before the last separator and the text after it, which has no separator. |
| `Uploads.RSplitJoin` | appy.py:56 | Joining the parts of the split with the separator gives back the original string. |
| `Uploads.RSplitAtLastSeparator` | appy.py:56 | When position `i` holds the separator and none follows it, the split is at `i`. |
| `Uploads.AllowedFileIff` | appy.py:54-56 | A name is accepted exactly when it has a dot with no dot after it, and the lower-cased text after that dot is an allowed extension. Both directions are proved. |
| `Uploads.NoDotRejected` | appy.py:55 | A name without a dot is always rejected. |
| `Uploads.AllowedFileByExtension` | appy.py:55-56 | For any stem and any extension without a dot, `stem.ext` is accepted exactly when the lower-cased extension is allowed. |
| `Uploads.LowerIdempotent` | appy.py:56 | Lower-casing twice is the same as lower-casing once. |
| `Uploads.LowerKeepsDots` | appy.py:55-56 | Lower-casing neither adds nor removes a dot. |
| `Uploads.LowerSuffix` | appy.py:56 | Lower-casing a name and then taking the text from a position gives the same as taking that text first and lower-casing it. |
| `Uploads.AllowedFileAtLastDot` | appy.py:55-56 | When position `i` holds the last dot of a name, the name is accepted exactly when the lower-cased text after `i` is an allowed extension. |
| `Uploads.AllowedFileIgnoresCase` | appy.py:54-56 | A name and its lower-cased form are accepted or rejected alike. |
| `Uploads.UpperCaseExtensionAccepted` | appy.py:48-56 | `scan.PNG` is accepted. |
| `Uploads.BareExtensionAccepted` | appy.py:48-56 | `.gif`, a name that is only a dot and an extension, is accepted. |
| `Uploads.ExtensionWithoutDotRejected` | appy.py:55 | `png` is rejected. |
| `Uploads.InnerExtensionRejected` | appy.py:48-56 | `photo.png.exe` is rejected: only the last extension counts. |
| `Posts.Filter` | appy.py:289 | The category view is no longer than the list. It contains a post exactly when the list contains that post and the post has the category. |
| `Posts.FilterAppend` | appy.py:289 | Filtering a concatenation gives the concatenation of the filtered parts, so list order is kept. |
| `Posts.FilterSnoc` | appy.py:289 | Filtering a list gives the filtered list minus its last post, followed by that last post if it has the category. |
| `Posts.CategoryIndices` | appy.py:289 | The reference definition: the positions of exactly the posts with the category, in strictly increasing order. |
| `Posts.FilterIsOrderedSelection` | appy.py:289 | The k-th post of the category view is the post at the k-th matching position. So the view is exactly the category's posts in their original relative order. |
| `Posts.FilterKeepsMultiplicity` | appy.py:289 | A post with the category appears in the view as many times as in the list. |
| `Posts.FilterIdempotent` | appy.py:289 | Filtering the view again by the same category changes nothing. |
| `Posts.FirstMatch` | appy.py:347-348 | The position found holds a post with the id and the category, and no earlier post matches. With no position found, no post matches. |
| `Posts.FirstMatchUnique` | appy.py:347-348 | A matching position with no match before it is the first match. |
| `Posts.FindById` | appy.py:302 | A post found is in the searched list and has the id. The answer is NotFound exactly when no post in the list has the id. |
| `Posts.FindByIdIsFirst` | appy.py:302 | A post found is the first post of the searched list with the id: some position holds it, and no earlier post has the id. |
| `Posts.Lookup` | appy.py:299-305 | A post found is in the list and matches the category and id. The answer is NotFound (404) exactly when no post matches. The list is a value and does not change. |
| `Posts.LookupIsFirstMatch` | appy.py:299-305 | Filtering and then searching by id finds the first post of the whole list that matches both. With no match the answer is NotFound. |
| `Posts.IndexOf` | appy.py:324 | The position found holds an element equal to `x`, with none before it. No position is found exactly when `x` is absent. |
| `Posts.RemoveFirst` | appy.py:324 | Removing `x` drops exactly the element at the first position equal to `x`. The elements before and after it stay in order. |
| `Posts.Delete` | appy.py:315-324 | The answer is NotFound exactly when no post matches the category and id. A successful delete makes the list exactly one shorter. |
| `Posts.IndexOfFirstMatch` | appy.py:318-324 | The first post equal to the found post is at the first match's own position, so the removal hits the post that was found. |
| `Posts.DeleteRemovesFirstMatch` | appy.py:315-324 | With no match, delete is NotFound. Otherwise the new list is the old one without its first matching post, and every other post keeps its order and fields. |
| `Posts.ReplaceNewlines` | appy.py:335 | The stored content has no line break. |
| `Posts.ReplaceNewlinesLength` | appy.py:335 | The stored content is longer than the input by exactly 3 for each line break in the input. |
| `Posts.ReplaceNewlinesCons` | appy.py:335 | Rewriting text that starts with a character rewrites that character (a line break becomes `<br>`, anything else stays), then the rest. |
| `Posts.ReplaceNewlinesAppend` | appy.py:335 | Rewriting a concatenation gives the concatenation of the rewritten parts. |
| `Posts.ReplaceNewlinesKeepsPlainText` | appy.py:335 | Text without a line break is stored unchanged, so rewriting again changes nothing. |
| `Posts.RestoreMarkup` | appy.py:335 | Reading back text that starts with `<br>` gives a line break, then the rest read back. |
| `Posts.RestorePlainChar` | appy.py:335 | Reading back text that starts with a character other than `<` keeps that character, then the rest read back. |
| `Posts.RestoreReplaceNewlines` | appy.py:335 | For content without `<`, replacing each `<br>` with a line break gives back the submitted text. No line break is lost. |
| `Posts.NewPost` | appy.py:337-338 | The new post's id is the list length plus one. It has 0 likes, the submitted title and category, and content with no line break. |
| `Posts.Create` | appy.py:337-338 | Posting appends exactly one post, the new post, and leaves all earlier posts unchanged. |
| `Posts.CreateThenFilter` | appy.py:337-338 | After a post is created, each category's view is its old view, followed by the new post if the new post has that category. |
| `Posts.Like` | appy.py:347-353 | With no match, the answer is NotFound and the list is unchanged. Otherwise only the first match changes: its likes rise by exactly 1, every other post stays the same, and the answer is the new count. |
| `Posts.LikeTimes` | appy.py:344-353 | A run of `n` like requests on the same category and id keeps the list's length. `Posts.LikeTimesAddsN` proves its effect. |
| `Posts.LikedAtCompose` | appy.py:349 | Raising a count by `m` and then by `k` at the same position raises it by `m + k`. |
| `Posts.LikeOnce` | appy.py:347-351 | One like raises the first match's count by 1 and leaves the first match at the same position. |
| `Posts.LikeTimesAddsN` | appy.py:347-351 | `n` likes in a row on the same post raise its count by exactly `n` and change nothing else. |
| `Posts.CreateKeepsNonNegativeLikes` | appy.py:338 | Posting keeps every like count non-negative. |
| `Posts.DeleteKeepsNonNegativeLikes` | appy.py:324 | Deleting keeps every like count non-negative. |
| `Posts.LikeKeepsNonNegativeLikes` | appy.py:349 | Liking keeps every like count non-negative. |
| `Board.PostStore.constructor` | appy.py:265 | The store holds the list it was loaded with. |
| `Board.PostStore.DeletePost` | appy.py:312-327 | NotFound exactly when no post matches, and then the list is unchanged. Otherwise the first matching post is removed and the rest of the list is kept in order. |
| `Board.PostStore.Posting` | appy.py:332-341 | The list grows by exactly one post at the end, and the earlier posts are unchanged. The new post has id old length + 1, 0 likes, and the content with every line break replaced by `<br>`, so no line break remains. |
| `Board.PostStore.LikePost` | appy.py:344-353 | With no match: NotFound, and the list is unchanged. Otherwise only the first matching post changes, its likes rise by 1, and the returned count is the new value. |
| `PostIds.CreateAll` | appy.py:332-341 | A run of posting requests lengthens the list by one post per request and leaves the earlier posts unchanged. |
| `PostIds.OneToNDistinct` | appy.py:337 | Ids numbered 1..n are pairwise distinct. |
| `PostIds.CreateAllKeepsOneToN` | appy.py:337-338 | Posting any number of times onto a list numbered 1..n keeps it numbered 1..n+m. |
| `PostIds.CreatesFromEmptyBoard` | appy.py:337-338 | Starting from an empty board and only posting gives ids 1..n, pairwise distinct. |
| `PostIds.FirstMatchOfOneToN` | appy.py:347-348 | On a list numbered 1..n, the post with id `k` is found at position `k - 1` when its category matches. |
| `PostIds.DeleteThenCreateDuplicatesId` | appy.py:324-338 | On a list numbered 1..n, deleting any post but the last and then posting gives the new post id `n`. The old last post still has that id, so the ids are no longer distinct. |
| `PostIds.DeleteLastThenCreateKeepsOneToN` | appy.py:324-338 | Deleting the last post and then posting numbers the list 1..n again. |
| `PostIds.DuplicateIdExample` | appy.py:324-338 | Concrete case: posts 1 and 2; delete post 1, then post again. The result is two posts with id 2. |
| `PostIds.DeleteThenLookupNotFound` | appy.py:299-324 | When ids are distinct, reading a deleted post by its category and id answers NotFound. |
| `PostIds.CreateThenLookup` | appy.py:299-338 | On a list numbered 1..n, the post just created is found under its category and id `n + 1`. |
| `PostIds.PostLikeTwiceDelete` | appy.py:299-353 | A board session on a list numbered 1..n: create a post and like it twice, and it has 2 likes. Then delete it, and looking it up answers NotFound. |

`Posts.Matches` has no contract of its own. It is the test the single-post,
delete and like routes apply: same id and same category (appy.py:299-302,
315-318, 348). The lookup and first-match members above state their results
in terms of it.

## Left out

- Persistence is not modelled. The module-level list is read from the posts document at start-up (appy.py:265). The post view, category view, single-post view and like routes read the document again on every request (appy.py:274, 288, 297, 345). Every change is written back (appy.py:253-262, 325, 339, 350). The model leaves out the file I/O and keeps one in-memory list; the constructor takes the loaded list.
- Stale copies are not modelled, so a lost like is not modelled either. `like_post` raises the count in a copy freshly read from the document and saves that copy (appy.py:345-350). The module-level list never sees the like. The next `deletepost` or `posting` saves the module-level list (appy.py:325, 339), and that overwrites the like in the document. In the model there is one list, so a like persists: `Posts.LikeTimesAddsN` and `PostIds.PostLikeTwiceDelete` are about that single list.
- Concurrency is not modelled. There is no locking and no interleaving of requests, so the "no lost like under concurrent requests" property is out of scope. `Posts.LikeTimesAddsN` states the sequential form: `n` likes raise the count by `n`.
- `Board.PostStore.LikePost` and `Posts.Like` treat the returned JSON body `{'likes': n}` as `Ok(n)` and the 404 JSON error as `NotFound`. The responses themselves (redirects, templates, `jsonify`, `flash`) are not modelled.
- The view of all posts (appy.py:271-275) returns the whole list unchanged, so the model has no member for it. The Korean category display names (appy.py:278-282, 290) are template text.
- The category view reads the category with a default when it is missing (appy.py:289). Every modelled post has a category, so that case does not arise.
- The list of three categories (appy.py:268) only feeds the posting form, and posting does not check it (appy.py:336). The model therefore does not restrict categories.
- `Uploads.Lower`: lower-cases only `A`..`Z`. Full Unicode lower-casing is not modelled. For this check the result is the same (see above).
- The other routes are framework and database glue: index, upload and result pages, signup, login, settings, data input and logout (appy.py:71-248, 356-361). So is the user database (appy.py:25-41). The upload route only calls the filename check, which is modelled.
- Deferred deletion of uploaded files (appy.py:58-69) uses a timer thread and the filesystem.
- The BMI computation and unit conversion (appy.py:178-182, 234-235) use floating point. The tabular predictor (CSV_result.py) and the image classifier (appy.py:7, 100) are external trained models.
