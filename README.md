# MiniSocial and MiniBlog store model

Two browser demos keep a small in-memory social store. This project models
the stores and their event handlers in Dafny, and proves what the
handlers promise.

- **MiniSocial** (`exp_10.3/app.js`). Users sign up and sign in with a
  password. They publish posts, like and unlike posts, comment on them and
  delete their own. The feed is a search over all posts, newest first.
- **MiniBlog** (`exp_10.2/app.js`). Users are created and switched without
  passwords. The active user publishes posts, comments on them and deletes
  their own. Every id comes from a counter in the store: `u101`, `p102`, and
  so on.

Files:

- `Lists.dfy` models the array methods the handlers use: `find`, `some`,
  `filter`, `indexOf` and `splice(i, 1)`.
- `Text.dfy` models the string methods they use: `trim`, `toLowerCase`,
  `includes` and `slice(0, n)`. It also holds the two escapers. They are
  checked against `UnescapeHtml`, which decodes the five entities the way an
  HTML reader does.
- `Sorting.dfy` holds the newest-first sort both apps show their posts in.
  It is a stable insertion sort, proved sorted, a permutation of its input,
  and stable.
- `MiniSocial.dfy` and `MiniBlog.dfy` each hold a `Store` class. The class
  has the fields the app mutates. Each method is one handler. State changes
  in place, as `push`, `unshift`, `splice` and assignment do in the source.

Each handler returns an `Outcome`:

| outcome | meaning |
|---|---|
| `Done` | the store changed |
| `Silent` | the handler returned without a message |
| `SignInPrompt` | the sign-in dialog opened |
| `Alert(reason)` | an `alert` refused the action |

Things outside the store become parameters:

- The answer to `confirm` is a boolean.
- `Date` values are integer timestamps.
- MiniSocial's random ids are a `freshId` argument that must not be in use.

Every handler keeps the store invariant `Valid()` (`ensures old(Valid()) ==>
Valid()`). The helpers that carry out a handler's accepting step keep it
under the freshness conditions their contracts name. `SelectUser` and
`DefaultActiveUser` touch only the active user, which the invariant does not
mention. The invariant says:

- Ids are unique.
- Lowered usernames are unique.
- MiniSocial: like lists have no duplicates, comment ids are unique within
  their post, and the signed-in user exists.
- MiniBlog: every id is one character followed by a number no larger than
  the counter (`Issued`). The seed ids `u1`, `u2`, `p1` and `c1` have this
  shape too, though no `uid` call drew them.

The lemmas next to each method carry the proof.

## Model

| member | source | states |
|---|---|---|
| Lists.FindIndex | exp_10.3/app.js:235 | `find` stops at the first element that matches; no earlier one matches; none found means none matches |
| Lists.Any | exp_10.3/app.js:191 | `some` is true exactly when one element matches |
| Lists.Filter | exp_10.3/app.js:261 | `filter` keeps an element exactly when it was there and matches, and never grows the list |
| Lists.FilterCounts | exp_10.3/app.js:261 | `filter` keeps every matching element as often as it occurs and drops all others |
| Lists.FilterIsSubsequence | exp_10.3/app.js:261 | `filter` keeps the order of what it keeps |
| Lists.FilterAll | exp_10.3/app.js:112 | when every element matches, `filter` returns the list unchanged |
| Lists.FilterSameMultiset | exp_10.3/app.js:110-112 | filtering a reordering of a list keeps the same elements |
| Lists.FilterKeepsDistinct | exp_10.3/app.js:261 | removing posts keeps ids unique |
| Lists.IndexOf | exp_10.3/app.js:237 | `indexOf` gives -1 exactly when the value is absent, else its first position |
| Lists.RemoveAt | exp_10.3/app.js:238 | `splice(i, 1)` drops the element at `i` and shifts the rest down by one |
| Lists.RemoveAtNoDuplicates | exp_10.3/app.js:238 | on a list without duplicates, splicing removes that value, keeps every other value, and leaves no duplicates |
| Lists.AppendNoDuplicates | exp_10.3/app.js:238 | pushing an absent value keeps a list duplicate-free |
| Text.ToLower | exp_10.3/app.js:191 | ASCII lowering keeps the length, lowers each letter and leaves no upper-case letter |
| Text.ToLowerIdempotent | exp_10.3/app.js:191 | lowering twice is lowering once |
| Text.IsWhitespace | exp_10.3/app.js:186 | defines the characters `trim` strips: the ECMAScript WhiteSpace and LineTerminator code points |
| Text.SkipStart | exp_10.3/app.js:186 | the first index at or after `i` that is not whitespace; everything skipped is whitespace |
| Text.SkipEnd | exp_10.3/app.js:186 | the end of a range once trailing whitespace is dropped; everything dropped is whitespace |
| Text.Trim | exp_10.3/app.js:186 | `trim` gives a string with no whitespace at either end, empty exactly when the input is all whitespace |
| Text.TrimIsSlice | exp_10.3/app.js:186 | `trim` keeps a middle block of the input and cuts off only whitespace on both sides |
| Text.TrimIdempotent | exp_10.3/app.js:186 | trimming twice is trimming once |
| Text.Prefix | exp_10.3/app.js:218 | `slice(0, n)` is the first `n` characters, or the whole string when it is shorter |
| Text.Includes | exp_10.3/app.js:112 | `includes` is true exactly when the substring occurs at some position |
| Text.IncludesToLower | exp_10.3/app.js:112 | a literal occurrence is still an occurrence once both sides are lowered |
| Text.Entity | exp_10.3/app.js:275 | defines the entity table: `&amp;`, `&lt;`, `&gt;`, `&quot;` and `&#39;` for `&<>"'`, any other character as itself |
| Text.EscapeHtml | exp_10.3/app.js:275 | the escaped text contains no `<`, `>`, `"` or `'` and is at least as long as the input |
| Text.EscapeHtmlChar | exp_10.3/app.js:275 | each character becomes its fixed entity, and stays itself exactly when it is not one of `&<>"'` |
| Text.EscapeHtmlAppend | exp_10.3/app.js:275 | escaping works character by character: escaping a concatenation concatenates the escapes |
| Text.UnescapeEntity | exp_10.3/app.js:275 | an HTML reader decodes each entity back to its character |
| Text.UnescapeEscapeHtml | exp_10.3/app.js:275 | escaping loses nothing: decoding the escaped text gives the input back |
| Text.EscapeHtmlKeepsPlainText | exp_10.2/app.js:30 | text without any of `&<>"'` is left unchanged |
| Text.EscapeAttr | exp_10.3/app.js:276 | the escaped attribute contains no `"` |
| Text.UnescapeEscapeAttr | exp_10.3/app.js:276 | in text without `&`, decoding the escaped attribute gives the input back |
| Sorting.Insert | exp_10.3/app.js:110 | inserting adds exactly one element and keeps all the others |
| Sorting.InsertNewestFirst | exp_10.3/app.js:110 | inserting into a newest-first list keeps it newest first |
| Sorting.InsertStable | exp_10.3/app.js:110 | an inserted element goes in front of the elements with the same timestamp |
| Sorting.SortNewestFirst | exp_10.3/app.js:110 | the sorted copy is a permutation of the posts, ordered by `createdAt` descending |
| Sorting.SortNewestFirstStable | exp_10.3/app.js:110 | posts with equal timestamps keep their relative order, as the stable library sort keeps them |
| Sorting.FilterNewestFirst | exp_10.3/app.js:112 | filtering a sorted list leaves it sorted |
| MiniSocial.Toggled | exp_10.3/app.js:237-238 | the likes after a toggle: the user is in them when absent before, and the count moves by exactly one |
| MiniSocial.ToggledFlips | exp_10.3/app.js:237-238 | on a list without duplicates, a toggle flips exactly that user's like, changes the count by one and keeps the list duplicate-free |
| MiniSocial.ToggledCounts | exp_10.3/app.js:237-238 | on any list, a toggle adds one like by that user when there is none and removes one otherwise |
| MiniSocial.ToggledTwice | exp_10.3/app.js:237-238 | toggling twice from "not liked" restores the original list |
| MiniSocial.Query | exp_10.3/app.js:111 | the trimmed, lowered query: empty exactly when the filter is all whitespace, and with no upper-case letter |
| MiniSocial.Shows | exp_10.3/app.js:112 | defines the feed's test for one post: an empty query shows it, otherwise the query must occur in the lowered title or body |
| MiniSocial.Feed | exp_10.3/app.js:110-112 | the posts `renderFeed` shows, in display order: never more than are stored, each one matching the query |
| MiniSocial.FeedBlankQuery | exp_10.3/app.js:110-112 | with a blank query the feed is every post, newest first |
| MiniSocial.FeedContents | exp_10.3/app.js:110-112 | the feed holds exactly the posts whose lowered title or body contains the lowered, trimmed query, each as often as stored, ordered by `createdAt` descending |
| MiniSocial.FeedFindsLiteralMatches | exp_10.3/app.js:111-112 | a post whose title or body contains the trimmed query literally is in the feed, whatever the case |
| MiniSocial.Store.constructor | exp_10.3/app.js:17-30 | the default state: alice and bob with password `123`, the welcome post with one comment, nobody signed in; the post and the comment each take their own creation time |
| MiniSocial.Store.SignUp | exp_10.3/app.js:186-198 | an empty trimmed username or name, or a username equal to an existing one ignoring case, is refused with no change; otherwise one user is appended at the end and becomes the current user |
| MiniSocial.Store.Register | exp_10.3/app.js:192-194 | the new user is appended at the end and signed in, and the invariant holds when the id and the lowered username are new |
| MiniSocial.Store.SignIn | exp_10.3/app.js:199-204 | succeeds exactly when some user has the trimmed username (ignoring case) and exactly the password, then signs in such a user (under the invariant, the only one); otherwise the current user is unchanged |
| MiniSocial.Store.CreatePost | exp_10.3/app.js:212-219 | needs a signed-in user and non-empty trimmed text; the new post goes first, with a title of at most 120 characters that is a prefix of the full text kept as body, and empty likes and comments; the other posts are unchanged |
| MiniSocial.Store.Publish | exp_10.3/app.js:218-219 | the new post is placed in front of the others |
| MiniSocial.Store.ToggleLike | exp_10.3/app.js:233-238 | with nobody signed in or no such post nothing changes; otherwise only the first post with that id changes, and only its likes, which become the toggled list |
| MiniSocial.Store.AddComment | exp_10.3/app.js:244-250 | with nobody signed in or empty trimmed text nothing changes; otherwise exactly one comment by the current user is appended to that post and to no other |
| MiniSocial.Store.AppendComment | exp_10.3/app.js:249-250 | the comment is appended to post `k` and nothing else changes |
| MiniSocial.Store.DeletePost | exp_10.3/app.js:256-261 | changes nothing unless the first post with that id is the current user's and deletion is confirmed; then it removes exactly the posts with that id and keeps the rest in order |
| MiniBlog.Decimal | exp_10.2/app.js:27 | a number is written with at least one character, every character a decimal digit, and a leading `0` exactly when the number is 0 |
| MiniBlog.DecimalInjective | exp_10.2/app.js:27 | different numbers are written differently |
| MiniBlog.IdsDiffer | exp_10.2/app.js:27 | ids with the same prefix and different counter values differ |
| MiniBlog.IssuedMonotone | exp_10.2/app.js:27 | an id issued at some counter value stays issued as the counter grows |
| MiniBlog.NextIdIsNew | exp_10.2/app.js:27 | the next id drawn with a one-character prefix differs from every id issued before |
| MiniBlog.NextIdKeepsConsistent | exp_10.2/app.js:27 | drawing an id keeps the invariant, and the new id is issued and not in use |
| MiniBlog.Store.NextId | exp_10.2/app.js:27 | `uid` increases the counter by exactly one and returns the prefix followed by the new value; the id is not in use yet |
| MiniBlog.Store.constructor | exp_10.2/app.js:5-24 | the initial state with the counter at 100, after `init` made the first user, `u1`, active; the post and the comment each take their own creation time |
| MiniBlog.Store.DefaultActiveUser | exp_10.2/app.js:62-65 | with no active user and at least one user, the first user becomes active; otherwise the active user is left alone |
| MiniBlog.Store.CreateUser | exp_10.2/app.js:145-159 | an empty trimmed username or full name, or a username equal to an existing one ignoring case, is refused with no change; otherwise one user with the next `u` id is appended and becomes active |
| MiniBlog.Store.AddUser | exp_10.2/app.js:152-157 | the user with the next `u` id is appended and active, and the invariant holds when the lowered username is new |
| MiniBlog.AddUserKeepsConsistent | exp_10.2/app.js:151-153 | a user with a fresh issued id and a new lowered username keeps the invariant |
| MiniBlog.Store.SelectUser | exp_10.2/app.js:161-164 | the chosen value becomes the active user id |
| MiniBlog.Store.CreatePost | exp_10.2/app.js:166-177 | needs an active user and a non-empty trimmed title and content; the post with the next `p` id is appended at the end with an empty comment list |
| MiniBlog.Store.AddPost | exp_10.2/app.js:172-173 | the post with the next `p` id is appended at the end |
| MiniBlog.AddPostKeepsConsistent | exp_10.2/app.js:172-173 | a post with a fresh issued id and no comments keeps the invariant |
| MiniBlog.CommentsOf | exp_10.2/app.js:129 | defines `p.comments \|\| []`: the post's comments, or none when the list is missing |
| MiniBlog.Store.AddComment | exp_10.2/app.js:123-133 | with no active user or empty trimmed text nothing changes; otherwise a missing comment list starts empty and exactly one comment by the active user is appended to that post |
| MiniBlog.Store.AppendComment | exp_10.2/app.js:128-130 | the comment with the next `c` id goes last on post `k`, after a missing list is started empty |
| MiniBlog.AddCommentKeepsConsistent | exp_10.2/app.js:129-130 | a comment with an issued id added to one post keeps the invariant |
| MiniBlog.Store.DeletePost | exp_10.2/app.js:135-142 | changes nothing unless the first post with that id is the active user's and deletion is confirmed; then it removes exactly the posts with that id and keeps the rest in order |
| MiniBlog.FilterPostsKeepsConsistent | exp_10.2/app.js:140 | removing posts keeps the invariant |
| MiniBlog.Store.ShownPosts | exp_10.2/app.js:75 | the list shown is a permutation of the stored posts ordered by `createdAt` descending; the stored list is not reordered |

## Left out

- `exp_10.1/app.js` is not part of this model. It is `fetch` calls against a remote API plus rendering.
- Rendering is left out: `innerHTML` templates, event wiring, `classList`, `scrollIntoView` and highlight timers. So is the sign-in/sign-up dialog switching. None of it changes the store.
- `localStorage` and JSON (`saveState`, `loadState`) are left out; they are browser storage. A loaded state is not checked against `Valid()`, so the invariant is stated as preserved, not as always true.
- `Date` values are integer timestamps. ISO strings are not parsed, and times are not formatted.
- MiniSocial's `uid` draws random ids. The handlers take a `freshId` argument that must not be in use.
- `alert`, `confirm` and `openAuthModal` become `Outcome` values and a boolean argument.
- `toLowerCase` is modelled on ASCII letters only. Unicode case mapping is not modelled.
- Strings are sequences of code points. `slice(0, 120)` counts UTF-16 code units in JavaScript, so a title with characters outside the Basic Multilingual Plane can differ.
- The `(s || '')` guards for `null` or `undefined` inputs are not modelled; every input is a string.
- MiniSocial's logout button and user switcher are outside the modelled core and are not modelled. Both write `currentUserId`: logout clears it (exp_10.3/app.js:74), and the switcher sets it to any listed user's id without a password (exp_10.3/app.js:87-91). So "a user is signed in only through matching credentials" holds for the modelled handlers only, not for the whole app.
- MiniBlog's `viewProfile`, `openPost` and `updateActiveLabel` are not modelled. They only read the store or render.
- Posts are values replaced at their index. The model does not capture aliasing between a post object and other references to it. The source holds none beyond the list.
- MiniBlog.Store.NextId: the counter is an unbounded natural number. JavaScript numbers lose precision above 2^53, far past any reachable count.
- Sorting.SortNewestFirst: the library's sort algorithm is not modelled. An insertion sort stands in for it. Both are stable sorts on the same key, so they give the same list.
- MiniSocial.Store.SignIn: states that the signed-in user has the credentials, not that it is the first such user in the list. Under the invariant only one user has a given lowered username.
- MiniSocial.Store.AddComment and MiniBlog.Store.AddComment: the source dereferences the result of `find` without checking it. The model requires that a post with that id exists whenever the guards before the lookup pass.
