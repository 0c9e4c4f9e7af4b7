# Posts and products front-end: a verified Dafny model

This project models the logic of a React front-end that lists, creates, edits
and deletes blog posts against a remote REST resource, and keeps a small
product list in memory. It covers five parts:

- **The posts store** (`posts_slice.dfy`, class `PostsSlice.PostsStore`). This
  is the posts slice of the Redux store: the post list, the current post, the
  global `loading` flag, the error, and four per-operation loading flags
  (`create`, `update`, `delete`, `fetchById`). Each of the five asynchronous
  commands (list, get by id, create, edit, remove) has a pending, a fulfilled
  and a rejected case. Each case is a method with its whole new state stated.
  The list changes are pure functions with lemmas: prepend on create, replace
  the first id match in place on edit, filter by id on remove.
- **The post list** (`post_list.dfy`). This is the search, user filter and sort
  pipeline behind the cards, the user filter's options, and the clear and
  toggle handlers.
- **The post form** (`post_form.dfy`). This covers trimming, the validation
  rules and messages, input changes, initialisation from the edited post, edit
  mode and its loading flag, closing, and the request a valid submit sends.
- **The post card** (`post_card.dfy`). This covers text truncation, the avatar
  colour, and the "Read more" condition.
- **The product page** (`product_page.dfy`, class `ProductPage.ProductPage`).
  This covers validate-then-update-or-append on save, delete by id, and opening
  the dialog blank or with a copy of a product.

`seqs.dfy` holds `Array.prototype.filter` (`Seqs.Filter`) and its order and
multiplicity lemmas, which all three filtering callers share. `js_strings.dfy` holds JavaScript strings as UTF-16 code units. `.length`,
`substring`, `includes` and the string comparisons count and compare these
units, so a character outside the Basic Multilingual Plane counts twice.
`posts.dfy` holds the post record. `wrappers.dfy` holds `Option`, which stands for JavaScript's
`null`/`undefined`.

Network results, the server's error payloads, generated ids and user input are
parameters. The remote API, React state hooks and rendering are not modelled.

## Model

| member | source | states |
|---|---|---|
| PostsSlice.PostsStore.constructor | src/redux-toolkit/slices/postsSlice.js:73-84 | The initial state has no posts, no current post, no error, and every loading flag down. |
| PostsSlice.PostsStore.ClearError | src/redux-toolkit/slices/postsSlice.js:86-88 | `clearError` sets `error` to none and changes no other field. |
| PostsSlice.PostsStore.ClearCurrentPost | src/redux-toolkit/slices/postsSlice.js:89-91 | `clearCurrentPost` sets `currentPost` to none and changes no other field. |
| PostsSlice.PostsStore.SetCurrentPost | src/redux-toolkit/slices/postsSlice.js:92-94 | `setCurrentPost` sets `currentPost` to the payload and changes no other field. |
| PostsSlice.PostsStore.HandlePending | src/redux-toolkit/slices/postsSlice.js:98-105 | With no operation type, it raises `loading`. With one, it raises only that `operationLoading` key. The error is cleared. Posts and current post are unchanged. |
| PostsSlice.PostsStore.HandleRejected | src/redux-toolkit/slices/postsSlice.js:108-115 | It lowers the same selected flag and stores the payload as the error. Posts and current post are unchanged, so a failed refresh keeps the stale list. |
| PostsSlice.PostsStore.Pending | src/redux-toolkit/slices/postsSlice.js:117-157 | Any command's pending case raises exactly that command's own flag, leaves every other command's flag as it was, clears the error, and keeps the posts and current post. |
| PostsSlice.PostsStore.Rejected | src/redux-toolkit/slices/postsSlice.js:117-165 | Any command's rejected case lowers exactly that command's own flag, leaves the other flags, stores the rejection value, and keeps the posts and current post. |
| PostsSlice.OperationType | src/redux-toolkit/slices/postsSlice.js:117-165 | Only the list fetch uses the global `loading` flag; every other command passes an operation type. |
| PostsSlice.OperationLoading.Set | src/redux-toolkit/slices/postsSlice.js:100-110 | `operationLoading[kind] = v` makes that flag `v` and leaves the other three flags as they were. |
| PostsSlice.OperationTypeInjective | src/redux-toolkit/slices/postsSlice.js:117-165 | No two commands share a loading flag. |
| PostsSlice.PostsStore.GetPostsFulfilled | src/redux-toolkit/slices/postsSlice.js:120-123 | `posts` becomes the payload and `loading` drops. Current post, error and the other flags are unchanged. |
| PostsSlice.PostsStore.GetPostByIdFulfilled | src/redux-toolkit/slices/postsSlice.js:128-131 | The payload becomes the current post and only `fetchById` drops. Posts and error are unchanged. |
| PostsSlice.PostsStore.AddPostFulfilled | src/redux-toolkit/slices/postsSlice.js:136-139 | `posts == [payload] + old posts`, and only `create` drops. |
| PostsSlice.PostsStore.EditPostFulfilled | src/redux-toolkit/slices/postsSlice.js:144-153 | `posts` is the old list with its first post of the payload's id replaced. The current post is replaced exactly when its id matches. Only `update` drops. |
| PostsSlice.PostsStore.RemovePostFulfilled | src/redux-toolkit/slices/postsSlice.js:158-164 | `posts` is the old list without the posts of that id. The current post becomes none exactly when its id matched. Only `delete` drops. |
| PostsSlice.RejectionMessage | src/redux-toolkit/slices/postsSlice.js:14-19 | The rejection value is the server payload's message when present and non-empty, otherwise the transport error's message. It is empty only when both are. |
| PostsSlice.ReplaceFirstById | src/redux-toolkit/slices/postsSlice.js:146-149 | The edit of `posts` by the fulfilled payload: it keeps the length. `ReplaceFirstByIdAt` proves it is the write at the `findIndex` position, and `ReplaceFirstByIdAbsent` that it changes nothing without a match. |
| PostsSlice.RemoveById | src/redux-toolkit/slices/postsSlice.js:160 | The filter by id: the result is no longer than `posts`, holds no post with the id, and holds every listed post with another id. `RemoveByIdSpec` adds order and multiplicities. |
| PostsSlice.FindIndexById | src/redux-toolkit/slices/postsSlice.js:146 | `findIndex` returns the first index whose post has the id, or -1 exactly when no post has it. |
| PostsSlice.ReplaceFirstByIdAt | src/redux-toolkit/slices/postsSlice.js:146-149 | Writing the payload at the first matching index is the edit: same length, same index, every other post unchanged. |
| PostsSlice.ReplaceFirstByIdAbsent | src/redux-toolkit/slices/postsSlice.js:147 | When no post has the payload's id, the edit leaves `posts` unchanged. |
| PostsSlice.ReplaceFirstByIdKeepsIds | src/redux-toolkit/slices/postsSlice.js:146-149 | An edit keeps every id at its position. |
| PostsSlice.ReplaceFirstByIdIdempotent | src/redux-toolkit/slices/postsSlice.js:146-149 | Applying the same fulfilled edit twice gives the same list as applying it once. |
| PostsSlice.RemoveByIdSpec | src/redux-toolkit/slices/postsSlice.js:160 | After a remove no post has that id. Every other post keeps all its copies and the rest keep their relative order. |
| PostsSlice.RemoveByIdCons | src/redux-toolkit/slices/postsSlice.js:160 | Removing from a list keeps its head exactly when the head's id differs. |
| PostsSlice.RemoveThenEdit | src/redux-toolkit/slices/postsSlice.js:144-164 | An edit that is fulfilled after a remove of the same id changes nothing, so the remove wins. |
| PostsSlice.PrependKeepsUniqueIds | src/redux-toolkit/slices/postsSlice.js:138 | Prepending a post whose id is not listed keeps ids unique. |
| PostsSlice.EditKeepsUniqueIds | src/redux-toolkit/slices/postsSlice.js:146-149 | An edit keeps ids unique. |
| PostsSlice.RemoveKeepsUniqueIds | src/redux-toolkit/slices/postsSlice.js:160 | A remove keeps ids unique. |
| Seqs.Filter | src/redux-toolkit/slices/postsSlice.js:160 | `filter` returns no more elements than it was given. Every result element is an input element that passes. Every passing input element is in the result. |
| Seqs.FilterIsSubsequence | src/components/post/PostList.jsx:54-62 | `filter` keeps the relative order of what it keeps. |
| Seqs.FilterMultiset | src/views/pages/ProductPage.jsx:55 | `filter` keeps every copy of each passing value and no copy of any other value. |
| JsStrings.Units | src/components/post/PostForm.jsx:79 | One character encodes as one code unit inside the Basic Multilingual Plane, and otherwise as a high surrogate then a low surrogate. |
| JsStrings.UnitsDecode | src/components/post/PostForm.jsx:79 | A surrogate pair decodes back to the character, so the encoding loses nothing. |
| JsStrings.Utf16 | src/components/post/PostForm.jsx:79 | A string has between one and two code units per character. It has exactly one per character iff every character is in the Basic Multilingual Plane. |
| JsStrings.JsLength | src/components/post/PostCard.jsx:16 | `.length` is at least the number of characters and at most twice that. It is 0 exactly for `''`. |
| JsStrings.LexLe | src/components/post/PostList.jsx:75-78 | Defines JavaScript's `<=` on strings: lexicographic on code units, a prefix first. Its order properties are `LexLeTotal` and `LexLeTransitive`. |
| JsStrings.AstralLength | src/components/post/PostCard.jsx:16 | Any two characters outside the Basic Multilingual Plane together have `.length` 4. |
| JsStrings.LexLeTotal | src/components/post/PostList.jsx:75-78 | Any two strings compare one way or the other under the code-unit order of `<` and `>`. |
| JsStrings.LexLeTransitive | src/components/post/PostList.jsx:75-78 | The code-unit order is transitive. |
| JsStrings.SurrogatesSortBelowHighBmp | src/components/post/PostList.jsx:75-78 | U+1F600 sorts before U+FF01 in code-unit order, although its code point is larger. |
| PostForm.AstralTitleLongEnough | src/components/post/PostForm.jsx:77-80 | Any title of two characters outside the Basic Multilingual Plane trims to itself and is 4 long, so it passes the 3 minimum. |
| PostList.ClearFilters | src/components/post/PostList.jsx:142-147 | Clearing resets search to `''`, user to all, sort key to id and order to descending. These are the initial values (lines 27-30). |
| PostList.ToggleSortOrder | src/components/post/PostList.jsx:240 | The toggle always changes the order: ascending becomes descending and the other value becomes ascending. |
| PostList.ToggleSortOrderTwice | src/components/post/PostList.jsx:240 | Two toggles restore the order. |
| PostList.Lower | src/components/post/PostList.jsx:55-56 | Lowercasing keeps the length, maps each character, and leaves no upper-case ASCII letter. |
| PostList.Includes | src/components/post/PostList.jsx:55-56 | Defines `includes` on code units: the term is a prefix of the text or occurs in its tail. `IncludesOccurs` proves this is occurrence at some index. |
| PostList.MatchesSearch | src/components/post/PostList.jsx:54-57 | Defines the search test: the lowercased term is included in the lowercased title or in the lowercased body. `SelectedSpec` states what it selects. |
| PostList.IncludesOccurs | src/components/post/PostList.jsx:55-56 | `includes` on code units holds exactly when the term's code units occur at some index of the text's. |
| PostList.SearchStep | src/components/post/PostList.jsx:53-58 | Defines the search step: filter by `MatchesSearch` when the term is non-empty, otherwise the posts as they are. Its effect is stated by `SelectedSpec`. |
| PostList.UserStep | src/components/post/PostList.jsx:61-63 | Defines the user step: filter by the chosen user id unless all users are chosen. Its effect is stated by `SelectedSpec`. |
| PostList.Selected | src/components/post/PostList.jsx:50-63 | Defines the selection as the user step after the search step, on a copy of the posts. `SelectedSpec` and `SelectedLength` state its contents and length. |
| PostList.Shown | src/components/post/PostList.jsx:53-63 | Defines whether one post passes both filters. `SelectedSpec` proves the selection keeps exactly the posts for which it holds. |
| PostList.SelectedSpec | src/components/post/PostList.jsx:50-63 | The search and user steps keep exactly the posts that pass both filters. The search (when the term is non-empty) needs the lowercased term in the lowercased title or body, matched on code units. The user filter (unless all users are chosen) needs the chosen user id. Every copy of each post is kept, in the original order. |
| PostList.InOrderTotal | src/components/post/PostList.jsx:66-80 | Of any two posts, one may precede the other under the chosen key and direction. |
| PostList.InOrderTransitive | src/components/post/PostList.jsx:66-80 | Key order is transitive in both directions. |
| PostList.KeyLe | src/components/post/PostList.jsx:67-73 | Defines the ascending key order: ids and user ids as numbers, titles lowercased and compared on code units. `InOrderTotal` and `InOrderTransitive` prove it is a total preorder. |
| PostList.InOrder | src/components/post/PostList.jsx:75-79 | Defines "may precede" as `KeyLe` for ascending and its mirror for descending. `CompareAsWrittenSwaps` ties it to the written comparator. |
| PostList.CompareAsWritten | src/components/post/PostList.jsx:75-79 | The comparator as written answers only 1 or -1. |
| PostList.CompareAsWrittenInconsistent | src/components/post/PostList.jsx:66-80 | Any two posts of one user, sorted by user id in either direction, each compare as "before" the other. So the comparator as written is not consistent. |
| PostList.Compare | src/components/post/PostList.jsx:66-80 | The corrected comparator answers -1, 0 or 1. |
| PostList.CompareConsistent | src/components/post/PostList.jsx:66-80 | The corrected comparator is consistent and agrees with the written one wherever the keys differ. It answers at most 0 exactly when the posts are in order. |
| PostList.CompareAsWrittenSwaps | src/components/post/PostList.jsx:75-79 | The comparator as written answers 1, the answer on which a sort moves the pair, exactly when the pair is out of order for the chosen key and direction. |
| PostList.ArrangementOfSelected | src/components/post/PostList.jsx:50-82 | Any arrangement of the selected posts holds exactly the posts that pass both filters and is no longer than the input. With no search and all users it is an arrangement of all the posts. |
| PostList.AdjacentInOrderSorted | src/components/post/PostList.jsx:66-80 | A list whose neighbours are in order is sorted. |
| PostList.SinkIntoPlace | src/components/post/PostList.jsx:66-80 | One insertion pass: swapping while the comparator answers positive leaves the first `i + 1` entries in order, and the array holds the same posts. |
| PostList.SortPosts | src/components/post/PostList.jsx:66-80 | The in-place sort, driven by the comparator as written, leaves the array non-decreasing by the key for ascending and non-increasing for descending. The array holds the same posts. |
| PostList.FilteredAndSortedPosts | src/components/post/PostList.jsx:48-83 | The result holds exactly the selected posts with their multiplicities. A post is shown iff it is in the input and passes both filters. The result is no longer than the input and is sorted. With no search and all users it is a permutation of the posts. |
| PostList.InsertSorted | src/components/post/PostList.jsx:42-43 | Inserting into an ascending duplicate-free list keeps it so and adds exactly the new value. |
| PostList.DistinctSorted | src/components/post/PostList.jsx:42-43 | The distinct user ids come out strictly ascending, with exactly the values of the input. |
| PostList.StrictlyIncreasingUnique | src/components/post/PostList.jsx:42-43 | Only one strictly ascending list has a given set of values, so any de-duplicate-then-sort gives `DistinctSorted`. |
| PostList.UserIds | src/components/post/PostList.jsx:42 | `posts.map(post => post.userId)` keeps the length and position. |
| PostList.UserOptions | src/components/post/PostList.jsx:40-45 | The options are 'all' first, then one entry per distinct user id present in the posts, strictly ascending. |
| PostList.SelectedLength | src/components/post/PostList.jsx:264 | The filtered list is never longer than the posts. |
| PostForm.TrimStart | src/components/post/PostForm.jsx:77 | Trimming the start removes exactly the leading white space and leaves a suffix. |
| PostForm.TrimEnd | src/components/post/PostForm.jsx:77 | Trimming the end removes exactly the trailing white space and leaves a prefix. |
| PostForm.IsWhitespace | src/components/post/PostForm.jsx:77 | Defines the characters `trim()` removes: the ECMAScript white space and line terminators. `TrimStart`, `TrimEnd` and `Trim` state what removing them gives. |
| PostForm.Trim | src/components/post/PostForm.jsx:77-86 | `trim()` gives the slice of the input between its leading and trailing white space. That slice has no white space at either end and is empty exactly when the input is all white space. |
| PostForm.TrimIdempotent | src/components/post/PostForm.jsx:102-104 | Trimming twice is trimming once. |
| PostForm.ValidateForm | src/components/post/PostForm.jsx:74-91 | The form is valid iff the trimmed title is at least 3 code units long (`.length`) and the trimmed body at least 10, iff there are no errors. A title error exists iff the trimmed title is shorter than 3. It reads 'Title is required' when that title is empty and 'Title must be at least 3 characters' otherwise. The body follows the same rules with 10. No other key is set. |
| PostForm.Draft | src/components/post/PostForm.jsx:102-106 | The submitted data is the trimmed title, the trimmed body and the unchanged user id. |
| PostForm.DraftOfValidForm | src/components/post/PostForm.jsx:97-106 | The draft of a valid form is already trimmed and would pass validation again. |
| PostForm.HandleSubmit | src/components/post/PostForm.jsx:89-117 | A request is sent iff the form is valid, iff no error is recorded. The recorded errors are `validateForm`'s, with the same keys and messages. In edit mode the request edits the post's id with the draft; otherwise it creates the draft. |
| PostForm.EditUnchanged | src/components/post/PostForm.jsx:31-37 | A form opened on a post whose trimmed title has at least 3 code units and whose trimmed body has at least 10, submitted unchanged, edits that post's id with its trimmed title and body. A post below either minimum sends nothing (line 92). |
| PostForm.InputChange | src/components/post/PostForm.jsx:58-71 | Only the named field of the draft changes. The errors keep their keys. The named field's error, if present, is `''`. Every other field's error is unchanged. |
| PostForm.UserIdFromInput | src/components/post/PostForm.jsx:221 | The user id input never yields 0. A failed parse or 0 yields 1, and any other parse is kept. |
| PostForm.IsLoading | src/components/post/PostForm.jsx:27-28 | The loading flag is the store's `update` flag in edit mode (a post is given) and its `create` flag otherwise. |
| PostForm.IsEditMode | src/components/post/PostForm.jsx:27 | Defines edit mode as `Boolean(post)`: a post was passed in. `IsLoading` states its effect, and `InitForm` and `HandleSubmit` branch on the same test. |
| PostForm.InitForm | src/components/post/PostForm.jsx:31-46 | Initialisation clears the errors. With a post it copies title and body and keeps a non-zero user id, and a user id of 0 becomes 1. Without a post it gives the blank draft with user 1. |
| PostForm.HandleClose | src/components/post/PostForm.jsx:138-144 | While loading, closing changes nothing and does not hide. Otherwise it resets to the create-mode initial form and hides. |
| PostCard.TruncateText | src/components/post/PostCard.jsx:14-19 | A missing or empty text gives `''`. A text of at most `maxLength` code units is returned whole. A longer one gives its first `maxLength` code units, which may end halfway through a surrogate pair, then `'...'`, for `maxLength + 3` units. The result is never longer than that. The source's default `maxLength` of 120 is not modelled, because both call sites pass a limit. |
| PostCard.JsRemainder7 | src/components/post/PostCard.jsx:24 | JavaScript's `% 7` is congruent to the dividend, smaller than 7 in size, and has the dividend's sign. |
| PostCard.GetUserColor | src/components/post/PostCard.jsx:22-25 | A non-negative id gets the palette entry at the id modulo 7. Any colour given is one of the 7 entries. There is no colour exactly for negative ids that are not multiples of 7. A negative multiple of 7 gives the remainder `-0` and so the first entry. |
| PostCard.GetUserColorPeriodic | src/components/post/PostCard.jsx:22-25 | Users with non-negative ids 7 apart share a colour. Negative ids are not covered, since for them `GetUserColor` may give no colour. |
| PostCard.CardTitle | src/components/post/PostCard.jsx:61 | The title is shown whole when it has at most 50 code units. Otherwise it is cut after 50 units and followed by `'...'`. It is never more than 53 units. |
| PostCard.CardBody | src/components/post/PostCard.jsx:68 | The body is shown whole when it has at most 100 code units. Otherwise it is cut after 100 units and followed by `'...'`. It is never more than 103 units. |
| PostCard.ShowReadMore | src/components/post/PostCard.jsx:71 | Defines the "Read more" condition: a non-empty body longer than 100 code units. `ReadMoreExactlyWhenCut` proves it holds exactly when the shown body was cut. |
| PostCard.ReadMoreExactlyWhenCut | src/components/post/PostCard.jsx:68-71 | "Read more" is shown exactly when the shown body is longer than 100 code units, that is when it was cut. Otherwise the body is shown whole. |
| ProductPage.HasId | src/views/pages/ProductPage.jsx:21 | Defines `product.id` being truthy: present and non-empty. `SaveProduct` states that it picks update over append. |
| ProductPage.IsComplete | src/views/pages/ProductPage.jsx:20 | Defines `product.name && product.price`: a non-empty name and a non-zero price. `SaveProduct` states that a save without it changes nothing. |
| ProductPage.ReplaceById | src/views/pages/ProductPage.jsx:23 | The update keeps the length, replaces every entry with the product's id by the product, and keeps every other entry. |
| ProductPage.ReplaceByIdKeepsIds | src/views/pages/ProductPage.jsx:23 | An update keeps every id at its position. |
| ProductPage.ReplaceByIdIdempotent | src/views/pages/ProductPage.jsx:23 | Saving the same update twice is saving it once. |
| ProductPage.RemoveProductById | src/views/pages/ProductPage.jsx:55 | The delete's filter: the result is no longer than the list, holds no entry with the id, and holds every entry with another id. `RemoveProductByIdSpec` adds order and multiplicities. |
| ProductPage.RemoveProductByIdSpec | src/views/pages/ProductPage.jsx:54-55 | After a delete no entry has that id. The other entries keep all their copies and their relative order. |
| ProductPage.ProductPage.constructor | src/views/pages/ProductPage.jsx:9-11 | The page starts with no products, a blank product and the dialog closed. |
| ProductPage.ProductPage.OpenNew | src/views/pages/ProductPage.jsx:14-17 | The product becomes blank and the dialog opens. The list is unchanged. |
| ProductPage.ProductPage.EditProduct | src/views/pages/ProductPage.jsx:49-52 | The product becomes a copy of the chosen one and the dialog opens. The list is unchanged. |
| ProductPage.ProductPage.SaveProduct | src/views/pages/ProductPage.jsx:19-47 | If the name or price is falsy (price 0 included), nothing changes and the dialog stays as it was. With an id, the list becomes the update by id. Without one, the product gets the new id and is appended at the end. A successful save closes the dialog. |
| ProductPage.ProductPage.DeleteProduct | src/views/pages/ProductPage.jsx:54-55 | The list loses every entry with that id. The product and dialog are unchanged. |

## Left out

- The HTTP client (`src/services/postsApi.js`, `src/services/productApi.js`) is not modelled. Its results, its errors and the `Date.now()` id of a created post are parameters of the fulfilled and rejected cases.
- `src/redux-toolkit/slices/productSlice.js` is not part of this model. It calls `createSlice` and `createAsyncThunk` without importing them, and its reducers refer to `getPosts` and `getPostById`, which it does not define.
- The async sequencing of the thunks is not modelled: cancellation, interleaving and unmounting. Each pending, fulfilled or rejected case is one atomic transition. `PostsSlice.ScenarioListCreate`, `PostsSlice.ScenarioRemove` and `PostsSlice.ScenarioFetchRemove` show one run of them, in three parts.
- Rendering, PrimeReact components, styles, toasts and the confirm dialog are not modelled. The toast shown after a product save or delete is not part of `SaveProduct` or `DeleteProduct`.
- The other pages and components are not modelled: login and routing, the table demo pages, the layout, the post detail dialog and its `formatDate`. They show data or depend on `localStorage`, the router or the locale.
- Strings from the server and the inputs are taken to be well-formed UTF-16. A lone surrogate cannot be written in a Dafny string, so such inputs are not modelled. Outputs that may hold one, such as a cut title, are modelled as code units.
- PostList.Lower: lowercases ASCII letters only, because full Unicode case mapping in `toLowerCase` is not modelled.
- PostList.SortPosts: the engine's own sort algorithm is replaced by an adjacent-swap insertion sort. That sort calls the comparator as written and swaps only when it answers 1. This answer agrees with the corrected comparator's (`PostList.CompareConsistent`). Only the result is claimed: sorted and a permutation. The order among posts with equal keys is not stated, and another algorithm given the inconsistent comparator may order them differently (see Findings).
- PostList.FilteredAndSortedPosts: `sortBy` is limited to the three keys the dropdown offers. Post fields are always present, so the comparator's `typeof` test is resolved per key.
- PostForm.UserIdFromInput: `parseInt` itself is not modelled; its result is a parameter (`None` for `NaN`).
- PostForm.InitForm: post fields are always present strings. So `post.title || ''` keeps the title as it is, and only the user id's `|| 1` has an effect.
- ProductPage.ProductPage.SaveProduct: products are values. The source mutates the dialog's `product` object in place and appends that same object, so the list and the dialog share it; that aliasing is not modelled. The random id is a parameter and may be any string.
- Unique post ids in `posts` are assumed by the design but not enforced by the store. A fulfilled create prepends whatever it is given. `PrependKeepsUniqueIds` states the condition under which uniqueness survives.

## Findings

| source | as written | input that shows it | evidently intended | confidence | as-written member | corrected member |
|---|---|---|---|---|---|---|
| src/components/post/PostList.jsx:66-80 | The sort comparator returns `1` or `-1` and never `0`, so two posts with equal keys each compare as "before" the other, and a post compares as "before" itself. The ECMAScript specification of `Array.prototype.sort` calls such a comparator inconsistent and leaves the resulting order implementation-defined. | Two posts of user 7 (ids 1 and 2), sorted by user id in either direction. | Answer 0 on equal keys, so that the sort is well defined and stable among equal keys. | medium, not executed | PostList.CompareAsWrittenInconsistent | PostList.CompareConsistent |
