/**
 * The posts store: the state the posts slice keeps, and the reducer cases that
 * the five asynchronous commands (list, get by id, create, edit, remove) drive
 * through their pending, fulfilled and rejected phases. Each reducer case is one
 * atomic transition of a `PostsStore` object.
 */
module PostsSlice {
  import opened Wrappers
  import opened Posts
  import Seqs

  /** The keys of `operationLoading`, one per command other than the list fetch. */
  datatype OpKind = Create | Update | Delete | FetchById

  /** The four per-operation loading flags. */
  datatype OperationLoading = OperationLoading(create: bool, update: bool, delete: bool, fetchById: bool)
  {
    /** `operationLoading[kind]` */
    function Get(kind: OpKind): bool
    {
      match kind
      case Create => create
      case Update => update
      case Delete => delete
      case FetchById => fetchById
    }

    /** The flags after `operationLoading[kind] = v`: that flag is `v`, the others are as before. */
    function Set(kind: OpKind, v: bool): (r: OperationLoading)
      ensures r.Get(kind) == v
      ensures forall other :: other != kind ==> r.Get(other) == Get(other)
    {
      match kind
      case Create => this.(create := v)
      case Update => this.(update := v)
      case Delete => this.(delete := v)
      case FetchById => this.(fetchById := v)
    }
  }

  const NothingLoading := OperationLoading(false, false, false, false)

  /** The five asynchronous commands (thunks) of the slice. */
  datatype Command = GetPosts | GetPostById | AddPost | EditPost | RemovePost

  /**
   * The `operationType` the pending and rejected cases of `cmd` pass to their
   * helper: `None` (the source's `null`) selects the global `loading` flag.
   */
  function OperationType(cmd: Command): (op: Option<OpKind>)
    ensures op == None <==> cmd == GetPosts
  {
    match cmd
    case GetPosts => None
    case GetPostById => Some(FetchById)
    case AddPost => Some(Create)
    case EditPost => Some(Update)
    case RemovePost => Some(Delete)
  }

  /** Every command has a flag of its own. */
  lemma OperationTypeInjective(c1: Command, c2: Command)
    requires OperationType(c1) == OperationType(c2)
    ensures c1 == c2
  {
  }

  /**
   * A failed request as a thunk's `catch` sees it: the `message` of the server's
   * error payload, when the response carried one, and the transport error's own
   * `message`.
   */
  datatype RequestError = RequestError(responseMessage: Option<string>, message: string)

  /**
   * The value every thunk rejects with: the server's message when it is present
   * and non-empty (JavaScript's `||` skips an empty string), otherwise the
   * transport error's message.
   */
  function RejectionMessage(e: RequestError): (m: string)
    ensures m == e.message || e.responseMessage == Some(m)
    ensures e.responseMessage.Some? && e.responseMessage.value != "" ==> e.responseMessage == Some(m)
    ensures (e.responseMessage.None? || e.responseMessage.value == "") ==> m == e.message
    ensures m == "" ==> e.message == "" && (e.responseMessage.None? || e.responseMessage.value == "")
  {
    match e.responseMessage
    case Some(server) => if server != "" then server else e.message
    case None => e.message
  }

  /**
   * `posts` after an edit is fulfilled with `p`: the first post whose id is
   * `p.id` is replaced by `p` in place; without such a post nothing changes.
   */
  function ReplaceFirstById(s: seq<Post>, p: Post): (r: seq<Post>)
    ensures |r| == |s|
  {
    if s == [] then []
    else if s[0].id == p.id then [p] + s[1..]
    else [s[0]] + ReplaceFirstById(s[1..], p)
  }

  /** `posts` after a remove of `id` is fulfilled: every post with that id is dropped. */
  function RemoveById(s: seq<Post>, id: int): (r: seq<Post>)
    ensures |r| <= |s|
    ensures forall i :: 0 <= i < |r| ==> r[i].id != id && r[i] in s
    ensures forall q :: q in s && q.id != id ==> q in r
  {
    Seqs.Filter(s, (q: Post) => q.id != id)
  }

  /** The linear scan of `findIndex`: the first index whose post has id `id`, or -1. */
  method FindIndexById(s: seq<Post>, id: int) returns (index: int)
    ensures -1 <= index < |s|
    ensures index == -1 <==> forall i :: 0 <= i < |s| ==> s[i].id != id
    ensures index != -1 ==> s[index].id == id && forall i :: 0 <= i < index ==> s[i].id != id
  {
    var i := 0;
    while i < |s|
      invariant 0 <= i <= |s|
      invariant forall k :: 0 <= k < i ==> s[k].id != id
    {
      if s[i].id == id {
        return i;
      }
      i := i + 1;
    }
    return -1;
  }

  /** Writing `p` at the first index whose id is `p.id` is `ReplaceFirstById`. */
  lemma {:induction false} ReplaceFirstByIdAt(s: seq<Post>, p: Post, index: nat)
    requires index < |s| && s[index].id == p.id
    requires forall i :: 0 <= i < index ==> s[i].id != p.id
    ensures ReplaceFirstById(s, p) == s[index := p]
  {
    if index > 0 {
      ReplaceFirstByIdAt(s[1..], p, index - 1);
      assert s[index := p] == [s[0]] + s[1..][index - 1 := p];
    }
  }

  /** With no post of id `p.id`, an edit leaves `posts` as it was. */
  lemma {:induction false} ReplaceFirstByIdAbsent(s: seq<Post>, p: Post)
    requires forall i :: 0 <= i < |s| ==> s[i].id != p.id
    ensures ReplaceFirstById(s, p) == s
  {
    if s != [] {
      ReplaceFirstByIdAbsent(s[1..], p);
    }
  }

  /** An edit never changes which id sits at which position. */
  lemma {:induction false} ReplaceFirstByIdKeepsIds(s: seq<Post>, p: Post)
    ensures Ids(ReplaceFirstById(s, p)) == Ids(s)
  {
    if s != [] {
      ReplaceFirstByIdKeepsIds(s[1..], p);
      assert Ids(ReplaceFirstById(s[1..], p)) == Ids(s[1..]);
      var r := ReplaceFirstById(s, p);
      forall i | 1 <= i < |s| ensures r[i].id == s[i].id {
        assert Ids(ReplaceFirstById(s[1..], p))[i - 1] == Ids(s[1..])[i - 1];
      }
    }
  }

  /** Applying the same fulfilled edit twice is the same as applying it once. */
  lemma {:induction false} ReplaceFirstByIdIdempotent(s: seq<Post>, p: Post)
    ensures ReplaceFirstById(ReplaceFirstById(s, p), p) == ReplaceFirstById(s, p)
  {
    if s != [] {
      if s[0].id == p.id {
        assert ReplaceFirstById(s, p)[1..] == s[1..];
      } else {
        ReplaceFirstByIdIdempotent(s[1..], p);
        assert ReplaceFirstById(s, p)[1..] == ReplaceFirstById(s[1..], p);
      }
    }
  }

  /**
   * A remove keeps exactly the posts with another id: it keeps their relative
   * order and every copy of each, and no post with the removed id remains.
   */
  lemma RemoveByIdSpec(s: seq<Post>, id: int)
    ensures forall q :: q in RemoveById(s, id) ==> q.id != id
    ensures Seqs.IsSubsequence(RemoveById(s, id), s)
    ensures forall q :: multiset(RemoveById(s, id))[q] == if q.id != id then multiset(s)[q] else 0
  {
    var keep := (q: Post) => q.id != id;
    Seqs.FilterIsSubsequence(s, keep);
    forall q ensures multiset(RemoveById(s, id))[q] == if q.id != id then multiset(s)[q] else 0 {
      Seqs.FilterMultiset(s, keep, q);
    }
  }

  /** Removing from a list with a known head: the head stays exactly when its id differs. */
  lemma RemoveByIdCons(q: Post, s: seq<Post>, id: int)
    ensures RemoveById([q] + s, id) == (if q.id != id then [q] else []) + RemoveById(s, id)
  {
    assert ([q] + s)[1..] == s;
  }

  /**
   * The race between a remove and an edit of the same post: once the remove is
   * fulfilled, a later fulfilled edit finds nothing to replace.
   */
  lemma RemoveThenEdit(s: seq<Post>, p: Post)
    ensures ReplaceFirstById(RemoveById(s, p.id), p) == RemoveById(s, p.id)
  {
    var r := RemoveById(s, p.id);
    forall i | 0 <= i < |r| ensures r[i].id != p.id {
      assert r[i] in r;
    }
    ReplaceFirstByIdAbsent(r, p);
  }

  /** Prepending a post whose id is not yet listed keeps ids unique. */
  lemma PrependKeepsUniqueIds(s: seq<Post>, p: Post)
    requires UniqueIds(s) && p.id !in Ids(s)
    ensures UniqueIds([p] + s)
  {
    var r := [p] + s;
    forall i, j | 0 <= i < j < |r| ensures r[i].id != r[j].id {
      if i == 0 {
        assert Ids(s)[j - 1] == s[j - 1].id;
      } else {
        assert r[i] == s[i - 1] && r[j] == s[j - 1];
      }
    }
  }

  /** An edit keeps ids unique. */
  lemma EditKeepsUniqueIds(s: seq<Post>, p: Post)
    requires UniqueIds(s)
    ensures UniqueIds(ReplaceFirstById(s, p))
  {
    ReplaceFirstByIdKeepsIds(s, p);
    var r := ReplaceFirstById(s, p);
    forall i, j | 0 <= i < j < |r| ensures r[i].id != r[j].id {
      assert Ids(r)[i] == Ids(s)[i] && Ids(r)[j] == Ids(s)[j];
    }
  }

  /** A remove keeps ids unique. */
  lemma RemoveKeepsUniqueIds(s: seq<Post>, id: int)
    requires UniqueIds(s)
    ensures UniqueIds(RemoveById(s, id))
  {
    RemoveByIdSpec(s, id);
    SubsequenceKeepsUniqueIds(RemoveById(s, id), s);
  }

  /** A subsequence of a list with unique ids has unique ids. */
  lemma {:induction false} SubsequenceKeepsUniqueIds(r: seq<Post>, s: seq<Post>)
    requires UniqueIds(s) && Seqs.IsSubsequence(r, s)
    ensures UniqueIds(r)
  {
    if r != [] && s != [] {
      assert UniqueIds(s[1..]) by {
        forall i, j | 0 <= i < j < |s[1..]| ensures s[1..][i].id != s[1..][j].id {
          assert s[1..][i] == s[i + 1] && s[1..][j] == s[j + 1];
        }
      }
      if r[0] == s[0] {
        SubsequenceKeepsUniqueIds(r[1..], s[1..]);
        SubsequenceElements(r[1..], s[1..]);
        forall j | 0 < j < |r| ensures r[0].id != r[j].id {
          assert r[1..][j - 1] in s[1..];
          var k :| 0 <= k < |s[1..]| && s[1..][k] == r[j];
          assert s[k + 1] == r[j];
        }
      } else {
        SubsequenceKeepsUniqueIds(r, s[1..]);
      }
    }
  }

  /** Every element of a subsequence is an element of the sequence. */
  lemma {:induction false} SubsequenceElements(r: seq<Post>, s: seq<Post>)
    requires Seqs.IsSubsequence(r, s)
    ensures forall q :: q in r ==> q in s
  {
    if r != [] && s != [] {
      if r[0] == s[0] {
        SubsequenceElements(r[1..], s[1..]);
        assert r == [r[0]] + r[1..];
      } else {
        SubsequenceElements(r, s[1..]);
      }
    }
  }

  /** The state of the posts slice. */
  class PostsStore {
    var posts: seq<Post>
    var currentPost: Option<Post>
    var loading: bool
    var error: Option<string>
    var operationLoading: OperationLoading

    /** Whether the flag that `cmd`'s pending case raises is set. */
    function InFlight(cmd: Command): bool
      reads this
    {
      match OperationType(cmd)
      case None => loading
      case Some(kind) => operationLoading.Get(kind)
    }

    /** The initial state: no posts, no current post, nothing loading, no error. */
    constructor ()
      ensures posts == [] && currentPost == None && error == None
      ensures !loading && operationLoading == NothingLoading
      ensures forall cmd :: !InFlight(cmd)
    {
      posts := [];
      currentPost := None;
      loading := false;
      error := None;
      operationLoading := NothingLoading;
    }

    /** `clearError`: only `error` changes. */
    method ClearError()
      modifies this
      ensures error == None
      ensures posts == old(posts) && currentPost == old(currentPost)
      ensures loading == old(loading) && operationLoading == old(operationLoading)
    {
      error := None;
    }

    /** `clearCurrentPost`: only `currentPost` changes. */
    method ClearCurrentPost()
      modifies this
      ensures currentPost == None
      ensures posts == old(posts) && error == old(error)
      ensures loading == old(loading) && operationLoading == old(operationLoading)
    {
      currentPost := None;
    }

    /** `setCurrentPost`: only `currentPost` changes; the payload may be `null`. */
    method SetCurrentPost(payload: Option<Post>)
      modifies this
      ensures currentPost == payload
      ensures posts == old(posts) && error == old(error)
      ensures loading == old(loading) && operationLoading == old(operationLoading)
    {
      currentPost := payload;
    }

    /** `handlePending`: raise the one selected flag and clear the error. */
    method HandlePending(operationType: Option<OpKind>)
      modifies this
      ensures error == None
      ensures operationType.None? ==> loading && operationLoading == old(operationLoading)
      ensures operationType.Some? ==>
        loading == old(loading) && operationLoading == old(operationLoading).Set(operationType.value, true)
      ensures posts == old(posts) && currentPost == old(currentPost)
    {
      if operationType.Some? {
        operationLoading := operationLoading.Set(operationType.value, true);
      } else {
        loading := true;
      }
      error := None;
    }

    /** `handleRejected`: lower the one selected flag and record the rejection value. */
    method HandleRejected(operationType: Option<OpKind>, payload: string)
      modifies this
      ensures error == Some(payload)
      ensures operationType.None? ==> !loading && operationLoading == old(operationLoading)
      ensures operationType.Some? ==>
        loading == old(loading) && operationLoading == old(operationLoading).Set(operationType.value, false)
      ensures posts == old(posts) && currentPost == old(currentPost)
    {
      if operationType.Some? {
        operationLoading := operationLoading.Set(operationType.value, false);
      } else {
        loading := false;
      }
      error := Some(payload);
    }

    /**
     * The pending case of any command: exactly its own flag goes up, the error
     * is cleared, and the posts and the current post are untouched.
     */
    method Pending(cmd: Command)
      modifies this
      ensures InFlight(cmd) && error == None
      ensures forall other :: other != cmd ==> InFlight(other) == old(InFlight(other))
      ensures posts == old(posts) && currentPost == old(currentPost)
    {
      HandlePending(OperationType(cmd));
      forall other | other != cmd ensures InFlight(other) == old(InFlight(other)) {
        if OperationType(other) == OperationType(cmd) {
          OperationTypeInjective(other, cmd);
        }
      }
    }

    /**
     * The rejected case of any command: exactly its own flag goes down and the
     * error holds the rejection value; a failed refresh keeps the stale list.
     */
    method Rejected(cmd: Command, payload: string)
      modifies this
      ensures !InFlight(cmd) && error == Some(payload)
      ensures forall other :: other != cmd ==> InFlight(other) == old(InFlight(other))
      ensures posts == old(posts) && currentPost == old(currentPost)
    {
      HandleRejected(OperationType(cmd), payload);
      forall other | other != cmd ensures InFlight(other) == old(InFlight(other)) {
        if OperationType(other) == OperationType(cmd) {
          OperationTypeInjective(other, cmd);
        }
      }
    }

    /** `getPosts.fulfilled`: the list is replaced by the payload and `loading` drops. */
    method GetPostsFulfilled(payload: seq<Post>)
      modifies this
      ensures posts == payload && !loading
      ensures currentPost == old(currentPost) && error == old(error)
      ensures operationLoading == old(operationLoading)
    {
      loading := false;
      posts := payload;
    }

    /** `getPostById.fulfilled`: the payload becomes the current post and `fetchById` drops. */
    method GetPostByIdFulfilled(payload: Post)
      modifies this
      ensures currentPost == Some(payload)
      ensures operationLoading == old(operationLoading).Set(FetchById, false)
      ensures posts == old(posts) && loading == old(loading) && error == old(error)
    {
      operationLoading := operationLoading.Set(FetchById, false);
      currentPost := Some(payload);
    }

    /** `addPost.fulfilled`: the new post goes in front of the old list and `create` drops. */
    method AddPostFulfilled(payload: Post)
      modifies this
      ensures posts == [payload] + old(posts)
      ensures operationLoading == old(operationLoading).Set(Create, false)
      ensures currentPost == old(currentPost) && loading == old(loading) && error == old(error)
    {
      operationLoading := operationLoading.Set(Create, false);
      posts := [payload] + posts;
    }

    /**
     * `editPost.fulfilled`: the first post with the payload's id is replaced in
     * place, the current post is replaced when its id matches, and `update` drops.
     */
    method EditPostFulfilled(payload: Post)
      modifies this
      ensures posts == ReplaceFirstById(old(posts), payload)
      ensures currentPost ==
        if old(currentPost).Some? && old(currentPost).value.id == payload.id then Some(payload) else old(currentPost)
      ensures operationLoading == old(operationLoading).Set(Update, false)
      ensures loading == old(loading) && error == old(error)
    {
      operationLoading := operationLoading.Set(Update, false);
      var index := FindIndexById(posts, payload.id);
      if index != -1 {
        ReplaceFirstByIdAt(posts, payload, index);
        posts := posts[index := payload];
      } else {
        ReplaceFirstByIdAbsent(posts, payload);
      }
      if currentPost.Some? && currentPost.value.id == payload.id {
        currentPost := Some(payload);
      }
    }

    /**
     * `removePost.fulfilled`: every post with the removed id is dropped, the
     * current post is cleared when its id matches, and `delete` drops.
     */
    method RemovePostFulfilled(id: int)
      modifies this
      ensures posts == RemoveById(old(posts), id)
      ensures currentPost == if old(currentPost).Some? && old(currentPost).value.id == id then None else old(currentPost)
      ensures operationLoading == old(operationLoading).Set(Delete, false)
      ensures loading == old(loading) && error == old(error)
    {
      operationLoading := operationLoading.Set(Delete, false);
      posts := RemoveById(posts, id);
      if currentPost.Some? && currentPost.value.id == id {
        currentPost := None;
      }
    }
  }

  /**
   * A run of the store: list two posts, then create one whose id the server
   * synthesised as 1000; it goes in front.
   */
  method ScenarioListCreate(p1: Post, p2: Post, created: Post)
    requires p1.id == 1 && p2.id == 2 && created.id == 1000
  {
    var store := new PostsStore();
    store.Pending(GetPosts);
    store.GetPostsFulfilled([p1, p2]);
    assert store.posts == [p1, p2] && !store.InFlight(GetPosts);
    store.Pending(AddPost);
    store.AddPostFulfilled(created);
    assert store.posts == [created, p1, p2] && !store.InFlight(AddPost);
  }

  /** The run continued: with posts 1000, 1 and 2 listed, remove post 1. */
  method ScenarioRemove(p1: Post, p2: Post, created: Post)
    requires p1.id == 1 && p2.id == 2 && created.id == 1000
  {
    RemoveByIdCons(created, [p1, p2], 1);
    RemoveByIdCons(p1, [p2], 1);
    RemoveByIdCons(p2, [], 1);

    var store := new PostsStore();
    store.GetPostsFulfilled([created, p1, p2]);
    store.Pending(RemovePost);
    store.RemovePostFulfilled(1);
    assert store.posts == [created, p2] && !store.InFlight(RemovePost);
  }

  /**
   * The run continued: with posts 1000 and 2 listed, fetch post 2 and remove
   * it; the current post is cleared with it.
   */
  method ScenarioFetchRemove(p2: Post, created: Post)
    requires p2.id == 2 && created.id == 1000
  {
    RemoveByIdCons(created, [p2], 2);
    RemoveByIdCons(p2, [], 2);

    var store := new PostsStore();
    store.GetPostsFulfilled([created, p2]);
    store.Pending(GetPostById);
    store.GetPostByIdFulfilled(p2);
    assert store.currentPost == Some(p2);
    store.Pending(RemovePost);
    store.RemovePostFulfilled(2);
    assert store.currentPost == None && store.posts == [created];
  }
}
