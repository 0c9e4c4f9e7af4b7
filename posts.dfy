/** The records that the post components and the posts store exchange. */
module Posts {

  /** A post as the remote resource returns it; `id` is its identity. */
  datatype Post = Post(id: int, title: string, body: string, userId: int)

  /** The body of a create or update request: a post without its id. */
  datatype PostData = PostData(title: string, body: string, userId: int)

  /** The ids of `s`, position by position. */
  function Ids(s: seq<Post>): (r: seq<int>)
    ensures |r| == |s| && forall i :: 0 <= i < |s| ==> r[i] == s[i].id
  {
    seq(|s|, i requires 0 <= i < |s| => s[i].id)
  }

  /** No two posts of `s` share an id. */
  predicate UniqueIds(s: seq<Post>)
  {
    forall i, j :: 0 <= i < j < |s| ==> s[i].id != s[j].id
  }
}
