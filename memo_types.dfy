/** Record shapes shared by the store, the repository and the views. */
module MemoTypes {

  /** An optional value; `None` stands for a property that is absent (`undefined`). */
  datatype Option<+T> = None | Some(value: T)

  /**
   * A comment. `id` is absent until the comments table assigns one; `memoId`
   * always names the memo the comment belongs to. Timestamps are ISO-8601
   * strings that the model treats as opaque.
   */
  datatype MemoComment = MemoComment(
    id: Option<int>,
    memoId: int,
    content: string,
    createdAt: string,
    updatedAt: string)

  /**
   * A memo. `id` is absent until the memos table assigns one; `hashtags` and
   * `comments` are ordered sequences.
   */
  datatype Memo = Memo(
    id: Option<int>,
    title: string,
    category: string,
    content: string,
    createdAt: string,
    updatedAt: string,
    hashtags: seq<string>,
    comments: seq<MemoComment>)

  /** `id ?? 0`: the sort key both list views use, a missing id counting as 0. */
  function IdOrZero(id: Option<int>): int
  {
    match id
    case Some(k) => k
    case None => 0
  }

  /** Every memo has an id and the ids strictly ascend: the order a cursor over the memos table gives. */
  predicate MemoIdsAscending(ms: seq<Memo>)
  {
    (forall i :: 0 <= i < |ms| ==> ms[i].id.Some?) &&
    (forall i, j :: 0 <= i < j < |ms| ==> IdOrZero(ms[i].id) < IdOrZero(ms[j].id))
  }

  /** Every comment has an id and the ids strictly ascend. */
  predicate CommentIdsAscending(cs: seq<MemoComment>)
  {
    (forall i :: 0 <= i < |cs| ==> cs[i].id.Some?) &&
    (forall i, j :: 0 <= i < j < |cs| ==> IdOrZero(cs[i].id) < IdOrZero(cs[j].id))
  }

  /**
   * `comments.map(c => c.id === updated.id ? updated : c)`: every comment
   * whose id equals `updated.id` (two missing ids count as equal) is replaced
   * by `updated`; the others stay as they are, in place.
   */
  function ReplaceCommentIn(cs: seq<MemoComment>, updated: MemoComment): (r: seq<MemoComment>)
    ensures |r| == |cs|
    ensures forall i :: 0 <= i < |cs| && cs[i].id == updated.id ==> r[i] == updated
    ensures forall i :: 0 <= i < |cs| && cs[i].id != updated.id ==> r[i] == cs[i]
  {
    if cs == [] then []
    else [if cs[0].id == updated.id then updated else cs[0]] + ReplaceCommentIn(cs[1..], updated)
  }

  /**
   * `comments.filter(c => c.id !== commentId)`: the comments with another
   * id, in their original order. An undefined `commentId` drops every
   * comment that has no id.
   */
  function WithoutComment(cs: seq<MemoComment>, commentId: Option<int>): (r: seq<MemoComment>)
    ensures |r| <= |cs|
    ensures forall c :: c in r <==> c in cs && c.id != commentId
  {
    if cs == [] then []
    else
      assert forall c :: c in cs <==> c == cs[0] || c in cs[1..];
      (if cs[0].id != commentId then [cs[0]] else []) + WithoutComment(cs[1..], commentId)
  }

  /**
   * The filter distributes over concatenation, so the kept comments stay in
   * their order and each occurrence is kept.
   */
  lemma {:induction false} WithoutCommentConcat(a: seq<MemoComment>, b: seq<MemoComment>, commentId: Option<int>)
    ensures WithoutComment(a + b, commentId) == WithoutComment(a, commentId) + WithoutComment(b, commentId)
  {
    if a != [] {
      assert (a + b)[1..] == a[1..] + b;
      WithoutCommentConcat(a[1..], b, commentId);
    } else {
      assert a + b == b;
    }
  }
}
