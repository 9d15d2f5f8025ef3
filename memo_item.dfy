/**
 * One memo card (`MemoItem.tsx`): its open/edit state, the comment input,
 * the window of comments it shows, and the requests it sends to the page.
 * Each request the card sends up through a callback is an out-parameter.
 */
module MemoItemView {
  import opened MemoTypes
  import opened Text
  import opened Sorting

  /** How many more comments "more" reveals, and how many "less" goes back to. */
  const PageSize := 5

  /** The comment sort key: ascending id, a missing id counting as 0. */
  function CommentKey(c: MemoComment): int
  {
    IdOrZero(c.id)
  }

  /**
   * The comments the card lists: a sorted copy of `cs` (ascending id), cut
   * to its last `visible` entries by
   * `slice(n - visible < 0 ? 0 : n - visible, n)`. These are the
   * `min(visible, n)` comments with the highest ids, in ascending order.
   */
  function ShownComments(cs: seq<MemoComment>, visible: nat): (r: seq<MemoComment>)
    ensures |r| == (if visible < |cs| then visible else |cs|)
    ensures r == SortBy(cs, CommentKey)[|cs| - |r|..]
    ensures forall i, j :: 0 <= i < j < |r| ==> CommentKey(r[i]) <= CommentKey(r[j])
    ensures multiset(r) <= multiset(cs)
    ensures forall c, d :: c in r && d in cs && CommentKey(d) > CommentKey(c) ==> d in r
  {
    var start := if |cs| - visible < 0 then 0 else |cs| - visible;
    var w := SortBy(cs, CommentKey)[start..];
    WindowOfSorted(cs, start, w);
    w
  }

  /** The facts about one suffix of the sorted comments, gathered for `ShownComments`. */
  lemma WindowOfSorted(cs: seq<MemoComment>, start: nat, w: seq<MemoComment>)
    requires start <= |cs|
    requires w == SortBy(cs, CommentKey)[start..]
    ensures |w| == |cs| - start
    ensures forall i, j :: 0 <= i < j < |w| ==> CommentKey(w[i]) <= CommentKey(w[j])
    ensures multiset(w) <= multiset(cs)
    ensures forall c, d :: c in w && d in cs && CommentKey(d) > CommentKey(c) ==> d in w
  {
    var sorted := SortBy(cs, CommentKey);
    SuffixOfSorted(sorted, start);
    forall d | d in cs ensures d in sorted {
      assert d in multiset(cs);
    }
  }

  /**
   * A suffix of an ascending sequence is ascending, is part of it, and holds
   * everything in it whose key beats one of the suffix's elements.
   */
  lemma SuffixOfSorted(sorted: seq<MemoComment>, start: nat)
    requires start <= |sorted|
    requires SortedBy(sorted, CommentKey)
    ensures SortedBy(sorted[start..], CommentKey)
    ensures multiset(sorted[start..]) <= multiset(sorted)
    ensures forall c, d :: c in sorted[start..] && d in sorted && CommentKey(d) > CommentKey(c) ==> d in sorted[start..]
  {
    assert sorted == sorted[..start] + sorted[start..];
    forall c, d | c in sorted[start..] && d in sorted && CommentKey(d) > CommentKey(c) ensures d in sorted[start..] {
      HigherIsShown(sorted, start, c, d);
    }
  }

  /** In an ascending sequence, anything with a higher key than an element of a suffix lies in that suffix. */
  lemma HigherIsShown(sorted: seq<MemoComment>, start: nat, c: MemoComment, d: MemoComment)
    requires start <= |sorted|
    requires SortedBy(sorted, CommentKey)
    requires c in sorted[start..] && d in sorted && CommentKey(d) > CommentKey(c)
    ensures d in sorted[start..]
  {
    var p :| start <= p < |sorted| && sorted[p] == c;
    var q :| 0 <= q < |sorted| && sorted[q] == d;
    if q < start {
      assert false;
    }
    assert sorted[start..][q - start] == d;
  }

  /** `visibleCommentCount < memo.comments.length`: "more" is offered exactly when the window hides some comment. */
  function ShowMore(cs: seq<MemoComment>, visible: nat): (r: bool)
    ensures r <==> |ShownComments(cs, visible)| < |cs|
  {
    visible < |cs|
  }

  /**
   * `visibleCommentCount >= memo.comments.length && memo.comments.length > 5`:
   * "less" is offered exactly when the window shows every comment and there
   * are more than a page of them.
   */
  function ShowLess(cs: seq<MemoComment>, visible: nat): (r: bool)
    ensures r <==> ShownComments(cs, visible) == SortBy(cs, CommentKey) && |cs| > PageSize
  {
    visible >= |cs| && |cs| > PageSize
  }

  /** The two buttons are never offered together. */
  lemma ButtonsExclusive(cs: seq<MemoComment>, visible: nat)
    ensures !(ShowMore(cs, visible) && ShowLess(cs, visible))
  {
  }

  /**
   * `{...memo, title, content, category, updatedAt: now}`: the memo with
   * those four fields replaced and everything else (id, creation time,
   * hashtags, comments) kept.
   */
  function EditedMemo(memo: Memo, title: string, content: string, category: string, now: string): (r: Memo)
    ensures r.title == title && r.content == content && r.category == category && r.updatedAt == now
    ensures r.(title := memo.title, content := memo.content, category := memo.category, updatedAt := memo.updatedAt) == memo
  {
    memo.(title := title, content := content, category := category, updatedAt := now)
  }

  /** `{...memo, comments: memo.comments.map(c => c.id === updated.id ? updated : c)}` */
  function WithEditedComment(memo: Memo, updated: MemoComment): (r: Memo)
    ensures r.(comments := memo.comments) == memo
    ensures |r.comments| == |memo.comments|
    ensures forall i :: 0 <= i < |memo.comments| ==>
      r.comments[i] == (if memo.comments[i].id == updated.id then updated else memo.comments[i])
  {
    memo.(comments := ReplaceCommentIn(memo.comments, updated))
  }

  /** What `onAddComment(memo.id!, newComment)` carries up to the page. */
  datatype AddCommentRequest = AddCommentRequest(memoId: Option<int>, content: string)

  /** What `onDeleteComment(commentId, memo.id!)` carries up to the page. */
  datatype DeleteCommentRequest = DeleteCommentRequest(commentId: Option<int>, memoId: Option<int>)

  /** The card's state; `memo` is the prop the page passes in. */
  class MemoItem {
    var memo: Memo
    var isOpen: bool
    var isCommentsOpen: bool
    var newComment: string
    var isEditing: bool
    var newTitle: string
    var newContent: string
    var newCategory: string
    var visibleCommentCount: nat

    /** The comment window is always a positive whole number of pages. */
    predicate Valid()
      reads this
    {
      visibleCommentCount >= PageSize && visibleCommentCount % PageSize == 0
    }

    /** The first render: closed, not editing, the edit fields copied from the memo, one page of comments. */
    constructor (m: Memo)
      ensures Valid()
      ensures memo == m && !isOpen && !isCommentsOpen && newComment == "" && !isEditing
      ensures newTitle == m.title && newContent == m.content && newCategory == m.category
      ensures visibleCommentCount == PageSize
    {
      memo := m;
      isOpen := false;
      isCommentsOpen := false;
      newComment := "";
      isEditing := false;
      newTitle := m.title;
      newContent := m.content;
      newCategory := m.category;
      visibleCommentCount := PageSize;
    }

    /**
     * A re-render with a new `memo` prop: the card keeps its own state, so
     * the edit fields still hold what they were first set from.
     */
    method ReceiveMemo(m: Memo)
      modifies this`memo
      ensures memo == m
    {
      memo := m;
    }

    /** The comments the card currently lists. */
    function Shown(): (r: seq<MemoComment>)
      reads this
      requires Valid()
      ensures |r| <= visibleCommentCount && |r| <= |memo.comments|
      ensures |r| == |memo.comments| <==> !ShowMore(memo.comments, visibleCommentCount)
    {
      ShownComments(memo.comments, visibleCommentCount)
    }

    /** `toggleContent`. */
    method ToggleContent()
      modifies this`isOpen
      ensures isOpen == !old(isOpen)
    {
      isOpen := !isOpen;
    }

    /** `toggleComments`. */
    method ToggleComments()
      modifies this`isCommentsOpen
      ensures isCommentsOpen == !old(isCommentsOpen)
    {
      isCommentsOpen := !isCommentsOpen;
    }

    /** `handleLoadMoreComments`: one more page; the window stays a whole number of pages. */
    method LoadMore()
      requires Valid()
      modifies this`visibleCommentCount
      ensures Valid()
      ensures visibleCommentCount == old(visibleCommentCount) + PageSize
    {
      visibleCommentCount := visibleCommentCount + PageSize;
    }

    /** `handleLoadLessComments`: back to one page. */
    method LoadLess()
      requires Valid()
      modifies this`visibleCommentCount
      ensures Valid()
      ensures visibleCommentCount == PageSize
    {
      visibleCommentCount := PageSize;
    }

    /** The edit button: shows the edit form. */
    method StartEditing()
      modifies this`isEditing
      ensures isEditing
    {
      isEditing := true;
    }

    /** The edit form's title input. */
    method SetNewTitle(text: string)
      modifies this`newTitle
      ensures newTitle == text
    {
      newTitle := text;
    }

    /** The edit form's content text area. */
    method SetNewContent(text: string)
      modifies this`newContent
      ensures newContent == text
    {
      newContent := text;
    }

    /** The edit form's category input. */
    method SetNewCategory(text: string)
      modifies this`newCategory
      ensures newCategory == text
    {
      newCategory := text;
    }

    /** The edit form's cancel button: the form closes and the typed fields stay as they are. */
    method CancelEditing()
      modifies this`isEditing
      ensures !isEditing
    {
      isEditing := false;
    }

    /**
     * `handleEditMemo`: sends the memo with the edited title, content and
     * category (and `now` as its update time) up through `onEdit`, closes
     * the edit form and toggles the card.
     */
    method HandleEditMemo(now: string) returns (updated: Memo)
      modifies this`isEditing, this`isOpen
      ensures updated == EditedMemo(memo, newTitle, newContent, newCategory, now)
      ensures updated.id == memo.id && updated.createdAt == memo.createdAt
      ensures updated.hashtags == memo.hashtags && updated.comments == memo.comments
      ensures !isEditing && isOpen == !old(isOpen)
    {
      updated := EditedMemo(memo, newTitle, newContent, newCategory, now);
      isEditing := false;
      isOpen := !isOpen;
    }

    /** The comment input's change handler. */
    method SetNewComment(text: string)
      modifies this`newComment
      ensures newComment == text
    {
      newComment := text;
    }

    /**
     * `handleAddComment`: when the input holds something besides white
     * space, sends the untrimmed text with this memo's id up through
     * `onAddComment` and clears the input; otherwise sends nothing.
     */
    method HandleAddComment() returns (request: Option<AddCommentRequest>)
      modifies this`newComment
      ensures request.Some? <==> Trim(old(newComment)) != []
      ensures request.Some? ==> request.value == AddCommentRequest(memo.id, old(newComment)) && newComment == ""
      ensures request.None? ==> newComment == old(newComment)
      ensures request.None? ==> Blank(newComment)
    {
      if Trim(newComment) != [] {
        request := Some(AddCommentRequest(memo.id, newComment));
        newComment := "";
      } else {
        request := None;
      }
    }

    /**
     * `handleDeleteComment`: with the user's confirmation, sends the comment
     * id and this memo's id up through `onDeleteComment`.
     */
    method HandleDeleteComment(commentId: Option<int>, confirmed: bool) returns (request: Option<DeleteCommentRequest>)
      ensures request.Some? <==> confirmed
      ensures request.Some? ==> request.value == DeleteCommentRequest(commentId, memo.id)
    {
      request := if confirmed then Some(DeleteCommentRequest(commentId, memo.id)) else None;
    }

    /** `handleDeleteMemo`: sends this memo's id up through `onDelete`. */
    method HandleDeleteMemo() returns (memoId: Option<int>)
      ensures memoId == memo.id
    {
      memoId := memo.id;
    }

    /**
     * `handleEditComment`: sends the memo with that comment replaced up
     * through `onEdit`, the memo-update path, since the card never takes the
     * page's `onEditComment`.
     */
    method HandleEditComment(updated: MemoComment) returns (edited: Memo)
      ensures edited == WithEditedComment(memo, updated)
      ensures edited.id == memo.id && |edited.comments| == |memo.comments|
      ensures forall c :: c in memo.comments && c.id == updated.id ==> updated in edited.comments
      ensures forall c :: c in edited.comments ==> c == updated || c in memo.comments
    {
      edited := WithEditedComment(memo, updated);
      forall c | c in memo.comments && c.id == updated.id ensures updated in edited.comments {
        var i :| 0 <= i < |memo.comments| && memo.comments[i] == c;
        assert edited.comments[i] == updated;
      }
    }
  }
}
