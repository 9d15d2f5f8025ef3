/**
 * One comment (`CommentItem.tsx`): a two-state editor (viewing, editing)
 * over a draft of the comment's text, and the edit and delete requests it
 * sends up to its memo card.
 */
module CommentItemView {
  import opened MemoTypes
  import opened MemoItemView

  /**
   * What saving the draft sends up: nothing when the draft equals the
   * comment's text, otherwise the comment with the draft as its content and
   * `now` as its update time, everything else kept.
   */
  function SavedComment(comment: MemoComment, draft: string, now: string): (r: Option<MemoComment>)
    ensures r.Some? <==> draft != comment.content
    ensures r.Some? ==> r.value.content == draft && r.value.updatedAt == now
    ensures r.Some? ==> r.value.id == comment.id && r.value.memoId == comment.memoId && r.value.createdAt == comment.createdAt
    ensures r.Some? ==> r.value != comment
  {
    if draft != comment.content then Some(comment.(content := draft, updatedAt := now)) else None
  }

  /**
   * A saved edit reaches the memo: the card puts the edited comment in the
   * place of the original, so that position then holds the draft text.
   */
  lemma SavedEditReplacesComment(memo: Memo, i: int, draft: string, now: string)
    requires 0 <= i < |memo.comments|
    requires draft != memo.comments[i].content
    ensures var saved := SavedComment(memo.comments[i], draft, now);
      saved.Some? && WithEditedComment(memo, saved.value).comments[i] == saved.value
      && WithEditedComment(memo, saved.value).comments[i].content == draft
  {
  }

  /**
   * Once a saved edit comes back as the new prop, the draft equals the
   * comment's text, so saving again without typing sends nothing.
   */
  lemma ResaveSendsNothing(comment: MemoComment, draft: string, now: string, later: string)
    requires SavedComment(comment, draft, now).Some?
    ensures SavedComment(SavedComment(comment, draft, now).value, draft, later).None?
  {
  }

  /** The comment's state; `comment` is the prop the card passes in. */
  class CommentItem {
    var comment: MemoComment
    var isEditing: bool
    var editedContent: string

    /** The first render: not editing, the draft equal to the comment's text. */
    constructor (c: MemoComment)
      ensures comment == c && !isEditing && editedContent == c.content
    {
      comment := c;
      isEditing := false;
      editedContent := c.content;
    }

    /**
     * A re-render with a new `comment` prop: the card keys each comment by
     * its id, so the same instance gets the new record and keeps its own
     * state, the draft included.
     */
    method ReceiveComment(c: MemoComment)
      modifies this`comment
      ensures comment == c
    {
      comment := c;
    }

    /** The edit button. */
    method StartEditing()
      modifies this`isEditing
      ensures isEditing
    {
      isEditing := true;
    }

    /** `handleEditChange`: the draft follows the text area. */
    method HandleEditChange(text: string)
      modifies this`editedContent
      ensures editedContent == text
    {
      editedContent := text;
    }

    /**
     * `handleSaveEdit`: sends the edited comment up through `onEdit` only
     * when the draft differs from the comment's text, and ends editing
     * either way. The draft is left as it is.
     */
    method HandleSaveEdit(now: string) returns (sent: Option<MemoComment>)
      modifies this`isEditing
      ensures sent == SavedComment(comment, editedContent, now)
      ensures sent.Some? <==> editedContent != comment.content
      ensures !isEditing
    {
      sent := SavedComment(comment, editedContent, now);
      isEditing := false;
    }

    /** `handleCancelEdit`: ends editing and puts the comment's text back into the draft. */
    method HandleCancelEdit()
      modifies this`isEditing, this`editedContent
      ensures !isEditing && editedContent == comment.content
    {
      isEditing := false;
      editedContent := comment.content;
    }

    /**
     * `handleDelete`: with the user's confirmation, sends this comment's own
     * id up through `onDelete`; without it, sends nothing.
     */
    method HandleDelete(confirmed: bool) returns (sent: Option<Option<int>>)
      ensures sent.Some? <==> confirmed
      ensures sent.Some? ==> sent.value == comment.id
    {
      sent := if confirmed then Some(comment.id) else None;
    }
  }
}
