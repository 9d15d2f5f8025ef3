/**
 * The stand-alone memo form (`MemoForm.tsx`): four text fields, and a
 * submit that stores a memo under a client-chosen id and clears the form.
 */
module MemoFormView {
  import opened MemoTypes
  import opened Text
  import opened Db
  import opened MemoDb

  /**
   * The memo a submit builds: the client-chosen id (the clock in
   * milliseconds), one timestamp for both creation and update, the hashtag
   * text split on commas and trimmed, and no comments.
   */
  function FormMemo(title: string, category: string, content: string, hashtagsText: string,
                    now: string, millis: int): (r: Memo)
    ensures r.id == Some(millis) && r.createdAt == now && r.updatedAt == now && r.comments == []
    ensures r.title == title && r.category == category && r.content == content
    ensures r.hashtags == SplitTags(hashtagsText)
    ensures |r.hashtags| == Occurrences(hashtagsText, ',') + 1
    ensures forall i :: 0 <= i < |r.hashtags| ==> ',' !in r.hashtags[i]
  {
    Memo(Some(millis), title, category, content, now, now, SplitTags(hashtagsText), [])
  }

  /**
   * The tags keep the comma-separated pieces: when no piece has white space
   * at its ends, joining the tags with commas gives back the text.
   */
  lemma {:induction false} TagsRejoin(text: string)
    requires forall i :: 0 <= i < |Split(text, ',')| ==> TrimmedAlready(Split(text, ',')[i])
    ensures Text.Join(SplitTags(text), ",") == text
  {
    var pieces := Split(text, ',');
    forall i | 0 <= i < |pieces| ensures Trim(pieces[i]) == pieces[i] {
      TrimUnchanged(pieces[i]);
    }
    assert SplitTags(text) == pieces;
    JoinSplit(text, ',');
  }

  /**
   * What a submit stores: nothing when the title is blank (`!title.trim()`),
   * otherwise the memo the fields describe.
   */
  function Submission(title: string, category: string, content: string, hashtagsText: string,
                      now: string, millis: int): (r: Option<Memo>)
    ensures r.Some? <==> !Blank(title)
    ensures r.Some? ==> r.value == FormMemo(title, category, content, hashtagsText, now, millis)
  {
    if Blank(title) then None else Some(FormMemo(title, category, content, hashtagsText, now, millis))
  }

  /** The form's four fields. */
  class MemoForm {
    var title: string
    var category: string
    var content: string
    var hashtags: string

    /** All four fields are empty. */
    predicate Cleared()
      reads this
    {
      title == "" && category == "" && content == "" && hashtags == ""
    }

    /** The first render: an empty form. */
    constructor ()
      ensures Cleared()
    {
      title := "";
      category := "";
      content := "";
      hashtags := "";
    }

    /** The four inputs' change handlers. */
    method SetFields(t: string, cat: string, con: string, tags: string)
      modifies this
      ensures title == t && category == cat && content == con && hashtags == tags
    {
      title := t;
      category := cat;
      content := con;
      hashtags := tags;
    }

    /**
     * `handleSubmit`: a title that is empty after trimming stops the submit
     * before any store call (category and content are not checked).
     * Otherwise the memo goes to `addMemo` under the id `millis`, all four
     * fields are cleared and `onMemoAdded` fires once, whether or not the
     * store took the memo.
     */
    method HandleSubmit(db: MemoAppDatabase, now: string, millis: int) returns (notified: bool)
      requires db.Valid()
      modifies this, db
      ensures db.Valid()
      ensures var sent := Submission(old(title), old(category), old(content), old(hashtags), now, millis);
        notified == sent.Some?
        && (notified ==> Cleared())
        && (!notified ==> title == old(title) && category == old(category) && content == old(content) && hashtags == old(hashtags))
        && (if notified && db.isOpen && millis !in old(db.memos) then
              db.memos == old(db.memos)[millis := sent.value] && db.memoKeyGen == Advance(old(db.memoKeyGen), millis)
            else
              db.memos == old(db.memos) && db.memoKeyGen == old(db.memoKeyGen))
      ensures db.comments == old(db.comments) && db.commentKeyGen == old(db.commentKeyGen)
    {
      var sent := Submission(title, category, content, hashtags, now, millis);
      if sent.None? {
        return false;
      }
      var _ := AddMemo(db, sent.value);
      title := "";
      category := "";
      content := "";
      hashtags := "";
      notified := true;
    }
  }
}
