/**
 * The memo page (`MemoPage.tsx`): the in-memory list of memos, each with its
 * comments nested inside, and the handlers that write to the database and
 * then patch the list by identity instead of reloading it.
 */
module MemoPageView {
  import opened MemoTypes
  import opened Text
  import opened Sorting
  import opened Db
  import opened MemoDb

  // ---------------------------------------------------------------------------
  // The list rebuilds the handlers perform
  // ---------------------------------------------------------------------------

  /** `memos.map(memo => memo.id === updated.id ? updated : memo)` */
  function ReplaceMemo(ms: seq<Memo>, updated: Memo): (r: seq<Memo>)
    ensures |r| == |ms|
    ensures forall i :: 0 <= i < |ms| && ms[i].id == updated.id ==> r[i] == updated
    ensures forall i :: 0 <= i < |ms| && ms[i].id != updated.id ==> r[i] == ms[i]
  {
    if ms == [] then []
    else [if ms[0].id == updated.id then updated else ms[0]] + ReplaceMemo(ms[1..], updated)
  }

  /** Replacing keeps every entry's id where it was, so a second identical edit changes nothing more. */
  lemma ReplaceMemoIdempotent(ms: seq<Memo>, updated: Memo)
    ensures ReplaceMemo(ReplaceMemo(ms, updated), updated) == ReplaceMemo(ms, updated)
  {
    var once := ReplaceMemo(ms, updated);
    forall i | 0 <= i < |ms| ensures once[i].id == ms[i].id {
    }
  }

  /** An edit whose id no entry carries leaves the list as it is. */
  lemma ReplaceMemoAbsent(ms: seq<Memo>, updated: Memo)
    requires forall m :: m in ms ==> m.id != updated.id
    ensures ReplaceMemo(ms, updated) == ms
  {
    forall i | 0 <= i < |ms| ensures ReplaceMemo(ms, updated)[i] == ms[i] {
      assert ms[i] in ms;
    }
  }

  /** `memos.filter(memo => memo.id !== memoId)` */
  function RemoveMemo(ms: seq<Memo>, memoId: int): (r: seq<Memo>)
    ensures |r| <= |ms|
    ensures forall m :: m in r <==> m in ms && m.id != Some(memoId)
  {
    if ms == [] then []
    else
      assert forall m :: m in ms <==> m == ms[0] || m in ms[1..];
      (if ms[0].id != Some(memoId) then [ms[0]] else []) + RemoveMemo(ms[1..], memoId)
  }

  /** Removal works piece by piece, so the entries that stay keep their relative order. */
  lemma {:induction false} RemoveMemoConcat(a: seq<Memo>, b: seq<Memo>, memoId: int)
    ensures RemoveMemo(a + b, memoId) == RemoveMemo(a, memoId) + RemoveMemo(b, memoId)
  {
    if a != [] {
      assert (a + b)[1..] == a[1..] + b;
      RemoveMemoConcat(a[1..], b, memoId);
    } else {
      assert a + b == b;
    }
  }

  /** Removing an id no entry carries leaves the list as it is. */
  lemma {:induction false} RemoveMemoAbsent(ms: seq<Memo>, memoId: int)
    requires forall m :: m in ms ==> m.id != Some(memoId)
    ensures RemoveMemo(ms, memoId) == ms
  {
    if ms != [] {
      assert ms[0] in ms;
      assert forall m :: m in ms[1..] ==> m in ms;
      RemoveMemoAbsent(ms[1..], memoId);
    }
  }

  /** Removing twice is removing once. */
  lemma RemoveMemoIdempotent(ms: seq<Memo>, memoId: int)
    ensures RemoveMemo(RemoveMemo(ms, memoId), memoId) == RemoveMemo(ms, memoId)
  {
    RemoveMemoAbsent(RemoveMemo(ms, memoId), memoId);
  }

  /** `memos.map(memo => memo.id === memoId ? {...memo, comments: [saved, ...memo.comments]} : memo)` */
  function PrependComment(ms: seq<Memo>, memoId: int, saved: MemoComment): (r: seq<Memo>)
    ensures |r| == |ms|
    ensures forall i :: 0 <= i < |ms| && ms[i].id == Some(memoId) ==>
      r[i].(comments := ms[i].comments) == ms[i] && r[i].comments == [saved] + ms[i].comments
    ensures forall i :: 0 <= i < |ms| && ms[i].id != Some(memoId) ==> r[i] == ms[i]
  {
    seq(|ms|, i requires 0 <= i < |ms| =>
      if ms[i].id == Some(memoId) then ms[i].(comments := [saved] + ms[i].comments) else ms[i])
  }

  /**
   * `memos.map(memo => memo.id === memoId ? {...memo, comments: memo.comments.filter(c => c.id !== commentId)} : memo)`
   */
  function RemoveComment(ms: seq<Memo>, memoId: int, commentId: Option<int>): (r: seq<Memo>)
    ensures |r| == |ms|
    ensures forall i :: 0 <= i < |ms| && ms[i].id == Some(memoId) ==>
      r[i].(comments := ms[i].comments) == ms[i] && r[i].comments == WithoutComment(ms[i].comments, commentId)
    ensures forall i :: 0 <= i < |ms| && ms[i].id != Some(memoId) ==> r[i] == ms[i]
  {
    seq(|ms|, i requires 0 <= i < |ms| =>
      if ms[i].id == Some(memoId) then ms[i].(comments := WithoutComment(ms[i].comments, commentId)) else ms[i])
  }

  /** Filtering out an id no comment carries changes nothing. */
  lemma {:induction false} WithoutCommentAbsent(cs: seq<MemoComment>, commentId: Option<int>)
    requires forall c :: c in cs ==> c.id != commentId
    ensures WithoutComment(cs, commentId) == cs
  {
    if cs != [] {
      assert cs[0] in cs;
      assert forall c :: c in cs[1..] ==> c in cs;
      WithoutCommentAbsent(cs[1..], commentId);
    }
  }

  /**
   * Deleting a comment undoes adding it: when the added comment carries an
   * id that no comment of its memo had, removing that id from the same memo
   * gives back the list as it was before the add.
   */
  lemma PrependThenRemove(ms: seq<Memo>, memoId: int, saved: MemoComment, commentId: Option<int>)
    requires saved.id == commentId
    requires forall m, c :: m in ms && m.id == Some(memoId) && c in m.comments ==> c.id != commentId
    ensures RemoveComment(PrependComment(ms, memoId, saved), memoId, commentId) == ms
  {
    var added := PrependComment(ms, memoId, saved);
    var back := RemoveComment(added, memoId, commentId);
    forall i | 0 <= i < |ms| ensures back[i] == ms[i] {
      if ms[i].id == Some(memoId) {
        assert ms[i] in ms;
        WithoutCommentAbsent(ms[i].comments, commentId);
        assert WithoutComment(added[i].comments, commentId) == ms[i].comments by {
          assert added[i].comments == [saved] + ms[i].comments;
          assert ([saved] + ms[i].comments)[1..] == ms[i].comments;
        }
      }
    }
  }

  /**
   * `memos.map(memo => memo.id !== memoId ? memo : {...memo, comments: memo.comments.map(c => c.id === updated.id ? {...updated} : c)})`
   */
  function ReplaceComment(ms: seq<Memo>, memoId: int, updated: MemoComment): (r: seq<Memo>)
    ensures |r| == |ms|
    ensures forall i :: 0 <= i < |ms| && ms[i].id == Some(memoId) ==>
      r[i].(comments := ms[i].comments) == ms[i] && r[i].comments == ReplaceCommentIn(ms[i].comments, updated)
    ensures forall i :: 0 <= i < |ms| && ms[i].id != Some(memoId) ==> r[i] == ms[i]
  {
    seq(|ms|, i requires 0 <= i < |ms| =>
      if ms[i].id != Some(memoId) then ms[i] else ms[i].(comments := ReplaceCommentIn(ms[i].comments, updated)))
  }

  /**
   * A comment edit keeps every memo's comment count, and where the named memo
   * held a comment with the edited comment's id, the edited comment takes its
   * place.
   */
  lemma ReplaceCommentKeepsCounts(ms: seq<Memo>, memoId: int, updated: MemoComment, i: int, j: int)
    requires 0 <= i < |ms|
    ensures |ReplaceComment(ms, memoId, updated)[i].comments| == |ms[i].comments|
    ensures ms[i].id == Some(memoId) && 0 <= j < |ms[i].comments| && ms[i].comments[j].id == updated.id ==>
      ReplaceComment(ms, memoId, updated)[i].comments[j] == updated
  {
  }

  // ---------------------------------------------------------------------------
  // The displayed order
  // ---------------------------------------------------------------------------

  /** The display sort key: descending id, a missing id counting as 0. */
  function DisplayKey(m: Memo): int
  {
    -IdOrZero(m.id)
  }

  /**
   * `[...memos].sort((a, b) => (b.id ?? 0) - (a.id ?? 0))`: a sorted copy,
   * highest id first; memos with equal keys keep their order in the list.
   */
  function DisplayOrder(ms: seq<Memo>): (r: seq<Memo>)
    ensures |r| == |ms| && multiset(r) == multiset(ms)
    ensures forall i, j :: 0 <= i < j < |r| ==> IdOrZero(r[i].id) >= IdOrZero(r[j].id)
    ensures forall k :: WithKey(r, DisplayKey, k) == WithKey(ms, DisplayKey, k)
  {
    var r := SortBy(ms, DisplayKey);
    assert forall i, j :: 0 <= i < j < |r| ==> DisplayKey(r[i]) <= DisplayKey(r[j]);
    r
  }

  // ---------------------------------------------------------------------------
  // The page state
  // ---------------------------------------------------------------------------

  /** The record the add-memo form builds: no id yet and no comments. */
  function NewMemo(title: string, category: string, content: string, hashtags: seq<string>,
                   createdAt: string, updatedAt: string): Memo
  {
    Memo(None, title, category, content, createdAt, updatedAt, hashtags, [])
  }

  /** The page's state variables; `memos` is the list, the rest is the add-memo form. */
  class MemoPage {
    var memos: seq<Memo>
    var newMemoTitle: string
    var newMemoCategory: string
    var newMemoContent: string
    var newMemoHashtags: seq<string>
    var isFormOpen: bool

    /** The add-memo form is empty and closed. */
    predicate FormCleared()
      reads this
    {
      newMemoTitle == "" && newMemoCategory == "" && newMemoContent == ""
      && newMemoHashtags == [] && !isFormOpen
    }

    /** The initial state: no memos, an empty closed form. */
    constructor ()
      ensures memos == [] && FormCleared()
    {
      memos := [];
      newMemoTitle := "";
      newMemoCategory := "";
      newMemoContent := "";
      newMemoHashtags := [];
      isFormOpen := false;
    }

    /**
     * The mount effect: the list becomes what `getMemos` returns. The
     * `comments ?? []` normalisation is the identity here, since every memo
     * `getMemos` builds carries a comments sequence.
     */
    method FetchMemos(db: MemoAppDatabase)
      requires db.Valid()
      modifies this`memos
      ensures memos == GetMemos(db)
      ensures !db.isOpen ==> memos == []
    {
      memos := GetMemos(db);
    }

    /** The form toggle button. */
    method ToggleForm()
      modifies this`isFormOpen
      ensures isFormOpen == !old(isFormOpen)
    {
      isFormOpen := !isFormOpen;
    }

    /** The title input. */
    method SetTitle(text: string)
      modifies this`newMemoTitle
      ensures newMemoTitle == text
    {
      newMemoTitle := text;
    }

    /** The category input. */
    method SetCategory(text: string)
      modifies this`newMemoCategory
      ensures newMemoCategory == text
    {
      newMemoCategory := text;
    }

    /** The content text area. */
    method SetContent(text: string)
      modifies this`newMemoContent
      ensures newMemoContent == text
    {
      newMemoContent := text;
    }

    /** The hashtag input: the text split on commas, each piece trimmed. */
    method SetHashtagsText(text: string)
      modifies this`newMemoHashtags
      ensures newMemoHashtags == SplitTags(text)
      ensures |newMemoHashtags| == Occurrences(text, ',') + 1
    {
      newMemoHashtags := SplitTags(text);
    }

    /** The title, category and content fields are all non-empty. */
    predicate Filled()
      reads this
    {
      newMemoTitle != "" && newMemoCategory != "" && newMemoContent != ""
    }

    /** The id-less memo the form fields describe. */
    function Draft(createdAt: string, updatedAt: string): Memo
      reads this
    {
      NewMemo(newMemoTitle, newMemoCategory, newMemoContent, newMemoHashtags, createdAt, updatedAt)
    }

    /**
     * `handleAddMemo`: only when title, category and content are all
     * non-empty, stores a new id-less memo through `addMemo`, prepends that
     * same id-less record to the list (the returned id is dropped) and clears
     * and closes the form. Otherwise nothing changes.
     */
    method HandleAddMemo(db: MemoAppDatabase, createdAt: string, updatedAt: string)
      requires db.Valid()
      modifies this, db
      ensures db.Valid()
      ensures old(Filled()) ==> memos == [old(Draft(createdAt, updatedAt))] + old(memos) && FormCleared()
      ensures !old(Filled()) ==>
        memos == old(memos) && newMemoTitle == old(newMemoTitle) && newMemoCategory == old(newMemoCategory)
        && newMemoContent == old(newMemoContent) && newMemoHashtags == old(newMemoHashtags)
        && isFormOpen == old(isFormOpen)
      ensures var k := old(db.memoKeyGen);
        if old(Filled()) && db.isOpen && k <= MaxGeneratedKey then
          db.memos == old(db.memos)[k := old(Draft(createdAt, updatedAt)).(id := Some(k))] && db.memoKeyGen == k + 1
        else
          db.memos == old(db.memos) && db.memoKeyGen == old(db.memoKeyGen)
      ensures db.comments == old(db.comments) && db.commentKeyGen == old(db.commentKeyGen)
    {
      if Filled() {
        var draft := Draft(createdAt, updatedAt);
        var _ := AddMemo(db, draft);
        memos := [draft] + memos;
        newMemoTitle := "";
        newMemoCategory := "";
        newMemoContent := "";
        newMemoHashtags := [];
        isFormOpen := false;
      }
    }

    /**
     * `handleEditMemo`: writes the whole record with `updateMemo`, then
     * replaces every entry with the same id (an id-less edit matches every
     * id-less entry); the store write inserts a new record when the memo has
     * no id.
     */
    method HandleEditMemo(db: MemoAppDatabase, updated: Memo)
      requires db.Valid()
      modifies this`memos, db
      ensures db.Valid()
      ensures memos == ReplaceMemo(old(memos), updated)
      ensures var k := if updated.id.Some? then updated.id.value else old(db.memoKeyGen);
        var stored := db.isOpen && (updated.id.Some? || k <= MaxGeneratedKey);
        (stored ==> db.memos == old(db.memos)[k := updated.(id := Some(k))] && db.memoKeyGen == Advance(old(db.memoKeyGen), k))
        && (!stored ==> db.memos == old(db.memos) && db.memoKeyGen == old(db.memoKeyGen))
      ensures db.comments == old(db.comments) && db.commentKeyGen == old(db.commentKeyGen)
    {
      var _ := UpdateMemo(db, updated);
      memos := ReplaceMemo(memos, updated);
    }

    /**
     * `handleDeleteMemo`: deletes the record, then drops every entry with
     * that id from the list. The memo's comments stay in the store.
     */
    method HandleDeleteMemo(db: MemoAppDatabase, memoId: int)
      requires db.Valid()
      modifies this`memos, db
      ensures db.Valid()
      ensures memos == RemoveMemo(old(memos), memoId)
      ensures db.memos == (if db.isOpen then old(db.memos) - {memoId} else old(db.memos))
      ensures db.memoKeyGen == old(db.memoKeyGen)
      ensures db.comments == old(db.comments) && db.commentKeyGen == old(db.commentKeyGen)
    {
      var _ := DeleteMemo(db, memoId);
      memos := RemoveMemo(memos, memoId);
    }

    /**
     * `handleAddComment`: stores a new id-less comment through `addComment`
     * and prepends what comes back to the memo with id `memoId`: the comment
     * with its new id when the add succeeded, and the id-less comment when it
     * did not.
     */
    method HandleAddComment(db: MemoAppDatabase, memoId: int, content: string, createdAt: string, updatedAt: string)
      requires db.Valid()
      modifies this`memos, db
      ensures db.Valid()
      ensures exists id: Option<int> ::
        var saved := MemoComment(id, memoId, content, createdAt, updatedAt);
        memos == PrependComment(old(memos), memoId, saved)
        && (id.Some? <==> db.isOpen && old(db.commentKeyGen) <= MaxGeneratedKey)
        && (id.Some? ==> id.value == old(db.commentKeyGen) && db.comments == old(db.comments)[id.value := saved])
        && (id.None? ==> db.comments == old(db.comments))
      ensures db.memos == old(db.memos) && db.memoKeyGen == old(db.memoKeyGen)
    {
      var draft := MemoComment(None, memoId, content, createdAt, updatedAt);
      var saved := AddComment(db, memoId, draft);
      memos := PrependComment(memos, memoId, saved);
      assert saved == MemoComment(saved.id, memoId, content, createdAt, updatedAt);
      assert memos == PrependComment(old(memos), memoId, MemoComment(saved.id, memoId, content, createdAt, updatedAt));
    }

    /**
     * `handleDeleteComment`: deletes the comment record, then filters it out
     * of the named memo's comments only. An undefined comment id leaves the
     * store as it was (the rejected delete is caught) and still drops every
     * id-less comment of that memo from the list.
     */
    method HandleDeleteComment(db: MemoAppDatabase, commentId: Option<int>, memoId: int)
      requires db.Valid()
      modifies this`memos, db
      ensures db.Valid()
      ensures memos == RemoveComment(old(memos), memoId, commentId)
      ensures db.comments == (if db.isOpen && commentId.Some? then old(db.comments) - {commentId.value} else old(db.comments))
      ensures db.commentKeyGen == old(db.commentKeyGen)
      ensures db.memos == old(db.memos) && db.memoKeyGen == old(db.memoKeyGen)
    {
      var _ := DeleteComment(db, commentId);
      memos := RemoveComment(memos, memoId, commentId);
    }

    /**
     * `handleEditComment`: patches the comment inside the named memo. It
     * takes no database: the edit is never written to the store.
     */
    method HandleEditComment(updated: MemoComment, memoId: int)
      modifies this`memos
      ensures memos == ReplaceComment(old(memos), memoId, updated)
    {
      memos := ReplaceComment(memos, memoId, updated);
    }

    /** `handleImport`: the list becomes the imported array as it is. */
    method HandleImport(imported: seq<Memo>)
      modifies this`memos
      ensures memos == imported
    {
      memos := imported;
    }
  }

  /**
   * The header's import flow once the file has parsed as an array: the
   * array goes through `importMemos`, then replaces the page's list.
   */
  method ImportFile(page: MemoPage, db: MemoAppDatabase, data: seq<Memo>)
    requires db.Valid()
    modifies page`memos, db
    ensures db.Valid()
    ensures page.memos == data
    ensures db.memos == ImportAll(db.isOpen, ImportState(old(db.memos), old(db.memoKeyGen), false), data).memos
    ensures db.comments == old(db.comments)
    ensures forall m, k :: m in data && m.id == Some(k) && k in old(db.memos) && m != old(db.memos)[k] ==>
      m in page.memos && k in db.memos && db.memos[k] == old(db.memos)[k] && db.memos[k] != m
  {
    ImportMemos(db, data);
    ImportedListCanDisagree(db.isOpen, ImportState(old(db.memos), old(db.memoKeyGen), false), data);
    page.HandleImport(data);
  }

  /**
   * After an import the list and the store can disagree: wherever a local
   * record already holds an imported memo's id and differs from it, the
   * store keeps the local record while the list shows the imported one.
   */
  lemma ImportedListCanDisagree(isOpen: bool, st: ImportState, data: seq<Memo>)
    ensures var r := ImportAll(isOpen, st, data);
      forall m, k :: m in data && m.id == Some(k) && k in st.memos && m != st.memos[k] ==>
        k in r.memos && r.memos[k] == st.memos[k] && r.memos[k] != m
  {
    ImportKeepsLocal(isOpen, st, data);
  }
}
