/**
 * The repository of `memoDB.ts`: memo and comment operations over the shared
 * database, the read-time join of comments into their memos, and export and
 * import of the memos table. Every rejection from the database is caught and
 * becomes "no result" (`None`, an empty list, or the input handed back).
 */
module MemoDb {
  import opened MemoTypes
  import opened Db

  /**
   * `addMemo(memo)`: the key the memo was stored under, or `None` when the
   * database rejected it. The record is stored as given (its `comments`
   * field included) with `id` set to that key.
   */
  method AddMemo(db: MemoAppDatabase, memo: Memo) returns (id: Option<int>)
    requires db.Valid()
    modifies db
    ensures db.Valid()
    ensures id.Some? <==> db.isOpen && KeyFor(old(db.memos).Keys, old(db.memoKeyGen), memo.id, true).Ok?
    ensures id.Some? ==> id.value !in old(db.memos) && db.memos == old(db.memos)[id.value := memo.(id := id)]
    ensures id.Some? ==> db.memoKeyGen == Advance(old(db.memoKeyGen), id.value)
    ensures id.Some? && memo.id.Some? ==> id == memo.id
    ensures id.Some? && memo.id.None? ==> id.value == old(db.memoKeyGen)
    ensures id.Some? && memo.id.None? ==> forall k :: k in old(db.memoKeysSeen) ==> k < id.value
    ensures id.None? ==> db.memos == old(db.memos) && db.memoKeyGen == old(db.memoKeyGen)
    ensures db.comments == old(db.comments) && db.commentKeyGen == old(db.commentKeyGen)
  {
    var r := db.MemosAdd(memo);
    id := if r.Ok? then Some(r.value) else None;
  }

  /**
   * `updateMemo(memo)`: `put` replaces the whole record at `memo.id` and
   * touches no other; a memo without an id is stored as a new record under a
   * generated key. Gives back the memo itself, or `None` when rejected.
   */
  method UpdateMemo(db: MemoAppDatabase, memo: Memo) returns (r: Option<Memo>)
    requires db.Valid()
    modifies db
    ensures db.Valid()
    ensures r.Some? <==> db.isOpen && (memo.id.Some? || old(db.memoKeyGen) <= MaxGeneratedKey)
    ensures r.Some? ==> r.value == memo
    ensures r.Some? ==>
      var k := if memo.id.Some? then memo.id.value else old(db.memoKeyGen);
      db.memos == old(db.memos)[k := memo.(id := Some(k))] && db.memoKeyGen == Advance(old(db.memoKeyGen), k)
    ensures r.None? ==> db.memos == old(db.memos) && db.memoKeyGen == old(db.memoKeyGen)
    ensures db.comments == old(db.comments) && db.commentKeyGen == old(db.commentKeyGen)
  {
    var put := db.MemosPut(memo);
    r := if put.Ok? then Some(memo) else None;
  }

  /**
   * `deleteMemo(id)`: removes the memo with that id and nothing else; the
   * comments whose `memoId` is `id` stay in the comments table.
   */
  method DeleteMemo(db: MemoAppDatabase, id: int) returns (r: Option<int>)
    requires db.Valid()
    modifies db
    ensures db.Valid()
    ensures r == (if db.isOpen then Some(id) else None)
    ensures db.memos == (if db.isOpen then old(db.memos) - {id} else old(db.memos))
    ensures db.memoKeyGen == old(db.memoKeyGen)
    ensures db.comments == old(db.comments) && db.commentKeyGen == old(db.commentKeyGen)
  {
    var deleted := db.MemosDelete(id);
    r := if deleted.Ok? then Some(id) else None;
  }

  /**
   * `memos.map(memo => ({...memo, comments: comments.filter(c => c.memoId === memo.id)}))`:
   * one entry per memo, in order, each differing from its memo only in
   * `comments`, which are exactly the comments of `cs` naming that memo, in
   * their order in `cs`.
   */
  function Join(ms: seq<Memo>, cs: seq<MemoComment>): (r: seq<Memo>)
    ensures |r| == |ms|
    ensures forall i :: 0 <= i < |ms| ==> r[i].(comments := ms[i].comments) == ms[i]
    ensures forall i :: 0 <= i < |ms| ==> r[i].comments == CommentsOf(cs, ms[i].id)
    ensures forall i, c :: 0 <= i < |ms| ==> (c in r[i].comments <==> c in cs && Some(c.memoId) == ms[i].id)
  {
    seq(|ms|, i requires 0 <= i < |ms| => ms[i].(comments := CommentsOf(cs, ms[i].id)))
  }

  /**
   * What joining the two tables' rows gives: each stored memo once, in
   * ascending order of id, with exactly its stored comments, each once and
   * in ascending order of id.
   */
  ghost predicate JoinedFromStore(db: MemoAppDatabase, r: seq<Memo>)
    reads db
  {
    |r| == |db.memos| &&
    (forall i :: 0 <= i < |r| ==>
      r[i].id.Some? && r[i].id.value in db.memos && r[i].(comments := db.memos[r[i].id.value].comments) == db.memos[r[i].id.value]) &&
    MemoIdsAscending(r) &&
    (forall i, c :: 0 <= i < |r| ==> (c in r[i].comments <==> c in db.comments.Values && Some(c.memoId) == r[i].id)) &&
    (forall i :: 0 <= i < |r| ==> CommentIdsAscending(r[i].comments))
  }

  /** The memos table is read in strictly ascending order of id, since every memo carries its own key. */
  lemma StoredMemosAscending(db: MemoAppDatabase)
    requires db.Valid()
    ensures MemoIdsAscending(Rows(db.memos))
  {
    var ms := Rows(db.memos);
    var ks := AscendingKeys(db.memos.Keys);
    forall i | 0 <= i < |ms| ensures ms[i].id == Some(ks[i]) {
      assert ms[i] == db.memos[ks[i]];
    }
    assert Increasing(ks);
  }

  /** The comments table is read in strictly ascending order of id, since every comment carries its own key. */
  lemma StoredCommentsAscending(db: MemoAppDatabase)
    requires db.Valid()
    ensures CommentIdsAscending(Rows(db.comments))
  {
    var cs := Rows(db.comments);
    var ks := AscendingKeys(db.comments.Keys);
    forall i | 0 <= i < |cs| ensures cs[i].id == Some(ks[i]) {
      assert cs[i] == db.comments[ks[i]];
    }
    assert Increasing(ks);
  }

  /** The join of the memos table's rows with the comments table's rows, as `getMemos` reads them. */
  lemma JoinOfStore(db: MemoAppDatabase)
    requires db.Valid()
    ensures JoinedFromStore(db, Join(Rows(db.memos), Rows(db.comments)))
  {
    var ms := Rows(db.memos);
    var cs := Rows(db.comments);
    var r := Join(ms, cs);
    StoredMemosAscending(db);
    StoredCommentsAscending(db);
    JoinKeepsMemos(db.memos, ms, cs, r);
    JoinKeepsOrder(ms, cs, r);
    JoinAttachesComments(db, ms, cs, r);
  }

  /** The joined rows are the stored memos, differing only in `comments`. */
  lemma JoinKeepsMemos(table: map<int, Memo>, ms: seq<Memo>, cs: seq<MemoComment>, r: seq<Memo>)
    requires forall k :: k in table ==> table[k].id == Some(k)
    requires ms == Rows(table) && r == Join(ms, cs)
    ensures forall i :: 0 <= i < |r| ==>
      r[i].id.Some? && r[i].id.value in table && r[i].(comments := table[r[i].id.value].comments) == table[r[i].id.value]
  {
    forall i | 0 <= i < |r|
      ensures r[i].id.Some? && r[i].id.value in table && r[i].(comments := table[r[i].id.value].comments) == table[r[i].id.value]
    {
      JoinedRow(table, AscendingKeys(table.Keys), ms, cs, r, i);
    }
  }

  /** The join keeps the memos' ids in place, so ascending memos stay ascending. */
  lemma JoinKeepsOrder(ms: seq<Memo>, cs: seq<MemoComment>, r: seq<Memo>)
    requires MemoIdsAscending(ms) && r == Join(ms, cs)
    ensures MemoIdsAscending(r)
  {
    assert forall i :: 0 <= i < |r| ==> r[i].id == ms[i].id;
  }

  /** Row `i` of the join is the memo at the `i`-th key with other comments. */
  lemma JoinedRow(table: map<int, Memo>, ks: seq<int>, ms: seq<Memo>, cs: seq<MemoComment>, r: seq<Memo>, i: int)
    requires forall k :: k in table ==> table[k].id == Some(k)
    requires ks == AscendingKeys(table.Keys) && ms == Rows(table) && r == Join(ms, cs)
    requires 0 <= i < |r|
    ensures r[i].id == Some(ks[i]) && ks[i] in table
    ensures r[i].(comments := table[ks[i]].comments) == table[ks[i]]
  {
    var m := table[ks[i]];
    assert ms[i] == m;
    assert r[i].(comments := ms[i].comments) == ms[i];
  }

  /** Each joined memo carries exactly the stored comments naming it, each once, by ascending id. */
  lemma JoinAttachesComments(db: MemoAppDatabase, ms: seq<Memo>, cs: seq<MemoComment>, r: seq<Memo>)
    requires cs == Rows(db.comments) && CommentIdsAscending(cs) && r == Join(ms, cs)
    ensures forall i, c :: 0 <= i < |r| ==> (c in r[i].comments <==> c in db.comments.Values && Some(c.memoId) == r[i].id)
    ensures forall i :: 0 <= i < |r| ==> CommentIdsAscending(r[i].comments)
  {
    forall i | 0 <= i < |r| ensures CommentIdsAscending(r[i].comments) {
      CommentsOfAscending(cs, ms[i].id);
    }
    forall i, c | 0 <= i < |r|
      ensures c in r[i].comments <==> c in db.comments.Values && Some(c.memoId) == r[i].id
    {
      assert r[i].id == ms[i].id;
    }
  }

  /**
   * `getMemos()`: every stored memo, in ascending order of id, with its
   * `comments` replaced by exactly the stored comments naming it; the empty
   * list when the database rejects either read.
   */
  function GetMemos(db: MemoAppDatabase): (r: seq<Memo>)
    reads db
    requires db.Valid()
    ensures !db.isOpen ==> r == []
    ensures db.isOpen ==> JoinedFromStore(db, r)
    ensures forall i :: 0 <= i < |r| ==> r[i].id.Some? && r[i].id.value in db.memos
  {
    var memosRead := db.MemosToArray();
    var commentsRead := db.CommentsToArray();
    if memosRead.Err? || commentsRead.Err? then []
    else
      JoinOfStore(db);
      Join(memosRead.value, commentsRead.value)
  }

  /** A memo that is not in the memos table is never listed, whatever comments still name it. */
  lemma AbsentMemoNotListed(db: MemoAppDatabase, id: int)
    requires db.Valid()
    requires id !in db.memos
    ensures forall m :: m in GetMemos(db) ==> m.id != Some(id)
  {
  }

  /** `getMemo(id)`: the memo stored under `id`, or `None` when there is none or the read is rejected. */
  function GetMemo(db: MemoAppDatabase, id: int): (r: Option<Memo>)
    reads db
    requires db.Valid()
    ensures r.Some? <==> db.isOpen && id in db.memos
    ensures r.Some? ==> r.value == db.memos[id] && r.value.id == Some(id)
  {
    match db.MemosGet(Some(id))
    case Ok(found) => found
    case Err(_) => None
  }

  /**
   * `addComment(memoId, comment)`: stores the comment with `memoId` forced
   * to the argument and gives back the input with the new id; when the add
   * is rejected it gives back the input unchanged and stores nothing.
   */
  method AddComment(db: MemoAppDatabase, memoId: int, comment: MemoComment) returns (r: MemoComment)
    requires db.Valid()
    modifies db
    ensures db.Valid()
    ensures var ok := db.isOpen && KeyFor(old(db.comments).Keys, old(db.commentKeyGen), comment.id, true).Ok?;
      if ok then
        r.id.Some? && r == comment.(id := r.id) && r.id.value !in old(db.comments)
        && db.comments == old(db.comments)[r.id.value := comment.(memoId := memoId, id := r.id)]
        && db.commentKeyGen == Advance(old(db.commentKeyGen), r.id.value)
      else
        r == comment && db.comments == old(db.comments) && db.commentKeyGen == old(db.commentKeyGen)
    ensures comment.id.None? ==> (r.id.Some? <==> db.comments != old(db.comments))
    ensures comment.id.None? && r.id.Some? ==> r.id.value == old(db.commentKeyGen)
    ensures db.memos == old(db.memos) && db.memoKeyGen == old(db.memoKeyGen)
  {
    var added := db.CommentsAdd(comment.(memoId := memoId));
    r := if added.Ok? then comment.(id := Some(added.value)) else comment;
    if added.Ok? {
      assert r.id.value in db.comments;
    }
  }

  /**
   * `getComments(memoId)`: exactly the stored comments whose `memoId` is
   * `memoId`, in ascending order of id, or `None` when the read is rejected.
   */
  function GetComments(db: MemoAppDatabase, memoId: int): (r: Option<seq<MemoComment>>)
    reads db
    requires db.Valid()
    ensures r.Some? <==> db.isOpen
    ensures r.Some? ==> forall c :: c in r.value <==> c in db.comments.Values && c.memoId == memoId
    ensures r.Some? ==> CommentIdsAscending(r.value)
  {
    match db.CommentsWhereMemoId(memoId)
    case Ok(cs) => Some(cs)
    case Err(_) => None
  }

  /** The join and the index lookup agree: a listed memo carries exactly `getComments` of its id. */
  lemma {:induction false} JoinMatchesIndex(db: MemoAppDatabase, i: int)
    requires db.Valid() && db.isOpen
    requires 0 <= i < |GetMemos(db)|
    ensures GetComments(db, GetMemos(db)[i].id.value) == Some(GetMemos(db)[i].comments)
  {
  }

  /**
   * `deleteComment(id)`: removes the comment with that id and nothing else,
   * and gives the id back. An undefined id makes the store reject, which is
   * caught, so nothing changes and nothing comes back.
   */
  method DeleteComment(db: MemoAppDatabase, id: Option<int>) returns (r: Option<int>)
    requires db.Valid()
    modifies db
    ensures db.Valid()
    ensures r == (if db.isOpen then id else None)
    ensures db.comments == (if r.Some? then old(db.comments) - {r.value} else old(db.comments))
    ensures db.commentKeyGen == old(db.commentKeyGen)
    ensures db.memos == old(db.memos) && db.memoKeyGen == old(db.memoKeyGen)
  {
    var deleted := db.CommentsDelete(id);
    r := if deleted.Ok? then id else None;
  }

  /**
   * `exportMemos()`: the memos table and nothing else, every stored memo
   * once in ascending order of id (the JSON array in the exported file);
   * `None` stands for the empty file produced when the read is rejected.
   */
  function ExportMemos(db: MemoAppDatabase): (r: Option<seq<Memo>>)
    reads db
    requires db.Valid()
    ensures r.Some? <==> db.isOpen
    ensures r.Some? ==> |r.value| == |db.memos| && forall m :: m in r.value <==> m in db.memos.Values
    ensures r.Some? ==> MemoIdsAscending(r.value)
  {
    match db.MemosToArray()
    case Ok(ms) => Some(ms)
    case Err(_) => None
  }

  /** Where an import stands: the memos table, its key generator, and whether a rejection ended the loop. */
  datatype ImportState = ImportState(memos: map<int, Memo>, current: int, stopped: bool)

  /**
   * One pass of the `importMemos` loop body: look the memo up by id and add
   * it only when no memo has that id. A lookup without an id, or any
   * rejection, ends the loop; what was added before stays.
   */
  function ImportStep(isOpen: bool, st: ImportState, m: Memo): (r: ImportState)
    ensures r.stopped <==> st.stopped || !isOpen || m.id.None?
    ensures !r.stopped ==> r.memos == (if m.id.value in st.memos then st.memos else st.memos[m.id.value := m])
    ensures !r.stopped && m.id.value !in st.memos ==> r.current == Advance(st.current, m.id.value)
    ensures r.stopped || m.id.value in st.memos ==> r.memos == st.memos && r.current == st.current
  {
    if st.stopped then st
    else if !isOpen || m.id.None? then st.(stopped := true)
    else if m.id.value in st.memos then st
    else
      match KeyFor(st.memos.Keys, st.current, m.id, true)
      case Ok(k) => ImportState(st.memos[k := m.(id := Some(k))], Advance(st.current, k), false)
      case Err(_) => st.(stopped := true)
  }

  /** The import loop run over all of `xs`, one step per memo, in order. */
  function ImportAll(isOpen: bool, st: ImportState, xs: seq<Memo>): (r: ImportState)
    ensures r.stopped <==> st.stopped || (xs != [] && !isOpen) || exists i :: 0 <= i < |xs| && xs[i].id.None?
    decreases |xs|
  {
    if xs == [] then st else ImportStep(isOpen, ImportAll(isOpen, st, xs[..|xs| - 1]), xs[|xs| - 1])
  }

  /**
   * Once the loop has stopped, the memos after that point change nothing:
   * importing the whole array ends where the stopped prefix did.
   */
  lemma {:induction false} StoppedStays(isOpen: bool, st: ImportState, xs: seq<Memo>, n: nat)
    requires n <= |xs|
    requires ImportAll(isOpen, st, xs[..n]).stopped
    ensures ImportAll(isOpen, st, xs) == ImportAll(isOpen, st, xs[..n])
    decreases |xs|
  {
    if n < |xs| {
      var init := xs[..|xs| - 1];
      assert init[..n] == xs[..n];
      StoppedStays(isOpen, st, init, n);
    } else {
      assert xs[..n] == xs;
    }
  }

  /**
   * Local wins: importing never removes or overwrites a record; it only
   * adds memos under ids that were absent, and the generator never goes back.
   */
  lemma {:induction false} ImportKeepsLocal(isOpen: bool, st: ImportState, xs: seq<Memo>)
    ensures var r := ImportAll(isOpen, st, xs);
      r.current >= st.current &&
      (forall k :: k in st.memos ==> k in r.memos && r.memos[k] == st.memos[k]) &&
      (forall k :: k in r.memos && k !in st.memos ==> r.memos[k].id == Some(k) && r.memos[k] in xs)
    decreases |xs|
  {
    if xs != [] {
      var init := xs[..|xs| - 1];
      ImportKeepsLocal(isOpen, st, init);
      StepKeepsLocal(isOpen, ImportAll(isOpen, st, init), xs[|xs| - 1]);
      assert forall m :: m in init ==> m in xs;
    }
  }

  /** One loop pass keeps every record, and a record it adds is the memo under its own id. */
  lemma StepKeepsLocal(isOpen: bool, st: ImportState, m: Memo)
    ensures var r := ImportStep(isOpen, st, m);
      r.current >= st.current &&
      (forall k :: k in st.memos ==> k in r.memos && r.memos[k] == st.memos[k]) &&
      (forall k :: k in r.memos && k !in st.memos ==> r.memos[k] == m && m.id == Some(k))
  {
  }

  /** Importing more memos only adds to what importing a prefix of them added. */
  lemma {:induction false} ImportPrefixGrows(isOpen: bool, st: ImportState, xs: seq<Memo>, n: nat)
    requires n <= |xs|
    ensures var p := ImportAll(isOpen, st, xs[..n]);
      var r := ImportAll(isOpen, st, xs);
      forall k :: k in p.memos ==> k in r.memos
    decreases |xs|
  {
    if n < |xs| {
      var init := xs[..|xs| - 1];
      assert init[..n] == xs[..n];
      ImportPrefixGrows(isOpen, st, init, n);
      ImportKeepsLocal(isOpen, ImportAll(isOpen, st, init), [xs[|xs| - 1]]);
      assert [xs[|xs| - 1]][..0] == [];
    } else {
      assert xs[..n] == xs;
    }
  }

  /**
   * Importing a second time from where the first import left the table,
   * stopping at the same place: after `n` memos the table and generator are
   * still those the first import ended with.
   */
  lemma {:induction false} ReimportUnchanged(isOpen: bool, st: ImportState, xs: seq<Memo>, n: nat)
    requires !st.stopped
    requires n <= |xs|
    ensures var first := ImportAll(isOpen, st, xs);
      ImportAll(isOpen, ImportState(first.memos, first.current, false), xs[..n])
        == ImportState(first.memos, first.current, ImportAll(isOpen, st, xs[..n]).stopped)
  {
    var first := ImportAll(isOpen, st, xs);
    var again := ImportState(first.memos, first.current, false);
    if n == 0 {
      assert xs[..0] == [];
    } else {
      var prefix := xs[..n - 1];
      assert xs[..n][..n - 1] == prefix;
      ReimportUnchanged(isOpen, st, xs, n - 1);
      var p := ImportAll(isOpen, st, prefix);
      var x := xs[n - 1];
      if !p.stopped && isOpen && x.id.Some? {
        ImportPrefixGrows(isOpen, st, xs, n);
        ImportKeepsLocal(isOpen, p, [x]);
        assert [x][..0] == [];
      }
    }
  }

  /**
   * Importing the same array twice changes nothing the second time: the
   * memos table and its key generator are those the first import left.
   */
  lemma ImportIdempotent(isOpen: bool, st: ImportState, xs: seq<Memo>)
    requires !st.stopped
    ensures var first := ImportAll(isOpen, st, xs);
      var second := ImportAll(isOpen, ImportState(first.memos, first.current, false), xs);
      second.memos == first.memos && second.current == first.current
  {
    ReimportUnchanged(isOpen, st, xs, |xs|);
    assert xs[..|xs|] == xs;
  }

  /**
   * Export then import into an empty memos table reproduces the exported
   * table exactly: every record under its own id.
   */
  lemma ExportImportRoundTrip(table: map<int, Memo>, current: int)
    requires forall k :: k in table ==> table[k].id == Some(k)
    ensures ImportAll(true, ImportState(map[], current, false), Rows(table)).memos == table
  {
    var ks := AscendingKeys(table.Keys);
    var xs := Rows(table);
    assert xs == At(table, ks);
    var start := ImportState(map[], current, false);
    ImportUpTo(table, ks, start, xs, |xs|);
    ImportedEveryKey(table, ks, start, xs);
  }

  /** After `n` exported rows, the import holds exactly the records at the first `n` keys. */
  ghost predicate ImportedKeys(table: map<int, Memo>, ks: seq<int>, start: ImportState, xs: seq<Memo>, n: nat)
  {
    n <= |xs| && n <= |ks| &&
    var p := ImportAll(true, start, xs[..n]);
    !p.stopped && p.memos == map k | k in ks[..n] && k in table :: table[k]
  }

  /** Importing exported rows in order, each is added under its own key, which no earlier row had. */
  lemma {:induction false} ImportUpTo(table: map<int, Memo>, ks: seq<int>, start: ImportState, xs: seq<Memo>, n: nat)
    requires start == ImportState(map[], start.current, false)
    requires forall k :: k in table ==> table[k].id == Some(k)
    requires Increasing(ks) && (forall i :: 0 <= i < |ks| ==> ks[i] in table)
    requires |xs| == |ks| && forall i :: 0 <= i < |ks| ==> xs[i] == table[ks[i]]
    requires n <= |xs|
    ensures ImportedKeys(table, ks, start, xs, n)
  {
    if n == 0 {
      assert xs[..0] == [] && ks[..0] == [];
    } else {
      ImportUpTo(table, ks, start, xs, n - 1);
      ImportNextRow(table, ks, start, xs, n - 1);
    }
  }

  /** One more exported row: it goes in under its own key, which no earlier row had. */
  lemma ImportNextRow(table: map<int, Memo>, ks: seq<int>, start: ImportState, xs: seq<Memo>, m: nat)
    requires forall k :: k in table ==> table[k].id == Some(k)
    requires Increasing(ks) && (forall i :: 0 <= i < |ks| ==> ks[i] in table)
    requires |xs| == |ks| && forall i :: 0 <= i < |ks| ==> xs[i] == table[ks[i]]
    requires m < |xs|
    requires ImportedKeys(table, ks, start, xs, m)
    ensures ImportedKeys(table, ks, start, xs, m + 1)
  {
    var n := m + 1;
    assert xs[..n][..m] == xs[..m];
    assert ks[m] !in ks[..m];
    assert ks[..n] == ks[..m] + [ks[m]];
    var p := ImportAll(true, start, xs[..m]);
    assert ks[m] !in p.memos;
    assert xs[m].id == Some(ks[m]);
    var q := ImportAll(true, start, xs[..n]);
    assert q.memos == p.memos[ks[m] := table[ks[m]]];
  }

  /** Once every exported row is imported, the table is the exported one. */
  lemma ImportedEveryKey(table: map<int, Memo>, ks: seq<int>, start: ImportState, xs: seq<Memo>)
    requires |xs| == |ks| && forall k :: k in ks <==> k in table
    requires ImportedKeys(table, ks, start, xs, |xs|)
    ensures ImportAll(true, start, xs).memos == table
  {
    assert xs[..|xs|] == xs;
    assert ks[..|ks|] == ks;
    var got := ImportAll(true, start, xs).memos;
    assert got == map k | k in ks && k in table :: table[k];
    forall k | k in table ensures k in got {
      assert k in ks;
    }
    assert got.Keys == table.Keys;
  }

  /**
   * `importMemos(memos)`: for each memo in order, look it up by id and add
   * it only when absent; the first rejection leaves the loop, keeping what
   * was added before it. The comments table is never touched.
   */
  method ImportMemos(db: MemoAppDatabase, xs: seq<Memo>)
    requires db.Valid()
    modifies db
    ensures db.Valid()
    ensures var r := ImportAll(db.isOpen, ImportState(old(db.memos), old(db.memoKeyGen), false), xs);
      db.memos == r.memos && db.memoKeyGen == r.current
    ensures db.comments == old(db.comments) && db.commentKeyGen == old(db.commentKeyGen)
  {
    ghost var start := ImportState(db.memos, db.memoKeyGen, false);
    var i := 0;
    while i < |xs|
      invariant 0 <= i <= |xs|
      invariant db.Valid()
      invariant ImportAll(db.isOpen, start, xs[..i]) == ImportState(db.memos, db.memoKeyGen, false)
      invariant db.comments == old(db.comments) && db.commentKeyGen == old(db.commentKeyGen)
    {
      assert xs[..i + 1][..i] == xs[..i];
      var found := db.MemosGet(xs[i].id);
      if found.Err? {
        StoppedStays(db.isOpen, start, xs, i + 1);
        return;
      }
      if found.value.None? {
        // The id was just found absent, so this add cannot be rejected.
        var added := db.MemosAdd(xs[i]);
        assert added.Ok?;
      }
      i := i + 1;
    }
    assert xs[..i] == xs;
  }
}
