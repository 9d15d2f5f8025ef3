/**
 * The memo application's IndexedDB database `MemoAppDatabase`: the object
 * stores `memos` and `comments`, each keyed by an auto-incremented `id` with
 * a key generator of its own, and the `memoId` index on `comments`. Key
 * assignment follows section 2.11 ("Key generators") of the W3C Indexed
 * Database API.
 */
module Db {
  import opened MemoTypes

  /** 2^53: once a key generator's current number exceeds it, no key can be generated. */
  const MaxGeneratedKey: int := 0x20_0000_0000_0000

  /** Why a request to the database was rejected. */
  datatype StoreError =
    | DatabaseClosed   // opening the database failed, so every request rejects
    | ConstraintError  // `add` found its key taken, or the key generator is exhausted
    | DataError        // the key given to `get` is not a valid key

  datatype Result<+T> = Ok(value: T) | Err(error: StoreError)

  /** The generator's current number is above every key in `keys`, or the generator is exhausted. */
  ghost predicate Ahead(keys: set<int>, current: int)
  {
    forall k :: k in keys ==> k < current || current > MaxGeneratedKey
  }

  /**
   * The primary key for storing a record whose `id` is `explicit` in a table
   * holding `keys`, whose key generator is at `current`. `noOverwrite` is set
   * for `add`, which rejects a key already taken; `put` overwrites.
   */
  function KeyFor(keys: set<int>, current: int, explicit: Option<int>, noOverwrite: bool): (r: Result<int>)
    ensures r.Err? ==> r.error == ConstraintError
    ensures explicit.Some? ==> (r.Ok? <==> !noOverwrite || explicit.value !in keys)
    ensures explicit.Some? && r.Ok? ==> r.value == explicit.value
    ensures explicit.None? ==> (r.Ok? <==> current <= MaxGeneratedKey)
    ensures explicit.None? && r.Ok? ==> r.value == current
    ensures explicit.None? && r.Ok? && Ahead(keys, current) ==>
      r.value !in keys && forall k :: k in keys ==> k < r.value
  {
    match explicit
    case Some(k) => if noOverwrite && k in keys then Err(ConstraintError) else Ok(k)
    case None => if current > MaxGeneratedKey then Err(ConstraintError) else Ok(current)
  }

  /**
   * The generator's current number after a record is stored under `key`,
   * generated or explicit: it never decreases, and it moves past every key
   * not above 2^53.
   */
  function Advance(current: int, key: int): (r: int)
    ensures r >= current
    ensures key <= MaxGeneratedKey ==> r > key
    ensures r == current || r <= MaxGeneratedKey + 1
  {
    var v := if key < MaxGeneratedKey then key else MaxGeneratedKey;
    if v >= current then v + 1 else current
  }

  /** Storing a key keeps the generator ahead of every key seen. */
  lemma AdvanceStaysAhead(keys: set<int>, current: int, key: int)
    requires Ahead(keys, current)
    ensures Ahead(keys + {key}, Advance(current, key))
  {
  }

  /** A finite non-empty set of integers has a least element. */
  lemma {:induction false} LeastExists(s: set<int>)
    requires s != {}
    ensures exists m :: m in s && forall k :: k in s ==> m <= k
  {
    if forall y :: y !in s {
      assert false;
    }
    var x :| x in s;
    if s != {x} {
      LeastExists(s - {x});
      var m :| m in s - {x} && forall k :: k in s - {x} ==> m <= k;
      var least := if x < m then x else m;
      forall k | k in s ensures least <= k {
        if k != x {
          assert k in s - {x};
        }
      }
    } else {
      assert forall k :: k in s ==> x <= k;
    }
  }

  /** The least element of a non-empty set of integers. */
  function Least(s: set<int>): (m: int)
    requires s != {}
    ensures m in s && forall k :: k in s ==> m <= k
  {
    LeastExists(s);
    var m :| m in s && (forall k :: k in s ==> m <= k);
    m
  }

  /** `ks` is strictly increasing. */
  predicate Increasing(ks: seq<int>)
  {
    forall i, j :: 0 <= i < j < |ks| ==> ks[i] < ks[j]
  }

  /** The keys of `keys` in ascending order, each once: the order a cursor over a table visits them. */
  function AscendingKeys(keys: set<int>): (r: seq<int>)
    ensures |r| == |keys|
    ensures Increasing(r)
    ensures forall k :: k in r <==> k in keys
    decreases |keys|
  {
    if keys == {} then []
    else
      var m := Least(keys);
      var rest := AscendingKeys(keys - {m});
      assert forall j :: 0 <= j < |rest| ==> m < rest[j] by {
        forall j | 0 <= j < |rest| ensures m < rest[j] {
          assert rest[j] in keys - {m};
        }
      }
      [m] + rest
  }

  /** The records of `table` at the keys `ks`, in that order. */
  function At<T>(table: map<int, T>, ks: seq<int>): (r: seq<T>)
    requires forall i :: 0 <= i < |ks| ==> ks[i] in table
    ensures |r| == |ks|
    ensures forall i :: 0 <= i < |ks| ==> r[i] == table[ks[i]]
  {
    seq(|ks|, i requires 0 <= i < |ks| => table[ks[i]])
  }

  /**
   * `toArray()` on a table: every record once, in ascending order of primary
   * key; every stored record is in it and nothing else is.
   */
  function Rows<T(==,!new)>(table: map<int, T>): (r: seq<T>)
    ensures |r| == |table|
    ensures forall x :: x in r <==> x in table.Values
    ensures forall i :: 0 <= i < |r| ==> AscendingKeys(table.Keys)[i] in table && r[i] == table[AscendingKeys(table.Keys)[i]]
  {
    var ks := AscendingKeys(table.Keys);
    var r := At(table, ks);
    assert forall x :: x in table.Values ==> x in r by {
      forall x | x in table.Values ensures x in r {
        var k :| k in table && table[k] == x;
        var i :| 0 <= i < |ks| && ks[i] == k;
        assert r[i] == x;
      }
    }
    r
  }

  /**
   * The comments of `cs` whose `memoId` equals `memoId`, in their order in
   * `cs`: `cs.filter(c => c.memoId === memoId)`.
   */
  function CommentsOf(cs: seq<MemoComment>, memoId: Option<int>): (r: seq<MemoComment>)
    ensures |r| <= |cs|
    ensures forall c :: c in r <==> c in cs && Some(c.memoId) == memoId
  {
    if cs == [] then []
    else
      var rest := CommentsOf(cs[1..], memoId);
      assert forall c :: c in cs <==> c == cs[0] || c in cs[1..];
      if Some(cs[0].memoId) == memoId then [cs[0]] + rest else rest
  }

  /** Filtering keeps the order of the table: comments read by ascending id stay ascending. */
  lemma {:induction false} CommentsOfAscending(cs: seq<MemoComment>, memoId: Option<int>)
    requires CommentIdsAscending(cs)
    ensures CommentIdsAscending(CommentsOf(cs, memoId))
  {
    if cs != [] {
      var rest := CommentsOf(cs[1..], memoId);
      CommentsOfAscending(cs[1..], memoId);
      if Some(cs[0].memoId) == memoId {
        forall k | 0 <= k < |rest| ensures IdOrZero(cs[0].id) < IdOrZero(rest[k].id) {
          assert rest[k] in rest;
          var j :| 0 <= j < |cs[1..]| && cs[1..][j] == rest[k];
          assert cs[j + 1] == rest[k];
        }
        AscendingCons(cs[0], rest, [cs[0]] + rest);
      }
    }
  }

  /** A comment with an id below every id of an ascending list can go in front of it. */
  lemma AscendingCons(c: MemoComment, rest: seq<MemoComment>, r: seq<MemoComment>)
    requires r == [c] + rest
    requires CommentIdsAscending(rest) && c.id.Some?
    requires forall k :: 0 <= k < |rest| ==> IdOrZero(c.id) < IdOrZero(rest[k].id)
    ensures CommentIdsAscending(r)
  {
    forall i | 0 <= i < |r| ensures r[i].id.Some? {
      if i > 0 {
        assert r[i] == rest[i - 1];
      }
    }
    forall i, j | 0 <= i < j < |r| ensures IdOrZero(r[i].id) < IdOrZero(r[j].id) {
      assert r[j] == rest[j - 1];
      if i > 0 {
        assert r[i] == rest[i - 1];
      }
    }
  }

  /** Filtering by `memoId` keeps the order: it distributes over concatenation. */
  lemma {:induction false} CommentsOfConcat(a: seq<MemoComment>, b: seq<MemoComment>, memoId: Option<int>)
    ensures CommentsOf(a + b, memoId) == CommentsOf(a, memoId) + CommentsOf(b, memoId)
  {
    if a != [] {
      assert (a + b)[1..] == a[1..] + b;
      CommentsOfConcat(a[1..], b, memoId);
    } else {
      assert a + b == b;
    }
  }

  /**
   * The singleton database instance that every repository operation shares.
   * Each table is a map from primary key to record plus its key generator's
   * current number; the ghost sets record every key ever stored, so that the
   * invariant can say deleted keys are never generated again.
   */
  class MemoAppDatabase {
    /** Whether `open()` succeeded. A failure is only logged; every later request then rejects. */
    const isOpen: bool
    var memos: map<int, Memo>
    var memoKeyGen: int
    var comments: map<int, MemoComment>
    var commentKeyGen: int
    ghost var memoKeysSeen: set<int>
    ghost var commentKeysSeen: set<int>

    /**
     * Every record carries its own key as `id`, and each generator is ahead
     * of every key its table has ever held.
     */
    ghost predicate Valid()
      reads this
    {
      (forall k :: k in memos ==> memos[k].id == Some(k)) &&
      (forall k :: k in comments ==> comments[k].id == Some(k)) &&
      memos.Keys <= memoKeysSeen && comments.Keys <= commentKeysSeen &&
      Ahead(memoKeysSeen, memoKeyGen) && Ahead(commentKeysSeen, commentKeyGen)
    }

    /**
     * Declares both tables and opens the database; `openSucceeds` stands for
     * the outcome of `open()`. Both tables start empty, both generators at 1.
     */
    constructor (openSucceeds: bool)
      ensures Valid() && isOpen == openSucceeds
      ensures memos == map[] && comments == map[]
      ensures memoKeyGen == 1 && commentKeyGen == 1
    {
      isOpen := openSucceeds;
      memos, comments := map[], map[];
      memoKeyGen, commentKeyGen := 1, 1;
      memoKeysSeen, commentKeysSeen := {}, {};
    }

    /**
     * `db.memos.add(memo)`: stores the memo under its own id, or under a
     * generated key when it has none, and never overwrites a record. A
     * rejected request changes nothing.
     */
    method MemosAdd(m: Memo) returns (r: Result<int>)
      requires Valid()
      modifies this
      ensures Valid()
      ensures r == (if isOpen then KeyFor(old(memos).Keys, old(memoKeyGen), m.id, true) else Err(DatabaseClosed))
      ensures r.Ok? ==> r.value !in old(memos)
      ensures r.Ok? ==> memos == old(memos)[r.value := m.(id := Some(r.value))]
      ensures r.Ok? ==> memoKeyGen == Advance(old(memoKeyGen), r.value)
      ensures r.Ok? && m.id.None? ==> r.value !in old(memoKeysSeen) && forall k :: k in old(memoKeysSeen) ==> k < r.value
      ensures r.Err? ==> memos == old(memos) && memoKeyGen == old(memoKeyGen)
      ensures memoKeysSeen == (if r.Ok? then old(memoKeysSeen) + {r.value} else old(memoKeysSeen))
      ensures comments == old(comments) && commentKeyGen == old(commentKeyGen) && commentKeysSeen == old(commentKeysSeen)
    {
      if !isOpen {
        return Err(DatabaseClosed);
      }
      r := KeyFor(memos.Keys, memoKeyGen, m.id, true);
      if r.Ok? {
        AdvanceStaysAhead(memoKeysSeen, memoKeyGen, r.value);
        memos := memos[r.value := m.(id := Some(r.value))];
        memoKeyGen := Advance(memoKeyGen, r.value);
        memoKeysSeen := memoKeysSeen + {r.value};
      }
    }

    /**
     * `db.memos.put(memo)`: stores the memo under its own id, replacing any
     * record there, or under a generated key when it has none.
     */
    method MemosPut(m: Memo) returns (r: Result<int>)
      requires Valid()
      modifies this
      ensures Valid()
      ensures r == (if isOpen then KeyFor(old(memos).Keys, old(memoKeyGen), m.id, false) else Err(DatabaseClosed))
      ensures r.Ok? ==> memos == old(memos)[r.value := m.(id := Some(r.value))]
      ensures r.Ok? ==> memoKeyGen == Advance(old(memoKeyGen), r.value)
      ensures r.Ok? && m.id.None? ==> r.value !in old(memoKeysSeen)
      ensures r.Err? ==> memos == old(memos) && memoKeyGen == old(memoKeyGen)
      ensures memoKeysSeen == (if r.Ok? then old(memoKeysSeen) + {r.value} else old(memoKeysSeen))
      ensures comments == old(comments) && commentKeyGen == old(commentKeyGen) && commentKeysSeen == old(commentKeysSeen)
    {
      if !isOpen {
        return Err(DatabaseClosed);
      }
      r := KeyFor(memos.Keys, memoKeyGen, m.id, false);
      if r.Ok? {
        AdvanceStaysAhead(memoKeysSeen, memoKeyGen, r.value);
        memos := memos[r.value := m.(id := Some(r.value))];
        memoKeyGen := Advance(memoKeyGen, r.value);
        memoKeysSeen := memoKeysSeen + {r.value};
      }
    }

    /** `db.memos.delete(key)`: removes the record at `key`, if any; an absent key is not an error. */
    method MemosDelete(key: int) returns (r: Result<()>)
      requires Valid()
      modifies this
      ensures Valid()
      ensures r.Ok? <==> isOpen
      ensures memos == (if isOpen then old(memos) - {key} else old(memos))
      ensures memoKeyGen == old(memoKeyGen) && memoKeysSeen == old(memoKeysSeen)
      ensures comments == old(comments) && commentKeyGen == old(commentKeyGen)
    {
      if !isOpen {
        return Err(DatabaseClosed);
      }
      memos := memos - {key};
      r := Ok(());
    }

    /** `db.memos.get(key)`: the record stored at `key`, if any; asking without a key (an undefined id) is a DataError. */
    function MemosGet(key: Option<int>): (r: Result<Option<Memo>>)
      reads this
      requires Valid()
      ensures r.Ok? <==> isOpen && key.Some?
      ensures r.Err? && isOpen ==> r.error == DataError
      ensures r.Ok? ==> (r.value.Some? <==> key.value in memos)
      ensures r.Ok? && r.value.Some? ==> r.value.value == memos[key.value] && r.value.value.id == key
    {
      if !isOpen then Err(DatabaseClosed)
      else match key
        case None => Err(DataError)
        case Some(k) => Ok(if k in memos then Some(memos[k]) else None)
    }

    /** `db.memos.toArray()`: every stored memo once, in ascending order of id. */
    function MemosToArray(): (r: Result<seq<Memo>>)
      reads this
      requires Valid()
      ensures r.Ok? <==> isOpen
      ensures r.Ok? ==> |r.value| == |memos| && forall m :: m in r.value <==> m in memos.Values
      ensures r.Ok? ==> MemoIdsAscending(r.value)
    {
      if isOpen then Ok(Rows(memos)) else Err(DatabaseClosed)
    }

    /**
     * `db.comments.add(comment)`: stores the comment under its own id, or
     * under a generated key when it has none, and never overwrites a record.
     */
    method CommentsAdd(c: MemoComment) returns (r: Result<int>)
      requires Valid()
      modifies this
      ensures Valid()
      ensures r == (if isOpen then KeyFor(old(comments).Keys, old(commentKeyGen), c.id, true) else Err(DatabaseClosed))
      ensures r.Ok? ==> r.value !in old(comments)
      ensures r.Ok? ==> comments == old(comments)[r.value := c.(id := Some(r.value))]
      ensures r.Ok? ==> commentKeyGen == Advance(old(commentKeyGen), r.value)
      ensures r.Ok? && c.id.None? ==> r.value !in old(commentKeysSeen) && forall k :: k in old(commentKeysSeen) ==> k < r.value
      ensures r.Err? ==> comments == old(comments) && commentKeyGen == old(commentKeyGen)
      ensures commentKeysSeen == (if r.Ok? then old(commentKeysSeen) + {r.value} else old(commentKeysSeen))
      ensures memos == old(memos) && memoKeyGen == old(memoKeyGen) && memoKeysSeen == old(memoKeysSeen)
    {
      if !isOpen {
        return Err(DatabaseClosed);
      }
      r := KeyFor(comments.Keys, commentKeyGen, c.id, true);
      if r.Ok? {
        AdvanceStaysAhead(commentKeysSeen, commentKeyGen, r.value);
        comments := comments[r.value := c.(id := Some(r.value))];
        commentKeyGen := Advance(commentKeyGen, r.value);
        commentKeysSeen := commentKeysSeen + {r.value};
      }
    }

    /**
     * `db.comments.delete(key)`: removes the comment at `key`, if any;
     * deleting without a key (an undefined id) is a DataError.
     */
    method CommentsDelete(key: Option<int>) returns (r: Result<()>)
      requires Valid()
      modifies this
      ensures Valid()
      ensures r.Ok? <==> isOpen && key.Some?
      ensures r.Err? && isOpen ==> r.error == DataError
      ensures comments == (if r.Ok? then old(comments) - {key.value} else old(comments))
      ensures commentKeyGen == old(commentKeyGen) && commentKeysSeen == old(commentKeysSeen)
      ensures memos == old(memos) && memoKeyGen == old(memoKeyGen)
    {
      if !isOpen {
        return Err(DatabaseClosed);
      }
      match key
      case None =>
        r := Err(DataError);
      case Some(k) =>
        comments := comments - {k};
        r := Ok(());
    }

    /** `db.comments.toArray()`: every stored comment once, in ascending order of id. */
    function CommentsToArray(): (r: Result<seq<MemoComment>>)
      reads this
      requires Valid()
      ensures r.Ok? <==> isOpen
      ensures r.Ok? ==> |r.value| == |comments| && forall c :: c in r.value <==> c in comments.Values
      ensures r.Ok? ==> CommentIdsAscending(r.value)
    {
      if isOpen then Ok(Rows(comments)) else Err(DatabaseClosed)
    }

    /**
     * `db.comments.where('memoId').equals(memoId).toArray()`: a lookup through
     * the `memoId` index gives exactly the stored comments carrying `memoId`,
     * in ascending order of id.
     */
    function CommentsWhereMemoId(memoId: int): (r: Result<seq<MemoComment>>)
      reads this
      requires Valid()
      ensures r.Ok? <==> isOpen
      ensures r.Ok? ==> forall c :: c in r.value <==> c in comments.Values && c.memoId == memoId
      ensures r.Ok? ==> CommentIdsAscending(r.value)
    {
      if isOpen then
        CommentsOfAscending(CommentsToArray().value, Some(memoId));
        Ok(CommentsOf(Rows(comments), Some(memoId)))
      else Err(DatabaseClosed)
    }
  }
}
