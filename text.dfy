/** The string operations the forms use, with ECMAScript's semantics. */
module Text {

  /**
   * ECMAScript's WhiteSpace and LineTerminator characters: exactly what
   * `String.prototype.trim` removes from either end.
   */
  predicate IsSpace(c: char)
  {
    c == '\t' || c == '\n' || c == '\U{000B}' || c == '\U{000C}' || c == '\r' || c == ' '
    || c == '\U{00A0}' || c == '\U{1680}' || ('\U{2000}' <= c <= '\U{200A}')
    || c == '\U{2028}' || c == '\U{2029}' || c == '\U{202F}' || c == '\U{205F}'
    || c == '\U{3000}' || c == '\U{FEFF}'
  }

  /** `s` is nothing but white space, so it trims to the empty string. */
  predicate Blank(s: string)
  {
    forall i :: 0 <= i < |s| ==> IsSpace(s[i])
  }

  /** `s.trimStart()`: the suffix of `s` left after its leading white space. */
  function TrimStart(s: string): (r: string)
    ensures |r| <= |s| && r == s[|s| - |r|..]
    ensures forall i :: 0 <= i < |s| - |r| ==> IsSpace(s[i])
    ensures r == [] || !IsSpace(r[0])
  {
    if s != [] && IsSpace(s[0]) then TrimStart(s[1..]) else s
  }

  /** `s.trimEnd()`: the prefix of `s` left before its trailing white space. */
  function TrimEnd(s: string): (r: string)
    ensures |r| <= |s| && r == s[..|r|]
    ensures forall i :: |r| <= i < |s| ==> IsSpace(s[i])
    ensures r == [] || !IsSpace(r[|r| - 1])
  {
    if s != [] && IsSpace(s[|s| - 1]) then TrimEnd(s[..|s| - 1]) else s
  }

  /** No white space at either end. */
  predicate TrimmedAlready(s: string)
  {
    s == [] || (!IsSpace(s[0]) && !IsSpace(s[|s| - 1]))
  }

  /** `r` is a slice of `s` with nothing but white space before and after it. */
  predicate MiddleOf(s: string, r: string)
  {
    exists i :: 0 <= i <= |s| - |r| && r == s[i..i + |r|] && Blank(s[..i]) && Blank(s[i + |r|..])
  }

  /**
   * `s.trim()`: the middle of `s` without white space at either end, that
   * is, a slice of `s` with nothing but white space before and after it.
   */
  function Trim(s: string): (r: string)
    ensures TrimmedAlready(r)
    ensures MiddleOf(s, r)
    ensures forall c :: c in r ==> c in s
    ensures r == [] <==> Blank(s)
  {
    TrimIsMiddle(s);
    TrimKeepsCharacters(s);
    TrimEnd(TrimStart(s))
  }

  /** Trimming the start and then the end leaves the slice of `s` between its outer white space. */
  lemma TrimIsMiddle(s: string)
    ensures MiddleOf(s, TrimEnd(TrimStart(s)))
  {
    var t := TrimStart(s);
    var r := TrimEnd(t);
    var i := |s| - |t|;
    assert t == s[i..] && r == t[..|r|];
    assert r == s[i..i + |r|];
    var after := s[i + |r|..];
    forall j | 0 <= j < |after| ensures IsSpace(after[j]) {
      assert after[j] == t[|r| + j];
    }
    var before := s[..i];
    forall j | 0 <= j < |before| ensures IsSpace(before[j]) {
      assert before[j] == s[j];
    }
    assert 0 <= i <= |s| - |r| && r == s[i..i + |r|] && Blank(s[..i]) && Blank(s[i + |r|..]);
  }

  /** Trimming the start and then the end keeps characters of `s` only. */
  lemma TrimKeepsCharacters(s: string)
    ensures forall c :: c in TrimEnd(TrimStart(s)) ==> c in s
  {
    var t := TrimStart(s);
    var r := TrimEnd(t);
    forall c | c in r ensures c in s {
      var i :| 0 <= i < |r| && r[i] == c;
      assert r[i] == t[i] == s[|s| - |t| + i];
    }
  }

  /** Trimming a string that already has no white space at either end changes nothing. */
  lemma TrimUnchanged(s: string)
    requires TrimmedAlready(s)
    ensures Trim(s) == s
  {
  }

  /** Trimming twice is trimming once. */
  lemma TrimIdempotent(s: string)
    ensures Trim(Trim(s)) == Trim(s)
  {
    TrimUnchanged(Trim(s));
  }

  /** The number of occurrences of `c` in `s`. */
  function Occurrences(s: string, c: char): nat
  {
    if s == [] then 0 else (if s[0] == c then 1 else 0) + Occurrences(s[1..], c)
  }

  /**
   * `s.split(sep)` for a one-character separator: the pieces between
   * separators, empty pieces included, so one more piece than separators.
   */
  function Split(s: string, sep: char): (r: seq<string>)
    ensures |r| == Occurrences(s, sep) + 1
    ensures forall i :: 0 <= i < |r| ==> sep !in r[i]
  {
    if s == [] then [[]]
    else
      var rest := Split(s[1..], sep);
      if s[0] == sep then [[]] + rest else [[s[0]] + rest[0]] + rest[1..]
  }

  /** `parts.join(glue)`: the pieces with `glue` between neighbours; no pieces give the empty string. */
  function Join(parts: seq<string>, glue: string): string
  {
    if parts == [] then []
    else if |parts| == 1 then parts[0]
    else parts[0] + glue + Join(parts[1..], glue)
  }

  /** Joining the pieces of a split with the same separator gives back the string. */
  lemma {:induction false} JoinSplit(s: string, sep: char)
    ensures Join(Split(s, sep), [sep]) == s
  {
    if s != [] {
      var rest := Split(s[1..], sep);
      JoinSplit(s[1..], sep);
      if s[0] != sep && |rest| > 1 {
        assert Join(rest, [sep]) == rest[0] + [sep] + Join(rest[1..], [sep]);
        assert rest[1..] == Split(s, sep)[1..];
      }
    }
  }

  /** A piece with no separator in it splits as itself, and it splits off the front of a longer string. */
  lemma {:induction false} SplitPiece(p: string, tail: string, sep: char)
    requires sep !in p
    ensures Split(p, sep) == [p]
    ensures Split(p + [sep] + tail, sep) == [p] + Split(tail, sep)
  {
    if p != [] {
      SplitPiece(p[1..], tail, sep);
      assert [p[0]] + p[1..] == p;
      assert (p + [sep] + tail)[1..] == p[1..] + [sep] + tail;
    } else {
      assert p + [sep] + tail == [sep] + tail;
    }
  }

  /** Splitting a join of separator-free pieces gives back the pieces. */
  lemma {:induction false} SplitJoin(parts: seq<string>, sep: char)
    requires parts != []
    requires forall i :: 0 <= i < |parts| ==> sep !in parts[i]
    ensures Split(Join(parts, [sep]), sep) == parts
  {
    SplitPiece(parts[0], [], sep);
    if |parts| > 1 {
      SplitJoin(parts[1..], sep);
      SplitPiece(parts[0], Join(parts[1..], [sep]), sep);
    }
  }

  /** Every piece trimmed: `pieces.map(p => p.trim())`. */
  function TrimEach(pieces: seq<string>): (r: seq<string>)
    ensures |r| == |pieces|
    ensures forall i :: 0 <= i < |r| ==> r[i] == Trim(pieces[i])
  {
    seq(|pieces|, i requires 0 <= i < |pieces| => Trim(pieces[i]))
  }

  /**
   * `text.split(',').map(tag => tag.trim())`: tag `i` is the `i`-th
   * comma-separated piece, trimmed (an empty input gives one empty tag), so
   * no tag holds a comma or surrounding white space.
   */
  function SplitTags(text: string): (tags: seq<string>)
    ensures |tags| == Occurrences(text, ',') + 1
    ensures forall i :: 0 <= i < |tags| ==> tags[i] == Trim(Split(text, ',')[i])
    ensures forall i :: 0 <= i < |tags| ==> ',' !in tags[i] && TrimmedAlready(tags[i])
  {
    TrimEach(Split(text, ','))
  }

  /**
   * Splitting on commas the tags joined with `", "`: the first piece is the
   * first tag, every later piece is its tag behind one space.
   */
  lemma {:induction false} SplitCommaSpaceJoin(parts: seq<string>)
    requires parts != []
    requires forall i :: 0 <= i < |parts| ==> ',' !in parts[i]
    ensures var r := Split(Join(parts, ", "), ',');
      |r| == |parts| && r[0] == parts[0] && forall i :: 1 <= i < |parts| ==> r[i] == " " + parts[i]
  {
    if |parts| == 1 {
      SplitPiece(parts[0], [], ',');
    } else {
      var tail := Join(parts[1..], ", ");
      assert Join(parts, ", ") == parts[0] + [','] + (" " + tail);
      SplitPiece(parts[0], " " + tail, ',');
      SplitCommaSpaceJoin(parts[1..]);
      assert (" " + tail)[1..] == tail;
    }
  }

  /** A space in front of an already trimmed string is trimmed away again. */
  lemma TrimPadded(t: string)
    requires TrimmedAlready(t)
    ensures Trim(" " + t) == t
  {
    assert (" " + t)[1..] == t;
  }

  /**
   * The hashtag field shows the tags joined with `", "` and reads the typed
   * text back through SplitTags: for tags without commas or outer white
   * space, reading back what is shown gives the same tags.
   */
  lemma TagsRedisplay(tags: seq<string>)
    requires tags != []
    requires forall i :: 0 <= i < |tags| ==> ',' !in tags[i] && TrimmedAlready(tags[i])
    ensures SplitTags(Join(tags, ", ")) == tags
  {
    SplitCommaSpaceJoin(tags);
    var pieces := Split(Join(tags, ", "), ',');
    forall i | 0 <= i < |tags| ensures Trim(pieces[i]) == tags[i] {
      if i == 0 {
        TrimUnchanged(tags[0]);
      } else {
        TrimPadded(tags[i]);
      }
    }
  }
}
