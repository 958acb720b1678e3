/** Properties of the tokenising session: what a split stores, what the
    lookups return afterwards, and how `set_string` makes the list stale. */
module StrtokSessionProofs {
  import opened Optional
  import opened CStrings
  import opened Strtok
  import opened StrtokProofs
  import opened StrtokSession

  /** A successful split replaces the whole list: its result does not depend
      on what the list held before. */
  lemma SplittingDiscardsOldList(s: Session, delim: Text)
    requires s.buf.Some?
    ensures StringSplitting(Some(s), Some(delim)) == StringSplitting(Some(s.(toks := [])), Some(delim))
    ensures StringSplitting(Some(s), Some(delim)).status == Ok
  {
  }

  /** After a successful split the list holds pointers into the current
      buffer at exactly the token starts of the string as it was before the
      split (a non-delimiter before the terminator that begins the buffer or
      follows a delimiter), in strictly increasing order; the buffer is the
      split one; and the session stays valid. */
  lemma {:induction false} SplittingStoresTheTokens(s: Session, delim: Text)
    requires s.buf.Some?
    ensures StringSplitting(Some(s), Some(delim)).status == Ok
    ensures StringSplitting(Some(s), Some(delim)).handle.value.buf == Some(Tokenize(s.buf.value, delim).0)
    ensures var toks := StringSplitting(Some(s), Some(delim)).handle.value.toks;
      forall i, j :: 0 <= i < j < |toks| ==> toks[i].offset < toks[j].offset
    ensures forall k {:trigger TokPtr(s.gen, k)} :: 0 <= k < |s.buf.value| ==>
      (TokPtr(s.gen, k) in StringSplitting(Some(s), Some(delim)).handle.value.toks <==>
        && k < Len(s.buf.value) && !IsDelim(s.buf.value[k], delim)
        && (k == 0 || IsDelim(s.buf.value[k - 1], delim)))
  {
    var toks := Pointers(s.gen, Tokenize(s.buf.value, delim).1);
    assert StringSplitting(Some(s), Some(delim)).handle.value.toks == toks;
    PointersIncrease(s.gen, s.buf.value, delim);
    forall k | 0 <= k < |s.buf.value|
      ensures TokPtr(s.gen, k) in toks <==>
        && k < Len(s.buf.value) && !IsDelim(s.buf.value[k], delim)
        && (k == 0 || IsDelim(s.buf.value[k - 1], delim))
    {
      PointerAtTokenStart(s.gen, s.buf.value, delim, k);
    }
  }

  /** After a split, the list holds a pointer to the start of the current
      buffer exactly when the string is non-empty and begins with a
      non-delimiter; this is the pointer the lookup compares with the buffer
      address. */
  lemma SplitStartsAtBufferStart(s: Session, delim: Text)
    requires s.buf.Some? && 0 < |s.buf.value|
    ensures TokPtr(s.gen, 0) in StringSplitting(Some(s), Some(delim)).handle.value.toks <==>
      0 < Len(s.buf.value) && !IsDelim(s.buf.value[0], delim)
  {
    SplittingStoresTheTokens(s, delim);
  }

  /** The pointers a split of `b` appends are in strictly increasing order. */
  lemma PointersIncrease(gen: nat, b: seq<char>, delim: Text)
    ensures var toks := Pointers(gen, Tokenize(b, delim).1);
      forall i, j :: 0 <= i < j < |toks| ==> toks[i].offset < toks[j].offset
  {
    TokenizeCharacterized(b, delim);
    PointersMirror(gen, Tokenize(b, delim).1);
  }

  /** A split of `b` appends a pointer to offset `k` exactly when a token of
      `b` starts there. */
  lemma PointerAtTokenStart(gen: nat, b: seq<char>, delim: Text, k: nat)
    requires k < |b|
    ensures TokPtr(gen, k) in Pointers(gen, Tokenize(b, delim).1) <==>
      k < Len(b) && !IsDelim(b[k], delim) && (k == 0 || IsDelim(b[k - 1], delim))
  {
    PointersMirror(gen, Tokenize(b, delim).1);
    TokenStartIff(b, delim, k);
  }

  /** The pointers a split appends hold exactly the offsets it returned, and
      in the same order. */
  lemma PointersMirror(gen: nat, offs: seq<nat>)
    ensures forall k :: TokPtr(gen, k) in Pointers(gen, offs) <==> k in offs
    ensures (forall x, y :: 0 <= x < y < |offs| ==> offs[x] < offs[y]) ==>
      forall i, j :: 0 <= i < j < |Pointers(gen, offs)| ==>
        Pointers(gen, offs)[i].offset < Pointers(gen, offs)[j].offset
  {
    var ps := Pointers(gen, offs);
    forall k
      ensures TokPtr(gen, k) in ps <==> k in offs
    {
      if k in offs {
        var t :| 0 <= t < |offs| && offs[t] == k;
        assert ps[t] == TokPtr(gen, k);
      }
      if TokPtr(gen, k) in ps {
        var t :| 0 <= t < |ps| && ps[t] == TokPtr(gen, k);
        assert offs[t] == k;
      }
    }
  }

  /** A split keeps the session valid, whatever state the session was in. */
  lemma {:induction false} SplittingKeepsValid(s: Session, delim: Text)
    requires s.buf.Some?
    ensures Valid(StringSplitting(Some(s), Some(delim)).handle.value)
  {
    var b := s.buf.value;
    var nb := Tokenize(b, delim).0;
    var offs := Tokenize(b, delim).1;
    var r := StringSplitting(Some(s), Some(delim)).handle.value;
    TokenizeCharacterized(b, delim);
    forall i | 0 <= i < |r.toks|
      ensures r.toks[i].offset < |nb| && nb[r.toks[i].offset] != NUL
    {
      TokensAreMaximalRuns(b, delim, i);
    }
  }

  /** Reading each stored pointer back after a split gives the token as a C
      string: the maximal run of non-delimiters that starts at it in the
      string as it was, non-empty and free of delimiters. */
  lemma {:induction false} SplitTokensReadBack(s: Session, delim: Text, i: nat)
    requires s.buf.Some?
    requires i < |StringSplitting(Some(s), Some(delim)).handle.value.toks|
    ensures var r := StringSplitting(Some(s), Some(delim)).handle.value;
      var b := s.buf.value;
      var o := r.toks[i].offset;
      && o < |b|
      && o < RunEnd(b, delim, o)
      && Read(r, Token(r.toks[i])) == Some(b[o..RunEnd(b, delim, o)])
      && (forall c :: c in b[o..RunEnd(b, delim, o)] ==> !IsDelim(c, delim))
  {
    var b := s.buf.value;
    TokensAreMaximalRuns(b, delim, i);
  }

  /** What `get_straddr_by_index` gives right after a successful split: a
      parameter error for a negative index, and for every index when the
      string is empty or starts with a delimiter (its first token is then not
      at the start of the buffer); otherwise the `index`-th token, or NULL past
      the last one. */
  lemma LookupAfterSplit(s: Session, delim: Text, index: int)
    requires s.buf.Some?
    ensures var r := StringSplitting(Some(s), Some(delim)).handle;
      var b := s.buf.value;
      var offs := Tokenize(b, delim).1;
      GetStraddrByIndex(r, index) ==
        if index < 0 || Len(b) == 0 || IsDelim(b[0], delim) then AddrParError
        else if index < |offs| then Token(TokPtr(s.gen, offs[index]))
        else Null
  {
  }


  /** A successful `set_string` leaves the list pointing into the discarded
      buffer: the count still reports the old tokens, but every lookup is a
      parameter error until the next split. */
  lemma SetStringMakesListStale(s: Session, str: Text, index: int)
    requires Valid(s)
    ensures var r := SetString(Some(s), str).handle;
      && GetListCount(r) == GetListCount(Some(s))
      && GetStraddrByIndex(r, index) == AddrParError
  {
  }

  /** The buffer `set_string` installs is an exact copy of the input with its
      terminator: read as a C string it gives the input back. */
  lemma SetStringCopiesInput(s: Session, str: Text)
    ensures var b := SetString(Some(s), str).handle.value.buf.value;
      && |b| == |str| + 1
      && Len(b) == |str|
      && StrAt(b, 0) == str
  {
    StrAtTerminated(str);
  }

  /** After `clear_completely` the caller's handle is null, and every session
      operation on it is a parameter error. */
  lemma ClearedHandleIsNull(s: Session, str: Text, delim: Option<Text>, index: int)
    ensures ClearCompletely(Some(Some(s))) == (Ok, Some(None))
    ensures var h := ClearCompletely(Some(Some(s))).1.value;
      && h.None?
      && SetString(h, str).status == ParError
      && StringSplitting(h, delim).status == ParError
      && GetListCount(h) == CountParError
      && GetStraddrByIndex(h, index) == AddrParError
  {
  }

  /** A session just created has no string to split: splitting it is a
      parameter error and leaves it as it was. */
  lemma FreshSessionCannotSplit(delim: Option<Text>)
    ensures StringSplitting(Some(StructCreate()), delim) == Outcome(ParError, Some(StructCreate()))
  {
  }

  /** The token starts of the string held at the start of `b`. */
  ghost function TokenStarts(b: seq<char>, delim: Text): (ks: set<nat>)
  {
    set k: nat | k < |b| && StartsToken(b, delim, 0, k)
  }

  /** The set of elements of a sequence. */
  ghost function Elements(xs: seq<nat>): (e: set<nat>)
  {
    set x | x in xs
  }

  /** A strictly increasing sequence has as many elements as its set. */
  lemma {:induction false} IncreasingCard(xs: seq<nat>)
    requires forall x, y :: 0 <= x < y < |xs| ==> xs[x] < xs[y]
    ensures |Elements(xs)| == |xs|
  {
    if |xs| > 0 {
      var tail := xs[1..];
      forall x, y | 0 <= x < y < |tail|
        ensures tail[x] < tail[y]
      {
        assert tail[x] == xs[x + 1] && tail[y] == xs[y + 1];
      }
      IncreasingCard(tail);
      forall j | 0 <= j < |tail|
        ensures tail[j] != xs[0]
      {
        assert tail[j] == xs[j + 1];
      }
      assert xs[0] !in Elements(tail);
      forall v
        ensures v in Elements(xs) <==> v in Elements(tail) + {xs[0]}
      {
        assert v in xs <==> v == xs[0] || v in tail by {
          assert xs == [xs[0]] + tail;
        }
      }
      assert Elements(xs) == Elements(tail) + {xs[0]};
    }
  }

  /** After a successful split `get_list_count` reports the number of token
      starts of the string as it was before the split. */
  lemma {:induction false} CountAfterSplit(s: Session, delim: Text)
    requires s.buf.Some?
    ensures GetListCount(StringSplitting(Some(s), Some(delim)).handle)
      == Count(|TokenStarts(s.buf.value, delim)|)
  {
    var b := s.buf.value;
    var offs := Tokenize(b, delim).1;
    ScanCorrect(b, delim, 0);
    IncreasingCard(offs);
    assert Elements(offs) == TokenStarts(b, delim);
  }

  /** The corrected lookup right after a successful split: a parameter error
      for a negative index or an empty list, otherwise the `index`-th token,
      or NULL past the last one, whatever the string starts with. */
  lemma {:induction false} LookupCurrentAfterSplit(s: Session, delim: Text, index: int)
    requires s.buf.Some?
    ensures var r := StringSplitting(Some(s), Some(delim)).handle;
      var offs := Tokenize(s.buf.value, delim).1;
      GetStraddrByIndexCurrent(r, index) ==
        if index < 0 || |offs| == 0 then AddrParError
        else if index < |offs| then Token(TokPtr(s.gen, offs[index]))
        else Null
  {
  }

  /** The corrected lookup still refuses a list that `set_string` has made
      stale: after a new string is installed every index is a parameter
      error until the next split. */
  lemma SetStringMakesListStaleCurrent(s: Session, str: Text, index: int)
    requires Valid(s)
    ensures GetStraddrByIndexCurrent(SetString(Some(s), str).handle, index) == AddrParError
  {
  }
}
