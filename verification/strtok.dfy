/** The C library's `strtok` (section 7.24.5.8 of ISO/IEC 9899:2011) as pure
    functions over an immutable buffer, and the destructive splitting that
    repeated calls perform on it. The hidden static "saved pointer" of
    `strtok` is an explicit position. */
module Strtok {
  import opened Optional
  import opened CStrings

  /** `c` is one of the delimiter characters. The terminator is never one,
      because a delimiter set is itself a C string. */
  predicate IsDelim(c: char, delims: Text) {
    c in delims
  }

  /** First position at or after `i` that does not hold a delimiter, or `|b|`. */
  function SkipDelims(b: seq<char>, delims: Text, i: nat): (s: nat)
    requires i <= |b|
    ensures i <= s <= |b|
    ensures forall k :: i <= k < s ==> IsDelim(b[k], delims)
    ensures s < |b| ==> !IsDelim(b[s], delims)
    decreases |b| - i
  {
    if i == |b| || !IsDelim(b[i], delims) then i else SkipDelims(b, delims, i + 1)
  }

  /** First position at or after `i` that holds a delimiter or a NUL, or `|b|`:
      the end of the run of token characters that starts at `i`. */
  function RunEnd(b: seq<char>, delims: Text, i: nat): (e: nat)
    requires i <= |b|
    ensures i <= e <= |b|
    ensures forall k :: i <= k < e ==> b[k] != NUL && !IsDelim(b[k], delims)
    ensures e < |b| ==> b[e] == NUL || IsDelim(b[e], delims)
    decreases |b| - i
  {
    if i == |b| || b[i] == NUL || IsDelim(b[i], delims) then i
    else RunEnd(b, delims, i + 1)
  }

  /** What one call of `strtok` leaves behind: the buffer, the token it
      returned (an offset, or None for a null pointer) and the saved position
      the next call resumes from. */
  datatype Step = Step(buf: seq<char>, tok: Option<nat>, next: nat)

  /** One call of `strtok`, resuming at `pos` (the start of the buffer on the
      first call, the saved position afterwards): skip delimiters; at the
      terminator there is no token; otherwise the token runs to the next
      delimiter, which is overwritten with NUL, and the next call resumes just
      after it; a token that runs into the terminator leaves the saved position
      there, so that every later call returns a null pointer. */
  function StrtokStep(b: seq<char>, delims: Text, pos: nat): (r: Step)
    requires pos <= |b|
    ensures |r.buf| == |b|
    ensures r.next <= |b|
    ensures r.tok.None? ==> r.buf == b
    ensures r.tok.Some? ==> pos <= r.tok.value < r.next
    ensures r.tok.Some? ==> r.tok.value < |b| && r.buf[r.tok.value] == b[r.tok.value] != NUL
    ensures forall k :: 0 <= k < pos ==> r.buf[k] == b[k]
  {
    var s := SkipDelims(b, delims, pos);
    if s == |b| || b[s] == NUL then Step(b, None, s)
    else
      var e := RunEnd(b, delims, s);
      if e == |b| || b[e] == NUL then Step(b, Some(s), e)
      else Step(b[e := NUL], Some(s), e + 1)
  }

  /** Calls `strtok` from `pos` until it returns a null pointer; yields the
      final buffer and the offsets of the tokens returned, in call order. */
  function Scan(b: seq<char>, delims: Text, pos: nat): (r: (seq<char>, seq<nat>))
    requires pos <= |b|
    ensures |r.0| == |b|
    decreases |b| - pos
  {
    var st := StrtokStep(b, delims, pos);
    if st.tok.None? then (b, [])
    else
      var rest := Scan(st.buf, delims, st.next);
      (rest.0, [st.tok.value] + rest.1)
  }

  /** Destructive splitting of a whole buffer: the first `strtok` call gets the
      buffer, the later ones resume where the previous one stopped. */
  function Tokenize(b: seq<char>, delims: Text): (r: (seq<char>, seq<nat>))
    ensures |r.0| == |b|
  {
    Scan(b, delims, 0)
  }

  /** The splitting loop as the C code writes it: call `strtok` on the buffer
      first and with the saved position afterwards, appending each returned
      token, until a call returns a null pointer. It computes `Tokenize`. */
  method SplitLoop(b: seq<char>, delims: Text) returns (nb: seq<char>, offs: seq<nat>)
    ensures (nb, offs) == Tokenize(b, delims)
  {
    nb, offs := b, [];
    var pos: nat := 0;
    assert [] + Scan(b, delims, 0).1 == Scan(b, delims, 0).1;
    while true
      invariant pos <= |nb| == |b|
      invariant Tokenize(b, delims) == (Scan(nb, delims, pos).0, offs + Scan(nb, delims, pos).1)
      decreases |nb| - pos
    {
      var st := StrtokStep(nb, delims, pos);
      if st.tok.None? {
        break;
      }
      ghost var rest := Scan(st.buf, delims, st.next);
      assert Scan(nb, delims, pos) == (rest.0, [st.tok.value] + rest.1);
      assert (offs + [st.tok.value]) + rest.1 == offs + ([st.tok.value] + rest.1);
      offs := offs + [st.tok.value];
      nb, pos := st.buf, st.next;
    }
    assert Scan(nb, delims, pos) == (nb, []);
    assert offs + [] == offs;
  }

  /** `k` starts a token of the string read from `from`: it lies before the
      terminator, is not a delimiter, and follows a delimiter (or `from`). */
  predicate StartsToken(b: seq<char>, delims: Text, from: nat, k: nat)
    requires from <= k < |b|
  {
    k < NulFrom(b, from) && !IsDelim(b[k], delims) && (k == from || IsDelim(b[k - 1], delims))
  }

  /** `k` holds the delimiter that ends a token of the string read from `from`:
      the one position `strtok` overwrites with NUL for that token. */
  predicate EndsToken(b: seq<char>, delims: Text, from: nat, k: nat)
    requires from <= k < |b|
  {
    from < k < NulFrom(b, from) && IsDelim(b[k], delims) && !IsDelim(b[k - 1], delims)
  }

  /** The buffer a scan from `from` must leave, stated without `strtok`: it
      differs from `b` exactly at the delimiters that end tokens, which become NUL. */
  ghost predicate BufferMeets(b: seq<char>, delims: Text, from: nat, nb: seq<char>)
    requires from <= |b|
  {
    && |nb| == |b|
    && (forall k :: 0 <= k < from ==> nb[k] == b[k])
    && (forall k :: from <= k < |b| ==> nb[k] == if EndsToken(b, delims, from, k) then NUL else b[k])
  }

  /** The offsets a scan from `from` must return, stated without `strtok`: all
      the token starts and nothing else, in strictly increasing order. */
  ghost predicate OffsetsMeet(b: seq<char>, delims: Text, from: nat, offs: seq<nat>)
    requires from <= |b|
  {
    && (forall x, y :: 0 <= x < y < |offs| ==> offs[x] < offs[y])
    && (forall t :: 0 <= t < |offs| ==> from <= offs[t] < |b| && StartsToken(b, delims, from, offs[t]))
    && (forall k :: from <= k < |b| && StartsToken(b, delims, from, k) ==> k in offs)
  }

  ghost predicate ScanMeets(b: seq<char>, delims: Text, from: nat, nb: seq<char>, offs: seq<nat>)
    requires from <= |b|
  {
    BufferMeets(b, delims, from, nb) && OffsetsMeet(b, delims, from, offs)
  }
}

module StrtokProofs {
  import opened Optional
  import opened CStrings
  import opened Strtok

  /** A scan from `from` does what `ScanMeets` says: it NUL-terminates exactly
      the tokens it finds and returns every token start, in order. */
  lemma {:induction false} ScanCorrect(b: seq<char>, delims: Text, from: nat)
    requires from <= |b|
    ensures ScanMeets(b, delims, from, Scan(b, delims, from).0, Scan(b, delims, from).1)
    decreases |b| - from, 1
  {
    var s := SkipDelims(b, delims, from);
    if s == |b| || b[s] == NUL {
      ScanNoToken(b, delims, from);
    } else if SplitsAt(b, delims, from) {
      ScanSplitToken(b, delims, from);
    } else {
      ScanLastToken(b, delims, from);
    }
  }

  /** Only delimiters before the terminator: no token, nothing written. */
  lemma ScanNoToken(b: seq<char>, delims: Text, from: nat)
    requires from <= |b|
    requires var s := SkipDelims(b, delims, from); s == |b| || b[s] == NUL
    ensures ScanMeets(b, delims, from, Scan(b, delims, from).0, Scan(b, delims, from).1)
  {
    var s := SkipDelims(b, delims, from);
    NulFromAt(b, from, s);
    assert Scan(b, delims, from) == (b, []);
  }

  /** One token that runs into the terminator: it is returned, nothing written. */
  lemma ScanLastToken(b: seq<char>, delims: Text, from: nat)
    requires from <= |b|
    requires var s := SkipDelims(b, delims, from);
      s < |b| && b[s] != NUL &&
      var e := RunEnd(b, delims, s); e == |b| || b[e] == NUL
    ensures ScanMeets(b, delims, from, Scan(b, delims, from).0, Scan(b, delims, from).1)
  {
    var r := Scan(b, delims, from);
    var s := SkipDelims(b, delims, from);
    var e := RunEnd(b, delims, s);
    NulFromAt(b, from, e);
    assert StrtokStep(b, delims, from) == Step(b, Some(s), e);
    assert SkipDelims(b, delims, e) == e;
    assert StrtokStep(b, delims, e).tok.None?;
    assert Scan(b, delims, e) == (b, []);
    assert r == (b, [s] + []);
    assert [s] + [] == [s];
  }

  /** A token ended by a delimiter: that delimiter becomes NUL and the scan
      resumes after it; the rest of the result comes from the resumed scan. */
  lemma ScanSplitToken(b: seq<char>, delims: Text, from: nat)
    requires from <= |b|
    requires SplitsAt(b, delims, from)
    ensures ScanMeets(b, delims, from, Scan(b, delims, from).0, Scan(b, delims, from).1)
    decreases |b| - from, 0
  {
    var s := SkipDelims(b, delims, from);
    var e := RunEnd(b, delims, s);
    var rest := Scan(b[e := NUL], delims, e + 1);
    assert ScanMeets(b[e := NUL], delims, e + 1, rest.0, rest.1) by {
      ScanCorrect(b[e := NUL], delims, e + 1);
    }
    assert Scan(b, delims, from) == (rest.0, [s] + rest.1) by {
      ScanResumes(b, delims, from, s, e);
    }
    assert BufferMeets(b, delims, from, rest.0) by {
      ResumeAgrees(b, delims, from, s, e);
      SplitBuffer(b, delims, from, s, e, rest.0);
    }
    assert OffsetsMeet(b, delims, from, [s] + rest.1) by {
      ResumeAgrees(b, delims, from, s, e);
      SplitOffsets(b, delims, from, s, e, rest.1);
    }
    assert ScanMeets(b, delims, from, rest.0, [s] + rest.1);
  }

  /** The first `strtok` call from `from` finds a token ended by a delimiter. */
  predicate SplitsAt(b: seq<char>, delims: Text, from: nat)
    requires from <= |b|
  {
    var s := SkipDelims(b, delims, from);
    s < |b| && b[s] != NUL &&
    var e := RunEnd(b, delims, s);
    e < |b| && b[e] != NUL
  }

  /** The token a splitting scan from `from` finds first starts at `s` and
      is ended by the delimiter at `e`. */
  predicate FirstCut(b: seq<char>, delims: Text, from: nat, s: nat, e: nat)
    requires from <= |b|
  {
    SplitsAt(b, delims, from) && s == SkipDelims(b, delims, from) && e == RunEnd(b, delims, s)
  }

  /** A scan whose first call finds a token ended by a delimiter records that
      token and goes on as the scan resumed after the overwritten delimiter. */
  lemma ScanResumes(b: seq<char>, delims: Text, from: nat, s: nat, e: nat)
    requires from <= |b|
    requires FirstCut(b, delims, from, s, e)
    ensures e < |b|
    ensures Scan(b, delims, from) == (Scan(b[e := NUL], delims, e + 1).0, [s] + Scan(b[e := NUL], delims, e + 1).1)
  {
    assert StrtokStep(b, delims, from) == Step(b[e := NUL], Some(s), e + 1);
  }

  /** A scan returns offsets from `pos` on, inside the buffer, and leaves the
      buffer before `pos` alone. */
  lemma {:induction false} ScanBounds(b: seq<char>, delims: Text, pos: nat)
    requires pos <= |b|
    ensures forall t :: 0 <= t < |Scan(b, delims, pos).1| ==> pos <= Scan(b, delims, pos).1[t] < |b|
    ensures forall k :: 0 <= k < pos ==> Scan(b, delims, pos).0[k] == b[k]
    decreases |b| - pos
  {
    var st := StrtokStep(b, delims, pos);
    if st.tok.Some? {
      ScanBounds(st.buf, delims, st.next);
      var rest := Scan(st.buf, delims, st.next);
      assert Scan(b, delims, pos) == (rest.0, [st.tok.value] + rest.1);
      forall t | 0 < t < |[st.tok.value] + rest.1|
        ensures ([st.tok.value] + rest.1)[t] == rest.1[t - 1]
      {
      }
    }
  }

  /** After the first token's delimiter is overwritten, the string read from
      just past it has the same terminator, token starts and token ends as
      the original string read from `from`. */
  lemma ResumeAgrees(b: seq<char>, delims: Text, from: nat, s: nat, e: nat)
    requires from <= |b|
    requires FirstCut(b, delims, from, s, e)
    ensures e < NulFrom(b, from)
    ensures NulFrom(b[e := NUL], e + 1) == NulFrom(b, from)
    ensures forall k :: e + 1 <= k < |b| ==>
      && StartsToken(b[e := NUL], delims, e + 1, k) == StartsToken(b, delims, from, k)
      && EndsToken(b[e := NUL], delims, e + 1, k) == EndsToken(b, delims, from, k)
  {
    var b' := b[e := NUL];
    NulFromSkip(b, from, e + 1);
    NulFromAgree(b, b', e + 1);
  }

  /** The buffer half of a splitting step: what the resumed scan leaves is
      what the whole scan must leave. */
  lemma SplitBuffer(b: seq<char>, delims: Text, from: nat, s: nat, e: nat, nb: seq<char>)
    requires from <= |b|
    requires FirstCut(b, delims, from, s, e)
    requires e < NulFrom(b, from)
    requires forall k :: e + 1 <= k < |b| ==>
      EndsToken(b[e := NUL], delims, e + 1, k) == EndsToken(b, delims, from, k)
    requires BufferMeets(b[e := NUL], delims, e + 1, nb)
    ensures BufferMeets(b, delims, from, nb)
  {
    var b' := b[e := NUL];
    forall k | from <= k < |b|
      ensures nb[k] == if EndsToken(b, delims, from, k) then NUL else b[k]
    {
      if k <= e {
        assert nb[k] == b'[k];
        if k < s {
          assert k > from ==> IsDelim(b[k - 1], delims);
        } else if k == e {
          assert !IsDelim(b[e - 1], delims);
        }
      }
    }
  }

  /** The offsets half of a splitting step: the first token's start followed
      by what the resumed scan returns is what the whole scan must return. */
  lemma SplitOffsets(b: seq<char>, delims: Text, from: nat, s: nat, e: nat, offs: seq<nat>)
    requires from <= |b|
    requires FirstCut(b, delims, from, s, e)
    requires e < NulFrom(b, from)
    requires forall k :: e + 1 <= k < |b| ==>
      StartsToken(b[e := NUL], delims, e + 1, k) == StartsToken(b, delims, from, k)
    requires OffsetsMeet(b[e := NUL], delims, e + 1, offs)
    ensures OffsetsMeet(b, delims, from, [s] + offs)
  {
    var r := [s] + offs;
    assert forall t :: 0 <= t < |offs| ==> e + 1 <= offs[t] < |b| && StartsToken(b, delims, from, offs[t]);
    SplitOffsetsOrdered(s, e, offs);
    forall t | 0 <= t < |r|
      ensures from <= r[t] < |b| && StartsToken(b, delims, from, r[t])
    {
      if t > 0 {
        assert r[t] == offs[t - 1];
      }
    }
    forall k | from <= k < |b| && StartsToken(b, delims, from, k)
      ensures k in r
    {
      if k > e {
        assert StartsToken(b[e := NUL], delims, e + 1, k);
        assert k in offs;
      } else {
        OnlyStartBeforeCut(b, delims, from, s, e, k);
      }
    }
  }

  /** An offset before an increasing sequence of later offsets keeps the
      sequence increasing. */
  lemma SplitOffsetsOrdered(s: nat, e: nat, offs: seq<nat>)
    requires s <= e
    requires forall t :: 0 <= t < |offs| ==> e < offs[t]
    requires forall x, y :: 0 <= x < y < |offs| ==> offs[x] < offs[y]
    ensures forall x, y :: 0 <= x < y < |[s] + offs| ==> ([s] + offs)[x] < ([s] + offs)[y]
  {
    var r := [s] + offs;
    forall x, y | 0 <= x < y < |r|
      ensures r[x] < r[y]
    {
      if x > 0 {
        assert r[x] == offs[x - 1];
      }
      assert r[y] == offs[y - 1];
    }
  }

  /** Up to the delimiter that ends it, the first token is the only token
      start of the string read from `from`. */
  lemma OnlyStartBeforeCut(b: seq<char>, delims: Text, from: nat, s: nat, e: nat, k: nat)
    requires from <= |b|
    requires FirstCut(b, delims, from, s, e)
    requires from <= k <= e && k < |b|
    requires StartsToken(b, delims, from, k)
    ensures k == s
  {
  }

  /** `SkipDelims` stops at the first non-delimiter: any position that ends a
      run of delimiters starting at `i` is the one it returns. */
  lemma SkipDelimsAt(b: seq<char>, delims: Text, i: nat, s: nat)
    requires i <= s <= |b|
    requires forall k :: i <= k < s ==> IsDelim(b[k], delims)
    requires s == |b| || !IsDelim(b[s], delims)
    ensures SkipDelims(b, delims, i) == s
    decreases s - i
  {
    if i < s {
      SkipDelimsAt(b, delims, i + 1, s);
    }
  }

  /** `RunEnd` stops at the first delimiter or NUL. */
  lemma RunEndAt(b: seq<char>, delims: Text, i: nat, e: nat)
    requires i <= e <= |b|
    requires forall k :: i <= k < e ==> b[k] != NUL && !IsDelim(b[k], delims)
    requires e == |b| || b[e] == NUL || IsDelim(b[e], delims)
    ensures RunEnd(b, delims, i) == e
    decreases e - i
  {
    if i < e {
      RunEndAt(b, delims, i + 1, e);
    }
  }

  /** Splitting a whole buffer, stated without `strtok`: the buffer keeps its
      length; a position becomes NUL exactly when it holds the delimiter that
      ends a token before the terminator, and keeps its character otherwise;
      the offsets are, in strictly increasing order, exactly the positions
      before the terminator that hold a non-delimiter at the start of the
      buffer or right after a delimiter. */
  lemma {:induction false} TokenizeCharacterized(b: seq<char>, delims: Text)
    ensures |Tokenize(b, delims).0| == |b|
    ensures forall k {:trigger Tokenize(b, delims).0[k]} :: 0 <= k < |b| ==>
      Tokenize(b, delims).0[k] ==
        if 0 < k < Len(b) && IsDelim(b[k], delims) && !IsDelim(b[k - 1], delims) then NUL else b[k]
    ensures forall x, y :: 0 <= x < y < |Tokenize(b, delims).1| ==>
      Tokenize(b, delims).1[x] < Tokenize(b, delims).1[y]
    ensures forall k {:trigger k in Tokenize(b, delims).1} :: 0 <= k < |b| ==>
      (k in Tokenize(b, delims).1 <==>
        k < Len(b) && !IsDelim(b[k], delims) && (k == 0 || IsDelim(b[k - 1], delims)))
  {
    ScanCorrect(b, delims, 0);
    var nb := Tokenize(b, delims).0;
    var offs := Tokenize(b, delims).1;
    forall k | 0 <= k < |b|
      ensures nb[k] == if 0 < k < Len(b) && IsDelim(b[k], delims) && !IsDelim(b[k - 1], delims) then NUL else b[k]
      ensures k in offs <==> k < Len(b) && !IsDelim(b[k], delims) && (k == 0 || IsDelim(b[k - 1], delims))
    {
      assert EndsToken(b, delims, 0, k) <==> 0 < k < Len(b) && IsDelim(b[k], delims) && !IsDelim(b[k - 1], delims);
      assert StartsToken(b, delims, 0, k) <==> k < Len(b) && !IsDelim(b[k], delims) && (k == 0 || IsDelim(b[k - 1], delims));
    }
  }

  /** `TokenizeCharacterized` at one position: `k` is a returned offset
      exactly when it starts a token. */
  lemma TokenStartIff(b: seq<char>, delims: Text, k: int)
    requires 0 <= k < |b|
    ensures k in Tokenize(b, delims).1 <==>
      k < Len(b) && !IsDelim(b[k], delims) && (k == 0 || IsDelim(b[k - 1], delims))
  {
    ScanCorrect(b, delims, 0);
    var offs := Tokenize(b, delims).1;
    assert StartsToken(b, delims, 0, k) <==>
      k < Len(b) && !IsDelim(b[k], delims) && (k == 0 || IsDelim(b[k - 1], delims));
    if k in offs {
      var t :| 0 <= t < |offs| && offs[t] == k;
      assert StartsToken(b, delims, 0, offs[t]);
    }
  }

  /** `TokenizeCharacterized` at the first position of the buffer: the first
      character is never overwritten, and a token starts there exactly when
      the string is non-empty and begins with a non-delimiter. */
  lemma FirstPositionOfSplit(b: seq<char>, delims: Text)
    requires 0 < |b|
    ensures Tokenize(b, delims).0[0] == b[0]
    ensures 0 in Tokenize(b, delims).1 <==> 0 < Len(b) && !IsDelim(b[0], delims)
  {
    TokenizeCharacterized(b, delims);
  }

  /** Every stored token is a maximal run of non-delimiter characters of the
      original buffer: it is non-empty, it starts the buffer or follows a
      delimiter, it ends at a delimiter, the terminator or the end of the
      buffer, and reading the split buffer as a C string at its offset gives
      exactly that run (its characters are untouched and the character after
      it is now NUL). */
  lemma {:induction false} TokensAreMaximalRuns(b: seq<char>, delims: Text, t: nat)
    requires t < |Tokenize(b, delims).1|
    ensures var o := Tokenize(b, delims).1[t];
      && o < |b|
      && var e := RunEnd(b, delims, o);
      && o < e <= Len(b)
      && (o == 0 || IsDelim(b[o - 1], delims))
      && (e == |b| || b[e] == NUL || IsDelim(b[e], delims))
      && StrAt(Tokenize(b, delims).0, o) == b[o..e]
      && (forall c :: c in StrAt(Tokenize(b, delims).0, o) ==> !IsDelim(c, delims))
  {
    var nb := Tokenize(b, delims).0;
    var o := Tokenize(b, delims).1[t];
    ScanCorrect(b, delims, 0);
    assert StartsToken(b, delims, 0, o);
    var n := NulFrom(b, 0);
    var e := RunEnd(b, delims, o);
    assert o < n;
    assert o < e;
    assert e <= n;
    forall k | o <= k < e
      ensures nb[k] == b[k]
    {
      assert !EndsToken(b, delims, 0, k);
    }
    if e < |b| {
      if b[e] != NUL {
        assert e < n;
        assert EndsToken(b, delims, 0, e);
      }
      assert nb[e] == NUL;
    }
    NulFromAt(nb, o, e);
    assert StrAt(nb, o) == nb[o..e] == b[o..e];
  }

  /** A buffer yields no token exactly when everything before its terminator
      is a delimiter; in particular an empty string yields none. */
  lemma NoTokensIffAllDelims(b: seq<char>, delims: Text)
    ensures |Tokenize(b, delims).1| == 0 <==> forall k :: 0 <= k < Len(b) ==> IsDelim(b[k], delims)
  {
  }

  /** Splitting is destructive: splitting an already split buffer again (with
      the same delimiters) sees only the text before the first NUL written by
      the first split, so it finds at most the first token and writes nothing. */
  lemma {:induction false} ResplitSeesFirstToken(b: seq<char>, delims: Text)
    ensures var nb := Tokenize(b, delims).0;
      var offs := Tokenize(b, delims).1;
      Tokenize(nb, delims) == (nb, if |offs| == 0 then [] else [offs[0]])
  {
    var nb := Tokenize(b, delims).0;
    var offs := Tokenize(b, delims).1;
    if |offs| == 0 {
      assert StrtokStep(b, delims, 0).tok.None?;
      assert nb == b;
    } else {
      ScanCorrect(b, delims, 0);
      var o := offs[0];
      var e := RunEnd(b, delims, o);
      TokensAreMaximalRuns(b, delims, 0);
      var s := SkipDelims(b, delims, 0);
      assert s == o by {
        assert StartsToken(b, delims, 0, o);
      }
      forall k | 0 <= k < o
        ensures nb[k] == b[k] && IsDelim(nb[k], delims)
      {
        assert !EndsToken(b, delims, 0, k);
      }
      assert nb[o] == b[o] && !IsDelim(nb[o], delims);
      SkipDelimsAt(nb, delims, 0, o);
      assert NulFrom(nb, o) == e;
      RunEndAt(nb, delims, o, e);
      assert StrtokStep(nb, delims, 0) == Step(nb, Some(o), e);
      SkipDelimsAt(nb, delims, e, e);
      assert StrtokStep(nb, delims, e).tok.None?;
      assert Scan(nb, delims, e) == (nb, []);
      assert Tokenize(nb, delims) == (nb, [o] + []);
      assert [o] + [] == [o];
    }
  }

  /** The C string a split leaves in the buffer ends where the first token
      ends: the first split's NUL terminates it, or, with no token, the
      buffer is unchanged. */
  lemma {:induction false} FirstSplitLen(b: seq<char>, delims: Text)
    ensures |Tokenize(b, delims).1| > 0 ==> Tokenize(b, delims).1[0] < |b|
    ensures Len(Tokenize(b, delims).0) ==
      if |Tokenize(b, delims).1| == 0 then Len(b) else RunEnd(b, delims, Tokenize(b, delims).1[0])
  {
    var nb := Tokenize(b, delims).0;
    var offs := Tokenize(b, delims).1;
    if |offs| == 0 {
      assert StrtokStep(b, delims, 0).tok.None?;
      assert nb == b;
    } else {
      TokensAreMaximalRuns(b, delims, 0);
      ScanCorrect(b, delims, 0);
      var o := offs[0];
      var e := RunEnd(b, delims, o);
      forall k | 0 <= k < o
        ensures nb[k] == b[k] && IsDelim(nb[k], delims)
      {
        assert !EndsToken(b, delims, 0, k);
        assert !StartsToken(b, delims, 0, k);
      }
      NulFromAt(nb, o, e);
      NulFromAt(nb, 0, e);
    }
  }

  /** Splitting is destructive, whatever delimiters the next split uses: a
      second split of a split buffer sees only the C string that ends at the
      first NUL written by the first split. Every offset it returns lies
      before that NUL, and it writes nothing from there on. */
  lemma {:induction false} ResplitStopsAtFirstNul(b: seq<char>, d1: Text, d2: Text)
    ensures |Tokenize(b, d1).1| > 0 ==> Tokenize(b, d1).1[0] < |b|
    ensures Len(Tokenize(b, d1).0) ==
      if |Tokenize(b, d1).1| == 0 then Len(b) else RunEnd(b, d1, Tokenize(b, d1).1[0])
    ensures forall t :: 0 <= t < |Tokenize(Tokenize(b, d1).0, d2).1| ==>
      Tokenize(Tokenize(b, d1).0, d2).1[t] < Len(Tokenize(b, d1).0)
    ensures forall k :: Len(Tokenize(b, d1).0) <= k < |b| ==>
      Tokenize(Tokenize(b, d1).0, d2).0[k] == Tokenize(b, d1).0[k]
  {
    var nb := Tokenize(b, d1).0;
    FirstSplitLen(b, d1);
    TokenizeCharacterized(nb, d2);
    forall t | 0 <= t < |Tokenize(nb, d2).1|
      ensures Tokenize(nb, d2).1[t] < Len(nb)
    {
      TokensAreMaximalRuns(nb, d2, t);
    }
  }
}
