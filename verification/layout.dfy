/** Splitting a string that is laid out as words separated by runs of
    delimiters gives back exactly those words: the round trip between
    joining and `strtok` splitting. */
module StrtokLayout {
  import opened Optional
  import opened CStrings
  import opened Strtok
  import opened StrtokProofs

  /** A word and the run of delimiters laid out before it. */
  datatype Piece = Piece(gap: seq<char>, word: seq<char>)

  /** The text of the pieces, in order: each gap followed by its word. */
  function Lay(ps: seq<Piece>): (t: seq<char>)
  {
    if |ps| == 0 then [] else ps[0].gap + ps[0].word + Lay(ps[1..])
  }

  /** A run of delimiters only. */
  predicate AllDelims(s: seq<char>, delims: Text) {
    forall c :: c in s ==> IsDelim(c, delims)
  }

  /** A non-empty run of characters that are neither NUL nor delimiters. */
  predicate IsWord(w: seq<char>, delims: Text) {
    |w| > 0 && forall c :: c in w ==> c != NUL && !IsDelim(c, delims)
  }

  /** Gaps hold only delimiters, every gap but the first is non-empty, and
      every word is a word. */
  predicate WellLaid(ps: seq<Piece>, delims: Text) {
    forall i :: 0 <= i < |ps| ==>
      && AllDelims(ps[i].gap, delims)
      && (i > 0 ==> |ps[i].gap| > 0)
      && IsWord(ps[i].word, delims)
  }

  /** The words of the pieces, in order. */
  function Words(ps: seq<Piece>): (ws: seq<seq<char>>)
    ensures |ws| == |ps|
  {
    if |ps| == 0 then [] else [ps[0].word] + Words(ps[1..])
  }

  /** Where each word starts when the pieces are laid out from offset `base`. */
  function Starts(ps: seq<Piece>, base: nat): (r: seq<nat>)
    ensures |r| == |ps|
  {
    if |ps| == 0 then []
    else [base + |ps[0].gap|] + Starts(ps[1..], base + |ps[0].gap| + |ps[0].word|)
  }

  /** The C strings at the given offsets of a buffer, in order. */
  function ReadAll(buf: seq<char>, offs: seq<nat>): (ws: seq<seq<char>>)
    requires forall i :: 0 <= i < |offs| ==> offs[i] <= |buf|
    ensures |ws| == |offs|
  {
    if |offs| == 0 then [] else [StrAt(buf, offs[0])] + ReadAll(buf, offs[1..])
  }

  /** A scan result `r` (buffer and offsets) records the words of `ps` laid
      out from `from`: the offsets are where the words start, and the C
      strings at those offsets of the buffer are the words. */
  predicate Splits(r: (seq<char>, seq<nat>), from: nat, ps: seq<Piece>) {
    && r.1 == Starts(ps, from)
    && (forall i :: 0 <= i < |r.1| ==> r.1[i] <= |r.0|)
    && ReadAll(r.0, r.1) == Words(ps)
  }

  /** The scan of `b` from `from` splits into the words of `ps`. */
  ghost predicate SplitsInto(b: seq<char>, delims: Text, from: nat, ps: seq<Piece>)
    requires from <= |b|
  {
    Splits(Scan(b, delims, from), from, ps)
  }

  /** Each entry of `ReadAll` is the C string at the matching offset. */
  lemma {:induction false} ReadAllAt(buf: seq<char>, offs: seq<nat>, i: nat)
    requires forall j :: 0 <= j < |offs| ==> offs[j] <= |buf|
    requires i < |offs|
    ensures ReadAll(buf, offs)[i] == StrAt(buf, offs[i])
  {
    if i > 0 {
      ReadAllAt(buf, offs[1..], i - 1);
    }
  }

  /** Each entry of `Words` is the word of the matching piece. */
  lemma {:induction false} WordsAt(ps: seq<Piece>, i: nat)
    requires i < |ps|
    ensures Words(ps)[i] == ps[i].word
  {
    if i > 0 {
      WordsAt(ps[1..], i - 1);
    }
  }

  /** Laying out one more piece in front shifts the later starts by its width. */
  lemma StartsCons(p: Piece, qs: seq<Piece>, base: nat)
    ensures Starts([p] + qs, base) == [base + |p.gap|] + Starts(qs, base + |p.gap| + |p.word|)
  {
    assert ([p] + qs)[0] == p && ([p] + qs)[1..] == qs;
  }

  /** Lengthening the first gap by one character moves every start by one. */
  lemma StartsWiden(x: char, q: Piece, qs: seq<Piece>, base: nat)
    ensures Starts([Piece([x] + q.gap, q.word)] + qs, base) == Starts([q] + qs, base + 1)
  {
    var w := base + |[x] + q.gap| + |q.word|;
    assert w == base + 1 + |q.gap| + |q.word|;
    StartsCons(Piece([x] + q.gap, q.word), qs, base);
    StartsCons(q, qs, base + 1);
  }

  /** A piece in front of well-laid pieces keeps them well laid, when its
      gap is delimiters, its word a word, and the gap after it non-empty. */
  lemma WellLaidCons(p: Piece, qs: seq<Piece>, delims: Text)
    requires AllDelims(p.gap, delims) && IsWord(p.word, delims)
    requires WellLaid(qs, delims) && (|qs| > 0 ==> |qs[0].gap| > 0)
    ensures WellLaid([p] + qs, delims)
  {
    var ps := [p] + qs;
    forall i | 0 < i < |ps|
      ensures ps[i] == qs[i - 1]
    {
    }
  }

  lemma LayCons(p: Piece, qs: seq<Piece>)
    ensures Lay([p] + qs) == p.gap + p.word + Lay(qs)
  {
    assert ([p] + qs)[0] == p && ([p] + qs)[1..] == qs;
  }

  lemma WordsCons(p: Piece, qs: seq<Piece>)
    ensures Words([p] + qs) == [p.word] + Words(qs)
  {
    assert ([p] + qs)[0] == p && ([p] + qs)[1..] == qs;
  }

  lemma ReadAllCons(buf: seq<char>, o: nat, offs: seq<nat>)
    requires o <= |buf| && forall i :: 0 <= i < |offs| ==> offs[i] <= |buf|
    ensures ReadAll(buf, [o] + offs) == [StrAt(buf, o)] + ReadAll(buf, offs)
  {
    assert ([o] + offs)[0] == o && ([o] + offs)[1..] == offs;
  }

  /** Recording one more token at `o`, in front of a result that splits into
      `qs`, splits into one more piece: the one whose word is the C string at
      `o`. */
  lemma SplitsCons(r: (seq<char>, seq<nat>), o: nat, w: seq<char>, from: nat, next: nat,
                   ps: seq<Piece>, qs: seq<Piece>)
    requires Splits(r, next, qs)
    requires o <= |r.0| && StrAt(r.0, o) == w
    requires Starts(ps, from) == [o] + Starts(qs, next)
    requires Words(ps) == [w] + Words(qs)
    ensures Splits((r.0, [o] + r.1), from, ps)
  {
    ReadAllCons(r.0, o, r.1);
  }

  /** A scan from `from` over delimiters up to a terminator at `n` finds
      nothing and writes nothing. */
  lemma ScanEndAt(b: seq<char>, delims: Text, from: nat, n: nat)
    requires from <= n < |b| && b[n] == NUL
    requires forall k :: from <= k < n ==> IsDelim(b[k], delims)
    ensures Scan(b, delims, from) == (b, [])
  {
    assert !IsDelim(NUL, delims);
    SkipDelimsAt(b, delims, from, n);
  }

  /** One `strtok` call over delimiters in `[from, s)` and a word in `[s, e)`
      that a delimiter at `e` ends: the scan records `s`, writes a terminator
      at `e` and goes on after it. */
  lemma ScanWordAt(b: seq<char>, delims: Text, from: nat, s: nat, e: nat)
    requires from <= s < e < |b|
    requires forall k :: from <= k < s ==> IsDelim(b[k], delims)
    requires forall k :: s <= k < e ==> b[k] != NUL && !IsDelim(b[k], delims)
    requires IsDelim(b[e], delims)
    ensures var r' := Scan(b[e := NUL], delims, e + 1);
      Scan(b, delims, from) == (r'.0, [s] + r'.1)
  {
    SkipDelimsAt(b, delims, from, s);
    RunEndAt(b, delims, s, e);
    assert StrtokStep(b, delims, from) == Step(b[e := NUL], Some(s), e + 1);
  }

  /** The word cut off at `e` reads back from the buffer the rest of the scan
      leaves, whatever that scan writes after the terminator. */
  lemma CutWordAt(b: seq<char>, delims: Text, s: nat, e: nat)
    requires s < e < |b|
    requires forall k :: s <= k < e ==> b[k] != NUL
    ensures StrAt(Scan(b[e := NUL], delims, e + 1).0, s) == b[s..e]
  {
    var b' := b[e := NUL];
    NulFromAt(b', s, e);
    ScanBounds(b', delims, e + 1);
    StrAtAgree(b', Scan(b', delims, e + 1).0, s, e + 1);
  }

  /** One `strtok` call over delimiters in `[from, s)` and a word in `[s, e)`
      that the terminator at `e` ends: the scan records `s` and stops there,
      writing nothing. */
  lemma ScanLastWordAt(b: seq<char>, delims: Text, from: nat, s: nat, e: nat)
    requires from <= s < e < |b| && b[e] == NUL
    requires forall k :: from <= k < s ==> IsDelim(b[k], delims)
    requires forall k :: s <= k < e ==> b[k] != NUL && !IsDelim(b[k], delims)
    ensures Scan(b, delims, e) == (b, [])
    ensures Scan(b, delims, from) == (Scan(b, delims, e).0, [s] + Scan(b, delims, e).1)
    ensures StrAt(b, s) == b[s..e]
  {
    SkipDelimsAt(b, delims, from, s);
    RunEndAt(b, delims, s, e);
    ScanEndAt(b, delims, e, e);
    assert [s] + [] == [s];
    NulFromAt(b, s, e);
  }

  /** `b` holds, from `from` on, the pieces laid out, a run of delimiters and a
      terminator. */
  predicate LaidFrom(b: seq<char>, from: nat, ps: seq<Piece>, tail: seq<char>) {
    && from + |Lay(ps)| + |tail| < |b|
    && b[from..from + |Lay(ps)| + |tail| + 1] == Lay(ps) + tail + [NUL]
  }

  /** What the buffer holds around the first piece: delimiters, then the word,
      then the character after it. */
  lemma FirstPieceAt(b: seq<char>, delims: Text, from: nat, ps: seq<Piece>, tail: seq<char>)
    requires WellLaid(ps, delims) && AllDelims(tail, delims) && LaidFrom(b, from, ps, tail) && |ps| > 0
    ensures var s := from + |ps[0].gap|; var e := s + |ps[0].word|;
      && s < e < |b|
      && (forall k :: from <= k < s ==> IsDelim(b[k], delims))
      && (forall k :: s <= k < e ==> b[k] != NUL && !IsDelim(b[k], delims))
      && b[s..e] == ps[0].word
      && b[e] == (if |ps| > 1 then ps[1].gap[0] else if |tail| > 0 then tail[0] else NUL)
  {
    var g, w := ps[0].gap, ps[0].word;
    var more := Lay(ps[1..]) + tail + [NUL];
    var t := Lay(ps) + tail + [NUL];
    assert t == g + w + more;
    assert forall j :: 0 <= j < |t| ==> b[from + j] == t[j];
    forall k | from <= k < from + |g|
      ensures IsDelim(b[k], delims)
    {
      assert b[k] == g[k - from] && g[k - from] in g;
    }
    forall k | from + |g| <= k < from + |g| + |w|
      ensures b[k] == w[k - from - |g|] && b[k] != NUL && !IsDelim(b[k], delims)
    {
      assert w[k - from - |g|] in w;
    }
    assert b[from + |g| + |w|] == more[0];
    if |ps| > 1 {
      assert ps[1..][0] == ps[1];
      assert Lay(ps[1..]) == ps[1].gap + ps[1].word + Lay(ps[2..]);
    }
  }

  /** After the first word and the delimiter that ends it, the buffer with
      that delimiter overwritten holds the narrowed pieces. */
  lemma NextLaidWord(b: seq<char>, from: nat, ps: seq<Piece>, tail: seq<char>, e: nat)
    requires LaidFrom(b, from, ps, tail) && |ps| >= 2 && |ps[1].gap| > 0
    requires e == from + |ps[0].gap| + |ps[0].word|
    ensures e < |b| && LaidFrom(b[e := NUL], e + 1, Narrow(ps), tail)
  {
    var rest := Lay(Narrow(ps)) + tail + [NUL];
    var t := Lay(ps) + tail + [NUL];
    LayNarrow(ps);
    assert t == ps[0].gap + ps[0].word + [ps[1].gap[0]] + rest;
    assert forall j :: 0 <= j < |t| ==> b[from + j] == t[j];
    var b' := b[e := NUL];
    forall j | 0 <= j < |rest|
      ensures b'[e + 1 + j] == rest[j]
    {
      assert b'[e + 1 + j] == b[from + (e + 1 - from) + j];
    }
    assert b'[e + 1..e + 1 + |rest|] == rest;
  }

  /** After the last word and the first delimiter of the tail, the buffer with
      that delimiter overwritten holds the rest of the tail. */
  lemma NextLaidTail(b: seq<char>, from: nat, ps: seq<Piece>, tail: seq<char>, e: nat)
    requires LaidFrom(b, from, ps, tail) && |ps| == 1 && |tail| > 0
    requires e == from + |ps[0].gap| + |ps[0].word|
    ensures e < |b| && LaidFrom(b[e := NUL], e + 1, [], tail[1..])
  {
    var rest := Lay([]) + tail[1..] + [NUL];
    var t := Lay(ps) + tail + [NUL];
    assert Lay(ps) == ps[0].gap + ps[0].word + Lay([]);
    assert t == ps[0].gap + ps[0].word + [tail[0]] + rest;
    assert forall j :: 0 <= j < |t| ==> b[from + j] == t[j];
    var b' := b[e := NUL];
    forall j | 0 <= j < |rest|
      ensures b'[e + 1 + j] == rest[j]
    {
      assert b'[e + 1 + j] == b[from + (e + 1 - from) + j];
    }
    assert b'[e + 1..e + 1 + |rest|] == rest;
  }

  /** Round trip, for a buffer holding the laid-out pieces from `from` on:
      the scan from `from` gives back the words, at the offsets where they
      were laid out. */
  lemma {:induction false} ScanLaidFrom(b: seq<char>, delims: Text, from: nat, ps: seq<Piece>, tail: seq<char>)
    requires WellLaid(ps, delims) && AllDelims(tail, delims) && LaidFrom(b, from, ps, tail)
    ensures from <= |b| && SplitsInto(b, delims, from, ps)
    decreases |ps|
  {
    if |ps| == 0 {
      LaidNothingAt(b, delims, from, tail);
    } else if |ps| == 1 && |tail| == 0 {
      LaidLastWordAt(b, delims, from, ps, tail);
    } else {
      var e := from + |ps[0].gap| + |ps[0].word|;
      if |ps| == 1 {
        NextLaidTail(b, from, ps, tail, e);
        assert AllDelims(tail[1..], delims);
        ScanLaidFrom(b[e := NUL], delims, e + 1, [], tail[1..]);
        OneStartsWords(ps, from, e + 1);
        LaidWordAt(b, delims, from, ps, tail, e, []);
      } else {
        NextLaidWord(b, from, ps, tail, e);
        NarrowWellLaid(ps, delims);
        ScanLaidFrom(b[e := NUL], delims, e + 1, Narrow(ps), tail);
        NarrowStartsWords(ps, from);
        LaidWordAt(b, delims, from, ps, tail, e, Narrow(ps));
      }
    }
  }

  /** The starts and words of a single piece. */
  lemma OneStartsWords(ps: seq<Piece>, base: nat, next: nat)
    requires |ps| == 1
    ensures Starts(ps, base) == [base + |ps[0].gap|] + Starts([], next)
    ensures Words(ps) == [ps[0].word] + Words([])
  {
    assert ps == [ps[0]] + [];
    StartsCons(ps[0], [], base);
    WordsCons(ps[0], []);
  }

  /** The last word, which the terminator ends. */
  lemma LaidLastWordAt(b: seq<char>, delims: Text, from: nat, ps: seq<Piece>, tail: seq<char>)
    requires WellLaid(ps, delims) && AllDelims(tail, delims) && LaidFrom(b, from, ps, tail)
    requires |ps| == 1 && |tail| == 0
    ensures from <= |b| && SplitsInto(b, delims, from, ps)
  {
    FirstPieceAt(b, delims, from, ps, tail);
    var s := from + |ps[0].gap|;
    var e := s + |ps[0].word|;
    ScanLastWordAt(b, delims, from, s, e);
    OneStartsWords(ps, from, e);
    SplitsCons(Scan(b, delims, e), s, ps[0].word, from, e, ps, []);
  }

  /** A word that a delimiter ends, followed by pieces `qs` that the rest of
      the scan splits into. */
  lemma LaidWordAt(b: seq<char>, delims: Text, from: nat, ps: seq<Piece>, tail: seq<char>, e: nat, qs: seq<Piece>)
    requires WellLaid(ps, delims) && AllDelims(tail, delims) && LaidFrom(b, from, ps, tail)
    requires |ps| > 1 || (|ps| == 1 && |tail| > 0)
    requires e == from + |ps[0].gap| + |ps[0].word| && e < |b|
    requires SplitsInto(b[e := NUL], delims, e + 1, qs)
    requires Starts(ps, from) == [from + |ps[0].gap|] + Starts(qs, e + 1)
    requires Words(ps) == [ps[0].word] + Words(qs)
    ensures from <= |b| && SplitsInto(b, delims, from, ps)
  {
    var s := from + |ps[0].gap|;
    assert && s < e < |b|
           && (forall k :: from <= k < s ==> IsDelim(b[k], delims))
           && (forall k :: s <= k < e ==> b[k] != NUL && !IsDelim(b[k], delims))
           && b[s..e] == ps[0].word
           && IsDelim(b[e], delims) by {
      FirstPieceAt(b, delims, from, ps, tail);
      if |ps| > 1 {
        assert ps[1].gap[0] in ps[1].gap;
      } else {
        assert tail[0] in tail;
      }
    }
    WordStepAt(b, delims, from, s, e, ps, qs);
  }

  /** The scan step over one word that a delimiter ends, on any buffer. */
  lemma WordStepAt(b: seq<char>, delims: Text, from: nat, s: nat, e: nat, ps: seq<Piece>, qs: seq<Piece>)
    requires from <= s < e < |b| && |ps| > 0
    requires forall k :: from <= k < s ==> IsDelim(b[k], delims)
    requires forall k :: s <= k < e ==> b[k] != NUL && !IsDelim(b[k], delims)
    requires b[s..e] == ps[0].word && IsDelim(b[e], delims)
    requires SplitsInto(b[e := NUL], delims, e + 1, qs)
    requires Starts(ps, from) == [s] + Starts(qs, e + 1)
    requires Words(ps) == [ps[0].word] + Words(qs)
    ensures SplitsInto(b, delims, from, ps)
  {
    ScanWordAt(b, delims, from, s, e);
    CutWordAt(b, delims, s, e);
    SplitsCons(Scan(b[e := NUL], delims, e + 1), s, ps[0].word, from, e + 1, ps, qs);
  }

  /** Only delimiters before the terminator: the scan finds no word. */
  lemma LaidNothingAt(b: seq<char>, delims: Text, from: nat, tail: seq<char>)
    requires AllDelims(tail, delims) && LaidFrom(b, from, [], tail)
    ensures from <= |b| && SplitsInto(b, delims, from, [])
  {
    var t := Lay([]) + tail + [NUL];
    assert t == tail + [NUL];
    assert forall j :: 0 <= j < |t| ==> b[from + j] == t[j];
    forall k | from <= k < from + |tail|
      ensures IsDelim(b[k], delims)
    {
      assert b[k] == tail[k - from] && tail[k - from] in tail;
    }
    ScanEndAt(b, delims, from, from + |tail|);
  }

  /** Round trip: splitting words laid out after `pre`, followed by a run of
      delimiters, the terminator and anything at all, gives back the words at
      the offsets where they were laid out. */
  lemma ScanLaidOut(pre: seq<char>, ps: seq<Piece>, tail: seq<char>, junk: seq<char>, delims: Text)
    requires WellLaid(ps, delims) && AllDelims(tail, delims)
    ensures SplitsInto(pre + Lay(ps) + tail + [NUL] + junk, delims, |pre|, ps)
  {
    var b := pre + Lay(ps) + tail + [NUL] + junk;
    var t := Lay(ps) + tail + [NUL];
    assert b == pre + t + junk;
    assert b[|pre|..|pre| + |t|] == t;
    ScanLaidFrom(b, delims, |pre|, ps, tail);
  }

  /** The pieces after the first, with the delimiter that ends the first word
      taken off the front of the next gap: what is left to split once
      `strtok` has cut off the first word. */
  function Narrow(ps: seq<Piece>): (qs: seq<Piece>)
    requires |ps| >= 2 && |ps[1].gap| > 0
    ensures |qs| == |ps| - 1
  {
    [Piece(ps[1].gap[1..], ps[1].word)] + ps[2..]
  }

  lemma NarrowWellLaid(ps: seq<Piece>, delims: Text)
    requires WellLaid(ps, delims) && |ps| >= 2
    ensures WellLaid(Narrow(ps), delims)
  {
    var qs := Narrow(ps);
    forall i | 0 <= i < |qs|
      ensures qs[i] == (if i == 0 then Piece(ps[1].gap[1..], ps[1].word) else ps[i + 1])
    {
    }
    forall c | c in ps[1].gap[1..]
      ensures IsDelim(c, delims)
    {
      assert c in ps[1].gap;
    }
  }

  /** Laying out the pieces is laying out the first one, the delimiter after
      its word, and the narrowed rest. */
  lemma LayNarrow(ps: seq<Piece>)
    requires |ps| >= 2 && |ps[1].gap| > 0
    ensures Lay(ps) == ps[0].gap + ps[0].word + [ps[1].gap[0]] + Lay(Narrow(ps))
  {
    var qs := Narrow(ps);
    var g1 := ps[1].gap;
    assert ps[1..][0] == ps[1] && ps[1..][1..] == ps[2..];
    assert qs[0] == Piece(g1[1..], ps[1].word) && qs[1..] == ps[2..];
    assert Lay(ps[1..]) == g1 + ps[1].word + Lay(ps[2..]);
    assert Lay(qs) == g1[1..] + ps[1].word + Lay(ps[2..]);
    assert g1 == [g1[0]] + g1[1..];
  }

  /** The starts and words of the pieces, in terms of those of the narrowed
      rest. */
  lemma NarrowStartsWords(ps: seq<Piece>, base: nat)
    requires |ps| >= 2 && |ps[1].gap| > 0
    ensures Starts(ps, base) == [base + |ps[0].gap|] + Starts(Narrow(ps), base + |ps[0].gap| + |ps[0].word| + 1)
    ensures Words(ps) == [ps[0].word] + Words(Narrow(ps))
  {
    var qs := Narrow(ps);
    var x := ps[1].gap[0];
    assert ps == [ps[0]] + ([Piece([x] + qs[0].gap, qs[0].word)] + qs[1..]) by {
      assert ps[1].gap == [x] + ps[1].gap[1..];
    }
    assert qs == [qs[0]] + qs[1..];
    StartsCons(ps[0], [Piece([x] + qs[0].gap, qs[0].word)] + qs[1..], base);
    StartsWiden(x, qs[0], qs[1..], base + |ps[0].gap| + |ps[0].word|);
    WordsCons(ps[0], [Piece([x] + qs[0].gap, qs[0].word)] + qs[1..]);
    WordsCons(Piece([x] + qs[0].gap, qs[0].word), qs[1..]);
    WordsCons(qs[0], qs[1..]);
  }
}
