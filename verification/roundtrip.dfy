/** The session round trip: installing a string laid out as words separated
    by runs of delimiters, splitting it, and looking the tokens up gives back
    the words. */
module StrtokRoundTrip {
  import opened Optional
  import opened CStrings
  import opened Strtok
  import opened StrtokProofs
  import opened StrtokSession
  import opened StrtokLayout

  /** Splitting a string laid out as words with runs of delimiters between
      and after them returns one token per word, at the offsets where the
      words start, and each token reads back from the split buffer as its
      word. */
  lemma TokenizeRoundTrip(str: Text, ps: seq<Piece>, tail: seq<char>, delims: Text)
    requires WellLaid(ps, delims) && AllDelims(tail, delims) && str == Lay(ps) + tail
    ensures Tokenize(str + [NUL], delims).1 == Starts(ps, 0)
    ensures forall t :: 0 <= t < |Starts(ps, 0)| ==> Starts(ps, 0)[t] <= |str|
    ensures ReadAll(Tokenize(str + [NUL], delims).0, Tokenize(str + [NUL], delims).1) == Words(ps)
  {
    assert str + [NUL] == [] + Lay(ps) + tail + [NUL] + [];
    ScanLaidOut([], ps, tail, [], delims);
    ScanBounds(str + [NUL], delims, 0);
  }

  /** `set_string` of words laid out with delimiters between them and after
      them, then `string_splitting` on those delimiters: the count is the
      number of words, and the corrected lookup of the `i`-th token reads back
      the `i`-th word. The lookup of `get_straddr_by_index` agrees with it
      when the string starts with a word, and refuses every index when it
      starts with a delimiter. */
  lemma {:induction false} SessionRoundTrip(s: Session, str: Text, ps: seq<Piece>, tail: seq<char>,
                                            delims: Text, i: int)
    requires WellLaid(ps, delims) && AllDelims(tail, delims) && str == Lay(ps) + tail
    ensures var h := StringSplitting(SetString(Some(s), str).handle, Some(delims)).handle;
      && h.Some?
      && GetListCount(h) == Count(|ps|)
      && GetStraddrByIndexCurrent(h, i) ==
           (if i < 0 || |ps| == 0 then AddrParError
            else if i < |ps| then Token(TokPtr(h.value.gen, Starts(ps, 0)[i]))
            else Null)
      && GetStraddrByIndex(h, i) ==
           (if |ps| > 0 && |ps[0].gap| > 0 then AddrParError else GetStraddrByIndexCurrent(h, i))
      && (0 <= i < |ps| ==> Read(h.value, GetStraddrByIndexCurrent(h, i)) == Some(ps[i].word))
  {
    var r := Tokenize(str + [NUL], delims);
    TokenizeRoundTrip(str, ps, tail, delims);
    if 0 <= i < |ps| {
      ReadAllAt(r.0, r.1, i);
      WordsAt(ps, i);
    }
  }
}
