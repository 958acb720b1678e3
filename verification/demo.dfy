/** The demonstration program `test.c`, worked out on the model: two strings
    installed and split in one session, then the session released. */
module StrtokDemo {
  import opened Optional
  import opened CStrings
  import opened Strtok
  import opened StrtokSession
  import opened StrtokLayout
  import opened StrtokRoundTrip

  const Hello: Text := "hello world; akjhsfgas,asjhgfdtgpppppp"
  const HelloDelims: Text := "; ,"
  const Pipe: Text := "kakakaka|lalalala-yayayayaya"
  const PipeDelims: Text := "|-"

  /** The first string of the program, as its words and the delimiter runs
      before them. */
  function HelloPieces(): (ps: seq<Piece>)
    ensures |ps| == 4
  {
    [Piece("", "hello"), Piece(" ", "world"), Piece("; ", "akjhsfgas"), Piece(",", "asjhgfdtgpppppp")]
  }

  /** The second string of the program. */
  function PipePieces(): (ps: seq<Piece>)
    ensures |ps| == 3
  {
    [Piece("", "kakakaka"), Piece("|", "lalalala"), Piece("-", "yayayayaya")]
  }

  /** The first string's words hold no delimiter and no NUL. */
  lemma HelloWords()
    ensures IsWord("hello", HelloDelims) && IsWord("world", HelloDelims)
    ensures IsWord("akjhsfgas", HelloDelims) && IsWord("asjhgfdtgpppppp", HelloDelims)
  {
  }

  /** The first string's separators are runs of its delimiters. */
  lemma HelloGaps()
    ensures AllDelims("", HelloDelims) && AllDelims(" ", HelloDelims)
    ensures AllDelims("; ", HelloDelims) && AllDelims(",", HelloDelims)
  {
  }

  /** The second string's words and separators. */
  lemma PipeCharacters()
    ensures IsWord("kakakaka", PipeDelims) && IsWord("lalalala", PipeDelims)
    ensures IsWord("yayayayaya", PipeDelims)
    ensures AllDelims("", PipeDelims) && AllDelims("|", PipeDelims) && AllDelims("-", PipeDelims)
  {
  }

  /** The first string's pieces are well laid for its delimiters. */
  lemma HelloWellLaid()
    ensures WellLaid(HelloPieces(), HelloDelims)
  {
    var p0, p1, p2, p3 := Piece("", "hello"), Piece(" ", "world"), Piece("; ", "akjhsfgas"), Piece(",", "asjhgfdtgpppppp");
    HelloWords();
    HelloGaps();
    WellLaidCons(p3, [], HelloDelims);
    WellLaidCons(p2, [p3], HelloDelims);
    WellLaidCons(p1, [p2] + [p3], HelloDelims);
    WellLaidCons(p0, [p1] + ([p2] + [p3]), HelloDelims);
    assert HelloPieces() == [p0] + ([p1] + ([p2] + [p3]));
  }

  /** The first string, joined from its words and delimiter runs. */
  lemma HelloJoined()
    ensures "hello" + " " + "world" + "; " + "akjhsfgas" + "," + "asjhgfdtgpppppp" == Hello
  {
    assert "hello" + " " + "world" == "hello world";
    assert "hello world" + "; " + "akjhsfgas" == "hello world; akjhsfgas";
  }

  /** Laying out the first string's pieces gives the first string. */
  lemma HelloLay()
    ensures Lay(HelloPieces()) == Hello
  {
    var p0, p1, p2, p3 := Piece("", "hello"), Piece(" ", "world"), Piece("; ", "akjhsfgas"), Piece(",", "asjhgfdtgpppppp");
    assert HelloPieces() == [p0] + ([p1] + ([p2] + [p3]));
    LayCons(p3, []);
    LayCons(p2, [p3]);
    LayCons(p1, [p2] + [p3]);
    LayCons(p0, [p1] + ([p2] + [p3]));
    HelloJoined();
  }

  /** The words of the first string start at offsets 0, 6, 13 and 23. */
  lemma HelloStarts()
    ensures Starts(HelloPieces(), 0) == [0, 6, 13, 23]
    ensures Words(HelloPieces()) == ["hello", "world", "akjhsfgas", "asjhgfdtgpppppp"]
  {
    var p0, p1, p2, p3 := Piece("", "hello"), Piece(" ", "world"), Piece("; ", "akjhsfgas"), Piece(",", "asjhgfdtgpppppp");
    assert HelloPieces() == [p0] + ([p1] + ([p2] + [p3]));
    StartsCons(p3, [], 22);
    StartsCons(p2, [p3], 11);
    StartsCons(p1, [p2] + [p3], 5);
    StartsCons(p0, [p1] + ([p2] + [p3]), 0);
    WordsCons(p3, []);
    WordsCons(p2, [p3]);
    WordsCons(p1, [p2] + [p3]);
    WordsCons(p0, [p1] + ([p2] + [p3]));
  }

  /** The second string's pieces are well laid for its delimiters. */
  lemma PipeWellLaid()
    ensures WellLaid(PipePieces(), PipeDelims)
  {
    var p0, p1, p2 := Piece("", "kakakaka"), Piece("|", "lalalala"), Piece("-", "yayayayaya");
    PipeCharacters();
    WellLaidCons(p2, [], PipeDelims);
    WellLaidCons(p1, [p2], PipeDelims);
    WellLaidCons(p0, [p1] + [p2], PipeDelims);
    assert PipePieces() == [p0] + ([p1] + [p2]);
  }

  /** The second string, joined from its words and delimiters. */
  lemma PipeJoined()
    ensures "kakakaka" + "|" + "lalalala" + "-" + "yayayayaya" == Pipe
  {
    assert "kakakaka" + "|" + "lalalala" == "kakakaka|lalalala";
  }

  /** Laying out the second string's pieces gives the second string. */
  lemma PipeLay()
    ensures Lay(PipePieces()) == Pipe
  {
    var p0, p1, p2 := Piece("", "kakakaka"), Piece("|", "lalalala"), Piece("-", "yayayayaya");
    assert PipePieces() == [p0] + ([p1] + [p2]);
    LayCons(p2, []);
    LayCons(p1, [p2]);
    LayCons(p0, [p1] + [p2]);
    PipeJoined();
  }

  /** The words of the second string start at offsets 0, 9 and 18. */
  lemma PipeStarts()
    ensures Starts(PipePieces(), 0) == [0, 9, 18]
    ensures Words(PipePieces()) == ["kakakaka", "lalalala", "yayayayaya"]
  {
    var p0, p1, p2 := Piece("", "kakakaka"), Piece("|", "lalalala"), Piece("-", "yayayayaya");
    assert PipePieces() == [p0] + ([p1] + [p2]);
    StartsCons(p2, [], 17);
    StartsCons(p1, [p2], 8);
    StartsCons(p0, [p1] + [p2], 0);
    WordsCons(p2, []);
    WordsCons(p1, [p2]);
    WordsCons(p0, [p1] + [p2]);
  }

  /** Splitting "hello world; akjhsfgas,asjhgfdtgpppppp" on "; ," with
      `strtok` returns four tokens, at offsets 0, 6, 13 and 23, which read
      back from the split buffer as the four words. */
  lemma TokenizeHelloWorld()
    ensures var r := Tokenize(Hello + [NUL], HelloDelims);
      && r.1 == [0, 6, 13, 23]
      && ReadAll(r.0, r.1) == ["hello", "world", "akjhsfgas", "asjhgfdtgpppppp"]
  {
    HelloWellLaid();
    HelloLay();
    assert Hello == Lay(HelloPieces()) + [];
    TokenizeRoundTrip(Hello, HelloPieces(), [], HelloDelims);
    HelloStarts();
  }

  /** Splitting "kakakaka|lalalala-yayayayaya" on "|-" returns three tokens,
      at offsets 0, 9 and 18, which read back as the three words. */
  lemma TokenizePipeDash()
    ensures var r := Tokenize(Pipe + [NUL], PipeDelims);
      && r.1 == [0, 9, 18]
      && ReadAll(r.0, r.1) == ["kakakaka", "lalalala", "yayayayaya"]
  {
    PipeWellLaid();
    PipeLay();
    assert Pipe == Lay(PipePieces()) + [];
    TokenizeRoundTrip(Pipe, PipePieces(), [], PipeDelims);
    PipeStarts();
  }

  /** `set_string` of the first string into any session, then
      `string_splitting` on the delimiter set "; ,": four tokens, which the lookups return in
      order, and NULL past them. */
  lemma HelloSession(s: Session)
    ensures var h := StringSplitting(SetString(Some(s), Hello).handle, Some(HelloDelims)).handle;
      && h.Some?
      && GetListCount(h) == Count(4)
      && Read(h.value, GetStraddrByIndex(h, 0)) == Some("hello")
      && Read(h.value, GetStraddrByIndex(h, 1)) == Some("world")
      && Read(h.value, GetStraddrByIndex(h, 2)) == Some("akjhsfgas")
      && Read(h.value, GetStraddrByIndex(h, 3)) == Some("asjhgfdtgpppppp")
      && GetStraddrByIndex(h, 4) == Null
  {
    var ps := HelloPieces();
    HelloWellLaid();
    HelloLay();
    HelloStarts();
    assert Hello == Lay(ps) + [];
    assert ps[0].gap == [] && Words(ps)[1] == ps[1].word;
    SessionRoundTrip(s, Hello, ps, [], HelloDelims, 0);
    SessionRoundTrip(s, Hello, ps, [], HelloDelims, 1);
    SessionRoundTrip(s, Hello, ps, [], HelloDelims, 2);
    SessionRoundTrip(s, Hello, ps, [], HelloDelims, 3);
    SessionRoundTrip(s, Hello, ps, [], HelloDelims, 4);
  }

  /** The same for the second string split on "|-": three tokens. */
  lemma PipeSession(s: Session)
    ensures var h := StringSplitting(SetString(Some(s), Pipe).handle, Some(PipeDelims)).handle;
      && h.Some?
      && GetListCount(h) == Count(3)
      && Read(h.value, GetStraddrByIndex(h, 0)) == Some("kakakaka")
      && Read(h.value, GetStraddrByIndex(h, 1)) == Some("lalalala")
      && Read(h.value, GetStraddrByIndex(h, 2)) == Some("yayayayaya")
      && GetStraddrByIndex(h, 3) == Null
  {
    var ps := PipePieces();
    PipeWellLaid();
    PipeLay();
    PipeStarts();
    assert Pipe == Lay(ps) + [];
    SessionRoundTrip(s, Pipe, ps, [], PipeDelims, 0);
    SessionRoundTrip(s, Pipe, ps, [], PipeDelims, 1);
    SessionRoundTrip(s, Pipe, ps, [], PipeDelims, 2);
    SessionRoundTrip(s, Pipe, ps, [], PipeDelims, 3);
  }

  /** The whole program: create a session, install and split the first
      string (four tokens), install and split the second one in the same
      session (three tokens, the first list discarded), and release the
      session, leaving the handle null. */
  lemma TestProgram()
    ensures var h1 := StringSplitting(SetString(Some(StructCreate()), Hello).handle, Some(HelloDelims)).handle;
      && h1.Some?
      && GetListCount(h1) == Count(4)
      && var h2 := StringSplitting(SetString(h1, Pipe).handle, Some(PipeDelims)).handle;
      && h2.Some?
      && GetListCount(h2) == Count(3)
      && Read(h2.value, GetStraddrByIndex(h2, 0)) == Some("kakakaka")
      && Read(h2.value, GetStraddrByIndex(h2, 1)) == Some("lalalala")
      && Read(h2.value, GetStraddrByIndex(h2, 2)) == Some("yayayayaya")
      && GetStraddrByIndex(h2, 3) == Null
      && ClearCompletely(Some(h2)) == (Ok, Some(None))
  {
    var h1 := StringSplitting(SetString(Some(StructCreate()), Hello).handle, Some(HelloDelims)).handle;
    HelloSession(StructCreate());
    PipeSession(h1.value);
  }

  /** The string " a" split on " ": the list holds one current token, "a",
      yet `get_straddr_by_index` refuses index 0 as a parameter error, since
      that token is not at the start of the buffer. The corrected lookup
      returns it. */
  lemma LeadingDelimiterHidesTokens(s: Session)
    ensures var h := StringSplitting(SetString(Some(s), " a").handle, Some(" ")).handle;
      && h.Some?
      && GetListCount(h) == Count(1)
      && GetStraddrByIndex(h, 0) == AddrParError
      && Read(h.value, GetStraddrByIndexCurrent(h, 0)) == Some("a")
  {
    var p := Piece(" ", "a");
    assert IsWord("a", " ") && AllDelims(" ", " ");
    WellLaidCons(p, [], " ");
    assert [p] + [] == [p];
    LayCons(p, []);
    assert " a" == Lay([p]) + [];
    SessionRoundTrip(s, " a", [p], [], " ", 0);
  }
}
