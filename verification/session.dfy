/** The tokenising session of `bhr_strtok.c`: a `strtok_t` pairs an optional
    heap copy of a string with a list of pointers to the tokens found in it.
    `struct_create` takes no argument and `clear_completely` takes the
    address of a handle; every other operation takes the session handle,
    which may be a null pointer. Each answers with the status code the C
    function returns.

    A pointer into the string buffer is a generation number and an offset:
    every `set_string` installs a buffer of a fresh generation, so a pointer
    left over from an earlier buffer never equals a pointer into the current
    one. */
module StrtokSession {
  import opened Optional
  import opened CStrings
  import opened Strtok

  /** A `char *` into a session's string buffer. */
  datatype TokPtr = TokPtr(gen: nat, offset: nat)

  /** A `strtok_t`: the string buffer (`str_p`, None while null), the
      generation of that buffer, and the token list (`head`) in append order. */
  datatype Session = Session(buf: Option<seq<char>>, gen: nat, toks: seq<TokPtr>)

  /** The `int` status codes: 0 and PAR_ERROR. */
  datatype Status = Ok | ParError

  /** The status returned and the session handle afterwards. */
  datatype Outcome = Outcome(status: Status, handle: Option<Session>)

  /** What `get_list_count` returns: the count, or PAR_ERROR. */
  datatype Count = Count(n: nat) | CountParError

  /** What `get_straddr_by_index` returns: a token pointer, NULL (index out of
      range) or PAR_ERROR cast to a pointer. */
  datatype Addr = Token(ptr: TokPtr) | Null | AddrParError

  /** The token pointers a split of the buffer of generation `gen` appends,
      one per offset, in order. */
  function Pointers(gen: nat, offs: seq<nat>): (ps: seq<TokPtr>)
    ensures |ps| == |offs|
    ensures forall i :: 0 <= i < |offs| ==> ps[i] == TokPtr(gen, offs[i])
  {
    seq(|offs|, i requires 0 <= i < |offs| => TokPtr(gen, offs[i]))
  }

  /** What holds of every session the operations build: a session without a
      buffer has no tokens; the list holds pointers into one buffer, in
      strictly increasing order, none from a generation not yet created; and
      a pointer into the current buffer points at the first character of a
      non-empty C string inside it. */
  ghost predicate Valid(s: Session) {
    && (s.buf.None? ==> s.toks == [])
    && (forall i, j :: 0 <= i < j < |s.toks| ==>
          s.toks[i].gen == s.toks[j].gen && s.toks[i].offset < s.toks[j].offset)
    && (forall i :: 0 <= i < |s.toks| ==> s.toks[i].gen <= s.gen)
    && (forall i :: 0 <= i < |s.toks| && s.toks[i].gen == s.gen ==>
          s.buf.Some? && s.toks[i].offset < |s.buf.value| && s.buf.value[s.toks[i].offset] != NUL)
  }

  /** `struct_create`: a session with no string and an empty token list.
      Such a session is valid, reports zero tokens, and refuses every index
      lookup as a parameter error because there is no string yet. */
  function StructCreate(): (s: Session)
    ensures s.buf.None? && s.toks == []
    ensures Valid(s)
    ensures GetListCount(Some(s)) == Count(0)
    ensures forall i :: GetStraddrByIndex(Some(s), i) == AddrParError
  {
    Session(None, 0, [])
  }

  /** `set_string`: replace the session's string with a copy of `str` and its
      terminator. The token list is left alone, so it still points into the
      discarded buffer. */
  function SetString(p: Option<Session>, str: Text): (r: Outcome)
    ensures p.None? ==> r == Outcome(ParError, None)
    ensures p.Some? ==> r.status == Ok && r.handle.Some?
    ensures p.Some? ==> r.handle.value.buf == Some(str + [NUL])
    ensures p.Some? ==> r.handle.value.toks == p.value.toks
    ensures p.Some? ==> r.handle.value.gen > p.value.gen
    ensures p.Some? && Valid(p.value) ==> Valid(r.handle.value)
  {
    match p
    case None => Outcome(ParError, None)
    case Some(s) => Outcome(Ok, Some(Session(Some(str + [NUL]), s.gen + 1, s.toks)))
  }

  /** `string_splitting`: empty the token list, then split the session's
      string destructively on `delim` and append a pointer to each token. A
      null session, a null delimiter string or a session without a string is
      a parameter error and changes nothing. */
  function StringSplitting(p: Option<Session>, delim: Option<Text>): (r: Outcome)
    ensures r.status == ParError <==> p.None? || delim.None? || p.value.buf.None?
    ensures r.status == ParError ==> r.handle == p
    ensures r.status == Ok ==>
      && r.handle.Some?
      && r.handle.value.gen == p.value.gen
      && r.handle.value.buf.Some?
      && |r.handle.value.buf.value| == |p.value.buf.value|
      && |r.handle.value.toks| == |Tokenize(p.value.buf.value, delim.value).1|
      && (forall i :: 0 <= i < |r.handle.value.toks| ==> r.handle.value.toks[i].gen == p.value.gen)
  {
    if p.None? || delim.None? then Outcome(ParError, p)
    else
      var s := p.value;
      match s.buf
      case None => Outcome(ParError, p)
      case Some(b) =>
        var nb := Tokenize(b, delim.value).0;
        var offs := Tokenize(b, delim.value).1;
        Outcome(Ok, Some(Session(Some(nb), s.gen, Pointers(s.gen, offs))))
  }

  /** `get_list_count`: the number of pointers in the token list, or a
      parameter error for a null session. */
  function GetListCount(p: Option<Session>): (r: Count)
    ensures r == CountParError <==> p.None?
    ensures p.Some? ==> r.n == |p.value.toks|
  {
    match p
    case None => CountParError
    case Some(s) => Count(|s.toks|)
  }

  /** `get_straddr_by_index`: the `index`-th token pointer. A null session, a
      negative index, a session without a string or with an empty list, and a
      list whose first pointer is not the start of the current buffer are
      parameter errors; an index past the end of the list gives NULL. */
  function GetStraddrByIndex(p: Option<Session>, index: int): (r: Addr)
    ensures r == AddrParError <==>
      || p.None? || index < 0 || p.value.buf.None? || p.value.toks == []
      || p.value.toks[0] != TokPtr(p.value.gen, 0)
    ensures r == Null <==>
      && p.Some? && 0 <= index && p.value.buf.Some? && p.value.toks != []
      && p.value.toks[0] == TokPtr(p.value.gen, 0)
      && index >= |p.value.toks|
    ensures r.Token? ==> 0 <= index < |p.value.toks| && r.ptr == p.value.toks[index]
  {
    if p.None? || index < 0 then AddrParError
    else
      var s := p.value;
      if s.buf.None? || s.toks == [] then AddrParError
      else if s.toks[0] != TokPtr(s.gen, 0) then AddrParError
      else if index < |s.toks| then Token(s.toks[index])
      else Null
  }

  /** `get_straddr_by_index` with the check it evidently means to make: the
      list must hold pointers into the current buffer. The C code instead asks
      that the first pointer be the start of the buffer, which a current list
      fails whenever the string starts with a delimiter. */
  function GetStraddrByIndexCurrent(p: Option<Session>, index: int): (r: Addr)
    ensures r == AddrParError <==>
      || p.None? || index < 0 || p.value.buf.None? || p.value.toks == []
      || p.value.toks[0].gen != p.value.gen
    ensures r == Null <==>
      && p.Some? && 0 <= index && p.value.buf.Some? && p.value.toks != []
      && p.value.toks[0].gen == p.value.gen
      && index >= |p.value.toks|
    ensures r.Token? ==> 0 <= index < |p.value.toks| && r.ptr == p.value.toks[index]
  {
    if p.None? || index < 0 then AddrParError
    else
      var s := p.value;
      if s.buf.None? || s.toks == [] then AddrParError
      else if s.toks[0].gen != s.gen then AddrParError
      else if index < |s.toks| then Token(s.toks[index])
      else Null
  }

  /** `clear_completely`: given the address of a session handle, release the
      session and set the handle to null. A null address is a parameter error;
      the address of a null handle is outside what the function handles. */
  function ClearCompletely(pp: Option<Option<Session>>): (r: (Status, Option<Option<Session>>))
    requires pp.Some? ==> pp.value.Some?
    ensures pp.None? ==> r == (ParError, None)
    ensures pp.Some? ==> r == (Ok, Some(None))
  {
    match pp
    case None => (ParError, None)
    case Some(_) => (Ok, Some(None))
  }

  /** The C string a returned token pointer designates, when it points into
      the session's current buffer. */
  function Read(s: Session, a: Addr): (t: Option<Text>)
    ensures t.Some? ==> a.Token? && s.buf.Some? && a.ptr.gen == s.gen
  {
    if a.Token? && s.buf.Some? && a.ptr.gen == s.gen && a.ptr.offset <= |s.buf.value|
    then Some(StrAt(s.buf.value, a.ptr.offset))
    else None
  }
}
