/** Conventions of C strings used by the tokeniser: the NUL terminator, the
    content of a C string, and reading a NUL-terminated string out of a buffer. */
module CStrings {

  /** The C string terminator. */
  const NUL: char := '\0'

  /** The content of a C string: the characters before its terminator, none of
      which can be NUL. */
  type Text = s: seq<char> | NUL !in s

  /** Index of the first NUL at or after `i` in buffer `b`, or `|b|` when the
      rest of the buffer holds none (the scan runs off the end). */
  function NulFrom(b: seq<char>, i: nat): (n: nat)
    requires i <= |b|
    ensures i <= n <= |b|
    ensures n < |b| ==> b[n] == NUL
    ensures forall k :: i <= k < n ==> b[k] != NUL
    decreases |b| - i
  {
    if i == |b| || b[i] == NUL then i else NulFrom(b, i + 1)
  }

  /** Length of the C string held at the start of `b` (what `strlen` returns). */
  function Len(b: seq<char>): (n: nat)
    ensures n <= |b|
  {
    NulFrom(b, 0)
  }

  /** The C string that starts at offset `i` of `b`: everything up to, not
      including, the next NUL. */
  function StrAt(b: seq<char>, i: nat): (s: Text)
    requires i <= |b|
    ensures i + |s| <= |b|
    ensures forall k :: 0 <= k < |s| ==> s[k] == b[i + k]
    ensures i + |s| == |b| || b[i + |s|] == NUL
  {
    b[i..NulFrom(b, i)]
  }

  /** Any position `e` that ends a NUL-free stretch starting at `i` (at a NUL
      or at the end of the buffer) is the one `NulFrom` finds. */
  lemma NulFromAt(b: seq<char>, i: nat, e: nat)
    requires i <= e <= |b|
    requires forall k :: i <= k < e ==> b[k] != NUL
    requires e == |b| || b[e] == NUL
    ensures NulFrom(b, i) == e
  {
  }

  /** Scanning from `i` across a NUL-free stretch ending before `m` finds the same
      terminator as scanning from `m`. */
  lemma NulFromSkip(b: seq<char>, i: nat, m: nat)
    requires i <= m <= |b|
    requires forall k :: i <= k < m ==> b[k] != NUL
    ensures NulFrom(b, i) == NulFrom(b, m)
  {
    NulFromAt(b, i, NulFrom(b, m));
  }

  /** Two buffers of equal length that agree from `i` on find the same terminator. */
  lemma NulFromAgree(b: seq<char>, c: seq<char>, i: nat)
    requires i <= |b| == |c|
    requires forall k :: i <= k < |b| ==> b[k] == c[k]
    ensures NulFrom(b, i) == NulFrom(c, i)
  {
    NulFromAt(c, i, NulFrom(b, i));
  }

  /** Copying a C string into a buffer with its terminator and reading it back
      gives the same string. */
  lemma StrAtTerminated(s: Text)
    ensures Len(s + [NUL]) == |s|
    ensures StrAt(s + [NUL], 0) == s
  {
    var b := s + [NUL];
    assert forall k :: 0 <= k < |s| ==> b[k] == s[k] && s[k] != NUL;
    NulFromAt(b, 0, |s|);
  }

  /** A word followed by a terminator, read as a C string at its first
      character, is that word. */
  lemma StrAtWord(pre: seq<char>, word: Text, rest: seq<char>)
    ensures StrAt(pre + word + [NUL] + rest, |pre|) == word
  {
    var b := pre + word + [NUL] + rest;
    forall k | |pre| <= k < |pre| + |word|
      ensures b[k] != NUL
    {
      assert b[k] == word[k - |pre|] && word[k - |pre|] in word;
    }
    NulFromAt(b, |pre|, |pre| + |word|);
  }

  /** The C string at `i` only depends on the buffer up to its terminator. */
  lemma StrAtAgree(b: seq<char>, c: seq<char>, i: nat, m: nat)
    requires i <= |b| == |c|
    requires NulFrom(b, i) < m <= |b|
    requires forall k :: 0 <= k < m ==> b[k] == c[k]
    ensures StrAt(c, i) == StrAt(b, i)
  {
    NulFromAt(c, i, NulFrom(b, i));
  }
}
