# bhr_strtok in Dafny

A model of the string-splitting session of `bhr_strtok.c`. A session (`strtok_t`)
owns a heap copy of a C string and a list of pointers to the tokens that the C
library's `strtok` finds in it. The operations are:

- `struct_create`
- `set_string`
- `string_splitting`
- `get_list_count`
- `get_straddr_by_index`
- `clear_completely`

`struct_create` takes no argument and returns a new session.
`clear_completely` takes the address of a handle. Each of the others takes a
possibly null handle. The answer is `0`, `PAR_ERROR`, a count, a token pointer
or `NULL`.

The model is functional:

- **Buffer.** The string buffer is a `seq<char>`: the string's characters
  followed by its NUL terminator.
- **Token list.** The list is a `seq` of pointers, in append order.
- **Pointers.** A pointer into the buffer is a generation number and an
  offset. Every `set_string` installs a buffer of a new generation, so the
  check in `get_straddr_by_index` that compares the list's first pointer with
  the buffer address compares values, not allocator addresses.
- **strtok.** `strtok` (section 7.24.5.8 of ISO/IEC 9899:2011) is a pure
  function `StrtokStep`. It does one call and makes the hidden saved pointer
  an explicit position. `Tokenize` makes the calls the splitting loop makes,
  and returns the split buffer and the token offsets.

Modules, one per file:

| file | module | what it holds |
|---|---|---|
| `optional.dfy` | `Optional` | `Option` |
| `cstrings.dfy` | `CStrings` | NUL, C-string content (`Text`), `strlen` (`Len`), reading a C string at an offset (`StrAt`) |
| `strtok.dfy` | `Strtok` | one `strtok` call, the scan, the splitting loop, and the reference predicates for what a split must leave |
| `strtok.dfy` | `StrtokProofs` | the scan meets those predicates, plus the properties derived from that |
| `session.dfy` | `StrtokSession` | the session, its status codes and the six operations |
| `session_proofs.dfy` | `StrtokSessionProofs` | what each operation leaves and how the operations combine |
| `layout.dfy` | `StrtokLayout` | strings built from words and delimiter runs; splitting such a string returns the words |
| `roundtrip.dfy` | `StrtokRoundTrip` | the round trip `set_string` → `string_splitting` → lookups gives the words back |
| `demo.dfy` | `StrtokDemo` | the two strings of `test.c`, the whole program, and the counterexample of the finding |

## Model

| member | source | states |
|---|---|---|
| StrtokSession.StructCreate | bhr_strtok.c:44-78 | A new session has no string and an empty list. It is valid, counts zero tokens, and refuses every index as a parameter error. |
| StrtokSessionProofs.FreshSessionCannotSplit | bhr_strtok.c:161-166 | Splitting a session just created is a parameter error and leaves it unchanged, because no string has been set. |
| StrtokSession.SetString | bhr_strtok.c:89-133 | A null session is a parameter error. Otherwise the buffer becomes the input plus its terminator. The list is untouched, so it still points into the discarded buffer, and validity is kept. |
| StrtokSessionProofs.SetStringCopiesInput | bhr_strtok.c:111-123 | The installed buffer is one longer than the input, `strlen` of it is the input's length, and read as a C string it is the input. |
| StrtokSessionProofs.SetStringMakesListStale | bhr_strtok.c:104-126 | After a new string is installed, the count still reports the old tokens. Every lookup is a parameter error until the next split. |
| StrtokSession.StringSplitting | bhr_strtok.c:145-209 | Parameter error, with the handle unchanged, exactly when the session or delimiter set is null or no string is set. Otherwise the buffer keeps its length and the list holds one pointer per token offset, all into the current buffer. |
| Strtok.StrtokStep | bhr_strtok.c:184-188 | One `strtok` call keeps the buffer length and leaves the buffer before the resume position alone. A token it returns starts at or after that position, before the next resume position, on a non-NUL character. With no token it writes nothing. |
| Strtok.SplitLoop | bhr_strtok.c:178-201 | The C loop (first call on the buffer, later calls resuming, append until a null pointer) computes exactly the split buffer and token offsets of `Tokenize`. |
| Strtok.Scan | bhr_strtok.c:184-201 | The repeated `strtok` calls from a resume position until a null pointer. Its own contract only keeps the buffer length. `StrtokProofs.ScanCorrect` states its behaviour. |
| Strtok.Tokenize | bhr_strtok.c:178-201 | The whole-buffer split: the first call on the buffer, then resumed calls. Its own contract only keeps the buffer length. `StrtokProofs.TokenizeCharacterized` states its behaviour. |
| StrtokProofs.ScanCorrect | bhr_strtok.c:178-201 | A scan from any position satisfies the reference predicates. The buffer differs only at delimiters that end a token, which become NUL. The offsets are exactly the token starts, in strictly increasing order. |
| StrtokProofs.TokenizeCharacterized | bhr_strtok.c:178-201 | Whole-buffer split, stated without `strtok`. Position k becomes NUL iff it holds a delimiter right after a non-delimiter, before the terminator. Every other character is kept. The offsets increase strictly, and k is an offset iff k is before the terminator, holds a non-delimiter, and is at the start or after a delimiter. `StrtokProofs.TokenStartIff` is the same offset fact at one position. |
| StrtokProofs.TokensAreMaximalRuns | bhr_strtok.c:178-201 | Each token is a non-empty maximal run of non-delimiters before the terminator, at the buffer start or after a delimiter, ending at a delimiter, NUL or buffer end. Read back from the split buffer it is that run, unchanged, with no delimiter in it. |
| StrtokProofs.NoTokensIffAllDelims | bhr_strtok.c:178-201 | A split yields no token iff every character before the terminator is a delimiter. This includes the empty string. |
| StrtokProofs.ResplitSeesFirstToken | bhr_strtok.c:184 | Splitting an already split buffer again with the same delimiters writes nothing. It finds only the first token of the first split, or none. |
| StrtokProofs.ResplitStopsAtFirstNul | bhr_strtok.c:184 | Splitting an already split buffer again with any delimiters sees only the C string before the first NUL the first split wrote. That string ends where the first token ends, or is the whole string when there was no token. Every offset found lies before it, and nothing from there on is written. |
| StrtokSessionProofs.SplittingDiscardsOldList | bhr_strtok.c:170-174 | A split's result does not depend on what the list held before. The old entries are discarded. |
| StrtokSessionProofs.SplittingStoresTheTokens | bhr_strtok.c:170-203 | A split returns 0 and stores the split buffer. The list's offsets increase strictly. A pointer to offset k of the current buffer is in the list iff a token of the string starts at k, in both directions. |
| StrtokSessionProofs.SplitStartsAtBufferStart | bhr_strtok.c:178-199 | After a split, the list holds a pointer to the start of the current buffer iff the string is non-empty and starts with a non-delimiter. |
| StrtokSessionProofs.SplittingKeepsValid | bhr_strtok.c:145-209 | After a split, every stored pointer addresses a non-NUL character of the current buffer. |
| StrtokSessionProofs.SplitTokensReadBack | bhr_strtok.c:192-199 | Reading the i-th stored pointer as a C string gives the non-empty, delimiter-free maximal run that starts there in the original string. |
| StrtokSession.GetListCount | bhr_strtok.c:386-403 | Parameter error iff the session is null. Otherwise the count is the number of list entries. |
| StrtokSessionProofs.CountAfterSplit | bhr_strtok.c:386-403 | After a split, the count is the number of token starts in the string as it was before the split. |
| StrtokSession.GetStraddrByIndex | bhr_strtok.c:331-377 | Parameter error iff the session is null, the index is negative, no string is set, the list is empty, or the first pointer is not the start of the current buffer. NULL iff those checks pass and the index is past the list. Otherwise it returns the index-th pointer. |
| StrtokSessionProofs.LookupAfterSplit | bhr_strtok.c:336-372 | Right after a split, a lookup is a parameter error when the index is negative, the string is empty, or the string starts with a delimiter. Otherwise it returns the index-th token offset, or NULL past the last one. |
| StrtokSession.GetStraddrByIndexCurrent | bhr_strtok.c:355-362 | The corrected lookup: the same classification, except that the list is refused only when its first pointer is into an older buffer. |
| StrtokSessionProofs.LookupCurrentAfterSplit | bhr_strtok.c:355-372 | Right after a split, the corrected lookup returns the index-th token for every index in range, whatever the string starts with. It is a parameter error for a negative index or an empty list, and NULL past the end. |
| StrtokSessionProofs.SetStringMakesListStaleCurrent | bhr_strtok.c:355-362 | The corrected lookup still refuses a list left over from a buffer that `set_string` replaced. |
| StrtokSession.ClearCompletely | bhr_strtok.c:219-254 | A null handle address is a parameter error. Otherwise it returns 0 and the caller's handle becomes null. |
| StrtokSessionProofs.ClearedHandleIsNull | bhr_strtok.c:219-250 | After `clear_completely`, the handle is null and every other operation on it is a parameter error. |
| StrtokLayout.ScanLaidOut | bhr_strtok.c:178-201 | A string built from words and delimiter runs splits back into exactly those words. The offsets are the words' starts, and each token reads back as its word. This is the inverse of laying out. |
| StrtokRoundTrip.TokenizeRoundTrip | bhr_strtok.c:178-201 | Whole-buffer form of the inverse: `Tokenize` of a laid-out string plus its terminator returns the word starts, and the split buffer reads back as the words. |
| StrtokRoundTrip.SessionRoundTrip | bhr_strtok.c:145-209 | `set_string` of a laid-out string, then a split, counts the words, and the corrected lookup of index i reads back word i. The as-written lookup agrees, except that it refuses every index when the string starts with a delimiter. |
| StrtokDemo.TokenizeHelloWorld | test.c:10-23 | "hello world; akjhsfgas,asjhgfdtgpppppp" split on "; ," gives tokens at 0, 6, 13 and 23: "hello", "world", "akjhsfgas" and "asjhgfdtgpppppp". |
| StrtokDemo.TokenizePipeDash | test.c:38-44 | The second string of the program, split on its bar and dash delimiters, gives tokens at 0, 9 and 18: "kakakaka", "lalalala" and "yayayayaya". |
| StrtokDemo.HelloSession | test.c:14-23 | In any session, the first string gives count 4. The lookups read back the four words in order, and index 4 is NULL. |
| StrtokDemo.PipeSession | test.c:38-54 | In any session, the second string gives count 3. The lookups read back the three words, and index 3 is NULL. |
| StrtokDemo.TestProgram | test.c:8-59 | The whole program: first split count 4, second split count 3, the three lookups read back the words, index 3 is NULL, and `clear_completely` nulls the handle. |
| StrtokDemo.LeadingDelimiterHidesTokens | bhr_strtok.c:355-362 | " a" split on " " stores one current token. The lookup refuses index 0 as a parameter error, while the corrected lookup returns "a". |

## Left out

- Allocation failure (`FUN_ERROR`). `calloc` returning NULL in `struct_create` and `set_string` (bhr_strtok.c:49-56, 63-70, 112-119) is not modelled: the heap is not modelled.
  - `string_splitting` ignores the result of `uolist_append` (bhr_strtok.c:198). A failed append would drop that token while the split still returns 0. The model assumes every append succeeds.
- The generic list. `uni_oneway_linkedlist.h/.c` and `define.h` are not part of this model.
  - The list is a `seq` of pointers.
  - `uolist_retrieve_by_index` is taken to yield the stored pointer, which is how `test.c` prints its result.
  - `uolist_destroy` is taken to empty the list.
  - Node destructors and whether memory is freed once are not modelled.
- Printing. `strtok_data_print`, `print_string` and `print_tokstring` only do I/O. `print_tokstring` also dereferences the first node without a null check (bhr_strtok.c:309). The `#ifdef DEBUG` messages printed on the error paths are left out too.
- Pointer identity. Generation numbers stand in for addresses. A reused allocation whose address happens to equal the old one is not modelled.
- strtok's hidden state. The saved position is explicit. Interference from other callers of `strtok` is not modelled.
- Undefined behaviour is excluded rather than modelled:
  - `set_string` runs `strlen` on a null string before its null check (bhr_strtok.c:91), so the string parameter is never null.
  - `clear_completely` dereferences `*p` unchecked (bhr_strtok.c:232), so its precondition asks for a non-null handle.
  - `set_string` frees the old buffer (bhr_strtok.c:106) before `strcpy` reads `str` (bhr_strtok.c:123). When `str` points into the session's own buffer, for example a token from `get_straddr_by_index`, C reads freed memory. `SetString` takes the string by value, so it installs that string instead.
- Characters are bytes. Each Dafny `char` stands for one C `char`, that is one byte, and `strtok` compares bytes. Multi-byte text such as UTF-8 must be given as its byte sequence. Given as Unicode characters, it can split differently from C wherever two characters share a byte.
- StrtokSession.SetString: copies a string of any length, and does not model `int size = strlen(str) + 1` at bhr_strtok.c:91. For a string of `INT_MAX` or more characters that conversion goes wrong in C. A negative size makes `calloc` fail (`FUN_ERROR`), and a size that wraps to a small positive value makes the `strcpy` at bhr_strtok.c:123 overflow the heap.
- Integer widths. The `int` count and index are unbounded here. A split of more than `INT_MAX` tokens needs a string longer than `set_string` handles correctly, as the previous line says.
- StrtokSession.Read: reads a token pointer as a C string only when it points into the current buffer. Reading through a stale pointer, which in C reads freed memory, gives no value.

## Findings

| source | as written | input that shows it | evidently intended | confidence | as-written member | corrected member |
|---|---|---|---|---|---|---|
| bhr_strtok.c:356 | The lookup is refused unless the first stored pointer equals the buffer's start address. | `set_string(p, " a")`, then `string_splitting(p, " ")`: `get_list_count` is 1, but `get_straddr_by_index(p, 0)` returns PAR_ERROR, and so does every other index. | Refuse only a list left from an earlier buffer, so that a string starting with a delimiter can still be looked up. | not executed | StrtokDemo.LeadingDelimiterHidesTokens | StrtokSession.GetStraddrByIndexCurrent |

`StrtokSession.GetStraddrByIndex` models line 356 as written. `StrtokSessionProofs.LookupCurrentAfterSplit` proves the intended behaviour of the corrected lookup: after a split, every in-range index gives its token. `StrtokSessionProofs.SetStringMakesListStaleCurrent` shows that it still refuses stale lists. The round trip in `StrtokRoundTrip.SessionRoundTrip` is stated for the corrected lookup.
