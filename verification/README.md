# mpc charset bridge and tab completion, in Dafny

This project models two pieces of mpc, the command-line client of the Music
Player Daemon.

**The charset bridge** (`src/charset.c`) sits between the local encoding of
the terminal and UTF-8, which is the daemon's wire encoding.

- The class `Charset.CharsetBridge` holds the module's globals:
  - the local encoding name;
  - the skip-invalid flag;
  - the one-entry converter cache (the descriptor and the stored `to`/`from` pair);
  - the static result slot of each facade.
- Its methods are `charset_init`, `charset_set`, `charset_close`,
  `charset_conv_strdup`, `charset_to_utf8` and `charset_from_utf8`.
- The iconv library is abstract:
  - `iconv_open` is a predicate `opens(to, from)`;
  - one `iconv()` call is a step function with a contract: it consumes at
    most the input, writes at most one 1024-byte buffer, and consumes at
    least one byte when it writes and does not fail.
- `skip_invalid` (with `mpc_strchrnul`) is a method with the source's slash
  loop, proved equal to a case-wise description, `IgnoreName`.
- The conversion loop is proved against `Convert`. `Convert` is specified
  by:
  - an all-or-nothing trace theorem;
  - a "chunking loses nothing" theorem.
- Each facade returns `Translate`, the conversion or, failing that, the input.
- Module `Latin1` instantiates the library with an ISO-8859-1 ⇄ UTF-8
  converter. With it the model states:
  - the round trip;
  - that every byte string converts to UTF-8;
  - the fallback of `charset_from_utf8` on UTF-8 text that is malformed or
    holds a character outside ISO-8859-1 (in skip-invalid mode this rests on
    the converter failing on the sequence it was asked to skip, as glibc's
    does);
  - concrete cases, such as "café", and a session method that observes
    converter reuse.

**Tab completion** (`src/tab.c`).

- `tab_base` and `tab_send_list` choose the directory to list.
- The loops of `cmd_loadtab`, `cmd_lstab` and `cmd_tab` run over the
  received records, given as a sequence. They print, through
  `charset_from_utf8`, each path that starts with the typed prefix.
- The shared loop `Tab.PrintMatching` is proved to print exactly `Shown` of
  `Matching`, the filtered paths in received order.
- It also states what a listing does to the bridge (`Tab.Listed`). A pair
  that opens is opened at most once for the whole listing. A pair that does
  not open is retried for every matching path.

**The cache key.** The cache key is the decorated pair: `to` is
reassigned at src/charset.c:102 before it is compared (line 103) and saved
(line 112). `Charset.DecoratedKeysCollide` shows one consequence.

**About `skip_invalid`.** mpc's copy of glibc's `iconv_prog` code searches
for the second '/' from the first slash itself (src/charset.c:75). Any name
containing '/' is therefore copied whole. The model follows mpc. glibc's
variant is kept as `IconvProgIgnoreName`, and
`Charset.SkipInvalidVersusIconvProg` states exactly when the two differ:
names with exactly one '/'. The names the program actually passes are
"UTF-8", the codeset reported by the locale and the fallback "ISO-8859-1"
(src/charset.c:221), none of which contains
'/', so the difference is not visible in the program.

## Model

| member | source | states |
|---|---|---|
| Charset.StrChrNul | src/charset.c:59-65 | the result is the first `c` at or after the start, or the terminator's offset exactly when there is no `c` there |
| Charset.IgnoreName | src/charset.c:83-90 | the decorated name starts with `to` unchanged, ends in "IGNORE", and is 6 to 8 characters longer than `to` |
| Charset.SkipInvalid | src/charset.c:67-92 | a name without '/' becomes `to` + "//IGNORE"; a name with '/' is kept whole and gets "IGNORE" when it ends in '/', ",IGNORE" otherwise; the result plus its NUL fits the malloc size |
| Charset.SkipInvalidVersusIconvProg | src/charset.c:73-80 | mpc's decoration equals glibc's iconv_prog decoration exactly when the name has no '/' or a second '/' after the first |
| Charset.DecoratedKeysCollide | src/charset.c:101-105 | in skip-invalid mode the cache keys for "UTF-8" and "UTF-8//" are equal, so one hits the other's entry; without the mode they differ |
| Charset.Convert | src/charset.c:153-170 | the conversion of empty input is the empty string; a successful conversion of nonempty input is nonempty and at most 1024 bytes per input byte |
| Charset.ConvertAllOrNothing | src/charset.c:155-172 | the conversion succeeds exactly when every iconv() call in its trace makes progress; its result is then all chunk outputs in order and the calls consume the whole input; no chunk exceeds the buffer |
| Charset.ConvertComputes | src/charset.c:155-170 | a converter whose every call writes the front of f's value converts every admitted input to exactly f of it |
| Charset.FacadeFallback | src/charset.c:224-251 | in terms of the iconv() calls: a facade returns the concatenated chunk outputs when the converter opens and every call makes progress, and the unconverted input in every other case |
| Charset.DirectionSwitchMisses | src/charset.c:229-242 | the two facades' cache keys are equal exactly when the local encoding is named "UTF-8", so alternating directions otherwise always misses |
| Charset.CharsetBridge.constructor | src/charset.c:40-47 | at process start there is no local encoding, no converter, no stored pair and no result in either slot |
| Charset.CharsetBridge.Init | src/charset.c:191-222 | skip-invalid is on exactly when stdout and stdin are terminals; the local encoding is the reported codeset when setlocale succeeded and one was reported, "ISO-8859-1" otherwise |
| Charset.CharsetBridge.Close | src/charset.c:177-188 | afterwards no pair is stored, and the cache invariant still holds |
| Charset.CharsetBridge.Set | src/charset.c:95-121 | returns 0 exactly when iconv_open accepts the decorated pair, -1 otherwise; on 0 the stored pair and descriptor are the decorated request; on -1 nothing is stored; a hit opens nothing and keeps the descriptor; a miss opens exactly once |
| Charset.CharsetBridge.ConvStrdup | src/charset.c:139-175 | no stored converter gives None; otherwise the result is `Convert` with the cached descriptor |
| Charset.CharsetBridge.ToUtf8 | src/charset.c:224-235 | returns `Translate` for the pair (UTF-8, locale) with the decorated key; the pair ends up cached exactly when it opens, and when it does not open the previous entry is gone and no converter is left; a hit opens nothing; the result is stored in the facade's slot |
| Charset.CharsetBridge.FromUtf8 | src/charset.c:237-251 | returns `Translate` for the pair (locale, UTF-8) with the decorated key; the pair ends up cached exactly when it opens, and when it does not open the previous entry is gone and no converter is left; a hit opens nothing; the result is stored in the facade's slot |
| Tab.StrRChr | src/tab.c:38 | the result is None exactly when there is no `c`; otherwise it is the offset of a `c` with none after it |
| Tab.TabBase | src/tab.c:35-47 | None exactly when the prefix has no '/'; otherwise a prefix of it, followed by '/', after which there is no '/' |
| Tab.TabBaseOfJoin | src/tab.c:38-46 | tab_base of `dir` + "/" + a slash-free name is `dir`, so "/x" gives the empty string and not None |
| Tab.TabSendList | src/tab.c:49-56 | the root is listed exactly when the prefix has no '/'; otherwise the listed directory plus '/' begins the prefix and no '/' follows it |
| Tab.MatchingSelects | src/tab.c:69-75 | the printed paths are the received paths at ascending positions, each once, and a position is selected exactly when the prefix is a prefix of its raw path |
| Tab.EmptyPrefixMatchesAll | src/tab.c:64-71 | with an empty prefix every received path is selected, in order |
| Tab.ShownTranslates | src/tab.c:72 | each shown line is its selected path passed through `Translate` |
| Tab.ListedStep | src/tab.c:69-75 | one more path, printed or not, keeps the listing's account of the bridge: untouched with no match, otherwise the slot holds the last line, the key is cached exactly when it opens, at most one open for a key that opens, one open per match for a key that does not |
| Tab.PrintIfMatching | src/tab.c:71-72 | a path is printed through charset_from_utf8 exactly when the prefix begins its raw bytes; the bridge is untouched otherwise, and otherwise changes as one charset_from_utf8 call does |
| Tab.PrintMatching | src/tab.c:69-75 | the printed lines are exactly `Shown` of the selected paths, and the bridge ends as `Listed` says: untouched when nothing matched, the slot holding the last line, the key cached exactly when it opens, iconv_open called at most once for a key that opens and once per match for one that does not |
| Tab.CmdLoadTab | src/tab.c:58-79 | sends the listing of tab_base(prefix), prints the translated stored-playlist paths that start with the prefix, leaves the bridge as `Listed` says, and returns 0 |
| Tab.CmdLsTab | src/tab.c:81-103 | sends the listing of tab_base(prefix), prints the translated directory paths that start with the prefix, leaves the bridge as `Listed` says, and returns 0 |
| Tab.CmdTab | src/tab.c:105-126 | sends the listing of tab_base(prefix), prints the translated song URIs that start with the prefix, leaves the bridge as `Listed` says, and returns 0 |
| Latin1.ToUtf8Encodes | src/charset.c:224-235 | with ISO-8859-1 as the local encoding, charset_to_utf8 returns the UTF-8 encoding of ISO-8859-1 text, in either skip-invalid mode |
| Latin1.FromUtf8Decodes | src/charset.c:237-251 | with ISO-8859-1 as the local encoding, charset_from_utf8 returns the decoding of well-formed UTF-8 text of U+0000..U+00FF |
| Latin1.RoundTrip | src/charset.c:224-251 | charset_from_utf8 of charset_to_utf8 of ISO-8859-1 text gives the text back |
| Latin1.BytesAreLatin1 | src/charset.c:229-232 | every byte string is ISO-8859-1 text, so with that local encoding charset_to_utf8 always converts and its fallback is never taken |
| Latin1.DecodeFailsOnMalformed | src/charset.c:155-170 | the conversion loop from UTF-8 fails, at whichever chunk, on text that is not well-formed UTF-8 of U+0000..U+00FF |
| Latin1.FromUtf8FallsBack | src/charset.c:242-248 | UTF-8 text that is malformed or holds a character outside ISO-8859-1 fails to convert at some chunk, and charset_from_utf8 returns it unchanged |
| Latin1.EuroFallsBack | src/charset.c:242-248 | the euro sign E2 82 AC is returned by charset_from_utf8 as received |
| Latin1.CafeScenario | src/charset.c:224-251 | "café" with é = 0xE9 goes to the wire as c a f 0xC3 0xA9 and comes back as itself |
| Latin1.ByteFFConverts | src/charset.c:224-235 | the byte 0xFF converts to 0xC3 0xBF rather than falling back to the raw byte |

`Latin1.CafeSession` is a verified client session: init on a terminal
without locale data, `charset_to_utf8` once, then `charset_from_utf8` twice.
Its assertions state that the first call in each direction opens a converter and that
the repeated call reuses the cached one.

## Left out

- src/search.c: `do_search` only checks the argument count and forwards constraints to the daemon client library; it has no state to model.
- The daemon connection: the sending of the list command, the receipt of records, `printErrorAndExit` and `my_finishCommand`. The request is returned as a `ListCommand` value, the received records are an input sequence, and the printed lines are an output sequence.
- `printf` and the freeing of each record are output and memory management.
- The `assert(argc == 1)` in the three tab commands: the prefix is given directly.
- Environment queries are inputs to `Init`: `isatty`, `setlocale` and `nl_langinfo(CODESET)`.
- iconv internals: only the contract of one `iconv()` call is modelled, and `iconv_open` is assumed to give the same answer for the same pair every time. `Latin1` is an ISO-8859-1 ⇄ UTF-8 converter written for this model, not glibc's.
- Conversion state: one `iconv()` call depends only on the descriptor's pair and the remaining input, so the shift state a reused descriptor carries between calls is not modelled. mpc never resets it with `iconv(cd, NULL, …)`, not even after a failed conversion. In the model, reusing a cached descriptor and reopening it give identical results.
- The loop's termination relies on an assumption in the step contract: a call that writes output and does not fail consumes at least one byte.
- The distinction between E2BIG and a complete conversion is not consulted by the loop; both continue while input remains. Any other error ends the conversion. This is what the source does.
- Memory management: malloc, strdup and realloc failures, and the leaks of `allocated` on the early returns of `charset_set`. Buffers are modelled as strings.
- Charset.CharsetBridge.ConvStrdup: the NUL kept at `ret[retlen]` is not modelled, because strings carry no terminator. Consequently a converter output containing a NUL byte is not cut short as a C caller would see it.
- Tab.PrintMatching: `memcmp` over the prefix's length is modelled as "is a prefix of". This relies on paths having no embedded NUL, since the path's terminator then differs from the prefix byte at that position.
- Latin1.FromUtf8FallsBack, Latin1.EuroFallsBack: the model converter treats `ISO-8859-1//IGNORE` like `ISO-8859-1`: it fails on an unconvertible sequence rather than dropping it and going on. For the bridge this is glibc's outcome as well, since glibc's IGNORE conversion skips the sequence but still ends the call with -1 and EILSEQ, which src/charset.c:160-161 treat as failure. An iconv that skipped silently and reported success would make `charset_from_utf8` print the text without those sequences in skip-invalid mode; such a library is not modelled.
- The descriptor value `(iconv_t)(-1)` left after a failed `iconv_open` is modelled as no converter.
- The build without iconv or without locale support (`HAVE_ICONV`, `HAVE_LOCALE`, `HAVE_LANGINFO_CODESET` unset) is not modelled; the model is the build with both.
