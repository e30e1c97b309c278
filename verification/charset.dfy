/**
  The charset bridge of mpc (src/charset.c): the local encoding name, the
  one-entry converter cache, the chunked conversion loop and the two
  directional facades that fall back to the unconverted input.

  C strings are modelled as `string` values holding their bytes up to (not
  including) the terminating NUL; a NUL never occurs inside them.
 */
module Charset {
  import opened Wrappers
  import opened Iconv

  /** The encoding name used when the locale yields none. */
  const DefaultCharset: string := "ISO-8859-1"

  /** The wire encoding of the daemon's protocol. */
  const Utf8: string := "UTF-8"

  // ---------------------------------------------------------------------
  // Encoding-name decoration (mpc_strchrnul, skip_invalid)
  // ---------------------------------------------------------------------

  /** `*p` for a pointer p to offset i of the C string s: offset |s| is the NUL. */
  function At(s: string, i: nat): char
    requires i <= |s|
  {
    if i < |s| then s[i] else '\0'
  }

  /**
    strchr(s + start, c) over the characters of s. For c == NUL the C call
    finds the terminator, which s does not hold: StrChrNul's None case
    covers it.
   */
  function StrChr(s: string, start: nat, c: char): (r: Option<nat>)
    requires start <= |s|
    ensures r.None? <==> c !in s[start..]
    ensures r.Some? ==> start <= r.value < |s| && s[r.value] == c
    ensures r.Some? ==> c !in s[start..r.value]
    decreases |s| - start
  {
    if start == |s| then None
    else if s[start] == c then Some(start)
    else
      var r := StrChr(s, start + 1, c);
      assert s[start..] == [s[start]] + s[start + 1..];
      assert r.Some? ==> s[start..r.value] == [s[start]] + s[start + 1..r.value];
      r
  }

  /** mpc_strchrnul: the first c at or after start, or the terminator. */
  function StrChrNul(s: string, start: nat, c: char): (i: nat)
    requires start <= |s|
    ensures start <= i <= |s|
    ensures i < |s| <==> c in s[start..]
    ensures i < |s| ==> s[i] == c
    ensures c !in s[start..i]
  {
    match StrChr(s, start, c)
    case Some(i) => i
    case None => |s|
  }

  /**
    The name skip_invalid builds for `to`, described by cases: a name
    without '/' gets "//IGNORE"; a name with a '/' is kept whole and gets
    "IGNORE" when it already ends in '/', ",IGNORE" otherwise.
   */
  function IgnoreName(to: string): (r: string)
    ensures |to| + 6 <= |r| <= |to| + 8
    ensures r[..|to|] == to
    ensures r[|r| - 6..] == "IGNORE"
  {
    if '/' !in to then to + "//IGNORE"
    else if to[|to| - 1] == '/' then to + "IGNORE"
    else to + ",IGNORE"
  }

  /**
    The name glibc's iconv_prog builds, which skip_invalid was taken from:
    there the second search for '/' starts one past the first slash.
   */
  function IconvProgIgnoreName(to: string): string
  {
    var first := StrChrNul(to, 0, '/');
    if At(to, first) != '/' then to + "//IGNORE"
    else
      var second := StrChrNul(to, first + 1, '/');
      if At(to, second) != '/' then to + "/IGNORE"
      else if to[|to| - 1] == '/' then to + "IGNORE"
      else to + ",IGNORE"
  }

  /** The size skip_invalid passes to malloc: the copied name, the slashes still to add, ",IGNORE" and the NUL. */
  function AllocSize(to: string): nat
  {
    if '/' in to then |to| + 0 + 7 + 1 else |to| + 2 + 7 + 1
  }

  /**
    skip_invalid: decorate an iconv target name so that unconvertible
    characters are dropped. The second search for '/' starts at the slash
    already found, so any name containing '/' is copied whole.
   */
  method SkipInvalid(to: string) returns (newp: string)
    ensures newp == IgnoreName(to)
    ensures |newp| + 1 <= AllocSize(to)
  {
    var errhand := StrChrNul(to, 0, '/');
    var nslash := 2;
    if At(to, errhand) == '/' {
      nslash := nslash - 1;
      errhand := StrChrNul(to, errhand, '/');
      if At(to, errhand) == '/' {
        nslash := nslash - 1;
        errhand := |to|;
      }
    }
    ghost var size := errhand + nslash + 7 + 1;
    assert errhand == |to| && size == AllocSize(to);
    newp := to[..errhand];
    ghost var added := 0;
    while nslash > 0
      invariant 0 <= nslash && added + nslash == size - |to| - 8
      invariant newp == to + Slashes(added)
    {
      newp := newp + ['/'];
      added := added + 1;
      nslash := nslash - 1;
    }
    assert newp == if '/' in to then to else to + "//" by {
      assert Slashes(0) == [] && Slashes(2) == "//";
    }
    ghost var slashed := newp;
    if newp[|newp| - 1] != '/' {
      newp := newp + [','];
    }
    newp := newp + "IGNORE";
    IgnoreSuffix(to, slashed);
  }

  /** Appending the separator and "IGNORE" to the slashed name yields IgnoreName. */
  lemma IgnoreSuffix(to: string, slashed: string)
    requires slashed == if '/' in to then to else to + "//"
    ensures |slashed| > 0
    ensures (if slashed[|slashed| - 1] != '/' then slashed + [','] else slashed) + "IGNORE" == IgnoreName(to)
  {
    if '/' !in to {
      assert slashed + "IGNORE" == to + "//IGNORE";
    } else {
      assert slashed[|slashed| - 1] == to[|to| - 1];
      assert slashed + [','] + "IGNORE" == to + ",IGNORE";
    }
  }

  /** `n` slash characters. */
  function Slashes(n: nat): (r: string)
    ensures |r| == n && forall i :: 0 <= i < n ==> r[i] == '/'
  {
    if n == 0 then [] else Slashes(n - 1) + ['/']
  }

  /**
    skip_invalid and iconv_prog decorate a name the same way exactly when the
    name does not contain exactly one '/'.
   */
  lemma SkipInvalidVersusIconvProg(to: string)
    ensures IgnoreName(to) == IconvProgIgnoreName(to) <==>
              ('/' !in to || '/' in to[StrChrNul(to, 0, '/') + 1..])
  {
    var first := StrChrNul(to, 0, '/');
    if '/' in to {
      var second := StrChrNul(to, first + 1, '/');
      if At(to, second) != '/' {
        var a, b := IgnoreName(to), IconvProgIgnoreName(to);
        assert b == to + "/IGNORE";
        if to[|to| - 1] == '/' {
          assert |a| != |b|;
        } else {
          assert a[|to|] == ',' && b[|to|] == '/';
        }
      }
    }
  }

  /** The name charset_set uses as target and cache key. */
  function Decorate(ignoreInvalid: bool, to: string): (r: string)
  {
    if ignoreInvalid then IgnoreName(to) else to
  }

  /**
    The cache compares decorated names, so in skip-invalid mode a request
    for "UTF-8//" hits the entry opened for "UTF-8".
   */
  lemma DecoratedKeysCollide()
    ensures Decorate(true, "UTF-8") == Decorate(true, "UTF-8//")
    ensures Decorate(false, "UTF-8") != Decorate(false, "UTF-8//")
  {
    var plain, slashed := "UTF-8", "UTF-8//";
    assert '/' !in plain by {
      assert forall i :: 0 <= i < |plain| ==> plain[i] != '/';
    }
    assert slashed[|slashed| - 1] == '/' && '/' in slashed;
    assert IgnoreName(plain) == plain + "//IGNORE";
    assert IgnoreName(slashed) == slashed + "IGNORE";
    assert plain + "//IGNORE" == slashed + "IGNORE";
    assert |plain| != |slashed|;
  }

  // ---------------------------------------------------------------------
  // The conversion loop (charset_conv_strdup)
  // ---------------------------------------------------------------------

  /** The loop continues after a step exactly when it wrote output and did not fail with an errno other than E2BIG. */
  predicate Progress(st: Step)
  {
    st.output != [] && st.status != Failed
  }

  /**
    What charset_conv_strdup computes with an open converter: the outputs
    of the successive iconv() calls, concatenated, or None as soon as one
    call makes no progress.
   */
  function Convert(step: StepFunction, cd: Converter, s: string): (r: Option<string>)
    requires IconvContract(step)
    ensures s == [] ==> r == Some([])
    ensures r.Some? && s != [] ==> r.value != []
    ensures r.Some? ==> |r.value| <= BufferSize * |s|
    decreases |s|
  {
    if s == [] then Some([])
    else
      var st := step(cd, s);
      if !Progress(st) then None
      else
        Prepend(st.output, Convert(step, cd, s[st.consumed..]))
  }

  /** `p` followed by the result `o`, if there is one. */
  function Prepend(p: string, o: Option<string>): Option<string>
  {
    match o
    case None => None
    case Some(rest) => Some(p + rest)
  }

  lemma PrependTwice(p: string, q: string, o: Option<string>)
    ensures Prepend(p, Prepend(q, o)) == Prepend(p + q, o)
  {
    if o.Some? {
      assert p + (q + o.value) == (p + q) + o.value;
    }
  }

  /** The iconv() calls the loop makes on `s`, up to and including the first that makes no progress. */
  function Trace(step: StepFunction, cd: Converter, s: string): (t: seq<Step>)
    requires IconvContract(step)
    decreases |s|
  {
    if s == [] then []
    else
      var st := step(cd, s);
      if !Progress(st) then [st] else [st] + Trace(step, cd, s[st.consumed..])
  }

  /** The bytes a sequence of steps writes, in order. */
  function Outputs(t: seq<Step>): string
  {
    if t == [] then [] else t[0].output + Outputs(t[1..])
  }

  /** Input bytes a sequence of steps consumes. */
  function Consumed(t: seq<Step>): nat
  {
    if t == [] then 0 else t[0].consumed + Consumed(t[1..])
  }

  /**
    All or nothing: the conversion succeeds exactly when every iconv() call
    made progress; then its result is all chunk outputs in order, each chunk
    at most one buffer, and together the calls consumed the whole input.
   */
  lemma {:induction false} ConvertAllOrNothing(step: StepFunction, cd: Converter, s: string)
    requires IconvContract(step)
    ensures var t := Trace(step, cd, s);
      && (Convert(step, cd, s).Some? <==> forall i :: 0 <= i < |t| ==> Progress(t[i]))
      && (Convert(step, cd, s).Some? ==> Convert(step, cd, s).value == Outputs(t) && Consumed(t) == |s|)
      && (forall i :: 0 <= i < |t| ==> |t[i].output| <= BufferSize)
    decreases |s|
  {
    if s != [] {
      var st := step(cd, s);
      assert StepContract(s, st);
      if Progress(st) {
        var rest := s[st.consumed..];
        ConvertAllOrNothing(step, cd, rest);
        var t, tr := Trace(step, cd, s), Trace(step, cd, rest);
        assert t == [st] + tr;
        assert t[0] == st && t[1..] == tr;
        assert forall i :: 1 <= i < |t| ==> t[i] == tr[i - 1];
        if forall i :: 0 <= i < |t| ==> Progress(t[i]) {
          assert forall i :: 0 <= i < |tr| ==> Progress(tr[i]) by {
            forall i | 0 <= i < |tr| ensures Progress(tr[i]) { assert tr[i] == t[i + 1]; }
          }
        }
        if Convert(step, cd, s).Some? {
          assert Convert(step, cd, rest).Some?;
          forall i | 0 <= i < |t| ensures Progress(t[i]) {
            if i > 0 { assert t[i] == tr[i - 1]; }
          }
          assert Convert(step, cd, s).value == st.output + Convert(step, cd, rest).value;
          assert Outputs(t) == st.output + Outputs(tr);
          assert Consumed(t) == st.consumed + Consumed(tr);
        }
      } else {
        assert Trace(step, cd, s)[0] == st;
      }
    }
  }

  /**
    A converter implements a byte-string function f on the inputs `dom`
    admits when every call on such an input makes progress, leaves an
    admitted remainder, and its output is the front of f's value.
   */
  ghost predicate Implements(step: StepFunction, cd: Converter, f: string -> string, dom: string -> bool)
  {
    && (dom([]) ==> f([]) == [])
    && forall s :: dom(s) && s != [] ==>
         var st := step(cd, s);
         Progress(st) && st.consumed <= |s| && dom(s[st.consumed..]) && f(s) == st.output + f(s[st.consumed..])
  }

  /** Chunking loses nothing: a converter implementing f converts every admitted input to f of it. */
  lemma {:induction false} ConvertComputes(step: StepFunction, cd: Converter, f: string -> string, dom: string -> bool, s: string)
    requires IconvContract(step) && Implements(step, cd, f, dom) && dom(s)
    ensures Convert(step, cd, s) == Some(f(s))
    decreases |s|
  {
    if s != [] {
      var st := step(cd, s);
      ConvertComputes(step, cd, f, dom, s[st.consumed..]);
    }
  }

  // ---------------------------------------------------------------------
  // The directional facades, as functions of the environment
  // ---------------------------------------------------------------------

  /** The (to, from) pair charset_to_utf8 requests. */
  function ToUtf8Pair(locale: string): (string, string) { (Utf8, locale) }

  /** The (to, from) pair charset_from_utf8 requests. */
  function FromUtf8Pair(locale: string): (string, string) { (locale, Utf8) }

  /** The cache key charset_set derives from a requested pair. */
  function Key(ignoreInvalid: bool, pair: (string, string)): (string, string)
  {
    (Decorate(ignoreInvalid, pair.0), pair.1)
  }

  /**
    What a facade returns for `input`, given which iconv_open calls succeed
    and how iconv() behaves: the converted text if the converter opens and
    the conversion succeeds, the input itself otherwise.
   */
  function Translate(opens: (string, string) -> bool, step: StepFunction, key: (string, string), input: string): (r: string)
    requires IconvContract(step)
  {
    if !opens(key.0, key.1) then input
    else
      match Convert(step, Converter(key.0, key.1), input)
      case None => input
      case Some(t) => t
  }

  /**
    Fallback totality, in terms of the iconv() calls: a facade returns the
    concatenated chunk outputs when the converter opens and every call makes
    progress, and the unconverted input in every other case.
   */
  lemma FacadeFallback(opens: (string, string) -> bool, step: StepFunction, key: (string, string), input: string)
    requires IconvContract(step)
    ensures var t := Trace(step, Converter(key.0, key.1), input);
      Translate(opens, step, key, input) ==
        if opens(key.0, key.1) && forall i :: 0 <= i < |t| ==> Progress(t[i]) then Outputs(t) else input
  {
    ConvertAllOrNothing(step, Converter(key.0, key.1), input);
  }

  /**
    The two facades use the same cache key exactly when the local encoding
    is named "UTF-8"; otherwise switching direction always misses the cache.
   */
  lemma DirectionSwitchMisses(ignoreInvalid: bool, locale: string)
    ensures Key(ignoreInvalid, ToUtf8Pair(locale)) == Key(ignoreInvalid, FromUtf8Pair(locale)) <==> locale == Utf8
  {
  }

  // ---------------------------------------------------------------------
  // The module state of src/charset.c
  // ---------------------------------------------------------------------

  /**
    The global state of the charset bridge. `opens` and `step` stand for the
    iconv library: iconv_open(to, from) succeeds exactly when opens(to, from),
    and one iconv() call on a descriptor and remaining input is `step`.
   */
  class CharsetBridge {
    const opens: (string, string) -> bool
    const step: StepFunction

    var localeCharset: Option<string>  // locale_charset
    var ignoreInvalid: bool            // ignore_invalid
    var iconv: Option<Converter>       // char_conv_iconv; None is (iconv_t)(-1)
    var convTo: Option<string>         // char_conv_to
    var convFrom: Option<string>       // char_conv_from
    var toUtf8Slot: Option<string>     // the static result of charset_to_utf8
    var fromUtf8Slot: Option<string>   // the static result of charset_from_utf8

    /** How many times iconv_open has been called: the converter setup work done. */
    ghost var openCount: nat

    /** The cache invariant: a stored pair always names the open converter, which opened successfully. */
    ghost predicate Valid()
      reads this
    {
      && IconvContract(step)
      && convTo.Some? == convFrom.Some?
      && (convTo.Some? ==>
            iconv == Some(Converter(convTo.value, convFrom.value)) && opens(convTo.value, convFrom.value))
    }

    /** The cache-hit test of charset_set. */
    predicate CacheHit(key: (string, string))
      reads this
    {
      convTo == Some(key.0) && convFrom == Some(key.1)
    }

    /** The process start: every static variable is NULL or zero. */
    constructor (opens: (string, string) -> bool, step: StepFunction)
      requires IconvContract(step)
      ensures Valid()
      ensures this.opens == opens && this.step == step
      ensures localeCharset.None? && !ignoreInvalid
      ensures iconv.None? && convTo.None? && convFrom.None?
      ensures toUtf8Slot.None? && fromUtf8Slot.None? && openCount == 0
    {
      this.opens := opens;
      this.step := step;
      localeCharset := None;
      ignoreInvalid := false;
      iconv := None;
      convTo := None;
      convFrom := None;
      toUtf8Slot := None;
      fromUtf8Slot := None;
      openCount := 0;
    }

    /**
      charset_init: decide the skip-invalid mode and the local encoding name.
      The locale query is an input: whether setlocale succeeded and what
      nl_langinfo(CODESET) returned.
     */
    method Init(stdoutIsTty: bool, stdinIsTty: bool, setlocaleOk: bool, codeset: Option<string>)
      requires Valid()
      modifies `ignoreInvalid, `localeCharset
      ensures Valid()
      ensures ignoreInvalid == (stdoutIsTty && stdinIsTty)
      ensures localeCharset == Some(if setlocaleOk && codeset.Some? then codeset.value else DefaultCharset)
    {
      var charset: Option<string> := None;
      ignoreInvalid := stdoutIsTty && stdinIsTty;
      if setlocaleOk {
        if codeset.Some? {
          charset := Some(codeset.value);
        }
      }
      if charset.Some? {
        localeCharset := Some(charset.value);
        return;
      }
      localeCharset := Some(DefaultCharset);
    }

    /** charset_close: release the cached converter and forget its pair. */
    method Close()
      requires Valid()
      modifies `convTo, `convFrom
      ensures Valid()
      ensures convTo.None? && convFrom.None?
    {
      if convTo.Some? {
        convTo := None;
        convFrom := None;
      }
    }

    /**
      charset_set: make the converter for (to, from) the cached one. The key
      is the decorated target name when skip-invalid mode is on. A hit
      changes nothing; a miss drops the old entry and opens a new one, which
      may fail and leave no entry.
     */
    method Set(to: string, from: string) returns (r: int)
      requires Valid()
      modifies `iconv, `convTo, `convFrom, `openCount
      ensures Valid()
      ensures var key := Key(ignoreInvalid, (to, from));
        && (r == 0 <==> opens(key.0, key.1))
        && (r != 0 ==> r == -1)
        && (r == 0 ==> CacheHit(key) && iconv == Some(Converter(key.0, key.1)))
        && (r == -1 ==> convTo.None? && convFrom.None? && iconv.None?)
        && (old(CacheHit(key)) ==> openCount == old(openCount) && iconv == old(iconv))
        && (!old(CacheHit(key)) ==> openCount == old(openCount) + 1)
    {
      var decorated := to;
      if ignoreInvalid {
        decorated := SkipInvalid(to);
      }
      if convTo.Some? && decorated == convTo.value && convFrom.Some? && from == convFrom.value {
        return 0;
      }
      Close();
      openCount := openCount + 1;
      if !opens(decorated, from) {
        iconv := None;
        return -1;
      }
      iconv := Some(Converter(decorated, from));
      convTo := Some(decorated);
      convFrom := Some(from);
      return 0;
    }

    /**
      charset_conv_strdup: convert `s` with the cached converter, one buffer
      of output per iconv() call, appending each chunk; None when no
      converter is cached or any call makes no progress.
     */
    method ConvStrdup(s: string) returns (r: Option<string>)
      requires Valid()
      ensures convTo.None? ==> r.None?
      ensures convTo.Some? ==> r == Convert(step, Converter(convTo.value, convFrom.value), s)
    {
      if convTo.None? {
        return None;
      }
      var cd := iconv.value;
      assert s[0..] == s;
      if Convert(step, cd, s).Some? {
        assert "" + Convert(step, cd, s).value == Convert(step, cd, s).value;
      }
      var pos: nat := 0;
      var inleft: nat := |s|;
      var ret := "";
      var retlen := 0;
      while inleft != 0
        invariant pos + inleft == |s| && retlen == |ret|
        invariant Convert(step, cd, s) == Prepend(ret, Convert(step, cd, s[pos..]))
        decreases inleft
      {
        var st := step(cd, s[pos..]);
        var outleft := BufferSize - |st.output|;
        if outleft == BufferSize || st.status == Failed {
          return None;
        }
        assert StepContract(s[pos..], st);
        assert s[pos..][st.consumed..] == s[pos + st.consumed..];
        PrependTwice(ret, st.output, Convert(step, cd, s[pos + st.consumed..]));
        ret := ret + st.output;
        retlen := retlen + BufferSize - outleft;
        pos := pos + st.consumed;
        inleft := inleft - st.consumed;
      }
      assert s[pos..] == [] && ret + [] == ret;
      return Some(ret);
    }

    /**
      charset_to_utf8: convert local text to UTF-8, falling back to a copy of
      the input; the result replaces the facade's previous one.
     */
    method ToUtf8(from: string) returns (r: string)
      requires Valid() && localeCharset.Some?
      modifies `toUtf8Slot, `iconv, `convTo, `convFrom, `openCount
      ensures Valid()
      ensures var key := Key(ignoreInvalid, ToUtf8Pair(localeCharset.value));
        && r == Translate(opens, step, key, from)
        && (CacheHit(key) <==> opens(key.0, key.1))
        && (!opens(key.0, key.1) ==> convTo.None? && convFrom.None? && iconv.None?)
        && (old(CacheHit(key)) ==> openCount == old(openCount) && iconv == old(iconv))
        && (!old(CacheHit(key)) ==> openCount == old(openCount) + 1)
      ensures toUtf8Slot == Some(r)
    {
      toUtf8Slot := None;
      var _ := Set(Utf8, localeCharset.value);
      var converted := ConvStrdup(from);
      if converted.None? {
        r := from;
      } else {
        r := converted.value;
      }
      toUtf8Slot := Some(r);
    }

    /**
      charset_from_utf8: convert UTF-8 text to the local encoding, falling
      back to a copy of the input; the result replaces the facade's previous one.
     */
    method FromUtf8(from: string) returns (r: string)
      requires Valid() && localeCharset.Some?
      modifies `fromUtf8Slot, `iconv, `convTo, `convFrom, `openCount
      ensures Valid()
      ensures var key := Key(ignoreInvalid, FromUtf8Pair(localeCharset.value));
        && r == Translate(opens, step, key, from)
        && (CacheHit(key) <==> opens(key.0, key.1))
        && (!opens(key.0, key.1) ==> convTo.None? && convFrom.None? && iconv.None?)
        && (old(CacheHit(key)) ==> openCount == old(openCount) && iconv == old(iconv))
        && (!old(CacheHit(key)) ==> openCount == old(openCount) + 1)
      ensures fromUtf8Slot == Some(r)
    {
      fromUtf8Slot := None;
      var _ := Set(localeCharset.value, Utf8);
      var converted := ConvStrdup(from);
      if converted.None? {
        r := from;
      } else {
        r := converted.value;
      }
      fromUtf8Slot := Some(r);
    }
  }
}
