/**
  One concrete iconv library for the charset bridge: conversion between
  ISO-8859-1 (the bridge's default local encoding) and UTF-8, one output
  buffer per call, as iconv does it (stop with E2BIG when the next
  character does not fit, fail on a byte sequence the target cannot hold).
  The converter does not read the target name, so a descriptor opened with
  the skip-invalid suffix fails like the plain one instead of dropping the
  sequence. In the bridge that is the outcome glibc gives too: its IGNORE
  conversion skips the sequence but still ends the call with EILSEQ, which
  the conversion loop treats as failure.
  With it the bridge's behaviour on real text can be stated: the round trip
  on ISO-8859-1 text, and the fallback on UTF-8 text that is not.

  Bytes are characters below 256.
 */
module Latin1 {
  import opened Wrappers
  import opened Iconv
  import opened Charset

  predicate IsByte(c: char) { c as int < 256 }

  /** Text in ISO-8859-1: every character is one byte. */
  predicate IsLatin1(s: string)
  {
    s == [] || (IsByte(s[0]) && IsLatin1(s[1..]))
  }

  /** A UTF-8 continuation byte. */
  predicate IsCont(c: char) { 0x80 <= c as int < 0xC0 }

  /** A UTF-8 lead byte of a two-byte sequence for a character in U+0080..U+00FF. */
  predicate IsLead(c: char) { c as int == 0xC2 || c as int == 0xC3 }

  // ---------------------------------------------------------------------
  // The two encodings as functions on whole strings
  // ---------------------------------------------------------------------

  /** The UTF-8 form of one ISO-8859-1 byte (nothing for a non-byte). */
  function EncodeChar(c: char): (r: string)
    ensures IsByte(c) ==> 1 <= |r| <= 2
  {
    var x := c as int;
    if x < 0x80 then [c]
    else if x < 0x100 then [(0xC0 + x / 64) as char, (0x80 + x % 64) as char]
    else []
  }

  function Encode(s: string): string
  {
    if s == [] then [] else EncodeChar(s[0]) + Encode(s[1..])
  }

  /** UTF-8 text whose every character lies in U+0000..U+00FF. */
  predicate WellFormed(u: string)
  {
    if u == [] then true
    else if u[0] as int < 0x80 then WellFormed(u[1..])
    else |u| >= 2 && IsLead(u[0]) && IsCont(u[1]) && WellFormed(u[2..])
  }

  /** The ISO-8859-1 byte a two-byte UTF-8 sequence stands for. */
  function DecodePair(lead: char, cont: char): char
    requires IsLead(lead) && IsCont(cont)
  {
    ((lead as int - 0xC0) * 64 + (cont as int - 0x80)) as char
  }

  function Decode(u: string): string
  {
    if u == [] then []
    else if u[0] as int < 0x80 then [u[0]] + Decode(u[1..])
    else if |u| >= 2 && IsLead(u[0]) && IsCont(u[1]) then [DecodePair(u[0], u[1])] + Decode(u[2..])
    else []
  }

  /** Decoding undoes encoding, and every encoding is well formed. */
  lemma {:induction false} DecodeEncode(s: string)
    requires IsLatin1(s)
    ensures WellFormed(Encode(s)) && Decode(Encode(s)) == s
    decreases |s|
  {
    if s != [] {
      var c, rest := s[0], s[1..];
      DecodeEncode(rest);
      var e, u := EncodeChar(c), Encode(s);
      assert u == e + Encode(rest);
      var x := c as int;
      if x < 0x80 {
        assert u[1..] == Encode(rest);
      } else {
        assert x / 64 == 2 || x / 64 == 3;
        assert u[2..] == Encode(rest);
        assert DecodePair(u[0], u[1]) == c;
      }
      assert s == [c] + rest;
    }
  }

  // ---------------------------------------------------------------------
  // One iconv() call in each direction
  // ---------------------------------------------------------------------

  /** What one call consumed and wrote, and whether it stopped on an unconvertible sequence. */
  datatype Chunk = Chunk(consumed: nat, output: string, ok: bool)

  /** Encode characters of s as long as their UTF-8 form fits in `room` bytes. */
  function EncodeChunk(s: string, room: nat): (c: Chunk)
    ensures c.consumed <= |s| && |c.output| <= room
    ensures c.output != [] ==> c.consumed > 0
    ensures IsLatin1(s) ==> c.ok && IsLatin1(s[c.consumed..]) && Encode(s) == c.output + Encode(s[c.consumed..])
    ensures IsLatin1(s) && s != [] && room >= 2 ==> c.output != []
    ensures !IsLatin1(s) ==> !c.ok || !IsLatin1(s[c.consumed..])
    decreases |s|
  {
    if s == [] then Chunk(0, [], true)
    else if !IsByte(s[0]) then Chunk(0, [], false)
    else
      var e := EncodeChar(s[0]);
      if |e| > room then Chunk(0, [], true)
      else
        var r := EncodeChunk(s[1..], room - |e|);
        EncodeChunkStep(s, r);
        Chunk(1 + r.consumed, e + r.output, r.ok)
  }

  /** Prepending the first character's encoding to the chunk of the rest. */
  lemma EncodeChunkStep(s: string, r: Chunk)
    requires s != [] && IsByte(s[0]) && r.consumed <= |s| - 1
    requires IsLatin1(s[1..]) ==> IsLatin1(s[1..][r.consumed..]) && Encode(s[1..]) == r.output + Encode(s[1..][r.consumed..])
    ensures s[1..][r.consumed..] == s[1 + r.consumed..]
    ensures IsLatin1(s) ==> Encode(s) == (EncodeChar(s[0]) + r.output) + Encode(s[1 + r.consumed..])
  {
    assert s[1..][r.consumed..] == s[1 + r.consumed..];
  }

  /**
    What one decoding call promises: it stays within the input and the
    room, makes progress when it writes, and on well-formed input stops at
    a sequence boundary having written the decoding of what it consumed; on
    other input it fails, or leaves a remainder that is not well formed.
   */
  predicate DecodesChunk(u: string, room: nat, c: Chunk)
  {
    && c.consumed <= |u| && |c.output| <= room
    && (c.output != [] ==> c.consumed > 0)
    && (WellFormed(u) ==> c.ok && WellFormed(u[c.consumed..]) && Decode(u) == c.output + Decode(u[c.consumed..]))
    && (WellFormed(u) && u != [] && room > 0 ==> c.output != [])
    && (!WellFormed(u) ==> !c.ok || !WellFormed(u[c.consumed..]))
  }

  /** Decode UTF-8 sequences of u as long as the output fits in `room` bytes. */
  function DecodeChunk(u: string, room: nat): (c: Chunk)
    ensures DecodesChunk(u, room, c)
    decreases |u|
  {
    if u == [] || room == 0 then
      assert u[0..] == u;
      Chunk(0, [], true)
    else
      var n := SequenceLength(u);
      if n == 0 then Chunk(0, [], false)
      else
        var r := DecodeChunk(u[n..], room - 1);
        DecodeChunkStep(u, room, n, r);
        Chunk(n + r.consumed, Decode(u[..n]) + r.output, r.ok)
  }

  /** The length of the UTF-8 sequence u starts with, or 0 if it starts with none this decoder accepts. */
  function SequenceLength(u: string): (n: nat)
    requires u != []
    ensures n <= 2 && n <= |u|
    ensures WellFormed(u) ==> n > 0
    ensures n > 0 ==> |Decode(u[..n])| == 1 && Decode(u) == Decode(u[..n]) + Decode(u[n..])
    ensures n > 0 ==> (WellFormed(u) <==> WellFormed(u[n..]))
  {
    if u[0] as int < 0x80 then
      DecodeFirst(u, 1);
      1
    else if |u| >= 2 && IsLead(u[0]) && IsCont(u[1]) then
      DecodeFirst(u, 2);
      2
    else 0
  }

  /** Splitting off the first sequence, of length n, of a UTF-8 string. */
  lemma DecodeFirst(u: string, n: nat)
    requires 0 < n <= |u|
    requires n == 1 ==> u[0] as int < 0x80
    requires n == 2 ==> u[0] as int >= 0x80 && IsLead(u[0]) && IsCont(u[1])
    requires n <= 2
    ensures WellFormed(u) <==> WellFormed(u[n..])
    ensures |Decode(u[..n])| == 1 && Decode(u) == Decode(u[..n]) + Decode(u[n..])
  {
    var head := u[..n];
    assert head[n..] == [];
    assert head[0] == u[0];
    if n == 2 {
      assert head[1] == u[1];
      assert Decode(head) == [DecodePair(u[0], u[1])] + Decode(head[2..]);
      assert WellFormed(u) == WellFormed(u[2..]);
    } else {
      assert Decode(head) == [u[0]] + Decode(head[1..]);
      assert WellFormed(u) == WellFormed(u[1..]);
    }
  }

  /** Decoding the first sequence and then a chunk of the rest is a chunk of the whole. */
  lemma DecodeChunkStep(u: string, room: nat, n: nat, r: Chunk)
    requires 0 < n <= |u| && room > 0
    requires |Decode(u[..n])| == 1 && Decode(u) == Decode(u[..n]) + Decode(u[n..])
    requires WellFormed(u) <==> WellFormed(u[n..])
    requires DecodesChunk(u[n..], room - 1, r)
    ensures DecodesChunk(u, room, Chunk(n + r.consumed, Decode(u[..n]) + r.output, r.ok))
  {
    var head, rest := Decode(u[..n]), u[n..];
    var c := Chunk(n + r.consumed, head + r.output, r.ok);
    assert rest[r.consumed..] == u[c.consumed..];
    assert |c.output| == 1 + |r.output|;
    if WellFormed(u) {
      assert Decode(rest) == r.output + Decode(u[c.consumed..]);
      assert Decode(u) == head + (r.output + Decode(u[c.consumed..]));
      ConcatAssoc(head, r.output, Decode(u[c.consumed..]));
    }
    assert c.output != [];
  }

  lemma ConcatAssoc(a: string, b: string, c: string)
    ensures a + (b + c) == (a + b) + c
  {
  }

  /** An iconv() call: the chunk's bytes, and Converted, E2BIG or a failure. */
  function ToStep(s: string, c: Chunk): Step
  {
    Step(c.consumed, c.output,
         if !c.ok then Failed else if c.consumed == |s| then Converted else OutputFull)
  }

  lemma ToStepProgress(s: string, c: Chunk)
    requires c.ok && c.output != []
    ensures var st := ToStep(s, c); Progress(st) && st.consumed == c.consumed && st.output == c.output
  {
  }

  /**
    The library: a descriptor from ISO-8859-1 encodes, one from UTF-8
    decodes, one-buffer chunks at a time.
   */
  function Latin1Iconv(cd: Converter, s: string): Step
  {
    if cd.from == Utf8 then ToStep(s, DecodeChunk(s, BufferSize))
    else ToStep(s, EncodeChunk(s, BufferSize))
  }

  /** iconv_open succeeds for the two directions between ISO-8859-1 and UTF-8, plain or with the skip-invalid suffix. */
  function Latin1Opens(to: string, from: string): bool
  {
    || (from == DefaultCharset && (to == Utf8 || to == IgnoreName(Utf8)))
    || (from == Utf8 && (to == DefaultCharset || to == IgnoreName(DefaultCharset)))
  }

  lemma Latin1IconvContract()
    ensures IconvContract(Latin1Iconv)
  {
    forall cd: Converter, s: string | s != []
      ensures StepContract(s, Latin1Iconv(cd, s))
    {
    }
  }

  // ---------------------------------------------------------------------
  // The facades with this library and the local encoding ISO-8859-1
  // ---------------------------------------------------------------------

  /** The cache key charset_to_utf8 uses when the local encoding is ISO-8859-1. */
  function ToWireKey(ignoreInvalid: bool): (string, string)
  {
    Key(ignoreInvalid, ToUtf8Pair(DefaultCharset))
  }

  /** The cache key charset_from_utf8 uses when the local encoding is ISO-8859-1. */
  function FromWireKey(ignoreInvalid: bool): (string, string)
  {
    Key(ignoreInvalid, FromUtf8Pair(DefaultCharset))
  }

  /** A descriptor from ISO-8859-1 computes Encode, chunk by chunk, on ISO-8859-1 text. */
  lemma EncoderImplements(cd: Converter)
    requires cd.from != Utf8
    ensures Implements(Latin1Iconv, cd, Encode, IsLatin1)
  {
    forall t | IsLatin1(t) && t != []
      ensures var st := Latin1Iconv(cd, t);
        Progress(st) && st.consumed <= |t| && IsLatin1(t[st.consumed..]) && Encode(t) == st.output + Encode(t[st.consumed..])
    {
      EncoderStep(cd, t);
    }
  }

  lemma EncoderStep(cd: Converter, t: string)
    requires cd.from != Utf8 && IsLatin1(t) && t != []
    ensures var st := Latin1Iconv(cd, t);
      Progress(st) && st.consumed <= |t| && IsLatin1(t[st.consumed..]) && Encode(t) == st.output + Encode(t[st.consumed..])
  {
    var c := EncodeChunk(t, BufferSize);
    assert Latin1Iconv(cd, t) == ToStep(t, c);
    ToStepProgress(t, c);
  }

  /** A descriptor from UTF-8 computes Decode, chunk by chunk, on well-formed text. */
  lemma DecoderImplements(cd: Converter)
    requires cd.from == Utf8
    ensures Implements(Latin1Iconv, cd, Decode, WellFormed)
  {
    forall t | WellFormed(t) && t != []
      ensures var st := Latin1Iconv(cd, t);
        Progress(st) && st.consumed <= |t| && WellFormed(t[st.consumed..]) && Decode(t) == st.output + Decode(t[st.consumed..])
    {
      DecoderStep(cd, t);
    }
  }

  lemma DecoderStep(cd: Converter, t: string)
    requires cd.from == Utf8 && WellFormed(t) && t != []
    ensures var st := Latin1Iconv(cd, t);
      Progress(st) && st.consumed <= |t| && WellFormed(t[st.consumed..]) && Decode(t) == st.output + Decode(t[st.consumed..])
  {
    var c := DecodeChunk(t, BufferSize);
    assert Latin1Iconv(cd, t) == ToStep(t, c);
    ToStepProgress(t, c);
  }

  /** Both facades' converters open with this library, with or without the skip-invalid suffix. */
  lemma WireKeysOpen(ignoreInvalid: bool)
    ensures var k := ToWireKey(ignoreInvalid); Latin1Opens(k.0, k.1) && k.1 == DefaultCharset && k.1 != Utf8
    ensures var k := FromWireKey(ignoreInvalid); Latin1Opens(k.0, k.1) && k.1 == Utf8
  {
    assert DefaultCharset != Utf8 by { assert |DefaultCharset| != |Utf8|; }
  }

  /** charset_to_utf8 encodes ISO-8859-1 text to UTF-8, in either skip-invalid mode. */
  lemma ToUtf8Encodes(ignoreInvalid: bool, s: string)
    requires IsLatin1(s)
    ensures IconvContract(Latin1Iconv)
    ensures Translate(Latin1Opens, Latin1Iconv, ToWireKey(ignoreInvalid), s) == Encode(s)
  {
    Latin1IconvContract();
    var key := ToWireKey(ignoreInvalid);
    WireKeysOpen(ignoreInvalid);
    EncoderConverts(Converter(key.0, key.1), s);
  }

  /** A descriptor from ISO-8859-1 converts ISO-8859-1 text to its encoding. */
  lemma EncoderConverts(cd: Converter, s: string)
    requires cd.from != Utf8 && IsLatin1(s)
    ensures IconvContract(Latin1Iconv)
    ensures Convert(Latin1Iconv, cd, s) == Some(Encode(s))
  {
    Latin1IconvContract();
    EncoderImplements(cd);
    ConvertComputes(Latin1Iconv, cd, Encode, IsLatin1, s);
  }

  /** charset_from_utf8 decodes UTF-8 text of ISO-8859-1 characters, in either skip-invalid mode. */
  lemma FromUtf8Decodes(ignoreInvalid: bool, u: string)
    requires WellFormed(u)
    ensures IconvContract(Latin1Iconv)
    ensures Translate(Latin1Opens, Latin1Iconv, FromWireKey(ignoreInvalid), u) == Decode(u)
  {
    Latin1IconvContract();
    var key := FromWireKey(ignoreInvalid);
    WireKeysOpen(ignoreInvalid);
    DecoderConverts(Converter(key.0, key.1), u);
  }

  /** A descriptor from UTF-8 converts well-formed text to its decoding. */
  lemma DecoderConverts(cd: Converter, u: string)
    requires cd.from == Utf8 && WellFormed(u)
    ensures IconvContract(Latin1Iconv)
    ensures Convert(Latin1Iconv, cd, u) == Some(Decode(u))
  {
    Latin1IconvContract();
    DecoderImplements(cd);
    ConvertComputes(Latin1Iconv, cd, Decode, WellFormed, u);
  }

  /** Round trip: from_utf8(to_utf8(s)) == s for ISO-8859-1 text. */
  lemma RoundTrip(ignoreInvalid: bool, s: string)
    requires IsLatin1(s)
    ensures IconvContract(Latin1Iconv)
    ensures Translate(Latin1Opens, Latin1Iconv, FromWireKey(ignoreInvalid),
                      Translate(Latin1Opens, Latin1Iconv, ToWireKey(ignoreInvalid), s)) == s
  {
    ToUtf8Encodes(ignoreInvalid, s);
    DecodeEncode(s);
    FromUtf8Decodes(ignoreInvalid, Encode(s));
  }

  /**
    Every byte string is ISO-8859-1 text, so with ISO-8859-1 as the local
    encoding charset_to_utf8 always converts and never falls back.
   */
  lemma {:induction false} BytesAreLatin1(s: string)
    requires forall i :: 0 <= i < |s| ==> IsByte(s[i])
    ensures IsLatin1(s)
    decreases |s|
  {
    if s != [] {
      assert forall i :: 0 <= i < |s| - 1 ==> s[1..][i] == s[i + 1];
      BytesAreLatin1(s[1..]);
    }
  }

  /** A conversion from UTF-8 fails, at whichever chunk, on text that is not well formed. */
  lemma {:induction false} DecodeFailsOnMalformed(cd: Converter, u: string)
    requires cd.from == Utf8 && !WellFormed(u)
    ensures IconvContract(Latin1Iconv)
    ensures Convert(Latin1Iconv, cd, u).None?
    decreases |u|
  {
    Latin1IconvContract();
    var c := DecodeChunk(u, BufferSize);
    assert Latin1Iconv(cd, u) == ToStep(u, c);
    if c.ok && c.output != [] {
      DecodeFailsOnMalformed(cd, u[c.consumed..]);
    }
  }

  /**
    Fallback: charset_from_utf8 returns UTF-8 text that is malformed, or
    holds a character outside ISO-8859-1, unchanged. In skip-invalid mode
    this rests on the converter failing, as glibc's does, on the sequence it
    was asked to skip.
   */
  lemma FromUtf8FallsBack(ignoreInvalid: bool, u: string)
    requires !WellFormed(u)
    ensures IconvContract(Latin1Iconv)
    ensures Translate(Latin1Opens, Latin1Iconv, FromWireKey(ignoreInvalid), u) == u
  {
    var key := FromWireKey(ignoreInvalid);
    WireKeysOpen(ignoreInvalid);
    DecodeFailsOnMalformed(Converter(key.0, key.1), u);
  }

  /** The euro sign, E2 82 AC in UTF-8, has no ISO-8859-1 form: charset_from_utf8 prints its three bytes as received. */
  lemma EuroFallsBack(ignoreInvalid: bool)
    ensures IconvContract(Latin1Iconv)
    ensures var euro := [0xE2 as char, 0x82 as char, 0xAC as char];
      Translate(Latin1Opens, Latin1Iconv, FromWireKey(ignoreInvalid), euro) == euro
  {
    var euro := [0xE2 as char, 0x82 as char, 0xAC as char];
    assert !WellFormed(euro);
    FromUtf8FallsBack(ignoreInvalid, euro);
  }

  /** "café" in ISO-8859-1 (é is 0xE9) goes to the wire as c a f 0xC3 0xA9, and comes back. */
  lemma CafeScenario(ignoreInvalid: bool)
    ensures IconvContract(Latin1Iconv)
    ensures var cafe := "caf" + [0xE9 as char];
      && Translate(Latin1Opens, Latin1Iconv, ToWireKey(ignoreInvalid), cafe) == "caf" + [0xC3 as char, 0xA9 as char]
      && Translate(Latin1Opens, Latin1Iconv, FromWireKey(ignoreInvalid), "caf" + [0xC3 as char, 0xA9 as char]) == cafe
  {
    var cafe := "caf" + [0xE9 as char];
    EncodeCafe();
    ToUtf8Encodes(ignoreInvalid, cafe);
    RoundTrip(ignoreInvalid, cafe);
  }

  lemma EncodeCafe()
    ensures IsLatin1("caf" + [0xE9 as char])
    ensures Encode("caf" + [0xE9 as char]) == "caf" + [0xC3 as char, 0xA9 as char]
  {
    var e := [0xE9 as char];
    assert EncodeChar(0xE9 as char) == [0xC3 as char, 0xA9 as char];
    assert Encode(e) == EncodeChar(0xE9 as char) + Encode([]);
    var s3, s2, s1 := "f" + e, "af" + e, "caf" + e;
    assert s3[1..] == e && s2[1..] == s3 && s1[1..] == s2;
    assert Encode(s3) == "f" + Encode(e);
    assert Encode(s2) == "a" + Encode(s3);
    assert Encode(s1) == "c" + Encode(s2);
  }

  /**
    The byte 0xFF, which is not ASCII, converts with the default local
    encoding rather than falling back to the raw byte.
   */
  lemma ByteFFConverts(ignoreInvalid: bool)
    ensures IconvContract(Latin1Iconv)
    ensures Translate(Latin1Opens, Latin1Iconv, ToWireKey(ignoreInvalid), [0xFF as char]) == [0xC3 as char, 0xBF as char]
  {
    var s := [0xFF as char];
    assert IsLatin1(s);
    assert Encode(s) == EncodeChar(0xFF as char) + Encode([]);
    ToUtf8Encodes(ignoreInvalid, s);
  }

  /**
    A session: start with no locale information on a terminal, convert "café"
    to the wire and back, then back again. The first call in each direction
    opens a converter; the repeated call reuses the cached one.
   */
  method CafeSession()
  {
    Latin1IconvContract();
    var bridge := new CharsetBridge(Latin1Opens, Latin1Iconv);
    bridge.Init(true, true, false, None);
    assert bridge.localeCharset == Some(DefaultCharset) && bridge.ignoreInvalid;
    CafeScenario(true);
    WireKeysOpen(true);
    assert ToWireKey(true) != FromWireKey(true) by {
      DirectionSwitchMisses(true, DefaultCharset);
      assert DefaultCharset != Utf8 by { assert |DefaultCharset| != |Utf8|; }
    }
    var cafe := "caf" + [0xE9 as char];
    var wire := bridge.ToUtf8(cafe);
    assert wire == "caf" + [0xC3 as char, 0xA9 as char];
    assert bridge.openCount == 1 && bridge.CacheHit(ToWireKey(true));
    var back := bridge.FromUtf8(wire);
    assert back == cafe;
    assert bridge.openCount == 2 && bridge.CacheHit(FromWireKey(true));
    back := bridge.FromUtf8(wire);
    assert back == cafe;
    assert bridge.openCount == 2;
  }
}
