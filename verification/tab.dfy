/**
  The tab-completion commands of mpc (src/tab.c). Each asks the daemon for
  the listing of the directory that holds the typed prefix, then prints,
  translated to the local encoding, every received path that starts with the
  prefix. The connection is replaced by the sequence of records received and
  the printed lines are returned as a sequence.
 */
module Tab {
  import opened Wrappers
  import opened Iconv
  import opened Charset

  /** strrchr(s, c) for a character c other than NUL: the offset of the last c. */
  function StrRChr(s: string, c: char): (r: Option<nat>)
    ensures r.None? <==> c !in s
    ensures r.Some? ==> r.value < |s| && s[r.value] == c && c !in s[r.value + 1..]
    decreases |s|
  {
    if s == [] then None
    else if s[|s| - 1] == c then Some(|s| - 1)
    else
      var init := s[..|s| - 1];
      var r := StrRChr(init, c);
      assert s == init + [s[|s| - 1]];
      assert r.Some? ==> s[r.value + 1..] == init[r.value + 1..] + [s[|s| - 1]];
      r
  }

  /**
    tab_base: the part of the prefix before its last '/', or None (NULL)
    when the prefix has no '/'.
   */
  function TabBase(prefix: string): (base: Option<string>)
    ensures base.None? <==> '/' !in prefix
    ensures base.Some? ==>
      var k := |base.value|;
      k < |prefix| && prefix[..k] == base.value && prefix[k] == '/' && '/' !in prefix[k + 1..]
  {
    match StrRChr(prefix, '/')
    case None => None
    case Some(slash) => Some(prefix[..slash])
  }

  /**
    tab_base undoes joining a directory and a slash-free name with '/';
    a name directly under the root ("/x") gives the empty directory, not None.
   */
  lemma TabBaseOfJoin(dir: string, name: string)
    requires '/' !in name
    ensures TabBase(dir + "/" + name) == Some(dir)
  {
    var p := dir + "/" + name;
    var base := TabBase(p);
    assert p[|dir|] == '/';
    assert base.Some?;
    assert p[..|dir|] == dir;
  }

  /** The listing request a tab command sends: lsinfo of `uri`, or of the root when uri is None. */
  datatype ListCommand = ListMeta(uri: Option<string>)

  /**
    tab_send_list: request the listing of the directory that holds the
    prefix's last component; the root when the prefix has no '/'.
   */
  function TabSendList(prefix: string): (cmd: ListCommand)
    ensures cmd.uri.None? <==> '/' !in prefix
    ensures cmd.uri.Some? ==> cmd.uri.value + "/" <= prefix && '/' !in prefix[|cmd.uri.value| + 1..]
  {
    var base := TabBase(prefix);
    assert base.Some? ==> prefix[..|base.value| + 1] == base.value + "/";
    ListMeta(base)
  }

  /** The received paths that pass the byte-prefix test, in the order received. */
  function Matching(prefix: string, paths: seq<string>): (m: seq<string>)
    decreases |paths|
  {
    if paths == [] then []
    else
      var last := paths[|paths| - 1];
      Matching(prefix, paths[..|paths| - 1]) + (if prefix <= last then [last] else [])
  }

  /** The positions, ascending, of the received paths that pass the byte-prefix test. */
  function MatchPositions(prefix: string, paths: seq<string>): (ix: seq<nat>)
    decreases |paths|
  {
    if paths == [] then []
    else
      var n := |paths| - 1;
      MatchPositions(prefix, paths[..n]) + (if prefix <= paths[n] then [n] else [])
  }

  /**
    `m` is the sublist of `paths` at the ascending positions `ix`, and `ix`
    holds exactly the positions whose path starts with `prefix`.
   */
  ghost predicate Selects(prefix: string, paths: seq<string>, m: seq<string>, ix: seq<nat>)
  {
    && |m| == |ix|
    && (forall j :: 0 <= j < |ix| ==> ix[j] < |paths| && m[j] == paths[ix[j]])
    && (forall j, k :: 0 <= j < k < |ix| ==> ix[j] < ix[k])
    && (forall i :: 0 <= i < |paths| ==> (prefix <= paths[i] <==> i in ix))
  }

  /**
    A path is printed exactly when the prefix is a prefix of the raw path,
    each matching path exactly once, and in the order received.
   */
  lemma {:induction false} MatchingSelects(prefix: string, paths: seq<string>)
    ensures Selects(prefix, paths, Matching(prefix, paths), MatchPositions(prefix, paths))
    decreases |paths|
  {
    if paths != [] {
      var n := |paths| - 1;
      var init := paths[..n];
      MatchingSelects(prefix, init);
      assert paths == init + [paths[n]];
      SelectsAppend(prefix, init, Matching(prefix, init), MatchPositions(prefix, init), paths[n]);
    }
  }

  /** Receiving one more path extends the selection by that path exactly when it matches. */
  lemma SelectsAppend(prefix: string, paths: seq<string>, m: seq<string>, ix: seq<nat>, x: string)
    requires Selects(prefix, paths, m, ix)
    ensures prefix <= x ==> Selects(prefix, paths + [x], m + [x], ix + [|paths|])
    ensures !(prefix <= x) ==> Selects(prefix, paths + [x], m, ix)
  {
    var ps := paths + [x];
    assert forall i :: 0 <= i < |paths| ==> ps[i] == paths[i];
    if prefix <= x {
      var m', ix' := m + [x], ix + [|paths|];
      assert forall j :: 0 <= j < |ix| ==> ix'[j] == ix[j] && m'[j] == m[j];
      assert forall i :: 0 <= i < |paths| ==> (i in ix <==> i in ix');
      assert |paths| in ix';
    } else {
      assert |paths| !in ix;
    }
  }

  /** An empty prefix matches every received path. */
  lemma {:induction false} EmptyPrefixMatchesAll(paths: seq<string>)
    ensures Matching([], paths) == paths
    decreases |paths|
  {
    if paths != [] {
      var n := |paths| - 1;
      EmptyPrefixMatchesAll(paths[..n]);
      assert paths == paths[..n] + [paths[n]];
    }
  }

  /** The lines printed for the matching paths: each translated with charset_from_utf8's conversion. */
  function Shown(opens: (string, string) -> bool, step: StepFunction, key: (string, string), paths: seq<string>): (lines: seq<string>)
    requires IconvContract(step)
    ensures |lines| == |paths|
    decreases |paths|
  {
    if paths == [] then []
    else
      var n := |paths| - 1;
      Shown(opens, step, key, paths[..n]) + [Translate(opens, step, key, paths[n])]
  }

  /** Each shown line is its path passed through charset_from_utf8's conversion. */
  lemma {:induction false} ShownTranslates(opens: (string, string) -> bool, step: StepFunction, key: (string, string), paths: seq<string>)
    requires IconvContract(step)
    ensures var lines := Shown(opens, step, key, paths);
      forall j :: 0 <= j < |paths| ==> lines[j] == Translate(opens, step, key, paths[j])
    decreases |paths|
  {
    if paths != [] {
      var n := |paths| - 1;
      ShownTranslates(opens, step, key, paths[..n]);
      var init := Shown(opens, step, key, paths[..n]);
      assert Shown(opens, step, key, paths) == init + [Translate(opens, step, key, paths[n])];
    }
  }

  lemma MatchingAppend(prefix: string, paths: seq<string>, i: nat)
    requires i < |paths|
    ensures Matching(prefix, paths[..i + 1]) ==
              Matching(prefix, paths[..i]) + (if prefix <= paths[i] then [paths[i]] else [])
  {
    assert paths[..i + 1][..i] == paths[..i];
  }

  lemma ShownAppend(opens: (string, string) -> bool, step: StepFunction, key: (string, string), paths: seq<string>, path: string)
    requires IconvContract(step)
    ensures Shown(opens, step, key, paths + [path]) == Shown(opens, step, key, paths) + [Translate(opens, step, key, path)]
  {
    assert (paths + [path])[..|paths|] == paths;
  }

  /** One more received path adds its translated line exactly when it matches. */
  lemma ShownStep(opens: (string, string) -> bool, step: StepFunction, key: (string, string),
                  prefix: string, paths: seq<string>, i: nat, printed: seq<string>)
    requires IconvContract(step) && i < |paths|
    requires printed == if prefix <= paths[i] then [Translate(opens, step, key, paths[i])] else []
    ensures Shown(opens, step, key, Matching(prefix, paths[..i + 1])) ==
              Shown(opens, step, key, Matching(prefix, paths[..i])) + printed
  {
    MatchingAppend(prefix, paths, i);
    if prefix <= paths[i] {
      ShownAppend(opens, step, key, Matching(prefix, paths[..i]), paths[i]);
    } else {
      assert Matching(prefix, paths[..i + 1]) == Matching(prefix, paths[..i]) + [];
      assert Matching(prefix, paths[..i]) + [] == Matching(prefix, paths[..i]);
      assert Shown(opens, step, key, Matching(prefix, paths[..i])) + printed ==
             Shown(opens, step, key, Matching(prefix, paths[..i]));
    }
  }

  // ---------------------------------------------------------------------
  // What a listing does to the charset bridge
  // ---------------------------------------------------------------------

  /** The part of the bridge that charset_from_utf8 changes: its result slot, the cache and the open count. */
  datatype CacheView = CacheView(slot: Option<string>, iconv: Option<Converter>, to: Option<string>, from: Option<string>, count: nat)

  ghost function View(bridge: CharsetBridge): CacheView
    reads bridge
  {
    CacheView(bridge.fromUtf8Slot, bridge.iconv, bridge.convTo, bridge.convFrom, bridge.openCount)
  }

  /** The cache holds `key`: `CharsetBridge.CacheHit`, read on a snapshot. */
  predicate Hit(v: CacheView, key: (string, string))
  {
    v.to == Some(key.0) && v.from == Some(key.1)
  }

  /**
    The bridge after a failed iconv_open has no converter.
   */
  predicate Empty(v: CacheView)
  {
    v.to.None? && v.from.None? && v.iconv.None?
  }

  /**
    From `v0` to `v`, one received path printed `printed` with the key
    `key`, which opens exactly when `canOpen`: nothing changes when the
    path does not match; otherwise the slot holds the line, the key is
    cached exactly when it opens (with no converter at all when it does
    not), and iconv_open ran once unless the key was already cached.
   */
  predicate Printed(v0: CacheView, v: CacheView, key: (string, string), canOpen: bool, printed: seq<string>)
  {
    && (printed == [] ==> v == v0)
    && (printed != [] ==>
          && |printed| == 1 && v.slot == Some(printed[0])
          && (Hit(v, key) <==> canOpen) && (!canOpen ==> Empty(v))
          && (Hit(v0, key) ==> v.count == v0.count)
          && (!Hit(v0, key) ==> v.count == v0.count + 1))
  }

  /**
    From `v0` to `v`, a listing printed `lines`: nothing changes when
    nothing matched; otherwise the slot holds the last line and the key is
    cached exactly when it opens. A key that opens is opened at most once
    for the whole listing; one that does not is retried for every line,
    since a failed open leaves no entry.
   */
  predicate Listed(v0: CacheView, v: CacheView, key: (string, string), canOpen: bool, lines: seq<string>)
  {
    && (lines == [] ==> v == v0)
    && (lines != [] ==>
          && v.slot == Some(lines[|lines| - 1])
          && (Hit(v, key) <==> canOpen) && (!canOpen ==> Empty(v)))
    && (canOpen ==> v.count <= v0.count + 1)
    && (!canOpen ==> v.count == v0.count + |lines|)
  }

  /** One more path keeps the listing's account of the bridge. */
  lemma ListedStep(v0: CacheView, v1: CacheView, v2: CacheView, key: (string, string), canOpen: bool,
                   lines: seq<string>, printed: seq<string>)
    requires Listed(v0, v1, key, canOpen, lines)
    requires Hit(v1, key) ==> canOpen
    requires Printed(v1, v2, key, canOpen, printed)
    ensures Listed(v0, v2, key, canOpen, lines + printed)
  {
    if printed == [] {
      assert lines + printed == lines;
    } else {
      assert (lines + printed)[|lines|] == printed[0];
    }
  }

  /**
    One received path: printed through charset_from_utf8 when the prefix
    matches its raw bytes; the bridge is untouched otherwise.
   */
  method PrintIfMatching(prefix: string, path: string, bridge: CharsetBridge) returns (printed: seq<string>)
    requires bridge.Valid() && bridge.localeCharset.Some?
    modifies bridge`fromUtf8Slot, bridge`iconv, bridge`convTo, bridge`convFrom, bridge`openCount
    ensures bridge.Valid()
    ensures var key := Key(bridge.ignoreInvalid, FromUtf8Pair(bridge.localeCharset.value));
      && printed == (if prefix <= path then [Translate(bridge.opens, bridge.step, key, path)] else [])
      && Printed(old(View(bridge)), View(bridge), key, bridge.opens(key.0, key.1), printed)
  {
    printed := [];
    if prefix <= path {
      var line := bridge.FromUtf8(path);
      printed := [line];
    }
  }

  /**
    One turn of the loop of PrintMatching: the next received path is
    printed if it matches, and the lines so far together with it are the
    shown matches of one more path, with the bridge accounted for.
   */
  method PrintNext(prefix: string, paths: seq<string>, i: nat, bridge: CharsetBridge, ghost v0: CacheView, ghost lines: seq<string>)
    returns (printed: seq<string>)
    requires bridge.Valid() && bridge.localeCharset.Some? && i < |paths|
    requires var key := Key(bridge.ignoreInvalid, FromUtf8Pair(bridge.localeCharset.value));
      && lines == Shown(bridge.opens, bridge.step, key, Matching(prefix, paths[..i]))
      && Listed(v0, View(bridge), key, bridge.opens(key.0, key.1), lines)
    modifies bridge`fromUtf8Slot, bridge`iconv, bridge`convTo, bridge`convFrom, bridge`openCount
    ensures bridge.Valid()
    ensures var key := Key(bridge.ignoreInvalid, FromUtf8Pair(bridge.localeCharset.value));
      && lines + printed == Shown(bridge.opens, bridge.step, key, Matching(prefix, paths[..i + 1]))
      && Listed(v0, View(bridge), key, bridge.opens(key.0, key.1), lines + printed)
  {
    ghost var key := Key(bridge.ignoreInvalid, FromUtf8Pair(bridge.localeCharset.value));
    ghost var v1 := View(bridge);
    assert Hit(v1, key) ==> bridge.opens(key.0, key.1);
    printed := PrintIfMatching(prefix, paths[i], bridge);
    ShownStep(bridge.opens, bridge.step, key, prefix, paths, i, printed);
    ListedStep(v0, v1, View(bridge), key, bridge.opens(key.0, key.1), lines, printed);
  }

  /**
    The loop body shared by cmd_loadtab, cmd_lstab and cmd_tab: test each
    received path against the prefix (memcmp over the prefix's length, on
    the raw path) and print the matches through charset_from_utf8.
   */
  method PrintMatching(prefix: string, paths: seq<string>, bridge: CharsetBridge) returns (lines: seq<string>)
    requires bridge.Valid() && bridge.localeCharset.Some?
    modifies bridge`fromUtf8Slot, bridge`iconv, bridge`convTo, bridge`convFrom, bridge`openCount
    ensures bridge.Valid()
    ensures var key := Key(bridge.ignoreInvalid, FromUtf8Pair(bridge.localeCharset.value));
      && lines == Shown(bridge.opens, bridge.step, key, Matching(prefix, paths))
      && Listed(old(View(bridge)), View(bridge), key, bridge.opens(key.0, key.1), lines)
  {
    ghost var v0 := View(bridge);
    lines := [];
    var i := 0;
    while i < |paths|
      invariant 0 <= i <= |paths|
      invariant bridge.Valid()
      invariant bridge.ignoreInvalid == old(bridge.ignoreInvalid) && bridge.localeCharset == old(bridge.localeCharset)
      invariant var key := Key(bridge.ignoreInvalid, FromUtf8Pair(bridge.localeCharset.value));
        && lines == Shown(bridge.opens, bridge.step, key, Matching(prefix, paths[..i]))
        && Listed(v0, View(bridge), key, bridge.opens(key.0, key.1), lines)
    {
      var printed := PrintNext(prefix, paths, i, bridge, v0, lines);
      lines := lines + printed;
      i := i + 1;
    }
    assert paths[..i] == paths;
  }

  /** A stored playlist record; its path is mpd_playlist_get_path. */
  datatype Playlist = Playlist(path: string)

  /** A directory record; its path is mpd_directory_get_path. */
  datatype Directory = Directory(path: string)

  /** A song record; its path is mpd_song_get_uri. */
  datatype Song = Song(uri: string)

  function PlaylistPath(pl: Playlist): string { pl.path }

  function DirectoryPath(dir: Directory): string { dir.path }

  function SongUri(song: Song): string { song.uri }

  /** The path of each received record, in the order received. */
  function Paths<R>(received: seq<R>, path: R -> string): (ps: seq<string>)
    ensures |ps| == |received| && forall i :: 0 <= i < |received| ==> ps[i] == path(received[i])
  {
    seq(|received|, i requires 0 <= i < |received| => path(received[i]))
  }

  /** cmd_loadtab: complete a stored playlist name. */
  method CmdLoadTab(prefix: string, received: seq<Playlist>, bridge: CharsetBridge)
    returns (cmd: ListCommand, lines: seq<string>, status: int)
    requires bridge.Valid() && bridge.localeCharset.Some?
    modifies bridge`fromUtf8Slot, bridge`iconv, bridge`convTo, bridge`convFrom, bridge`openCount
    ensures bridge.Valid()
    ensures cmd == TabSendList(prefix) && status == 0
    ensures var key := Key(bridge.ignoreInvalid, FromUtf8Pair(bridge.localeCharset.value));
      && lines == Shown(bridge.opens, bridge.step, key, Matching(prefix, Paths(received, PlaylistPath)))
      && Listed(old(View(bridge)), View(bridge), key, bridge.opens(key.0, key.1), lines)
  {
    cmd := TabSendList(prefix);
    lines := PrintMatching(prefix, Paths(received, PlaylistPath), bridge);
    status := 0;
  }

  /** cmd_lstab: complete a directory name. */
  method CmdLsTab(prefix: string, received: seq<Directory>, bridge: CharsetBridge)
    returns (cmd: ListCommand, lines: seq<string>, status: int)
    requires bridge.Valid() && bridge.localeCharset.Some?
    modifies bridge`fromUtf8Slot, bridge`iconv, bridge`convTo, bridge`convFrom, bridge`openCount
    ensures bridge.Valid()
    ensures cmd == TabSendList(prefix) && status == 0
    ensures var key := Key(bridge.ignoreInvalid, FromUtf8Pair(bridge.localeCharset.value));
      && lines == Shown(bridge.opens, bridge.step, key, Matching(prefix, Paths(received, DirectoryPath)))
      && Listed(old(View(bridge)), View(bridge), key, bridge.opens(key.0, key.1), lines)
  {
    cmd := TabSendList(prefix);
    lines := PrintMatching(prefix, Paths(received, DirectoryPath), bridge);
    status := 0;
  }

  /** cmd_tab: complete a song path. */
  method CmdTab(prefix: string, received: seq<Song>, bridge: CharsetBridge)
    returns (cmd: ListCommand, lines: seq<string>, status: int)
    requires bridge.Valid() && bridge.localeCharset.Some?
    modifies bridge`fromUtf8Slot, bridge`iconv, bridge`convTo, bridge`convFrom, bridge`openCount
    ensures bridge.Valid()
    ensures cmd == TabSendList(prefix) && status == 0
    ensures var key := Key(bridge.ignoreInvalid, FromUtf8Pair(bridge.localeCharset.value));
      && lines == Shown(bridge.opens, bridge.step, key, Matching(prefix, Paths(received, SongUri)))
      && Listed(old(View(bridge)), View(bridge), key, bridge.opens(key.0, key.1), lines)
  {
    cmd := TabSendList(prefix);
    lines := PrintMatching(prefix, Paths(received, SongUri), bridge);
    status := 0;
  }
}
