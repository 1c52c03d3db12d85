/**
  File selection and the two lookup entry points,
  `_nss_multipasswd_getpwuid_r` and `_nss_multipasswd_getpwnam_r`.

  The operating system is passed in: the caller's uid (what `getuid()`
  returns), the listing of `/etc/passwd.d` (None when `readdir` fails), and
  the readable files as a map from path to lines (a path missing from the
  map is one that `File::open` fails on).
 */
module Lookup {
  import opened Optional
  import opened Text
  import opened PasswdFormat
  import opened Arena
  import opened Serialize
  import opened Reader
  import opened Status

  type Path = Bytes

  /** The readable files and their lines. */
  type FileSystem = map<Path, seq<Bytes>>

  /** "/etc/passwd.d/": the directory of per-user shards, with the separator. */
  const ShardPrefix: Bytes := Ascii("/etc/passwd.d/")

  /** `format!("/etc/passwd.d/{}", uid)`. */
  function ShardPath(uid: u32): Path {
    ShardPrefix + Decimal(uid)
  }

  /**
    The uid a shard path names, read back from its file name. Only the
    numerals `format!` produces are accepted: no sign, no leading zeros.
   */
  function ShardOwner(path: Path): Option<u32> {
    if |path| >= |ShardPrefix| && path[..|ShardPrefix|] == ShardPrefix && Canonical(path[|ShardPrefix|..])
    then ParseU32(path[|ShardPrefix|..])
    else None
  }

  /** Each user's shard path names that user, so distinct users have distinct shards. */
  lemma ShardPathOwner(uid: u32)
    ensures ShardOwner(ShardPath(uid)) == Some(uid)
  {
    assert ShardPath(uid)[|ShardPrefix|..] == Decimal(uid);
    assert uid == 0 ==> Decimal(uid) == [48];
    DecimalRoundTrip(uid);
  }

  /** A path names a user exactly when it is that user's shard path. */
  lemma ShardOwnerExact(path: Path, uid: u32)
    ensures ShardOwner(path) == Some(uid) <==> path == ShardPath(uid)
  {
    if path == ShardPath(uid) {
      ShardPathOwner(uid);
    }
    if ShardOwner(path) == Some(uid) {
      var digits := path[|ShardPrefix|..];
      DecimalCanonical(digits);
      assert path == ShardPrefix + digits;
    }
  }

  lemma ShardPathInjective(u: u32, v: u32)
    requires ShardPath(u) == ShardPath(v)
    ensures u == v
  {
    ShardPathOwner(u);
    ShardPathOwner(v);
  }

  /**
    `get_passwd_files`: root searches the whole listing of `/etc/passwd.d`
    in listing order (nothing when it cannot be listed); any other user
    searches exactly one file, the shard named by their own uid.
   */
  function GetPasswdFiles(callerUid: u32, listing: Option<seq<Path>>): (r: seq<Path>)
    ensures callerUid == 0 && listing.Some? ==> r == listing.value
    ensures callerUid == 0 && listing.None? ==> r == []
    ensures callerUid != 0 ==> |r| == 1 && ShardOwner(r[0]) == Some(callerUid)
  {
    if callerUid == 0 then
      match listing
      case Some(paths) => paths
      case None => []
    else
      ShardPathOwner(callerUid);
      [ShardPath(callerUid)]
  }

  /** A non-root caller searches exactly one path, `/etc/passwd.d/` followed by their uid in decimal. */
  lemma UnprivilegedFileList(callerUid: u32, listing: Option<seq<Path>>)
    requires callerUid != 0
    ensures GetPasswdFiles(callerUid, listing) == [ShardPrefix + Decimal(callerUid)]
  {
    var r := GetPasswdFiles(callerUid, listing);
    ShardOwnerExact(r[0], callerUid);
  }

  /**
    The loop over the candidate files: skip a file that does not open,
    search one that does, and stop at the first file with a match.
   */
  function SearchFiles(fs: FileSystem, paths: seq<Path>, key: Key): Option<Passwd>
    decreases |paths|
  {
    if paths == [] then None
    else if paths[0] in fs && FileSearch(fs[paths[0]], key).Some? then FileSearch(fs[paths[0]], key)
    else SearchFiles(fs, paths[1..], key)
  }

  /** What a lookup finds for a caller, given what the system would report. */
  function Lookup(key: Key, callerUid: u32, listing: Option<seq<Path>>, fs: FileSystem): Option<Passwd> {
    SearchFiles(fs, GetPasswdFiles(callerUid, listing), key)
  }

  /** Whether a file at `path` yields nothing for `key`: it does not open, or its search fails. */
  predicate NoMatchIn(fs: FileSystem, path: Path, key: Key) {
    path !in fs || FileSearch(fs[path], key).None?
  }

  /**
    First match in file-then-line order: the lookup fails exactly when no
    candidate file yields a match, and otherwise returns the first match of
    the first file that yields one.
   */
  lemma {:induction false} SearchFilesMeaning(fs: FileSystem, paths: seq<Path>, key: Key)
    ensures SearchFiles(fs, paths, key).None? <==>
      forall i :: 0 <= i < |paths| ==> NoMatchIn(fs, paths[i], key)
    ensures SearchFiles(fs, paths, key).Some? ==>
      exists i :: 0 <= i < |paths| && paths[i] in fs
        && SearchFiles(fs, paths, key) == FileSearch(fs[paths[i]], key)
        && forall j :: 0 <= j < i ==> NoMatchIn(fs, paths[j], key)
    decreases |paths|
  {
    if paths != [] {
      SearchFilesMeaning(fs, paths[1..], key);
      assert forall i :: 1 <= i < |paths| ==> paths[i] == paths[1..][i - 1];
      if !(paths[0] in fs && FileSearch(fs[paths[0]], key).Some?) && SearchFiles(fs, paths, key).Some? {
        var i :| 0 <= i < |paths[1..]| && paths[1..][i] in fs
          && SearchFiles(fs, paths[1..], key) == FileSearch(fs[paths[1..][i]], key)
          && forall j :: 0 <= j < i ==> NoMatchIn(fs, paths[1..][j], key);
        assert paths[i + 1] == paths[1..][i];
        assert forall j :: 1 <= j < i + 1 ==> NoMatchIn(fs, paths[j], key) by {
          forall j | 1 <= j < i + 1 ensures NoMatchIn(fs, paths[j], key) {
            assert paths[j] == paths[1..][j - 1];
          }
        }
      }
    }
  }

  /** Whatever a lookup returns matches its key. */
  lemma LookupMatches(key: Key, callerUid: u32, listing: Option<seq<Path>>, fs: FileSystem)
    ensures Lookup(key, callerUid, listing, fs).Some? ==> Matches(key, Lookup(key, callerUid, listing, fs).value)
  {
    var paths := GetPasswdFiles(callerUid, listing);
    SearchFilesMeaning(fs, paths, key);
    if SearchFiles(fs, paths, key).Some? {
      var i :| 0 <= i < |paths| && paths[i] in fs
        && SearchFiles(fs, paths, key) == FileSearch(fs[paths[i]], key);
      FirstMatchMeaning(Records(fs[paths[i]]), key);
    }
  }

  /** Two file systems that agree on whether, and with which lines, every one of `paths` opens. */
  predicate AgreeOn(fs: FileSystem, fs': FileSystem, paths: seq<Path>) {
    forall i :: 0 <= i < |paths| ==>
      (paths[i] in fs <==> paths[i] in fs') && (paths[i] in fs ==> fs[paths[i]] == fs'[paths[i]])
  }

  /**
    Files after the matching one are never opened: once `paths` yields a
    match, any further candidate files, and whatever the file system holds
    outside `paths`, change nothing.
   */
  lemma {:induction false} LaterFilesIgnored(fs: FileSystem, fs': FileSystem, paths: seq<Path>, later: seq<Path>, key: Key)
    requires SearchFiles(fs, paths, key).Some?
    requires AgreeOn(fs, fs', paths)
    ensures SearchFiles(fs', paths + later, key) == SearchFiles(fs, paths, key)
    decreases |paths|
  {
    assert (paths + later)[0] == paths[0];
    if !(paths[0] in fs && FileSearch(fs[paths[0]], key).Some?) {
      assert (paths + later)[1..] == paths[1..] + later;
      assert AgreeOn(fs, fs', paths[1..]) by {
        forall i | 0 <= i < |paths[1..]|
          ensures (paths[1..][i] in fs <==> paths[1..][i] in fs')
          ensures paths[1..][i] in fs ==> fs[paths[1..][i]] == fs'[paths[1..][i]]
        {
          assert paths[1..][i] == paths[i + 1];
        }
      }
      LaterFilesIgnored(fs, fs', paths[1..], later, key);
    }
  }

  /**
    Isolation: an unprivileged caller's lookup depends only on their own
    shard. Two file systems that agree on that one file, with any listings,
    give the same answer, which is the search of that file when it opens and
    nothing otherwise.
   */
  lemma UnprivilegedSeesOwnShard(key: Key, callerUid: u32, listing: Option<seq<Path>>,
                                 listing': Option<seq<Path>>, fs: FileSystem, fs': FileSystem)
    requires callerUid != 0
    requires AgreeOn(fs, fs', [ShardPath(callerUid)])
    ensures Lookup(key, callerUid, listing, fs) == Lookup(key, callerUid, listing', fs')
    ensures Lookup(key, callerUid, listing, fs) ==
      if ShardPath(callerUid) in fs then FileSearch(fs[ShardPath(callerUid)], key) else None
  {
    var p := ShardPath(callerUid);
    var paths: seq<Path> := [p];
    assert GetPasswdFiles(callerUid, listing) == paths;
    assert GetPasswdFiles(callerUid, listing') == paths;
    assert paths[1..] == [];
    assert SearchFiles(fs, [], key) == SearchFiles(fs', [], key) == None;
    assert paths[0] == p;
    assert p in fs <==> p in fs';
    if p in fs {
      assert fs[p] == fs'[p];
    }
  }

  /** Root with an unreadable `/etc/passwd.d` finds nothing. */
  lemma UnlistableDirectoryFindsNothing(key: Key, fs: FileSystem)
    ensures Lookup(key, 0, None, fs) == None
  {
  }

  /** One candidate file: take its match, or go on with the next file. */
  lemma SearchFilesStep(fs: FileSystem, paths: seq<Path>, i: nat, key: Key)
    requires i < |paths|
    ensures SearchFiles(fs, paths[i..], key) ==
      if paths[i] in fs && FileSearch(fs[paths[i]], key).Some? then FileSearch(fs[paths[i]], key)
      else SearchFiles(fs, paths[i + 1..], key)
  {
    assert paths[i..][0] == paths[i];
    assert paths[i..][1..] == paths[i + 1..];
  }

  /**
    What the caller's buffer must hold for the found record: its strings are
    NUL-free and fit in `buflen` bytes. The source checks neither; a record
    that does not fit would overrun the caller's buffer.
   */
  predicate Fits(found: Option<Passwd>, buflen: nat) {
    found.Some? ==> NoNulFields(found.value) && Size(found.value) <= buflen
  }

  /**
    The shared body of the two lookups: search the candidate files in order;
    on the first match serialise it into `pwbuf` and the first bytes of `buf`
    and return Success (1); otherwise leave both untouched and return
    NotFound (0).
   */
  method LookupInto(key: Key, callerUid: u32, listing: Option<seq<Path>>, fs: FileSystem,
                    pwbuf: CPasswd, buf: array<byte>, buflen: nat) returns (status: int)
    requires buflen <= buf.Length
    requires Fits(Lookup(key, callerUid, listing, fs), buflen)
    modifies pwbuf, buf
    ensures var found := Lookup(key, callerUid, listing, fs);
      && (status == 1 <==> found.Some?)
      && (status == 0 <==> found.None?)
      && (found.Some? ==> pwbuf.Value() == Place(found.value, 0)
                          && buf[..] == Splice(old(buf[..]), 0, Layout(found.value)))
      && (found.None? ==> unchanged(pwbuf) && unchanged(buf))
  {
    var paths := GetPasswdFiles(callerUid, listing);
    var i := 0;
    while i < |paths|
      invariant i <= |paths|
      invariant SearchFiles(fs, paths[i..], key) == SearchFiles(fs, paths, key)
      invariant unchanged(pwbuf) && unchanged(buf)
    {
      SearchFilesStep(fs, paths, i, key);
      if paths[i] in fs {
        var file := new PasswdFile(fs[paths[i]]);
        var entry := file.Find(key);
        assert file.lines[0..] == fs[paths[i]];
        if entry.Some? {
          var arena := new CBuffer(buf, buflen);
          ToCPasswd(entry.value, pwbuf, arena);
          return Success.ToC();
        }
      }
      i := i + 1;
    }
    assert paths[i..] == [];
    return NotFound.ToC();
  }

  /** `_nss_multipasswd_getpwuid_r`: look up the first record with this uid. */
  method GetPwUidR(uid: u32, callerUid: u32, listing: Option<seq<Path>>, fs: FileSystem,
                   pwbuf: CPasswd, buf: array<byte>, buflen: nat) returns (status: int)
    requires buflen <= buf.Length
    requires Fits(Lookup(ByUid(uid), callerUid, listing, fs), buflen)
    modifies pwbuf, buf
    ensures var found := Lookup(ByUid(uid), callerUid, listing, fs);
      && (status == 1 <==> found.Some?)
      && (status == 0 <==> found.None?)
      && (found.Some? ==> found.value.uid == uid
                          && pwbuf.Value() == Place(found.value, 0)
                          && buf[..] == Splice(old(buf[..]), 0, Layout(found.value)))
      && (found.None? ==> unchanged(pwbuf) && unchanged(buf))
  {
    status := LookupInto(ByUid(uid), callerUid, listing, fs, pwbuf, buf, buflen);
    LookupMatches(ByUid(uid), callerUid, listing, fs);
  }

  /**
    `_nss_multipasswd_getpwnam_r`: look up the first record with this name.
    `name` is None when the caller's C string is not valid UTF-8; then
    nothing is searched and the answer is NotFound.
   */
  method GetPwNamR(name: Option<Bytes>, callerUid: u32, listing: Option<seq<Path>>, fs: FileSystem,
                   pwbuf: CPasswd, buf: array<byte>, buflen: nat) returns (status: int)
    requires buflen <= buf.Length
    requires name.Some? ==> Fits(Lookup(ByName(name.value), callerUid, listing, fs), buflen)
    modifies pwbuf, buf
    ensures name.None? ==> status == 0 && unchanged(pwbuf) && unchanged(buf)
    ensures name.Some? ==>
      var found := Lookup(ByName(name.value), callerUid, listing, fs);
      && (status == 1 <==> found.Some?)
      && (status == 0 <==> found.None?)
      && (found.Some? ==> found.value.name == name.value
                          && pwbuf.Value() == Place(found.value, 0)
                          && buf[..] == Splice(old(buf[..]), 0, Layout(found.value)))
      && (found.None? ==> unchanged(pwbuf) && unchanged(buf))
  {
    if name.Some? {
      status := LookupInto(ByName(name.value), callerUid, listing, fs, pwbuf, buf, buflen);
      LookupMatches(ByName(name.value), callerUid, listing, fs);
    } else {
      status := NotFound.ToC();
    }
  }
}
