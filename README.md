# nss-multipasswd, modelled in Dafny

nss-multipasswd is a glibc Name Service Switch module that answers
`getpwuid_r` and `getpwnam_r` lookups from files in `/etc/passwd.d`. Each
file is in the classic `/etc/passwd` format, one record per line:
`name:passwd:uid:gid:gecos:dir:shell`.

Which files are searched depends on the caller:
- root searches every file the directory lists, in listing order;
- any other user searches only `/etc/passwd.d/<uid>`, the shard named by
  their own uid.

The first record that matches is copied into the caller's `struct passwd`.
Its five strings go, NUL-terminated, into the caller's byte buffer. The
other entry points only return a status: `setpwent` and `endpwent` return
Success, and `getpwent_r` returns Unavail.

The model is split by the structure of `src/lib.rs`:

- `optional.dfy` (`Optional`): the Option datatype.
- `text.dfy` (`Text`): text as bytes.
  - `str::split(':')`, `trim_right` and `from_str::<u32>` with its
    overflow rejection;
  - decimal formatting and its round trip.
- `passwd.dfy` (`PasswdFormat`): the `Passwd` record, `parse_line`, and a
  writer for lines with the parse/format round trip.
- `status.dfy` (`Status`): `NssStatus`, `to_c`, and the three status-only
  entry points.
- `reader.dfy` (`Reader`): `PasswdFile` as a class that consumes lines, its
  `next` and `find`, and their specification functions.
- `cbuffer.dfy` (`Arena`): `CBuffer`, the bump allocator over the caller's
  buffer, as a class over an `array<byte>`. Pointers are offsets.
- `cpasswd.dfy` (`Serialize`): `CPasswd` as a class and `to_c_passwd` as a
  method. Lemmas prove the layout reads back.
- `lookup.dfy` (`Lookup`): `get_passwd_files` and the two lookup entry
  points.

The operating system is passed in as parameters:
- the caller's uid (`getuid`);
- the listing of `/etc/passwd.d` (None when `readdir` fails);
- the readable files, as a map from path to lines (a path not in the map
  fails to open).

### Behaviour worth noting

- A malformed line ends the scan of its file. `PasswdFile::next` returns
  None for a line that does not parse, and `Iterator::find` treats None as
  the end of the file, so every line after it is hidden.
  `Reader.SearchStopsAtBadLine` states this.
- No status reports a buffer that is too small. Nothing checks the
  caller's buffer length; the only statuses the lookups return are
  Success (1) and NotFound (0). The model makes fitting a precondition
  (see Left out).
- `trim_right` removes trailing tab, LF, VT, FF, CR and space from the
  shell field (the ASCII whitespace of `char::is_whitespace`).

## Model

| member | source | states |
|---|---|---|
| Status.NssStatus.ToC | src/lib.rs:20-29 | The code is in -2..2; it is 1 exactly for Success and 0 exactly for NotFound |
| Status.ToCRoundTrip | src/lib.rs:20-29 | Decoding a status's integer gives the status back |
| Status.ToCInjective | src/lib.rs:20-29 | Distinct statuses have distinct integers |
| Status.SetPwEnt | src/lib.rs:146-147 | `setpwent` always returns 1, the Success code |
| Status.EndPwEnt | src/lib.rs:149-150 | `endpwent` always returns 1, the Success code |
| Status.GetPwEntR | src/lib.rs:152-153 | `getpwent_r` always returns -1, the Unavail code: enumeration is unsupported |
| Text.Split | src/lib.rs:80 | `split(':')` gives at least one field, and no field contains ':' |
| Text.JoinSplit | src/lib.rs:80 | Re-joining the split fields with ':' gives back the line, so no byte is lost or reordered |
| Text.SplitLength | src/lib.rs:80 | A line with n colons has exactly n + 1 fields |
| Text.SplitJoin | src/lib.rs:80 | Splitting colon-free fields joined with ':' gives back exactly those fields |
| Text.TrimRight | src/lib.rs:99 | `trim_right` gives a prefix of its input that does not end in whitespace; every byte removed is whitespace |
| Text.ParseU32 | src/lib.rs:95-96 | `from_str::<u32>` succeeds exactly on a non-empty all-digit field whose value is below 2^32, and yields that value |
| Text.AccumulateMeaning | src/lib.rs:95-96 | The checked digit loop (reject a non-digit, reject on overflow) accepts exactly the in-range numerals and computes their value |
| Text.Decimal | src/lib.rs:142 | `format!("{}", n)` gives a non-empty digit string with no leading zero (except for 0 itself) |
| Text.DecimalCanonical | src/lib.rs:142 | Every digit string without leading zeros is the formatted numeral of its own value, so the formatted numeral is the only canonical one |
| Text.DecimalRoundTrip | src/lib.rs:142 | Parsing the `format!("{}", uid)` numeral gives the uid back |
| Text.DecimalInjective | src/lib.rs:142 | Distinct uids format to distinct numerals |
| PasswdFormat.ParseLine | src/lib.rs:79-101 | `parse_line`; its meaning is stated by ParseLineAccepts, ParsedFields and FormatParseRoundTrip |
| PasswdFormat.ParseLineAccepts | src/lib.rs:79-101 | `parse_line` accepts exactly when there are at least seven fields and fields 3 and 4 are u32 numerals |
| PasswdFormat.ShortLineRejected | src/lib.rs:79-101 | A line with fewer than six colons is rejected |
| PasswdFormat.ParsedFields | src/lib.rs:92-100 | An accepted line yields fields 1, 2, 5 and 6 verbatim, the values of fields 3 and 4, and field 7 right-trimmed |
| PasswdFormat.ParseJoinedFields | src/lib.rs:79-101 | Seven or more colon-free fields with numerals for the ids parse to the record of the first seven; fields after the seventh are ignored |
| PasswdFormat.FormatParseRoundTrip | src/lib.rs:79-101 | `parse_line` of a record written as a newline-terminated line gives back the same record |
| PasswdFormat.FormatLineIsOneLine | src/lib.rs:104-109 | A record whose fields hold no line feed is written as exactly one line, whose only line feed is its last byte, so `lines()` hands the whole line to `parse_line` |
| Reader.Records | src/lib.rs:104-109 | The iterator yields at most one record per line |
| Reader.RecordsMeaning | src/lib.rs:104-109 | The records are the parses of the leading lines, and the line after them does not parse |
| Reader.FirstMatch | src/lib.rs:160 | `Iterator::find` over the records; its meaning is stated by FirstMatchMeaning |
| Reader.FirstMatchMeaning | src/lib.rs:160 | `find` fails exactly when no record matches; otherwise it returns a match with no match before it |
| Reader.SearchStopsAtBadLine | src/lib.rs:104-109 | Searching a file equals searching only the lines before its first unparsable line |
| Reader.SearchStep | src/lib.rs:104-109 | One step of `find`: an unparsable line ends the search, a matching record is the answer, and otherwise the search continues with the next line |
| Reader.PasswdFile.constructor | src/lib.rs:72-77 | An opened file has consumed no lines |
| Reader.PasswdFile.Next | src/lib.rs:105-109 | `next` consumes one line and returns its parse; at end of file it returns None and consumes nothing |
| Reader.PasswdFile.Find | src/lib.rs:160 | `find` on the reader returns the first match among the records still ahead of it; every line it went past parsed and did not match, and the reader stops just after the matching line, or just after the first line that does not parse, or at end of file |
| Arena.SpliceTwice | src/lib.rs:123-131 | Two writes placed back to back equal one write of their concatenation |
| Arena.CStr | src/lib.rs:133-135 | `to_c_str` gives the string's bytes followed by one NUL, so it is one byte longer |
| Arena.ReadCStrMeaning | src/lib.rs:133-136 | Reading a C string at an offset gives NUL-free bytes that lie at that offset and are followed by a NUL; no string means no NUL follows the offset |
| Arena.ReadCStrBack | src/lib.rs:133-136 | Reading a C string where `write_str` put a NUL-free string gives that string back |
| Arena.CBuffer.constructor | src/lib.rs:118-120 | A new arena starts at the buffer's first byte with `len` bytes free |
| Arena.CBuffer.Write | src/lib.rs:123-131 | `write` returns the old position, copies the data there and nowhere else, advances the position and reduces the free count by its length |
| Arena.CBuffer.WriteStr | src/lib.rs:133-136 | `write_str` writes the string followed by a NUL, which uses length + 1 bytes |
| Serialize.Size | src/lib.rs:56-64 | A record uses the sum of length + 1 over its five strings |
| Serialize.PlaceContiguous | src/lib.rs:56-64 | The five string pointers are back to back: each is the previous one plus the previous length plus one; uid and gid are copied |
| Serialize.LayoutWrites | src/lib.rs:56-64 | The five `write_str` calls in order put the whole layout at the starting position |
| Serialize.PlaceReadsBack | src/lib.rs:45-64 | Reading the five pointers from memory that holds the layout gives back the record |
| Serialize.SerializedReadsBack | src/lib.rs:56-64 | Reading a buffer after `to_c_passwd`, through the pointers it stored, gives back the record |
| Serialize.ToCPasswd | src/lib.rs:56-64 | `to_c_passwd` fills the slots with the laid-out pointers and ids, writes the layout at the arena position, and advances the arena by the record's size |
| Lookup.ShardPath | src/lib.rs:142 | `format!("/etc/passwd.d/{}", uid)`; its meaning is stated by ShardPathOwner and ShardOwnerExact |
| Lookup.ShardPathOwner | src/lib.rs:142 | The shard path of a uid names that uid |
| Lookup.ShardOwnerExact | src/lib.rs:142 | A path names a uid exactly when it is that uid's shard path: zero-padded or signed names such as `/etc/passwd.d/01000` name nobody |
| Lookup.ShardPathInjective | src/lib.rs:142 | Distinct users have distinct shard paths |
| Lookup.GetPasswdFiles | src/lib.rs:139-144 | Root gets the whole listing, or nothing when the directory cannot be listed; any other user gets exactly one path, which names their own uid; with ShardOwnerExact that path is exactly `/etc/passwd.d/<uid>` |
| Lookup.SearchFiles | src/lib.rs:158-166 | The loop over candidate files; its meaning is stated by SearchFilesMeaning, SearchFilesStep and LaterFilesIgnored |
| Lookup.UnprivilegedFileList | src/lib.rs:142 | A non-root caller searches exactly one path, `/etc/passwd.d/` followed by their uid in decimal |
| Lookup.SearchFilesMeaning | src/lib.rs:158-166 | The lookup fails exactly when no candidate file opens with a match; otherwise it returns the search result of the first file that has one |
| Lookup.SearchFilesStep | src/lib.rs:158-165 | One iteration of the file loop: take this file's match, or go on with the next file |
| Lookup.LookupMatches | src/lib.rs:155-183 | Whatever a lookup returns matches its key |
| Lookup.LaterFilesIgnored | src/lib.rs:158-165 | Once a file yields a match, later candidate files and any file outside the searched ones change nothing |
| Lookup.UnprivilegedSeesOwnShard | src/lib.rs:139-144 | A non-root lookup depends only on the caller's own shard: it is that file's search result, whatever else exists |
| Lookup.UnlistableDirectoryFindsNothing | src/lib.rs:141 | Root finds nothing when `/etc/passwd.d` cannot be listed |
| Lookup.LookupInto | src/lib.rs:158-166 | Success (1) exactly when the lookup finds a record, with the record serialised at the buffer's start; otherwise NotFound (0) with nothing written |
| Lookup.GetPwUidR | src/lib.rs:155-167 | `getpwuid_r` returns Success exactly when some searched record has the uid; the record serialised has that uid |
| Lookup.GetPwNamR | src/lib.rs:169-183 | `getpwnam_r` returns NotFound for a name that is not UTF-8; otherwise it returns Success exactly when some searched record has the name, and the record serialised has that name |

## Left out

- I/O is modelled as parameters: `getuid`, `fs::readdir`, `File::open` and reading through `BufferedReader`. The directory listing's order is whatever the system returns.
- A read error partway through a file ends that file's search, as end of file does. The model represents this as a shorter line sequence.
- UTF-8 decoding of file lines is not modelled; text is bytes. In the source, a line that is not valid UTF-8 reads as an error, which ends the file.
- Text.TrimRight: trims ASCII whitespace only. `trim_right` would also remove trailing non-ASCII Unicode whitespace such as U+00A0.
- `errnop` is never written by the source and is not modelled.
- Raw pointers are modelled as byte offsets from the start of the caller's buffer.
- The buffer's contents as `CString` would see them are not modelled. The round trip is stated through `Serialize.ReadPasswd` instead.
- Text.ParseU32: follows the `libcore` integer parser of late 2014 (`from_str_radix` for unsigned types): digits only, no sign, empty rejected, overflow rejected. The older `std::num::strconv` parser of the same era accepted a leading `+` on unsigned types. With that library a uid or gid field such as `+1000` would parse, and the model does not cover it.
- Arena.CBuffer.Write: requires `|data| <= free`. The source does not check free space (its own comment says so); a longer write would overrun the caller's buffer, and `free` would wrap around.
- Arena.CBuffer.WriteStr: requires a NUL-free string with room for it and its terminator. `to_c_str` panics on an interior NUL, and the source does not check space.
- Serialize.ToCPasswd: requires NUL-free fields and `Size(p) <= free`, for the same two reasons.
- Lookup.LookupInto: requires the found record to fit in `buflen` with NUL-free fields. The source returns no "buffer too small" status, so a record that does not fit is undefined behaviour, not an error path to model.
- Lookup.GetPwUidR: same precondition as LookupInto.
- Lookup.GetPwNamR: same precondition as LookupInto. The caller's NUL-terminated name is given already decoded, as None when it is not valid UTF-8.
- Panics from unwinding across the C boundary, and concurrency, are not modelled.
