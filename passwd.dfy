/**
  The account record and the parser for one line of the classic
  `/etc/passwd` format: `name:passwd:uid:gid:gecos:dir:shell`.
 */
module PasswdFormat {
  import opened Optional
  import opened Text

  /** `struct Passwd`: the parsed record, with uid and gid as `u32`. */
  datatype Passwd = Passwd(
    name: Bytes,
    passwd: Bytes,
    uid: u32,
    gid: u32,
    gecos: Bytes,
    dir: Bytes,
    shell: Bytes)

  /**
    `PasswdFile::parse_line`: split on ':', take the first seven fields in
    order, parse the third and fourth as `u32`, trim trailing whitespace from
    the seventh. A missing field or an id that does not parse gives no record
    at all; fields after the seventh are ignored.
   */
  function ParseLine(line: Bytes): Option<Passwd> {
    var xs := Split(line);
    if |xs| < 7 then None
    else
      match (ParseU32(xs[2]), ParseU32(xs[3]))
      case (Some(uid), Some(gid)) =>
        Some(Passwd(xs[0], xs[1], uid, gid, xs[4], xs[5], TrimRight(xs[6])))
      case _ => None
  }

  /**
    The accept/reject rule: a line is accepted exactly when it has at least
    seven fields and its third and fourth fields are `u32` numerals.
   */
  lemma ParseLineAccepts(line: Bytes)
    ensures ParseLine(line).Some? <==>
      |Split(line)| >= 7 && IsU32Numeral(Split(line)[2]) && IsU32Numeral(Split(line)[3])
  {
  }

  /** A line with fewer than six colons (fewer than seven fields) is rejected. */
  lemma ShortLineRejected(line: Bytes)
    requires ColonCount(line) < 6
    ensures ParseLine(line) == None
  {
    SplitLength(line);
  }

  /**
    What an accepted line yields: fields 1, 2, 5 and 6 verbatim, the numeric
    values of fields 3 and 4, and field 7 without its trailing whitespace.
   */
  lemma ParsedFields(line: Bytes)
    requires ParseLine(line).Some?
    ensures var xs, p := Split(line), ParseLine(line).value;
      && p.name == xs[0] && p.passwd == xs[1]
      && p.uid == Horner(0, xs[2]) && p.gid == Horner(0, xs[3])
      && p.gecos == xs[4] && p.dir == xs[5]
      && p.shell == TrimRight(xs[6])
  {
  }

  /** Parsing a line assembled from colon-free fields, with numerals for the ids. */
  lemma ParseJoinedFields(fields: seq<Bytes>, uid: u32, gid: u32)
    requires |fields| >= 7
    requires forall i :: 0 <= i < |fields| ==> Colon !in fields[i]
    requires fields[2] == Decimal(uid) && fields[3] == Decimal(gid)
    ensures ParseLine(Join(fields))
         == Some(Passwd(fields[0], fields[1], uid, gid, fields[4], fields[5], TrimRight(fields[6])))
  {
    SplitJoin(fields);
    DecimalRoundTrip(uid);
    DecimalRoundTrip(gid);
  }

  /** A record can be written as a line when no text field holds ':'. */
  predicate Writable(p: Passwd) {
    && Colon !in p.name && Colon !in p.passwd && Colon !in p.gecos
    && Colon !in p.dir && Colon !in p.shell
    && TrimRight(p.shell) == p.shell
  }

  /** The line a record is stored as, newline included, as the reader hands it over. */
  function FormatLine(p: Passwd): Bytes {
    Join([p.name, p.passwd, Decimal(p.uid), Decimal(p.gid), p.gecos, p.dir, p.shell + [LineFeed]])
  }

  /** Writing a record as a line and parsing the line gives the record back. */
  lemma {:induction false} FormatParseRoundTrip(p: Passwd)
    requires Writable(p)
    ensures ParseLine(FormatLine(p)) == Some(p)
  {
    var fields := [p.name, p.passwd, Decimal(p.uid), Decimal(p.gid), p.gecos, p.dir, p.shell + [LineFeed]];
    assert Colon !in Decimal(p.uid) && Colon !in Decimal(p.gid);
    ParseJoinedFields(fields, p.uid, p.gid);
    TrimNewline(p.shell);
  }

  /** No text field of the record holds a line feed. */
  predicate NoLineFeed(p: Passwd) {
    && LineFeed !in p.name && LineFeed !in p.passwd && LineFeed !in p.gecos
    && LineFeed !in p.dir && LineFeed !in p.shell
  }

  /**
    A record without line feeds in its fields is written as exactly one
    line: its only line feed is the last byte, so reading the file line by
    line hands `ParseLine` the whole written line.
   */
  lemma FormatLineIsOneLine(p: Passwd)
    requires NoLineFeed(p)
    ensures var line := FormatLine(p);
      |line| >= 1 && line[|line| - 1] == LineFeed && LineFeed !in line[..|line| - 1]
  {
    var fields := [p.name, p.passwd, Decimal(p.uid), Decimal(p.gid), p.gecos, p.dir, p.shell];
    assert fields[..6] + [fields[6] + [LineFeed]]
        == [p.name, p.passwd, Decimal(p.uid), Decimal(p.gid), p.gecos, p.dir, p.shell + [LineFeed]];
    JoinExtendLast(fields, [LineFeed]);
    forall u: u32 ensures LineFeed !in Decimal(u) {
      assert forall i :: 0 <= i < |Decimal(u)| ==> IsDigit(Decimal(u)[i]);
    }
    JoinAvoids(fields, LineFeed);
    var line := FormatLine(p);
    assert line[..|line| - 1] == Join(fields);
  }

  lemma TrimNewline(s: Bytes)
    requires TrimRight(s) == s
    ensures TrimRight(s + [LineFeed]) == s
  {
    assert (s + [LineFeed])[..|s|] == s;
  }
}
