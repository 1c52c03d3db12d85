/**
  `PasswdFile`: reading records from one open file, and `Iterator::find` over
  them. A file is given by its lines as `lines()` yields them (each still
  ending in its newline). A read error partway through a file has the same
  effect as the file ending there, so it is modelled by a shorter line
  sequence.
 */
module Reader {
  import opened Optional
  import opened Text
  import opened PasswdFormat

  /**
    The records the iterator yields: one per line, in order, up to the first
    line that does not parse. That line ends the iteration; the lines after
    it are never parsed.
   */
  function Records(lines: seq<Bytes>): (r: seq<Passwd>)
    ensures |r| <= |lines|
    decreases |lines|
  {
    if lines == [] then []
    else
      match ParseLine(lines[0])
      case None => []
      case Some(p) => [p] + Records(lines[1..])
  }

  /**
    The records are the parses of the file's leading lines, and the line
    after them, if any, does not parse.
   */
  lemma {:induction false} RecordsMeaning(lines: seq<Bytes>)
    ensures forall i :: 0 <= i < |Records(lines)| ==> ParseLine(lines[i]) == Some(Records(lines)[i])
    ensures |Records(lines)| < |lines| ==> ParseLine(lines[|Records(lines)|]) == None
    decreases |lines|
  {
    if lines != [] && ParseLine(lines[0]).Some? {
      RecordsMeaning(lines[1..]);
      var r := Records(lines);
      assert r[1..] == Records(lines[1..]);
      forall i | 1 <= i < |r|
        ensures ParseLine(lines[i]) == Some(r[i])
      {
        assert lines[i] == lines[1..][i - 1];
      }
    }
  }

  /** The two predicates the lookups pass to `find`. */
  datatype Key = ByUid(uid: u32) | ByName(name: Bytes)

  predicate Matches(key: Key, p: Passwd) {
    match key
    case ByUid(uid) => p.uid == uid
    case ByName(name) => p.name == name
  }

  /** `Iterator::find`: the first record that matches, if any does. */
  function FirstMatch(records: seq<Passwd>, key: Key): Option<Passwd>
    decreases |records|
  {
    if records == [] then None
    else if Matches(key, records[0]) then Some(records[0])
    else FirstMatch(records[1..], key)
  }

  /**
    The search fails exactly when no record matches; otherwise it returns a
    matching record with no matching record before it.
   */
  lemma {:induction false} FirstMatchMeaning(records: seq<Passwd>, key: Key)
    ensures FirstMatch(records, key).None? <==> forall i :: 0 <= i < |records| ==> !Matches(key, records[i])
    ensures FirstMatch(records, key).Some? ==>
      exists i :: 0 <= i < |records| && records[i] == FirstMatch(records, key).value
        && Matches(key, records[i])
        && forall j :: 0 <= j < i ==> !Matches(key, records[j])
    decreases |records|
  {
    if records != [] && !Matches(key, records[0]) {
      FirstMatchMeaning(records[1..], key);
      assert forall i :: 1 <= i < |records| ==> records[i] == records[1..][i - 1];
      if FirstMatch(records, key).Some? {
        var i :| 0 <= i < |records[1..]| && records[1..][i] == FirstMatch(records, key).value
          && Matches(key, records[1..][i])
          && forall j :: 0 <= j < i ==> !Matches(key, records[1..][j]);
        assert records[i + 1] == records[1..][i];
      }
    }
  }

  /** What searching one opened file finds. */
  function FileSearch(lines: seq<Bytes>, key: Key): Option<Passwd> {
    FirstMatch(Records(lines), key)
  }

  /**
    A line that does not parse hides everything after it: searching the file
    gives the same answer as searching only the lines before it.
   */
  lemma {:induction false} SearchStopsAtBadLine(lines: seq<Bytes>, k: nat, key: Key)
    requires k < |lines| && ParseLine(lines[k]) == None
    ensures FileSearch(lines, key) == FileSearch(lines[..k], key)
    decreases k
  {
    if k > 0 && ParseLine(lines[0]).Some? {
      assert lines[1..][k - 1] == lines[k];
      SearchStopsAtBadLine(lines[1..], k - 1, key);
      assert lines[1..][..k - 1] == lines[..k][1..];
    }
  }

  /** One step of the search from line `n`: stop, return the record, or go on with line `n + 1`. */
  lemma SearchStep(lines: seq<Bytes>, n: nat, key: Key)
    requires n < |lines|
    ensures ParseLine(lines[n]).None? ==> FileSearch(lines[n..], key) == None
    ensures ParseLine(lines[n]).Some? && Matches(key, ParseLine(lines[n]).value) ==>
      FileSearch(lines[n..], key) == ParseLine(lines[n])
    ensures ParseLine(lines[n]).Some? && !Matches(key, ParseLine(lines[n]).value) ==>
      FileSearch(lines[n..], key) == FileSearch(lines[n + 1..], key)
  {
    assert lines[n..][0] == lines[n];
    assert lines[n..][1..] == lines[n + 1..];
    var rs := Records(lines[n..]);
    if rs != [] {
      assert rs[1..] == Records(lines[n + 1..]);
    }
  }

  /** A line `find` reads and goes past: it parses, and its record does not match. */
  predicate PassedOver(line: Bytes, key: Key) {
    ParseLine(line).Some? && !Matches(key, ParseLine(line).value)
  }

  class PasswdFile {
    /** The lines of the opened file. */
    const lines: seq<Bytes>
    /** How many lines the reader has consumed. */
    var read: nat

    ghost predicate Valid()
      reads this
    {
      read <= |lines|
    }

    /** `PasswdFile::new` after a successful open: nothing read yet. */
    constructor (contents: seq<Bytes>)
      ensures Valid()
      ensures lines == contents && read == 0
    {
      lines := contents;
      read := 0;
    }

    /**
      `PasswdFile::next`: consume one line and return its parse; at end of
      file, None. A line that does not parse also yields None.
     */
    method Next() returns (r: Option<Passwd>)
      requires Valid()
      modifies this
      ensures Valid()
      ensures old(read) < |lines| ==> read == old(read) + 1 && r == ParseLine(lines[old(read)])
      ensures old(read) == |lines| ==> read == old(read) && r == None
    {
      if read < |lines| {
        r := ParseLine(lines[read]);
        read := read + 1;
      } else {
        r := None;
      }
    }

    /**
      `Iterator::find` on the file: call `next` until it yields a matching
      record (returned) or None (the search fails). The result is the first
      match among the records still ahead of the reader; the reader stops
      just after the matching line, just after the first line that does not
      parse, or at end of file.
     */
    method Find(key: Key) returns (r: Option<Passwd>)
      requires Valid()
      modifies this
      ensures Valid()
      ensures r == FileSearch(lines[old(read)..], key)
      ensures old(read) <= read
      ensures r.Some? ==> old(read) < read && ParseLine(lines[read - 1]) == r && Matches(key, r.value)
      ensures r.None? ==> read == |lines| || (old(read) < read && ParseLine(lines[read - 1]).None?)
      ensures forall j :: old(read) <= j < read - 1 ==> PassedOver(lines[j], key)
    {
      while true
        invariant Valid()
        invariant old(read) <= read
        invariant forall j :: old(read) <= j < read ==> PassedOver(lines[j], key)
        invariant FileSearch(lines[read..], key) == FileSearch(lines[old(read)..], key)
        decreases |lines| - read
      {
        if read < |lines| {
          SearchStep(lines, read, key);
        } else {
          assert lines[read..] == [];
        }
        var e := Next();
        if e.None? {
          return None;
        }
        if Matches(key, e.value) {
          return e;
        }
      }
    }
  }
}
