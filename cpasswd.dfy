/**
  `Passwd::to_c_passwd`: copying a parsed record into the caller's
  fixed-layout `struct passwd`, with its five strings laid out in the arena.
 */
module Serialize {
  import opened Optional
  import opened Text
  import opened PasswdFormat
  import opened Arena

  /** The contents of a `CPasswd` slot: five string offsets and the two ids. */
  datatype CPasswdValue = CPasswdValue(
    name: nat,
    passwd: nat,
    uid: u32,
    gid: u32,
    gecos: nat,
    dir: nat,
    shell: nat)

  /** `CPasswd`: the caller's output record, whose slots are assigned in place. */
  class CPasswd {
    var name: nat
    var passwd: nat
    var uid: u32
    var gid: u32
    var gecos: nat
    var dir: nat
    var shell: nat

    function Value(): CPasswdValue
      reads this
    {
      CPasswdValue(name, passwd, uid, gid, gecos, dir, shell)
    }
  }

  /** The record's strings may be handed to `to_c_str`: none holds a NUL. */
  predicate NoNulFields(p: Passwd) {
    NoNul(p.name) && NoNul(p.passwd) && NoNul(p.gecos) && NoNul(p.dir) && NoNul(p.shell)
  }

  /** The bytes the record occupies in the arena: name, passwd, gecos, dir, shell, each NUL-terminated. */
  function Layout(p: Passwd): Bytes {
    CStr(p.name) + CStr(p.passwd) + CStr(p.gecos) + CStr(p.dir) + CStr(p.shell)
  }

  /** Total arena consumption: the sum of length + 1 over the five strings. */
  function Size(p: Passwd): (n: nat)
    ensures n == |Layout(p)|
    ensures n == (|p.name| + 1) + (|p.passwd| + 1) + (|p.gecos| + 1) + (|p.dir| + 1) + (|p.shell| + 1)
  {
    |Layout(p)|
  }

  /** The slot values when the layout starts at offset `start`. */
  function Place(p: Passwd, start: nat): CPasswdValue {
    var name := start;
    var passwd := name + |p.name| + 1;
    var gecos := passwd + |p.passwd| + 1;
    var dir := gecos + |p.gecos| + 1;
    var shell := dir + |p.dir| + 1;
    CPasswdValue(name, passwd, p.uid, p.gid, gecos, dir, shell)
  }

  /** What a C caller reads back through the slot's pointers. */
  function ReadPasswd(mem: Bytes, v: CPasswdValue): Option<Passwd> {
    match (ReadCStr(mem, v.name), ReadCStr(mem, v.passwd), ReadCStr(mem, v.gecos),
           ReadCStr(mem, v.dir), ReadCStr(mem, v.shell))
    case (Some(name), Some(passwd), Some(gecos), Some(dir), Some(shell)) =>
      Some(Passwd(name, passwd, v.uid, v.gid, gecos, dir, shell))
    case _ => None
  }

  /**
    The five strings lie back to back: each pointer is the previous pointer
    plus the previous string's length plus one, and the last string ends
    where the layout ends.
   */
  lemma PlaceContiguous(p: Passwd, start: nat)
    ensures var v := Place(p, start);
      && v.name == start
      && v.passwd == v.name + |p.name| + 1
      && v.gecos == v.passwd + |p.passwd| + 1
      && v.dir == v.gecos + |p.gecos| + 1
      && v.shell == v.dir + |p.dir| + 1
      && v.shell + |p.shell| + 1 == start + Size(p)
      && v.uid == p.uid && v.gid == p.gid
  {
  }

  /**
    Dereferencing the slot's pointers into memory that holds the layout at
    `start` gives back the record: the serialised record round-trips.
   */
  lemma PlaceReadsBack(mem: Bytes, start: nat, p: Passwd)
    requires NoNulFields(p)
    requires start + Size(p) <= |mem|
    requires mem[start..start + Size(p)] == Layout(p)
    ensures ReadPasswd(mem, Place(p, start)) == Some(p)
  {
    LayoutSlices(mem, start, p);
    FieldsReadBack(mem, Place(p, start), p);
  }

  /**
    The bytes `to_c_passwd` leaves in a buffer, read through the pointers it
    stores, give back the record: what the C caller of a lookup sees.
   */
  lemma SerializedReadsBack(mem: Bytes, start: nat, p: Passwd)
    requires NoNulFields(p)
    requires start + Size(p) <= |mem|
    ensures ReadPasswd(Splice(mem, start, Layout(p)), Place(p, start)) == Some(p)
  {
    var m := Splice(mem, start, Layout(p));
    assert m[start..start + Size(p)] == Layout(p);
    PlaceReadsBack(m, start, p);
  }

  /** Each of the five pointers reads back the string it was given. */
  lemma FieldsReadBack(mem: Bytes, v: CPasswdValue, p: Passwd)
    requires NoNulFields(p)
    requires SlotsHold(mem, v, p)
    ensures && ReadCStr(mem, v.name) == Some(p.name)
            && ReadCStr(mem, v.passwd) == Some(p.passwd)
            && ReadCStr(mem, v.gecos) == Some(p.gecos)
            && ReadCStr(mem, v.dir) == Some(p.dir)
            && ReadCStr(mem, v.shell) == Some(p.shell)
  {
    ReadCStrBack(mem, v.name, p.name);
    ReadCStrBack(mem, v.passwd, p.passwd);
    ReadCStrBack(mem, v.gecos, p.gecos);
    ReadCStrBack(mem, v.dir, p.dir);
    ReadCStrBack(mem, v.shell, p.shell);
  }

  /** Memory holds each of the record's strings, NUL-terminated, at its slot's offset. */
  predicate SlotsHold(mem: Bytes, v: CPasswdValue, p: Passwd) {
    && v.name + |p.name| < |mem| && mem[v.name..v.name + |p.name| + 1] == CStr(p.name)
    && v.passwd + |p.passwd| < |mem| && mem[v.passwd..v.passwd + |p.passwd| + 1] == CStr(p.passwd)
    && v.gecos + |p.gecos| < |mem| && mem[v.gecos..v.gecos + |p.gecos| + 1] == CStr(p.gecos)
    && v.dir + |p.dir| < |mem| && mem[v.dir..v.dir + |p.dir| + 1] == CStr(p.dir)
    && v.shell + |p.shell| < |mem| && mem[v.shell..v.shell + |p.shell| + 1] == CStr(p.shell)
  }

  /** Where each terminated string of the layout lies in memory. */
  lemma LayoutSlices(mem: Bytes, start: nat, p: Passwd)
    requires start + Size(p) <= |mem|
    requires mem[start..start + Size(p)] == Layout(p)
    ensures SlotsHold(mem, Place(p, start), p)
  {
    NameSlot(mem, start, p);
    PasswdSlot(mem, start, p);
    GecosSlot(mem, start, p);
    DirSlot(mem, start, p);
    ShellSlot(mem, start, p);
  }

  /**
    The name and its NUL sit at the name slot's offset, byte for byte; the
    next four lemmas say the same of the other strings.
   */
  lemma NameSlot(mem: Bytes, start: nat, p: Passwd)
    requires start + Size(p) <= |mem|
    requires mem[start..start + Size(p)] == Layout(p)
    ensures var off := Place(p, start).name; mem[off..off + |p.name| + 1] == CStr(p.name)
  {
    var off := Place(p, start).name;
    forall i | 0 <= i < |p.name| + 1
      ensures mem[off + i] == CStr(p.name)[i]
    {
      var k := off - start + i;
      assert k < Size(p);
      assert mem[off + i] == mem[start..start + Size(p)][k] == Layout(p)[k];
    }
  }

  lemma PasswdSlot(mem: Bytes, start: nat, p: Passwd)
    requires start + Size(p) <= |mem|
    requires mem[start..start + Size(p)] == Layout(p)
    ensures var off := Place(p, start).passwd; mem[off..off + |p.passwd| + 1] == CStr(p.passwd)
  {
    var off := Place(p, start).passwd;
    forall i | 0 <= i < |p.passwd| + 1
      ensures mem[off + i] == CStr(p.passwd)[i]
    {
      var k := off - start + i;
      assert k < Size(p);
      assert mem[off + i] == mem[start..start + Size(p)][k] == Layout(p)[k];
    }
  }

  lemma GecosSlot(mem: Bytes, start: nat, p: Passwd)
    requires start + Size(p) <= |mem|
    requires mem[start..start + Size(p)] == Layout(p)
    ensures var off := Place(p, start).gecos; mem[off..off + |p.gecos| + 1] == CStr(p.gecos)
  {
    var off := Place(p, start).gecos;
    forall i | 0 <= i < |p.gecos| + 1
      ensures mem[off + i] == CStr(p.gecos)[i]
    {
      var k := off - start + i;
      assert k < Size(p);
      assert mem[off + i] == mem[start..start + Size(p)][k] == Layout(p)[k];
    }
  }

  lemma DirSlot(mem: Bytes, start: nat, p: Passwd)
    requires start + Size(p) <= |mem|
    requires mem[start..start + Size(p)] == Layout(p)
    ensures var off := Place(p, start).dir; mem[off..off + |p.dir| + 1] == CStr(p.dir)
  {
    var off := Place(p, start).dir;
    forall i | 0 <= i < |p.dir| + 1
      ensures mem[off + i] == CStr(p.dir)[i]
    {
      var k := off - start + i;
      assert k < Size(p);
      assert mem[off + i] == mem[start..start + Size(p)][k] == Layout(p)[k];
    }
  }

  lemma ShellSlot(mem: Bytes, start: nat, p: Passwd)
    requires start + Size(p) <= |mem|
    requires mem[start..start + Size(p)] == Layout(p)
    ensures var off := Place(p, start).shell; mem[off..off + |p.shell| + 1] == CStr(p.shell)
  {
    var off := Place(p, start).shell;
    forall i | 0 <= i < |p.shell| + 1
      ensures mem[off + i] == CStr(p.shell)[i]
    {
      var k := off - start + i;
      assert k < Size(p);
      assert mem[off + i] == mem[start..start + Size(p)][k] == Layout(p)[k];
    }
  }

  /** Five string writes one after another, each at the previous cursor, lay the record out from `v.name`. */
  lemma LayoutWrites(p: Passwd, v: CPasswdValue, m0: Bytes, m1: Bytes, m2: Bytes, m3: Bytes, m4: Bytes, m5: Bytes)
    requires v == Place(p, v.name) && v.name + Size(p) <= |m0|
    requires m1 == Splice(m0, v.name, CStr(p.name))
    requires m2 == Splice(m1, v.passwd, CStr(p.passwd))
    requires m3 == Splice(m2, v.gecos, CStr(p.gecos))
    requires m4 == Splice(m3, v.dir, CStr(p.dir))
    requires m5 == Splice(m4, v.shell, CStr(p.shell))
    ensures m5 == Splice(m0, v.name, Layout(p))
  {
    var n, pw, g, d, sh := CStr(p.name), CStr(p.passwd), CStr(p.gecos), CStr(p.dir), CStr(p.shell);
    SpliceTwice(m0, v.name, n, pw);
    SpliceTwice(m0, v.name, n + pw, g);
    SpliceTwice(m0, v.name, n + pw + g, d);
    SpliceTwice(m0, v.name, n + pw + g + d, sh);
  }

  /**
    `to_c_passwd`: write name and passwd through the arena, copy uid and gid,
    then write gecos, dir and shell, storing each returned pointer in its
    slot. The source does not check that the strings fit; the caller must.
   */
  method ToCPasswd(p: Passwd, pwbuf: CPasswd, buf: CBuffer)
    requires buf.Valid()
    requires NoNulFields(p) && Size(p) <= buf.free
    modifies pwbuf, buf, buf.mem
    ensures buf.Valid()
    ensures pwbuf.Value() == Place(p, old(buf.pos))
    ensures buf.pos == old(buf.pos) + Size(p) && buf.free == old(buf.free) - Size(p)
    ensures buf.mem[..] == Splice(old(buf.mem[..]), old(buf.pos), Layout(p))
  {
    ghost var m0 := buf.mem[..];
    var name := buf.WriteStr(p.name);
    pwbuf.name := name;
    ghost var m1 := buf.mem[..];
    var passwd := buf.WriteStr(p.passwd);
    pwbuf.passwd := passwd;
    ghost var m2 := buf.mem[..];
    pwbuf.uid := p.uid;
    pwbuf.gid := p.gid;
    var gecos := buf.WriteStr(p.gecos);
    pwbuf.gecos := gecos;
    ghost var m3 := buf.mem[..];
    var dir := buf.WriteStr(p.dir);
    pwbuf.dir := dir;
    ghost var m4 := buf.mem[..];
    var shell := buf.WriteStr(p.shell);
    pwbuf.shell := shell;
    LayoutWrites(p, CPasswdValue(name, passwd, p.uid, p.gid, gecos, dir, shell), m0, m1, m2, m3, m4, buf.mem[..]);
  }
}
