/**
  `CBuffer`: a bump allocator over the caller's byte buffer. Pointers into the
  buffer are modelled as byte offsets from its start.
 */
module Arena {
  import opened Optional
  import opened Text

  /** The memory `m` with `data` copied over it starting at offset `at`. */
  function Splice(m: Bytes, at: nat, data: Bytes): (r: Bytes)
    requires at + |data| <= |m|
    ensures |r| == |m|
  {
    seq(|m|, i requires 0 <= i < |m| => if at <= i < at + |data| then data[i - at] else m[i])
  }

  /** Byte `i` after the copy: from `data` inside the copied range, from `m` outside it. */
  lemma SpliceAt(m: Bytes, at: nat, data: Bytes, i: nat)
    requires at + |data| <= |m| && i < |m|
    ensures Splice(m, at, data)[i] == if at <= i < at + |data| then data[i - at] else m[i]
  {
  }

  /** Two copies placed back to back are one copy of the concatenation. */
  lemma SpliceTwice(m: Bytes, at: nat, a: Bytes, b: Bytes)
    requires at + |a| + |b| <= |m|
    ensures Splice(Splice(m, at, a), at + |a|, b) == Splice(m, at, a + b)
  {
    var s := Splice(Splice(m, at, a), at + |a|, b);
    var t := Splice(m, at, a + b);
    forall i | 0 <= i < |m|
      ensures s[i] == t[i]
    {
      SpliceAt(m, at, a, i);
      SpliceAt(m, at, a + b, i);
      SpliceAt(Splice(m, at, a), at + |a|, b, i);
    }
  }

  /** A string as `to_c_str` hands it over: its bytes and a NUL terminator. */
  function CStr(s: Bytes): (r: Bytes)
    ensures |r| == |s| + 1
    ensures r[..|s|] == s && r[|s|] == Nul
  {
    s + [Nul]
  }

  /**
    Dereferencing a C string pointer: the bytes from `off` up to the first
    NUL, or nothing when no NUL follows inside `mem`.
   */
  function ReadCStr(mem: Bytes, off: nat): Option<Bytes>
    decreases |mem| - off
  {
    if off >= |mem| then None
    else if mem[off] == Nul then Some([])
    else
      match ReadCStr(mem, off + 1)
      case None => None
      case Some(rest) => Some([mem[off]] + rest)
  }

  /**
    What a read string is: the NUL-free bytes from `off` up to a NUL inside
    `mem`; and when there is no string, no NUL follows `off` in `mem`.
   */
  lemma {:induction false} ReadCStrMeaning(mem: Bytes, off: nat)
    ensures var r := ReadCStr(mem, off);
      r.Some? ==> NoNul(r.value) && off + |r.value| < |mem|
                  && mem[off..off + |r.value|] == r.value && mem[off + |r.value|] == Nul
    ensures ReadCStr(mem, off).None? ==> off >= |mem| || Nul !in mem[off..]
    decreases |mem| - off
  {
    if off < |mem| && mem[off] != Nul {
      ReadCStrMeaning(mem, off + 1);
      var r := ReadCStr(mem, off);
      if r.Some? {
        var rest := ReadCStr(mem, off + 1).value;
        assert mem[off..off + |r.value|] == [mem[off]] + mem[off + 1..off + 1 + |rest|];
      } else {
        assert mem[off..] == [mem[off]] + mem[off + 1..];
      }
    }
  }

  /** A NUL-free string copied with its terminator reads back unchanged. */
  lemma {:induction false} ReadCStrBack(mem: Bytes, off: nat, s: Bytes)
    requires NoNul(s) && off + |s| < |mem|
    requires mem[off..off + |s| + 1] == CStr(s)
    ensures ReadCStr(mem, off) == Some(s)
    decreases |s|
  {
    assert mem[off] == CStr(s)[0];
    if s != [] {
      assert mem[off + 1..off + |s| + 1] == CStr(s[1..]);
      ReadCStrBack(mem, off + 1, s[1..]);
      assert [s[0]] + s[1..] == s;
    }
  }

  class CBuffer {
    /** The caller's buffer; `pos` and every returned pointer are offsets into it. */
    const mem: array<byte>
    var pos: nat
    var free: nat

    ghost predicate Valid()
      reads this
    {
      pos + free <= mem.Length
    }

    /** `CBuffer::new`: the cursor at the start of the buffer, all `len` bytes free. */
    constructor (ptr: array<byte>, len: nat)
      requires len <= ptr.Length
      ensures Valid()
      ensures mem == ptr && pos == 0 && free == len
    {
      mem := ptr;
      pos := 0;
      free := len;
    }

    /**
      `CBuffer::write`: copy `data` to the cursor, advance the cursor and
      shrink the free count by its length, and return the old cursor. The
      source never checks the free count; here the caller must ensure the
      data fits.
     */
    method Write(data: Bytes) returns (t: nat)
      requires Valid()
      requires |data| <= free
      modifies this, mem
      ensures Valid()
      ensures t == old(pos)
      ensures pos == old(pos) + |data| && free == old(free) - |data|
      ensures mem[..] == Splice(old(mem[..]), t, data)
    {
      t := pos;
      forall i | 0 <= i < |data| {
        mem[t + i] := data[i];
      }
      pos := pos + |data|;
      free := free - |data|;
      assert mem[..] == Splice(old(mem[..]), t, data);
    }

    /**
      `CBuffer::write_str`: write the string and its NUL terminator, so
      `|s| + 1` bytes are consumed, and return where the string starts.
     */
    method WriteStr(s: Bytes) returns (t: nat)
      requires Valid()
      requires NoNul(s) && |s| + 1 <= free
      modifies this, mem
      ensures Valid()
      ensures t == old(pos)
      ensures pos == old(pos) + |s| + 1 && free == old(free) - (|s| + 1)
      ensures mem[..] == Splice(old(mem[..]), t, CStr(s))
    {
      t := Write(CStr(s));
    }
  }
}
