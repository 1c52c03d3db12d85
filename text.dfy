/**
  Byte strings and the three string operations the line parser relies on:
  splitting on ':', trimming trailing whitespace, and the standard library's
  decimal parser for `u32` (with its inverse, decimal formatting, which the
  file selector uses to name a user's shard).

  Text is modelled as bytes. The separator ':' and the ASCII whitespace bytes
  are single bytes in UTF-8, so splitting and trimming bytes gives the same
  fields as the source's operations on characters.
 */
module Text {
  import opened Optional

  type byte = b: int | 0 <= b < 256
  type Bytes = seq<byte>

  /** `libc::uid_t` / `libc::gid_t`: an unsigned 32-bit integer. */
  const U32Limit: nat := 0x1_0000_0000
  type u32 = x: nat | x < U32Limit

  const Nul: byte := 0
  const LineFeed: byte := 10
  const Colon: byte := 58

  predicate NoNul(s: Bytes) {
    Nul !in s
  }

  /** ASCII text as bytes (each character's code point). */
  function Ascii(s: string): (r: Bytes)
    requires forall i :: 0 <= i < |s| ==> s[i] < 128 as char
    ensures |r| == |s|
    ensures forall i :: 0 <= i < |s| ==> r[i] == s[i] as int
  {
    seq(|s|, i requires 0 <= i < |s| => s[i] as int)
  }

  // ---------------------------------------------------------------------
  // Splitting on ':'

  /** The fields joined back together with ':' between them. */
  function Join(fields: seq<Bytes>): Bytes
    requires |fields| >= 1
    decreases |fields|
  {
    if |fields| == 1 then fields[0] else fields[0] + [Colon] + Join(fields[1..])
  }

  /**
    `str::split(':')`: every maximal colon-free run, empty ones included, so a
    string with n colons has n + 1 fields.
   */
  function Split(s: Bytes): (r: seq<Bytes>)
    ensures |r| >= 1
    ensures forall i :: 0 <= i < |r| ==> Colon !in r[i]
    decreases |s|
  {
    if s == [] then [[]]
    else
      var rest := Split(s[1..]);
      if s[0] == Colon then [[]] + rest else [[s[0]] + rest[0]] + rest[1..]
  }

  /**
    Joining the fields with ':' gives back the string. Together with the
    colon-free fields this characterises the split completely (see SplitJoin).
   */
  lemma {:induction false} JoinSplit(s: Bytes)
    ensures Join(Split(s)) == s
    decreases |s|
  {
    if s != [] {
      JoinSplit(s[1..]);
      var rest := Split(s[1..]);
      if s[0] == Colon {
        assert s == [Colon] + s[1..];
        assert Split(s)[1..] == rest;
      } else {
        assert Split(s)[1..] == rest[1..];
        assert s == [s[0]] + s[1..];
      }
    }
  }

  function ColonCount(s: Bytes): nat
    decreases |s|
  {
    if s == [] then 0 else (if s[0] == Colon then 1 else 0) + ColonCount(s[1..])
  }

  /** A string with n colons splits into exactly n + 1 fields. */
  lemma {:induction false} SplitLength(s: Bytes)
    ensures |Split(s)| == ColonCount(s) + 1
    decreases |s|
  {
    if s != [] {
      SplitLength(s[1..]);
    }
  }

  lemma {:induction false} SplitColonFree(s: Bytes)
    requires Colon !in s
    ensures Split(s) == [s]
    decreases |s|
  {
    if s != [] {
      SplitColonFree(s[1..]);
      assert s == [s[0]] + s[1..];
    }
  }

  lemma {:induction false} SplitAtFirstColon(a: Bytes, t: Bytes)
    requires Colon !in a
    ensures Split(a + [Colon] + t) == [a] + Split(t)
    decreases |a|
  {
    var s := a + [Colon] + t;
    if a == [] {
      assert s[1..] == t;
    } else {
      assert s[1..] == a[1..] + [Colon] + t;
      SplitAtFirstColon(a[1..], t);
      assert [a[0]] + a[1..] == a;
    }
  }

  /** Splitting undoes joining: the round trip from colon-free fields. */
  lemma {:induction false} SplitJoin(fields: seq<Bytes>)
    requires |fields| >= 1
    requires forall i :: 0 <= i < |fields| ==> Colon !in fields[i]
    ensures Split(Join(fields)) == fields
    decreases |fields|
  {
    if |fields| == 1 {
      SplitColonFree(fields[0]);
    } else {
      SplitJoin(fields[1..]);
      SplitAtFirstColon(fields[0], Join(fields[1..]));
      assert [fields[0]] + fields[1..] == fields;
    }
  }

  /** Extending the last field extends the joined string by the same bytes. */
  lemma {:induction false} JoinExtendLast(fields: seq<Bytes>, t: Bytes)
    requires |fields| >= 1
    ensures Join(fields[..|fields| - 1] + [fields[|fields| - 1] + t]) == Join(fields) + t
    decreases |fields|
  {
    var ext := fields[..|fields| - 1] + [fields[|fields| - 1] + t];
    if |fields| > 1 {
      assert ext[1..] == fields[1..][..|fields[1..]| - 1] + [fields[1..][|fields[1..]| - 1] + t];
      JoinExtendLast(fields[1..], t);
    }
  }

  /** A byte other than ':' that occurs in no field does not occur in the joined string. */
  lemma {:induction false} JoinAvoids(fields: seq<Bytes>, b: byte)
    requires |fields| >= 1 && b != Colon
    requires forall i :: 0 <= i < |fields| ==> b !in fields[i]
    ensures b !in Join(fields)
    decreases |fields|
  {
    if |fields| > 1 {
      JoinAvoids(fields[1..], b);
    }
  }

  // ---------------------------------------------------------------------
  // Trailing whitespace

  /** `char::is_whitespace` on the ASCII range: tab, LF, VT, FF, CR and space. */
  predicate IsWhitespace(b: byte) {
    9 <= b <= 13 || b == 32
  }

  /**
    `str::trim_right`: the longest prefix that does not end in whitespace;
    everything cut off is whitespace.
   */
  function TrimRight(s: Bytes): (r: Bytes)
    ensures |r| <= |s| && r == s[..|r|]
    ensures r == [] || !IsWhitespace(r[|r| - 1])
    ensures forall i :: |r| <= i < |s| ==> IsWhitespace(s[i])
    decreases |s|
  {
    if s != [] && IsWhitespace(s[|s| - 1]) then TrimRight(s[..|s| - 1]) else s
  }

  // ---------------------------------------------------------------------
  // Decimal numerals

  predicate IsDigit(b: byte) {
    48 <= b <= 57
  }

  predicate AllDigits(s: Bytes) {
    forall i :: 0 <= i < |s| ==> IsDigit(s[i])
  }

  /** The value of the digits `s` read after a prefix whose value is `acc`. */
  function Horner(acc: nat, s: Bytes): nat
    requires AllDigits(s)
    decreases |s|
  {
    if s == [] then acc else Horner(acc * 10 + (s[0] - 48), s[1..])
  }

  /** The reference reading of a `u32` numeral: one or more digits, value below 2^32. */
  predicate IsU32Numeral(s: Bytes) {
    |s| > 0 && AllDigits(s) && Horner(0, s) < U32Limit
  }

  /**
    The digit loop of the standard library's unsigned parser: reject a
    non-digit, and reject as soon as `acc * 10 + digit` overflows `u32`
    (its checked multiply and checked add).
   */
  function Accumulate(s: Bytes, acc: u32): Option<u32>
    decreases |s|
  {
    if s == [] then Some(acc)
    else if !IsDigit(s[0]) then None
    else
      var next := acc * 10 + (s[0] - 48);
      if next >= U32Limit then None else Accumulate(s[1..], next)
  }

  /**
    `from_str::<u32>`: the empty string and anything with a non-digit (a sign
    included) are rejected, and so is a value that does not fit in 32 bits.
   */
  function ParseU32(s: Bytes): (r: Option<u32>)
    ensures r.Some? <==> IsU32Numeral(s)
    ensures r.Some? ==> r.value == Horner(0, s)
  {
    AccumulateMeaning(s, 0);
    if s == [] then None else Accumulate(s, 0)
  }

  lemma {:induction false} HornerGrows(acc: nat, s: Bytes)
    requires AllDigits(s)
    ensures Horner(acc, s) >= acc
    decreases |s|
  {
    if s != [] {
      HornerGrows(acc * 10 + (s[0] - 48), s[1..]);
    }
  }

  /** The checked digit loop accepts exactly the numerals whose value fits, and yields that value. */
  lemma {:induction false} AccumulateMeaning(s: Bytes, acc: u32)
    ensures Accumulate(s, acc).Some? <==> AllDigits(s) && Horner(acc, s) < U32Limit
    ensures Accumulate(s, acc).Some? ==> Accumulate(s, acc).value == Horner(acc, s)
    decreases |s|
  {
    if s != [] && IsDigit(s[0]) {
      var next := acc * 10 + (s[0] - 48);
      if AllDigits(s) {
        HornerGrows(next, s[1..]);
      }
      if next < U32Limit {
        AccumulateMeaning(s[1..], next);
      }
    }
  }

  lemma {:induction false} HornerAppend(acc: nat, s: Bytes, d: byte)
    requires AllDigits(s) && IsDigit(d)
    ensures AllDigits(s + [d])
    ensures Horner(acc, s + [d]) == Horner(acc, s) * 10 + (d - 48)
    decreases |s|
  {
    if s != [] {
      assert (s + [d])[1..] == s[1..] + [d];
      HornerAppend(acc * 10 + (s[0] - 48), s[1..], d);
    }
  }

  /** `format!("{}", n)`: the decimal numeral of `n`, without leading zeros. */
  function Decimal(n: nat): (r: Bytes)
    ensures |r| >= 1 && AllDigits(r)
    ensures r[0] == 48 ==> n == 0
    decreases n
  {
    if n < 10 then [48 + n] else Decimal(n / 10) + [48 + n % 10]
  }

  /** Formatting then parsing gives the number back. */
  lemma {:induction false} DecimalValue(n: nat)
    ensures Horner(0, Decimal(n)) == n
    decreases n
  {
    if n >= 10 {
      DecimalValue(n / 10);
      HornerAppend(0, Decimal(n / 10), 48 + n % 10);
    }
  }

  /** A numeral without leading zeros: a single digit, or several not starting with '0'. */
  predicate Canonical(s: Bytes) {
    |s| == 1 || (|s| > 1 && s[0] != 48)
  }

  /**
    Decimal formatting is onto the canonical numerals: every digit string
    without leading zeros is the numeral of its own value.
   */
  lemma {:induction false} DecimalCanonical(s: Bytes)
    requires AllDigits(s) && Canonical(s)
    ensures Decimal(Horner(0, s)) == s
    decreases |s|
  {
    if |s| > 1 {
      var init, d := s[..|s| - 1], s[|s| - 1];
      assert init + [d] == s;
      HornerAppend(0, init, d);
      assert Horner(0, init) == Horner(init[0] - 48, init[1..]);
      HornerGrows(init[0] - 48, init[1..]);
      DecimalCanonical(init);
    }
  }

  lemma DecimalRoundTrip(n: u32)
    ensures ParseU32(Decimal(n)) == Some(n)
  {
    DecimalValue(n);
  }

  /** Distinct numbers have distinct numerals. */
  lemma DecimalInjective(m: u32, n: u32)
    requires Decimal(m) == Decimal(n)
    ensures m == n
  {
    DecimalValue(m);
    DecimalValue(n);
  }
}
