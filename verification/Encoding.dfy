/** Bytes, 32-byte digests, big-endian integers, length-prefixed fields and lowercase hex. */
module Encoding {
  import opened Wrappers

  newtype byte = x: int | 0 <= x < 0x100
  type Bytes = seq<byte>
  type Digest = d: Bytes | |d| == 32 witness seq(32, _ => 0)

  /** SHA-256 as an arbitrary total function; nothing is assumed about it. */
  type Hash = Bytes -> Digest

  const ZERO_DIGEST: Digest :=
    [0, 0, 0, 0, 0, 0, 0, 0, 0, 0, 0, 0, 0, 0, 0, 0, 0, 0, 0, 0, 0, 0, 0, 0, 0, 0, 0, 0, 0, 0, 0, 0]
  /** The integer widths of the code. */
  type U32 = n: nat | n < U32_LIMIT
  type U64 = n: nat | n < U64_LIMIT

  const U32_LIMIT: nat := 0x1_0000_0000
  const U64_LIMIT: nat := 0x1_0000_0000_0000_0000

  // ─── Big-endian integers ───────────────────────────────────────────────────

  function BE32(n: nat): (r: Bytes)
    requires n < U32_LIMIT
    ensures |r| == 4
  {
    [(n / 0x100_0000) as byte, (n / 0x1_0000 % 0x100) as byte, (n / 0x100 % 0x100) as byte, (n % 0x100) as byte]
  }

  function FromBE32(b: Bytes): (n: nat)
    requires |b| == 4
    ensures n < U32_LIMIT
  {
    b[0] as nat * 0x100_0000 + b[1] as nat * 0x1_0000 + b[2] as nat * 0x100 + b[3] as nat
  }

  /** Most significant byte first: the four bytes weighted by their places are the number. */
  lemma BE32BigEndian(n: nat)
    requires n < U32_LIMIT
    ensures var b := BE32(n);
      b[0] as nat * 0x100_0000 + b[1] as nat * 0x1_0000 + b[2] as nat * 0x100 + b[3] as nat == n
  {
    BE32RoundTrip(n);
  }

  lemma BE32RoundTrip(n: nat)
    requires n < U32_LIMIT
    ensures FromBE32(BE32(n)) == n
  {
    assert n / 0x1_0000 == n / 0x100_0000 * 0x100 + n / 0x1_0000 % 0x100;
    assert n / 0x100 == n / 0x1_0000 * 0x100 + n / 0x100 % 0x100;
  }

  lemma Quotient(q: nat, r: nat)
    requires r < 0x100
    ensures (q * 0x100 + r) / 0x100 == q && (q * 0x100 + r) % 0x100 == r
  {
  }

  lemma BE32Onto(b: Bytes)
    requires |b| == 4
    ensures BE32(FromBE32(b)) == b
  {
    var n := FromBE32(b);
    var n1 := b[0] as nat * 0x1_0000 + b[1] as nat * 0x100 + b[2] as nat;
    var n2 := b[0] as nat * 0x100 + b[1] as nat;
    assert n / 0x100 == n1 && n % 0x100 == b[3] as nat by { Quotient(n1, b[3] as nat); }
    assert n1 / 0x100 == n2 && n1 % 0x100 == b[2] as nat by { Quotient(n2, b[2] as nat); }
    assert n2 / 0x100 == b[0] as nat && n2 % 0x100 == b[1] as nat by { Quotient(b[0] as nat, b[1] as nat); }
    assert n / 0x1_0000 == n2 && n / 0x100_0000 == b[0] as nat;
  }

  function BE64(n: nat): (r: Bytes)
    requires n < U64_LIMIT
    ensures |r| == 8
  {
    BE32(n / U32_LIMIT) + BE32(n % U32_LIMIT)
  }

  function FromBE64(b: Bytes): (n: nat)
    requires |b| == 8
    ensures n < U64_LIMIT
  {
    FromBE32(b[..4]) * U32_LIMIT + FromBE32(b[4..])
  }

  lemma BE64BigEndian(n: nat)
    requires n < U64_LIMIT
    ensures var b := BE64(n);
      n == b[0] as nat * 0x100_0000_0000_0000 + b[1] as nat * 0x1_0000_0000_0000
         + b[2] as nat * 0x100_0000_0000 + b[3] as nat * 0x1_0000_0000
         + b[4] as nat * 0x100_0000 + b[5] as nat * 0x1_0000 + b[6] as nat * 0x100 + b[7] as nat
  {
    var hi, lo := n / U32_LIMIT, n % U32_LIMIT;
    BE32BigEndian(hi);
    BE32BigEndian(lo);
    assert n == hi * 0x1_0000_0000 + lo;
  }

  lemma BE64RoundTrip(n: nat)
    requires n < U64_LIMIT
    ensures FromBE64(BE64(n)) == n
  {
    BE32RoundTrip(n / U32_LIMIT);
    BE32RoundTrip(n % U32_LIMIT);
    assert BE64(n)[..4] == BE32(n / U32_LIMIT) && BE64(n)[4..] == BE32(n % U32_LIMIT);
  }

  lemma BE64Onto(b: Bytes)
    requires |b| == 8
    ensures BE64(FromBE64(b)) == b
  {
    var hi, lo := FromBE32(b[..4]), FromBE32(b[4..]);
    assert FromBE64(b) == hi * U32_LIMIT + lo;
    assert FromBE64(b) / U32_LIMIT == hi && FromBE64(b) % U32_LIMIT == lo;
    BE32Onto(b[..4]);
    BE32Onto(b[4..]);
    assert BE64(FromBE64(b)) == b[..4] + b[4..];
  }

  // ─── Length-prefixed fields ────────────────────────────────────────────────

  /** What the code can length-prefix: it panics on anything longer. */
  type Field = b: Bytes | |b| < U32_LIMIT

  /** A field preceded by its 32-bit big-endian length. */
  function Lp(field: Field): Bytes
  {
    BE32(|field|) + field
  }

  /** Splits the first length-prefixed field off a byte string. */
  function TakeField(v: Bytes): (r: Option<(Bytes, Bytes)>)
    ensures r.Some? ==> |r.value.0| < U32_LIMIT && |r.value.1| < |v|
  {
    if |v| < 4 then None
    else
      var n := FromBE32(v[..4]);
      if |v| < 4 + n then None else Some((v[4..4 + n], v[4 + n..]))
  }

  /** Reading back a length-prefixed field returns it and leaves exactly what follows it. */
  lemma TakeFieldOfLp(field: Field, rest: Bytes)
    ensures TakeField(Lp(field) + rest) == Some((field, rest))
  {
    var v := Lp(field) + rest;
    assert v[..4] == BE32(|field|);
    BE32RoundTrip(|field|);
    assert v[4..4 + |field|] == field && v[4 + |field|..] == rest;
  }

  /** Whatever `TakeField` splits off really was a length-prefixed field at the front. */
  lemma TakeFieldExact(v: Bytes, field: Bytes, rest: Bytes)
    requires TakeField(v) == Some((field, rest))
    ensures |field| < U32_LIMIT && v == Lp(field) + rest
  {
    BE32Onto(v[..4]);
    assert v == v[..4] + v[4..4 + |field|] + v[4 + |field|..];
  }

  /** A run of length-prefixed fields. */
  function Lps(fields: seq<Field>): Bytes
  {
    if fields == [] then [] else Lp(fields[0]) + Lps(fields[1..])
  }

  lemma LpsCons(field: Field, fields: seq<Field>)
    ensures Lps([field] + fields) == Lp(field) + Lps(fields)
  {
    assert ([field] + fields)[1..] == fields;
  }

  lemma Associative<T>(a: seq<T>, b: seq<T>, c: seq<T>)
    ensures a + (b + c) == (a + b) + c
  {
  }

  lemma {:induction false} LpsAppend(xs: seq<Field>, ys: seq<Field>)
    ensures Lps(xs + ys) == Lps(xs) + Lps(ys)
  {
    if xs == [] {
      assert xs + ys == ys;
    } else {
      var x, rest := xs[0], xs[1..];
      LpsAppend(rest, ys);
      LpsCons(x, rest + ys);
      LpsCons(x, rest);
      assert xs == [x] + rest && xs + ys == [x] + (rest + ys);
      Associative(Lp(x), Lps(rest), Lps(ys));
    }
  }

  lemma LpsSnoc(fields: seq<Field>, last: Field)
    ensures Lps(fields + [last]) == Lps(fields) + Lp(last)
  {
    LpsAppend(fields, [last]);
    assert Lps([last]) == Lp(last) + Lps([]);
  }

  lemma LpsTwo(a: Field, b: Field)
    ensures Lps([a, b]) == Lp(a) + Lp(b)
  {
    LpsSnoc([a], b);
    LpsSnoc([], a);
    assert [a] + [b] == [a, b] && [] + [a] == [a];
  }

  /** Splits exactly `n` fields off the front. */
  function Split(v: Bytes, n: nat): Option<(seq<Field>, Bytes)>
  {
    if n == 0 then Some(([], v))
    else
      var first := TakeField(v);
      if first.None? then None
      else
        var more := Split(first.value.1, n - 1);
        if more.None? then None else Some(([first.value.0] + more.value.0, more.value.1))
  }

  lemma {:induction false} SplitOfLps(fields: seq<Field>, rest: Bytes)
    ensures Split(Lps(fields) + rest, |fields|) == Some((fields, rest))
  {
    if fields == [] {
      assert Lps(fields) + rest == rest;
    } else {
      assert Lps(fields) + rest == Lp(fields[0]) + (Lps(fields[1..]) + rest);
      TakeFieldOfLp(fields[0], Lps(fields[1..]) + rest);
      SplitOfLps(fields[1..], rest);
      assert fields == [fields[0]] + fields[1..];
    }
  }

  lemma {:induction false} SplitExact(v: Bytes, n: nat)
    ensures var s := Split(v, n); s.Some? ==> |s.value.0| == n && v == Lps(s.value.0) + s.value.1
  {
    var s := Split(v, n);
    if n > 0 && s.Some? {
      var first := TakeField(v).value;
      TakeFieldExact(v, first.0, first.1);
      SplitExact(first.1, n - 1);
      assert s.value.0[1..] == Split(first.1, n - 1).value.0;
      assert v == Lp(first.0) + (Lps(s.value.0[1..]) + s.value.1);
    }
  }

  /** Bytes of an ASCII literal. */
  function Ascii(s: string): (r: Bytes)
    requires forall c :: c in s ==> c as int < 0x80
    ensures |r| == |s| && forall i :: 0 <= i < |s| ==> r[i] as int == s[i] as int
  {
    seq(|s|, i requires 0 <= i < |s| => assert s[i] in s; s[i] as int as byte)
  }

  // ─── Hex ───────────────────────────────────────────────────────────────────

  /** Hex text of a `Field`. */
  type HexField = s: string | |s| < 2 * U32_LIMIT witness ""

  function HexDigit(n: nat): char
    requires n < 16
  {
    if n < 10 then '0' + n as char else 'a' + (n - 10) as char
  }

  function HexValue(c: char): (r: Option<nat>)
    ensures r.Some? ==> r.value < 16
  {
    if '0' <= c <= '9' then Some((c - '0') as nat)
    else if 'a' <= c <= 'f' then Some((c - 'a') as nat + 10)
    else if 'A' <= c <= 'F' then Some((c - 'A') as nat + 10)
    else None
  }

  function HexEncode(b: Bytes): (s: string)
    ensures |s| == 2 * |b|
  {
    if b == [] then ""
    else [HexDigit(b[0] as nat / 16), HexDigit(b[0] as nat % 16)] + HexEncode(b[1..])
  }

  /** Accepts either case; fails on an odd length or on any other character. */
  function HexDecode(s: string): (r: Option<Bytes>)
    ensures r.Some? ==> |s| == 2 * |r.value|
  {
    if s == "" then Some([])
    else if |s| == 1 then None
    else
      var hi, lo, rest := HexValue(s[0]), HexValue(s[1]), HexDecode(s[2..]);
      if hi.None? || lo.None? || rest.None? then None
      else Some([(hi.value * 16 + lo.value) as byte] + rest.value)
  }

  lemma HexValueOfDigit(n: nat)
    requires n < 16
    ensures HexValue(HexDigit(n)) == Some(n)
  {
  }

  lemma {:induction false} HexRoundTrip(b: Bytes)
    ensures HexDecode(HexEncode(b)) == Some(b)
  {
    if b != [] {
      HexRoundTrip(b[1..]);
      HexValueOfDigit(b[0] as nat / 16);
      HexValueOfDigit(b[0] as nat % 16);
      assert HexEncode(b)[2..] == HexEncode(b[1..]);
      assert b == [b[0]] + b[1..];
    }
  }

  function LowerHexChar(c: char): char
  {
    if 'A' <= c <= 'F' then 'a' + (c - 'A') else c
  }

  function LowerHex(s: string): string
  {
    seq(|s|, i requires 0 <= i < |s| => LowerHexChar(s[i]))
  }

  /** The text itself: two lowercase digits a byte, the high half first. */
  lemma {:induction false} HexEncodeText(b: Bytes, i: nat)
    requires i < |b|
    ensures HexEncode(b)[2 * i] == "0123456789abcdef"[b[i] as nat / 16]
    ensures HexEncode(b)[2 * i + 1] == "0123456789abcdef"[b[i] as nat % 16]
  {
    if i > 0 {
      HexEncodeText(b[1..], i - 1);
    }
  }

  lemma HexDigitOfValue(c: char, n: nat)
    requires n < 16
    ensures HexValue(c) == Some(n) <==> LowerHexChar(c) == HexDigit(n)
  {
  }

  lemma LowerHexStep(s: string)
    requires |s| >= 2
    ensures LowerHex(s) == [LowerHexChar(s[0]), LowerHexChar(s[1])] + LowerHex(s[2..])
  {
  }

  /** A text decodes to exactly the bytes whose encoding it is up to letter case. */
  lemma {:induction false} HexDecodeExact(s: string, b: Bytes)
    ensures HexDecode(s) == Some(b) <==> LowerHex(s) == HexEncode(b)
  {
    if |s| >= 2 && b != [] {
      HexDigitOfValue(s[0], b[0] as nat / 16);
      HexDigitOfValue(s[1], b[0] as nat % 16);
      HexDecodeExact(s[2..], b[1..]);
      LowerHexStep(s);
      HexDecodeStep(s, b);
      assert LowerHex(s)[2..] == LowerHex(s[2..]) && HexEncode(b)[2..] == HexEncode(b[1..]);
    }
  }

  lemma Nibbles(hi: nat, lo: nat, x: nat)
    requires hi < 16 && lo < 16 && x < 0x100
    ensures hi * 16 + lo == x <==> hi == x / 16 && lo == x % 16
  {
  }

  lemma HexDecodeStep(s: string, b: Bytes)
    requires |s| >= 2 && b != []
    ensures HexDecode(s) == Some(b) <==>
      && HexValue(s[0]) == Some(b[0] as nat / 16) && HexValue(s[1]) == Some(b[0] as nat % 16)
      && HexDecode(s[2..]) == Some(b[1..])
  {
    var hi, lo, rest := HexValue(s[0]), HexValue(s[1]), HexDecode(s[2..]);
    if hi.Some? && lo.Some? && rest.Some? {
      Nibbles(hi.value, lo.value, b[0] as nat);
      var first := (hi.value * 16 + lo.value) as byte;
      assert HexDecode(s) == Some([first] + rest.value);
      HeadAndTail(first, rest.value, b);
    }
  }

  lemma HeadAndTail(x: byte, rest: Bytes, b: Bytes)
    requires b != []
    ensures [x] + rest == b <==> x == b[0] && rest == b[1..]
  {
    if x == b[0] && rest == b[1..] {
      assert b == [b[0]] + b[1..];
    }
  }

  predicate IsHexChar(c: char)
  {
    c in "0123456789abcdefABCDEF"
  }

  predicate AllHex(s: string)
  {
    forall i :: 0 <= i < |s| ==> IsHexChar(s[i])
  }

  lemma HexCharacter(c: char)
    ensures HexValue(c).Some? <==> IsHexChar(c)
  {
  }

  lemma AllHexStep(s: string)
    requires |s| >= 2
    ensures AllHex(s) <==> HexValue(s[0]).Some? && HexValue(s[1]).Some? && AllHex(s[2..])
  {
    HexCharacter(s[0]);
    HexCharacter(s[1]);
    if AllHex(s[2..]) {
      assert forall i :: 2 <= i < |s| ==> s[i] == s[2..][i - 2];
    }
  }

  lemma HexDecodesStep(s: string)
    requires |s| >= 2
    ensures HexDecode(s).Some? <==> HexValue(s[0]).Some? && HexValue(s[1]).Some? && HexDecode(s[2..]).Some?
  {
  }

  ghost predicate Decodable(s: string)
  {
    |s| % 2 == 0 && AllHex(s)
  }

  lemma DecodableStep(s: string)
    requires |s| >= 2
    ensures Decodable(s) <==> HexValue(s[0]).Some? && HexValue(s[1]).Some? && Decodable(s[2..])
  {
    var rest := s[2..];
    AllHexStep(s);
    if AllHex(s) {
      assert AllHex(rest);
    }
  }

  /** What decodes at all: an even number of hex digits of either case. */
  lemma {:induction false} HexDecodable(s: string)
    ensures HexDecode(s).Some? <==> Decodable(s)
    decreases |s|
  {
    if |s| >= 2 {
      HexDecodable(s[2..]);
      DecodableStep(s);
      HexDecodesStep(s);
    }
  }

  /** Two texts that decode hold the same bytes exactly when they differ in letter case only. */
  lemma HexSameBytes(s: string, t: string)
    requires HexDecode(s).Some? && HexDecode(t).Some?
    ensures HexDecode(s) == HexDecode(t) <==> LowerHex(s) == LowerHex(t)
  {
    HexDecodeExact(s, HexDecode(s).value);
    HexDecodeExact(t, HexDecode(t).value);
    HexRoundTrip(HexDecode(s).value);
    HexRoundTrip(HexDecode(t).value);
  }
}
