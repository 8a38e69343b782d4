/** The request reader: bytes arrive in reads of arbitrary sizes, and what is read must not depend on
    how they were split. */
module Reader {
  import opened Wrappers
  import opened Encoding
  import opened Derive

  /** Lossy UTF-8 decoding, as an arbitrary function. */
  type Text = Bytes -> string

  const READ_SIZE: nat := 1024

  // ─── The header terminator ─────────────────────────────────────────────────

  /** `\r\n\r\n` at position `i`. */
  predicate TerminatorAt(s: Bytes, i: nat)
  {
    i + 4 <= |s| && s[i] == 13 && s[i + 1] == 10 && s[i + 2] == 13 && s[i + 3] == 10
  }

  function FindTerminatorFrom(s: Bytes, i: nat): (r: Option<nat>)
    requires i <= |s|
    ensures r.Some? ==> i <= r.value && TerminatorAt(s, r.value) && forall j :: i <= j < r.value ==> !TerminatorAt(s, j)
    ensures r.None? ==> forall j :: i <= j ==> !TerminatorAt(s, j)
    decreases |s| - i
  {
    if i == |s| then None else if TerminatorAt(s, i) then Some(i) else FindTerminatorFrom(s, i + 1)
  }

  /** The first position, if any. */
  function FindTerminator(s: Bytes): (r: Option<nat>)
    ensures r.Some? ==> TerminatorAt(s, r.value) && forall j: nat :: j < r.value ==> !TerminatorAt(s, j)
    ensures r.None? ==> forall j: nat :: !TerminatorAt(s, j)
  {
    FindTerminatorFrom(s, 0)
  }

  /** The four bytes CR LF CR LF. */
  predicate BlankLineAt(s: Bytes, i: nat)
  {
    i + 4 <= |s| && s[i..i + 4] == [13, 10, 13, 10]
  }

  predicate FirstBlankLineAt(s: Bytes, pos: nat)
  {
    BlankLineAt(s, pos) && forall j :: 0 <= j < pos ==> !BlankLineAt(s, j)
  }

  lemma TerminatorBytes(s: Bytes, i: nat)
    ensures TerminatorAt(s, i) <==> BlankLineAt(s, i)
  {
    if i + 4 <= |s| {
      var four := s[i..i + 4];
      assert four[0] == s[i] && four[1] == s[i + 1] && four[2] == s[i + 2] && four[3] == s[i + 3];
    }
  }

  /** What is found is the first blank line. */
  lemma FindTerminatorExact(s: Bytes, pos: nat)
    ensures FindTerminator(s) == Some(pos) <==> FirstBlankLineAt(s, pos)
  {
    forall j: nat
      ensures TerminatorAt(s, j) <==> BlankLineAt(s, j)
    {
      TerminatorBytes(s, j);
    }
  }

  /** A prefix shows the stream's first terminator as soon as it contains it, never another one. */
  lemma TerminatorOfPrefix(s: Bytes, n: nat)
    requires n <= |s|
    ensures var whole := FindTerminator(s);
      FindTerminator(s[..n]) == if whole.Some? && whole.value + 4 <= n then whole else None
  {
    var p, whole, part := s[..n], FindTerminator(s), FindTerminator(s[..n]);
    assert forall j: nat :: TerminatorAt(p, j) <==> TerminatorAt(s, j) && j + 4 <= n;
  }

  // ─── The declared body length ──────────────────────────────────────────────

  /** Unicode white space, which `trim` removes. */
  predicate IsWhitespace(c: char)
  {
    var n := c as int;
    9 <= n <= 13 || n == 32 || n == 0x85 || n == 0xa0 || n == 0x1680 || 0x2000 <= n <= 0x200a ||
    n == 0x2028 || n == 0x2029 || n == 0x202f || n == 0x205f || n == 0x3000
  }

  function TrimStart(s: string): string
  {
    if s != "" && IsWhitespace(s[0]) then TrimStart(s[1..]) else s
  }

  function TrimEnd(s: string): string
  {
    if s != "" && IsWhitespace(s[|s| - 1]) then TrimEnd(s[..|s| - 1]) else s
  }

  predicate AllDigits(s: string)
  {
    forall i :: 0 <= i < |s| ==> IsDigit(s[i])
  }

  /** A decimal usize: an optional plus sign, then digits only, within 64 bits. */
  function ParseUsize(s: string): Option<U64>
  {
    var digits := if s != "" && s[0] == '+' then s[1..] else s;
    if digits == "" || !AllDigits(digits) then None
    else if DecimalValue(digits) >= U64_LIMIT then None
    else Some(DecimalValue(digits))
  }

  function LineEndFrom(s: string, i: nat): (n: nat)
    requires i <= |s|
    ensures i <= n <= |s| && (n < |s| ==> s[n] == '\n') && forall k :: i <= k < n ==> s[k] != '\n'
    decreases |s| - i
  {
    if i == |s| || s[i] == '\n' then i else LineEndFrom(s, i + 1)
  }

  function LineEnd(s: string): (n: nat)
    ensures n <= |s| && (n < |s| ==> s[n] == '\n') && forall i :: 0 <= i < n ==> s[i] != '\n'
  {
    LineEndFrom(s, 0)
  }

  /** The text after the field name, for either of the two spellings recognised. */
  function FieldValue(line: string): Option<string>
  {
    if "Content-Length:" <= line || "content-length:" <= line then Some(line[15..]) else None
  }

  /** Up to the first line feed, without the carriage return before it; one that ends the text stays. */
  function FirstLine(s: string): string
  {
    var n := LineEnd(s);
    if 0 < n < |s| && s[n - 1] == '\r' then s[..n - 1] else s[..n]
  }

  /** What precedes the first line end, be it LF or CR LF; all of it when there is none. */
  lemma FirstLineExact(s: string, line: string)
    ensures FirstLine(s) == line <==>
      && '\n' !in line
      && (line == s || line + "\r\n" <= s || (line + "\n" <= s && (line == "" || line[|line| - 1] != '\r')))
  {
    var n := LineEnd(s);
    if '\n' !in line {
      if line == s {
        assert n == |s|;
      } else if line + "\r\n" <= s {
        assert s[|line|] == '\r' && s[|line| + 1] == '\n';
        assert forall i :: 0 <= i < |line| ==> s[i] == line[i];
        assert n == |line| + 1;
      } else if line + "\n" <= s {
        assert s[|line|] == '\n';
        assert forall i :: 0 <= i < |line| ==> s[i] == line[i];
        assert n == |line|;
      }
    }
    if n < |s| {
      assert s[..n] + "\n" <= s;
      assert n > 0 && s[n - 1] == '\r' ==> s[..n - 1] + "\r\n" == s[..n + 1];
    }
  }

  /** A line carries a value exactly when it is the field name, in one of two spellings, and that value. */
  lemma FieldValueExact(line: string, value: string)
    ensures FieldValue(line) == Some(value) <==>
      line == "Content-Length:" + value || line == "content-length:" + value
  {
    if "Content-Length:" <= line {
      assert line == "Content-Length:" + line[15..];
    }
    if "content-length:" <= line {
      assert line == "content-length:" + line[15..];
    }
  }

  /** The Unicode property White_Space. */
  lemma WhitespaceExact(c: char)
    ensures IsWhitespace(c) <==>
      c in "\t\n\U{B}\U{C}\r \U{85}\U{A0}\U{1680}\U{2000}\U{2001}\U{2002}\U{2003}\U{2004}\U{2005}\U{2006}"
         + "\U{2007}\U{2008}\U{2009}\U{200A}\U{2028}\U{2029}\U{202F}\U{205F}\U{3000}"
  {
  }

  /** The first line for which `f` yields something, and what it yields. */
  function FindMapLines(text: string, f: string -> Option<string>): Option<string>
    decreases |text|
  {
    if text == "" then None
    else
      var n := LineEnd(text);
      var found := f(FirstLine(text));
      if found.Some? then found
      else if n == |text| then None
      else FindMapLines(text[n + 1..], f)
  }

  /** The value of the first line carrying the field; later ones do not count. */
  function DeclaredValue(headers: string): Option<string>
  {
    FindMapLines(headers, FieldValue)
  }

  /** Zero when the field is absent or its first occurrence does not parse. */
  function ContentLength(headers: string): U64
  {
    var value := DeclaredValue(headers);
    var parsed := if value.None? then None else ParseUsize(TrimEnd(TrimStart(value.value)));
    if parsed.None? then 0 else parsed.value
  }

  // What the header search and the number parser amount to, said without them.

  /** The line starting at `i`, when one does. */
  function LineAt(text: string, i: nat): Option<string>
  {
    if i < |text| && (i == 0 || text[i - 1] == '\n') then Some(FirstLine(text[i..])) else None
  }

  predicate HitAt(text: string, f: string -> Option<string>, i: nat)
  {
    LineAt(text, i).Some? && f(LineAt(text, i).value).Some?
  }

  ghost predicate NoHit(text: string, f: string -> Option<string>)
  {
    forall j: nat :: !HitAt(text, f, j)
  }

  predicate FirstHitAt(text: string, f: string -> Option<string>, i: nat)
  {
    HitAt(text, f, i) && forall j :: 0 <= j < i ==> !HitAt(text, f, j)
  }

  lemma LineAtLater(text: string, rest: string, n: nat, k: nat)
    requires n < |text| && text[n] == '\n' && rest == text[n + 1..]
    ensures LineAt(text, n + 1 + k) == LineAt(rest, k)
  {
    if n + 1 + k < |text| {
      assert rest[k..] == text[n + 1 + k..];
      assert k > 0 ==> rest[k - 1] == text[n + k];
    }
  }

  /** Before the second line there is only the first. */
  lemma LinesUpToSecond(text: string, n: nat, j: nat)
    requires n == LineEnd(text) && j <= n
    ensures LineAt(text, j).Some? ==> j == 0 && LineAt(text, j).value == FirstLine(text)
  {
    assert text[0..] == text;
  }

  lemma FirstHitLater(text: string, rest: string, f: string -> Option<string>, n: nat, k: nat)
    requires n == LineEnd(text) < |text| && rest == text[n + 1..]
    requires f(FirstLine(text)).None? && FirstHitAt(rest, f, k)
    ensures FirstHitAt(text, f, n + 1 + k) && LineAt(text, n + 1 + k) == LineAt(rest, k)
  {
    LineAtLater(text, rest, n, k);
    forall j: nat | j < n + 1 + k
      ensures !HitAt(text, f, j)
    {
      MissLater(text, rest, f, n, j);
    }
  }

  /** A line is no hit when it is the first and that is none, or when it is none in the rest. */
  lemma MissLater(text: string, rest: string, f: string -> Option<string>, n: nat, j: nat)
    requires n == LineEnd(text) < |text| && rest == text[n + 1..] && f(FirstLine(text)).None?
    requires n < j ==> !HitAt(rest, f, j - n - 1)
    ensures !HitAt(text, f, j)
  {
    if n < j {
      LineAtLater(text, rest, n, j - n - 1);
    } else {
      LinesUpToSecond(text, n, j);
    }
  }

  lemma LineZero(text: string)
    requires text != ""
    ensures LineAt(text, 0) == Some(FirstLine(text))
  {
    assert text[0..] == text;
  }

  lemma NoHitInOnlyLine(text: string, f: string -> Option<string>, j: nat)
    requires LineEnd(text) == |text| && f(FirstLine(text)).None?
    ensures !HitAt(text, f, j)
  {
    if j < |text| {
      LinesUpToSecond(text, |text|, j);
    }
  }

  /** What is found is what the first hit yields; nothing is found when no line is one. */
  lemma {:induction false} FindMapLinesExact(text: string, f: string -> Option<string>) returns (i: nat)
    ensures FindMapLines(text, f).None? ==> NoHit(text, f)
    ensures FindMapLines(text, f).Some? ==>
      FirstHitAt(text, f, i) && FindMapLines(text, f) == f(LineAt(text, i).value)
    decreases |text|
  {
    i := 0;
    if text == "" {
      return;
    }
    var n := LineEnd(text);
    if f(FirstLine(text)).Some? {
      LineZero(text);
    } else if n == |text| {
      forall j: nat
        ensures !HitAt(text, f, j)
      {
        NoHitInOnlyLine(text, f, j);
      }
    } else {
      i := FindMapLater(text, f, n);
    }
  }

  lemma {:induction false} FindMapLater(text: string, f: string -> Option<string>, n: nat) returns (i: nat)
    requires n == LineEnd(text) < |text| && f(FirstLine(text)).None?
    ensures FindMapLines(text, f).None? ==> NoHit(text, f)
    ensures FindMapLines(text, f).Some? ==>
      FirstHitAt(text, f, i) && FindMapLines(text, f) == f(LineAt(text, i).value)
    decreases |text|, 0
  {
    var rest := text[n + 1..];
    var k := FindMapLinesExact(rest, f);
    FindMapSkips(text, rest, f, n);
    i := n + 1 + k;
    if FindMapLines(rest, f).Some? {
      FirstHitLater(text, rest, f, n, k);
    } else {
      NoHitLater(text, rest, f, n);
    }
  }

  lemma FindMapSkips(text: string, rest: string, f: string -> Option<string>, n: nat)
    requires n == LineEnd(text) < |text| && rest == text[n + 1..] && f(FirstLine(text)).None?
    ensures FindMapLines(text, f) == FindMapLines(rest, f)
  {
  }

  lemma NoHitLater(text: string, rest: string, f: string -> Option<string>, n: nat)
    requires n == LineEnd(text) < |text| && rest == text[n + 1..] && f(FirstLine(text)).None?
    requires NoHit(rest, f)
    ensures NoHit(text, f)
  {
    forall j: nat
      ensures !HitAt(text, f, j)
    {
      MissLater(text, rest, f, n, j);
    }
  }

  /** The first line carrying the field, in either spelling of its name, has this after the name. */
  ghost predicate Declares(headers: string, value: string)
  {
    exists i: nat :: FirstHitAt(headers, FieldValue, i) && FieldValue(LineAt(headers, i).value) == Some(value)
  }

  lemma DeclaredValueExact(headers: string, value: string)
    ensures DeclaredValue(headers) == Some(value) <==> Declares(headers, value)
    ensures DeclaredValue(headers).None? <==> NoHit(headers, FieldValue)
  {
    var i := FindMapLinesExact(headers, FieldValue);
    if DeclaredValue(headers).Some? {
      forall j: nat | FirstHitAt(headers, FieldValue, j)
        ensures j == i
      {
        assert HitAt(headers, FieldValue, i) && HitAt(headers, FieldValue, j);
      }
    }
  }

  predicate AllWhite(s: string)
  {
    forall i :: 0 <= i < |s| ==> IsWhitespace(s[i])
  }

  /** White space, an optional plus sign, digits, white space: in that order and nothing else. */
  ghost predicate SpelledAs(v: string, pad: string, sign: string, digits: string, pad': string, n: U64)
  {
    && v == pad + (sign + digits) + pad' && AllWhite(pad) && AllWhite(pad')
    && (sign == "" || sign == "+") && digits != "" && AllDigits(digits) && DecimalValue(digits) == n
  }

  ghost predicate Spells(v: string, n: U64)
  {
    exists pad, sign, digits, pad' :: SpelledAs(v, pad, sign, digits, pad', n)
  }

  function Trim(s: string): string { TrimEnd(TrimStart(s)) }

  lemma {:induction false} TrimStartSplits(s: string) returns (pad: string)
    ensures s == pad + TrimStart(s) && AllWhite(pad)
  {
    if s != "" && IsWhitespace(s[0]) {
      var more := TrimStartSplits(s[1..]);
      pad := [s[0]] + more;
      assert s == [s[0]] + s[1..];
    } else {
      pad := "";
    }
  }

  lemma {:induction false} TrimEndSplits(s: string) returns (pad: string)
    ensures s == TrimEnd(s) + pad && AllWhite(pad)
  {
    if s != "" && IsWhitespace(s[|s| - 1]) {
      var more := TrimEndSplits(s[..|s| - 1]);
      pad := more + [s[|s| - 1]];
      assert s == s[..|s| - 1] + [s[|s| - 1]];
    } else {
      pad := "";
    }
  }

  lemma {:induction false} TrimStartDrops(pad: string, s: string)
    requires AllWhite(pad) && s != "" && !IsWhitespace(s[0])
    ensures TrimStart(pad + s) == s
  {
    if pad == "" {
      assert pad + s == s;
    } else {
      assert (pad + s)[1..] == pad[1..] + s;
      TrimStartDrops(pad[1..], s);
    }
  }

  lemma {:induction false} TrimEndDrops(s: string, pad: string)
    requires AllWhite(pad) && s != "" && !IsWhitespace(s[|s| - 1])
    ensures TrimEnd(s + pad) == s
  {
    if pad == "" {
      assert s + pad == s;
    } else {
      assert (s + pad)[..|s + pad| - 1] == s + pad[..|pad| - 1];
      TrimEndDrops(s, pad[..|pad| - 1]);
    }
  }

  lemma ParseUsizeOfSigned(sign: string, digits: string)
    requires (sign == "" || sign == "+") && digits != "" && AllDigits(digits)
    ensures ParseUsize(sign + digits) ==
      if DecimalValue(digits) < U64_LIMIT then Some(DecimalValue(digits)) else None
  {
    var s := sign + digits;
    assert IsDigit(digits[0]);
    assert (if s[0] == '+' then s[1..] else s) == digits;
  }

  lemma TrimOfSpelled(pad: string, core: string, pad': string)
    requires AllWhite(pad) && AllWhite(pad')
    requires core != "" && !IsWhitespace(core[0]) && !IsWhitespace(core[|core| - 1])
    ensures Trim(pad + core + pad') == core
  {
    Associative(pad, core, pad');
    TrimStartDrops(pad, core + pad');
    TrimEndDrops(core, pad');
  }

  lemma NoWhiteEnds(sign: string, digits: string)
    requires (sign == "" || sign == "+") && digits != "" && AllDigits(digits)
    ensures var s := sign + digits; !IsWhitespace(s[0]) && !IsWhitespace(s[|s| - 1])
  {
    var s := sign + digits;
    assert IsDigit(digits[0]) && IsDigit(digits[|digits| - 1]);
    assert s[|s| - 1] == digits[|digits| - 1];
    assert if sign == "" then s[0] == digits[0] else s[0] == '+';
  }

  /** A value reads as a number exactly when it spells one. */
  lemma NumberExact(v: string, n: U64)
    ensures ParseUsize(Trim(v)) == Some(n) <==> Spells(v, n)
  {
    if Spells(v, n) {
      var pad, sign, digits, pad' :| SpelledAs(v, pad, sign, digits, pad', n);
      NoWhiteEnds(sign, digits);
      TrimOfSpelled(pad, sign + digits, pad');
      ParseUsizeOfSigned(sign, digits);
    }
    if ParseUsize(Trim(v)) == Some(n) {
      var pad := TrimStartSplits(v);
      var pad' := TrimEndSplits(TrimStart(v));
      var core := Trim(v);
      var sign, digits := if core[0] == '+' then "+" else "", if core[0] == '+' then core[1..] else core;
      assert core == sign + digits;
      Associative(pad, core, pad');
      assert SpelledAs(v, pad, sign, digits, pad', n);
    }
  }

  /** The length is the number spelled by the first line carrying the field; it is zero when that value
      spells no 64-bit number, or no line carries the field. */
  lemma ContentLengthExact(headers: string, n: U64)
    requires n != 0
    ensures ContentLength(headers) == n <==> exists value :: Declares(headers, value) && Spells(value, n)
  {
    var found := DeclaredValue(headers);
    if found.Some? {
      DeclaredValueExact(headers, found.value);
      NumberExact(found.value, n);
    }
    forall value | Declares(headers, value) && Spells(value, n)
      ensures ContentLength(headers) == n
    {
      DeclaredValueExact(headers, value);
      NumberExact(value, n);
    }
  }

  /** A length announced in decimal, between any white space, is read back. */
  lemma DeclaredLengthIsRead(headers: string, pad: string, n: U64, pad': string)
    requires Declares(headers, pad + Decimal(n) + pad') && AllWhite(pad) && AllWhite(pad')
    ensures ContentLength(headers) == n
  {
    var value := pad + Decimal(n) + pad';
    DecimalRoundTrip(n);
    assert "" + Decimal(n) == Decimal(n);
    assert SpelledAs(value, pad, "", Decimal(n), pad', n);
    DeclaredValueExact(headers, value);
    NumberExact(value, n);
  }

  /** The body length a head declares. Splitting plays no part in it, so what follows holds for any such
      function; the code's is `Declared`. */
  type Length = Bytes -> U64

  function Declared(text: Text): Length
  {
    head => ContentLength(text(head))
  }

  // ─── What is read ──────────────────────────────────────────────────────────

  /** Bytes needed once the terminator is at `pos`; the sum wraps like the release build's usize. */
  function Need(length: Length, s: Bytes, pos: nat): nat
    requires pos <= |s|
  {
    (pos + 4 + length(s[..pos])) % U64_LIMIT
  }

  /** The reader stops here: terminator seen and enough bytes held. */
  predicate Done(length: Length, held: Bytes)
  {
    var pos := FindTerminator(held);
    pos.Some? && |held| >= Need(length, held, pos.value)
  }

  /** What one read delivers; a read of nothing is the end of the stream and ends the list of reads. */
  type Read = b: Bytes | 1 <= |b| <= READ_SIZE witness [0]

  function Concat(chunks: seq<Read>): Bytes
  {
    if chunks == [] then [] else chunks[0] + Concat(chunks[1..])
  }

  /** What has been received when reading stops, having taken `k` reads already. */
  function Received(length: Length, chunks: seq<Read>, k: nat): Bytes
    requires k <= |chunks|
    decreases |chunks| - k
  {
    if k == |chunks| || Done(length, Concat(chunks[..k])) then Concat(chunks[..k]) else Received(length, chunks, k + 1)
  }

  datatype Request = Request(headerEnd: nat, head: Bytes, body: Bytes)

  /** How the received bytes are cut. */
  function Cut(held: Bytes): Request
  {
    var pos := FindTerminator(held);
    var headerEnd := if pos.Some? then pos.value else |held|;
    Request(headerEnd, held[..headerEnd], held[if headerEnd + 4 <= |held| then headerEnd + 4 else |held|..])
  }

  function Outcome(length: Length, chunks: seq<Read>): Request
  {
    Cut(Received(length, chunks, 0))
  }

  /** With a blank line, what stands before and after it; without, everything and nothing. */
  predicate CutAtBlankLine(held: Bytes, r: Request)
  {
    if FirstBlankLineAt(held, r.headerEnd) then r.head == held[..r.headerEnd] && r.body == held[r.headerEnd + 4..]
    else r.headerEnd == |held| && r.head == held && r.body == [] && FindTerminator(held).None?
  }

  lemma CutExact(held: Bytes)
    ensures CutAtBlankLine(held, Cut(held))
  {
    FindTerminatorExact(held, Cut(held).headerEnd);
  }

  /** The blank line is there and so are as many bytes after it as the head declares. */
  predicate HoldsRequest(length: Length, held: Bytes)
  {
    exists pos :: 0 <= pos < |held| && FirstBlankLineAt(held, pos) &&
      |held| >= (pos + 4 + length(held[..pos])) % 0x1_0000_0000_0000_0000
  }

  lemma DoneExact(length: Length, held: Bytes)
    ensures Done(length, held) <==> HoldsRequest(length, held)
  {
    var found := FindTerminator(held);
    if found.Some? {
      FindTerminatorExact(held, found.value);
    }
    forall pos: nat | FirstBlankLineAt(held, pos)
      ensures found == Some(pos)
    {
      FindTerminatorExact(held, pos);
    }
  }

  /** After `k` reads the request is held, or they were all; before, it was not. */
  predicate StopsAfter(length: Length, chunks: seq<Read>, k: nat)
  {
    && k <= |chunks| && (k == |chunks| || HoldsRequest(length, Concat(chunks[..k])))
    && forall j :: 0 <= j < k ==> !HoldsRequest(length, Concat(chunks[..j]))
  }

  lemma {:induction false} ReceivedStops(length: Length, chunks: seq<Read>, i: nat) returns (k: nat)
    requires i <= |chunks| && forall j :: 0 <= j < i ==> !HoldsRequest(length, Concat(chunks[..j]))
    ensures StopsAfter(length, chunks, k) && Received(length, chunks, i) == Concat(chunks[..k])
    decreases |chunks| - i
  {
    DoneExact(length, Concat(chunks[..i]));
    if i == |chunks| || Done(length, Concat(chunks[..i])) {
      k := i;
    } else {
      k := ReceivedStops(length, chunks, i + 1);
    }
  }

  /** The inner loop: reads until the declared end is held or the stream ends. */
  method ReadBody(length: Length, chunks: seq<Read>, taken: nat, held: Bytes, headerEnd: nat) returns (buf: Bytes)
    requires taken <= |chunks| && held == Concat(chunks[..taken]) && FindTerminator(held) == Some(headerEnd)
    ensures buf == Received(length, chunks, taken) && FindTerminator(buf) == Some(headerEnd)
  {
    buf := held;
    var next := taken;
    var need := (headerEnd + 4 + length(buf[..headerEnd])) % U64_LIMIT;
    while |buf| < need && next < |chunks|
      invariant next <= |chunks| && buf == Concat(chunks[..next])
      invariant FindTerminator(buf) == Some(headerEnd) && need == Need(length, buf, headerEnd)
      invariant Received(length, chunks, next) == Received(length, chunks, taken)
      decreases |chunks| - next
    {
      OneMoreRead(length, chunks, next, buf, headerEnd);
      buf, next := buf + chunks[next], next + 1;
    }
    ReadingStops(length, chunks, next, buf, headerEnd);
  }

  lemma ReadingStops(length: Length, chunks: seq<Read>, k: nat, held: Bytes, headerEnd: nat)
    requires k <= |chunks| && held == Concat(chunks[..k])
    requires FindTerminator(held) == Some(headerEnd) && (|held| >= Need(length, held, headerEnd) || k == |chunks|)
    ensures Received(length, chunks, k) == held
  {
  }

  lemma OneMoreRead(length: Length, chunks: seq<Read>, k: nat, held: Bytes, headerEnd: nat)
    requires k < |chunks| && held == Concat(chunks[..k])
    requires FindTerminator(held) == Some(headerEnd) && |held| < Need(length, held, headerEnd)
    ensures var more := held + chunks[k];
      && more == Concat(chunks[..k + 1]) && Received(length, chunks, k) == Received(length, chunks, k + 1)
      && FindTerminator(more) == Some(headerEnd) && Need(length, more, headerEnd) == Need(length, held, headerEnd)
  {
    ConcatNext(chunks, k);
    HeaderEndStays(length, held, chunks[k], headerEnd);
    assert !Done(length, held);
  }

  /** The outer loop over the reads a connection delivers; after the last comes end of stream. */
  method ReadRequest(text: Text, chunks: seq<Read>) returns (r: Request)
    ensures r == Outcome(Declared(text), chunks)
    ensures exists k: nat :: StopsAfter(Declared(text), chunks, k) && CutAtBlankLine(Concat(chunks[..k]), r)
  {
    var length := Declared(text);
    var buf: Bytes := [];
    var next, headerEnd: nat := 0, 0;
    while true
      invariant next <= |chunks| && buf == Concat(chunks[..next])
      invariant FindTerminator(buf).None? && Received(length, chunks, next) == Received(length, chunks, 0)
      decreases |chunks| - next
    {
      if next == |chunks| {
        headerEnd := |buf|;
        break;
      }
      ConcatNext(chunks, next);
      buf, next := buf + chunks[next], next + 1;
      var pos := FindTerminator(buf);
      if pos.Some? {
        headerEnd := pos.value;
        buf := ReadBody(length, chunks, next, buf, headerEnd);
        break;
      }
    }
    ghost var k := ReceivedStops(length, chunks, 0);
    CutExact(buf);
    return Request(headerEnd, buf[..headerEnd], buf[if headerEnd + 4 <= |buf| then headerEnd + 4 else |buf|..]);
  }

  lemma HeaderEndStays(length: Length, held: Bytes, more: Bytes, headerEnd: nat)
    requires FindTerminator(held) == Some(headerEnd)
    ensures FindTerminator(held + more) == Some(headerEnd)
    ensures Need(length, held + more, headerEnd) == Need(length, held, headerEnd)
  {
    TerminatorOfPrefix(held + more, |held|);
    assert (held + more)[..|held|] == held;
    assert (held + more)[..headerEnd] == held[..headerEnd];
  }

  lemma ConcatCons(chunk: Read, chunks: seq<Read>)
    ensures Concat([chunk] + chunks) == chunk + Concat(chunks)
  {
    assert ([chunk] + chunks)[1..] == chunks;
  }

  lemma {:induction false} ConcatAppend(a: seq<Read>, b: seq<Read>)
    ensures Concat(a + b) == Concat(a) + Concat(b)
  {
    if a == [] {
      assert a + b == b;
    } else {
      var first, rest := a[0], a[1..];
      ConcatAppend(rest, b);
      ConcatCons(first, rest + b);
      ConcatCons(first, rest);
      assert a == [first] + rest && a + b == [first] + (rest + b);
      Associative(first, Concat(rest), Concat(b));
    }
  }

  lemma ConcatNext(chunks: seq<Read>, k: nat)
    requires k < |chunks|
    ensures Concat(chunks[..k + 1]) == Concat(chunks[..k]) + chunks[k]
  {
    assert chunks[..k + 1] == chunks[..k] + [chunks[k]];
    ConcatAppend(chunks[..k], [chunks[k]]);
    assert Concat([chunks[k]]) == chunks[k] + Concat([]);
  }

  // ─── Independence of the split ─────────────────────────────────────────────

  /** `chunks` is one way the stream can arrive. */
  predicate IsSplit(chunks: seq<Read>, stream: Bytes)
  {
    Concat(chunks) == stream
  }

  /** The length at which a stream holding a terminator is read far enough. */
  function Threshold(length: Length, stream: Bytes): nat
    requires FindTerminator(stream).Some?
  {
    var pos := FindTerminator(stream).value;
    var need := Need(length, stream, pos);
    if need < pos + 4 then pos + 4 else need
  }

  lemma DoneAtThreshold(length: Length, stream: Bytes, n: nat)
    requires n <= |stream|
    ensures Done(length, stream[..n]) <==> FindTerminator(stream).Some? && Threshold(length, stream) <= n
  {
    TerminatorOfPrefix(stream, n);
    var pos := FindTerminator(stream);
    if pos.Some? && pos.value + 4 <= n {
      assert stream[..n][..pos.value] == stream[..pos.value];
    }
  }

  lemma PrefixOfStream(chunks: seq<Read>, k: nat)
    requires k <= |chunks|
    ensures var p := Concat(chunks[..k]); |p| <= |Concat(chunks)| && p == Concat(chunks)[..|p|]
  {
    ConcatAppend(chunks[..k], chunks[k..]);
    assert chunks[..k] + chunks[k..] == chunks;
  }

  /** Whatever the split, what is received is a prefix of the stream, either all of it or enough. */
  lemma {:induction false} ReceivedPrefix(length: Length, chunks: seq<Read>, stream: Bytes, k: nat) returns (n: nat)
    requires k <= |chunks| && Concat(chunks) == stream
    ensures n <= |stream| && Received(length, chunks, k) == stream[..n]
    ensures n == |stream| || (FindTerminator(stream).Some? && Threshold(length, stream) <= n)
    decreases |chunks| - k
  {
    PrefixOfStream(chunks, k);
    n := |Concat(chunks[..k])|;
    if k == |chunks| {
      assert chunks[..k] == chunks;
    } else if Done(length, Concat(chunks[..k])) {
      DoneAtThreshold(length, stream, n);
    } else {
      n := ReceivedPrefix(length, chunks, stream, k + 1);
    }
  }

  /** The header ends at the same place with the same bytes for every split of every stream. */
  lemma HeadIndependentOfSplit(length: Length, chunks: seq<Read>, stream: Bytes)
    requires IsSplit(chunks, stream)
    ensures Outcome(length, chunks).headerEnd == Cut(stream).headerEnd
    ensures Outcome(length, chunks).head == Cut(stream).head
  {
    var n := ReceivedPrefix(length, chunks, stream, 0);
    TerminatorOfPrefix(stream, n);
    assert stream[..|stream|] == stream;
    var pos := FindTerminator(stream);
    if pos.Some? {
      assert stream[..n][..pos.value] == stream[..pos.value];
    }
  }

  /** No bytes beyond the declared end. */
  predicate NothingBeyond(length: Length, stream: Bytes)
  {
    FindTerminator(stream).Some? ==> |stream| <= Threshold(length, stream)
  }

  /** Namely: at most as many bytes follow the blank line as the head declares. */
  lemma NothingBeyondExact(length: Length, head: Bytes, rest: Bytes)
    requires FirstBlankLineAt(head + [13, 10, 13, 10], |head|)
    requires |head| + 4 + length(head) < 0x1_0000_0000_0000_0000
    ensures NothingBeyond(length, head + [13, 10, 13, 10] + rest) <==> |rest| <= length(head)
  {
    var front := head + [13, 10, 13, 10];
    FindTerminatorExact(front, |head|);
    HeaderEndStays(length, front, rest, |head|);
    assert (front + rest)[..|head|] == head && |front + rest| == |head| + 4 + |rest|;
  }

  /** Without bytes beyond the declared end, every split yields the cut of the whole stream. */
  lemma SplitIndependent(length: Length, chunks: seq<Read>, stream: Bytes)
    requires IsSplit(chunks, stream) && NothingBeyond(length, stream)
    ensures Outcome(length, chunks) == Cut(stream)
  {
    var n := ReceivedPrefix(length, chunks, stream, 0);
    assert n == |stream|;
    assert stream[..n] == stream;
  }

  /** A complete request, however it is split, is read as its head and exactly its declared body. */
  lemma RequestIsRead(text: Text, head: Bytes, body: Bytes, chunks: seq<Read>)
    requires FirstBlankLineAt(head + [13, 10, 13, 10], |head|)
    requires ContentLength(text(head)) == |body| && |head| + 4 + |body| < U64_LIMIT
    requires IsSplit(chunks, head + [13, 10, 13, 10] + body)
    ensures Outcome(Declared(text), chunks) == Request(|head|, head, body)
  {
    var length := Declared(text);
    var front := head + [13, 10, 13, 10];
    var stream := front + body;
    FindTerminatorExact(front, |head|);
    HeaderEndStays(length, front, body, |head|);
    assert front[..|head|] == head && stream[..|head|] == head && stream[|head| + 4..] == body;
    SplitIndependent(length, chunks, stream);
  }

  // Two splits that tell a stream with more bytes apart: byte by byte, and byte by byte except for
  // one two-byte read across the declared end.

  function Singles(s: Bytes): (r: seq<Read>)
    ensures |r| == |s|
  {
    seq(|s|, i requires 0 <= i < |s| => [s[i]])
  }

  function Straddling(s: Bytes, t: nat): seq<Read>
    requires 1 <= t < |s|
  {
    Singles(s[..t - 1]) + [s[t - 1..t + 1]] + Singles(s[t + 1..])
  }

  lemma {:induction false} ConcatSingles(s: Bytes)
    ensures Concat(Singles(s)) == s
  {
    if s != [] {
      ConcatSingles(s[1..]);
      assert Singles(s)[1..] == Singles(s[1..]);
    }
  }

  lemma SinglesPrefix(s: Bytes, k: nat)
    requires k <= |s|
    ensures Concat(Singles(s)[..k]) == s[..k]
  {
    assert Singles(s)[..k] == Singles(s[..k]);
    ConcatSingles(s[..k]);
  }

  lemma StraddlingPrefix(s: Bytes, t: nat, k: nat)
    requires 1 <= t < |s| && k <= t
    ensures Concat(Straddling(s, t)[..k]) == s[..if k < t then k else t + 1]
  {
    var singles, chunks := Singles(s[..t - 1]), Straddling(s, t);
    if k < t {
      assert chunks[..k] == singles[..k];
      SinglesPrefix(s[..t - 1], k);
      assert s[..t - 1][..k] == s[..k];
    } else {
      assert chunks[..t] == singles + [s[t - 1..t + 1]];
      ConcatAppend(singles, [s[t - 1..t + 1]]);
      ConcatSingles(s[..t - 1]);
      assert Concat([s[t - 1..t + 1]]) == s[t - 1..t + 1] + Concat([]);
    }
  }

  lemma AreSplits(s: Bytes, t: nat)
    requires 1 <= t < |s|
    ensures IsSplit(Singles(s), s) && IsSplit(Straddling(s, t), s)
  {
    ConcatSingles(s);
    StraddlingPrefix(s, t, t);
    var chunks := Straddling(s, t);
    ConcatAppend(chunks[..t], Singles(s[t + 1..]));
    assert chunks == chunks[..t] + Singles(s[t + 1..]);
    ConcatSingles(s[t + 1..]);
    assert s[..t + 1] + s[t + 1..] == s;
  }

  lemma {:induction false} ReceivedAt(length: Length, chunks: seq<Read>, k: nat, m: nat)
    requires k <= m <= |chunks| && Done(length, Concat(chunks[..m]))
    requires forall j :: k <= j < m ==> !Done(length, Concat(chunks[..j]))
    ensures Received(length, chunks, k) == Concat(chunks[..m])
    decreases m - k
  {
    if k < m {
      ReceivedAt(length, chunks, k + 1, m);
    }
  }

  lemma SinglesStopAtThreshold(length: Length, stream: Bytes)
    requires !NothingBeyond(length, stream)
    ensures var t := Threshold(length, stream); Received(length, Singles(stream), 0) == stream[..t]
  {
    var t, chunks := Threshold(length, stream), Singles(stream);
    forall j | 0 <= j <= t
      ensures Done(length, Concat(chunks[..j])) <==> j == t
    {
      SinglesPrefix(stream, j);
      DoneAtThreshold(length, stream, j);
    }
    ReceivedAt(length, chunks, 0, t);
    SinglesPrefix(stream, t);
  }

  lemma StraddlingOvershoots(length: Length, stream: Bytes)
    requires !NothingBeyond(length, stream)
    ensures var t := Threshold(length, stream); Received(length, Straddling(stream, t), 0) == stream[..t + 1]
  {
    var t := Threshold(length, stream);
    var chunks := Straddling(stream, t);
    forall j | 0 <= j <= t
      ensures Done(length, Concat(chunks[..j])) <==> j == t
    {
      StraddlingPrefix(stream, t, j);
      DoneAtThreshold(length, stream, if j < t then j else t + 1);
    }
    ReceivedAt(length, chunks, 0, t);
    StraddlingPrefix(stream, t, t);
  }

  /** With bytes beyond the declared end, the body depends on the split. */
  lemma SplitMatters(length: Length, stream: Bytes)
    requires !NothingBeyond(length, stream)
    ensures var t := Threshold(length, stream);
      && IsSplit(Singles(stream), stream) && IsSplit(Straddling(stream, t), stream)
      && |Outcome(length, Straddling(stream, t)).body| == |Outcome(length, Singles(stream)).body| + 1
  {
    var t := Threshold(length, stream);
    AreSplits(stream, t);
    SinglesStopAtThreshold(length, stream);
    StraddlingOvershoots(length, stream);
    TerminatorOfPrefix(stream, t);
    TerminatorOfPrefix(stream, t + 1);
  }

  /** Reading is independent of the split exactly when nothing follows the declared end. */
  lemma SplitIndependenceExact(length: Length, stream: Bytes)
    ensures NothingBeyond(length, stream) <==>
      forall a, b :: IsSplit(a, stream) && IsSplit(b, stream) ==> Outcome(length, a) == Outcome(length, b)
  {
    if NothingBeyond(length, stream) {
      forall a, b | IsSplit(a, stream) && IsSplit(b, stream)
        ensures Outcome(length, a) == Outcome(length, b)
      {
        SplitIndependent(length, a, stream);
        SplitIndependent(length, b, stream);
      }
    } else {
      SplitMatters(length, stream);
    }
  }
}
