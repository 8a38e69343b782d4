/** Derivation paths and the key pair found at one. */
module Derive {
  import opened Wrappers
  import opened Encoding
  import opened Core

  /** A hardened index is assumed to have 31 bits. */
  const HARDENED_LIMIT: nat := 0x8000_0000

  function DigitChar(d: nat): char
    requires d < 10
  {
    '0' + d as char
  }

  predicate IsDigit(c: char) { '0' <= c <= '9' }

  /** Decimal text without leading zeros. */
  function Decimal(n: nat): (s: string)
    ensures s != "" && forall i :: 0 <= i < |s| ==> IsDigit(s[i])
  {
    if n < 10 then [DigitChar(n)] else Decimal(n / 10) + [DigitChar(n % 10)]
  }

  /** The last character is the last digit, and what stands before it is the rest of the number. */
  lemma DecimalText(n: nat)
    ensures n < 10 ==> Decimal(n) == ["0123456789"[n]]
    ensures n >= 10 ==> Decimal(n) == Decimal(n / 10) + ["0123456789"[n % 10]]
  {
    DigitText(n % 10);
  }

  lemma DigitText(d: nat)
    requires d < 10
    ensures DigitChar(d) == "0123456789"[d]
  {
  }

  function DecimalValue(s: string): nat
    requires forall i :: 0 <= i < |s| ==> IsDigit(s[i])
  {
    if s == "" then 0
    else
      var last := |s| - 1;
      assert IsDigit(s[last]);
      DecimalValue(s[..last]) * 10 + (s[last] - '0') as nat
  }

  lemma DigitExact(c: char)
    ensures IsDigit(c) <==> c in "0123456789"
  {
  }

  /** Reading digit by digit: each further one multiplies by ten and adds its worth. */
  lemma DecimalValueText(s: string, d: nat)
    requires d < 10 && forall i :: 0 <= i < |s| ==> IsDigit(s[i])
    ensures var t := s + ["0123456789"[d]];
      && (forall i :: 0 <= i < |t| ==> IsDigit(t[i]))
      && DecimalValue("") == 0 && DecimalValue(t) == 10 * DecimalValue(s) + d
  {
    DigitText(d);
    DigitExact(DigitChar(d));
    var t := s + [DigitChar(d)];
    assert t[..|t| - 1] == s && t[|t| - 1] == DigitChar(d);
  }

  lemma {:induction false} DecimalRoundTrip(n: nat)
    ensures DecimalValue(Decimal(n)) == n
  {
    if n < 10 {
      assert Decimal(n)[..0] == "";
    } else {
      DecimalRoundTrip(n / 10);
      assert Decimal(n)[..|Decimal(n)| - 1] == Decimal(n / 10);
    }
  }

  /** `m/account'/index'`. */
  function SubkeyPath(account: nat, index: nat): string
  {
    "m/" + Decimal(account) + "'/" + Decimal(index) + "'"
  }

  lemma SameUpToApostrophe(a: string, x: string, b: string, y: string)
    requires forall i :: 0 <= i < |a| ==> a[i] != '\''
    requires forall i :: 0 <= i < |b| ==> b[i] != '\''
    requires a + "'" + x == b + "'" + y
    ensures a == b && x == y
  {
    var t := a + "'" + x;
    assert t == b + "'" + y;
    assert forall i :: 0 <= i < |a| ==> t[i] == a[i];
    assert forall i :: 0 <= i < |b| ==> t[i] == b[i];
    assert t[|a|] == '\'' && t[|b|] == '\'';
    assert t[..|a|] == a && t[..|b|] == b;
    assert t[|a| + 1..] == x && t[|b| + 1..] == y;
  }

  lemma DecimalInjective(m: nat, n: nat)
    requires Decimal(m) == Decimal(n)
    ensures m == n
  {
    DecimalRoundTrip(m);
    DecimalRoundTrip(n);
  }

  /** The part of a path after its account. */
  function Tail(index: nat): string { "/" + Decimal(index) + "'" }

  lemma TailInjective(index: nat, index': nat)
    requires Tail(index) == Tail(index')
    ensures index == index'
  {
    assert Tail(index)[1..] == Decimal(index) + "'" + "" && Tail(index')[1..] == Decimal(index') + "'" + "";
    SameUpToApostrophe(Decimal(index), "", Decimal(index'), "");
    DecimalInjective(index, index');
  }

  lemma PathAfterRoot(account: nat, index: nat)
    ensures SubkeyPath(account, index)[2..] == Decimal(account) + "'" + Tail(index)
  {
  }

  /** Distinct lanes or distinct indices never share a path. */
  lemma SubkeyPathInjective(account: nat, index: nat, account': nat, index': nat)
    ensures SubkeyPath(account, index) == SubkeyPath(account', index') <==> account == account' && index == index'
  {
    if SubkeyPath(account, index) == SubkeyPath(account', index') {
      PathAfterRoot(account, index);
      PathAfterRoot(account', index');
      SameUpToApostrophe(Decimal(account), Tail(index), Decimal(account'), Tail(index'));
      DecimalInjective(account, account');
      TailInjective(index, index');
    }
  }

  function DeriveKeypair(c: Suite, mnemonic: Bytes, account: nat, index: nat): Result<KeyPair, string>
  {
    var node := c.deriveNode(mnemonic, SubkeyPath(account, index));
    if node.Ok? then Ok(FromSeed(c, node.value)) else Err(node.error)
  }

  /** The public keys belonging to a derivation path, on the schemes' own functions: each scheme's key
      generation, seeded by the digest of its label followed by the node found at the path. */
  ghost predicate KeysAt(c: Suite, mnemonic: Bytes, path: string, mlPk: Bytes, slhPk: Bytes)
  {
    var node := c.deriveNode(mnemonic, path);
    && node.Ok?
    && mlPk == c.mlKeygen(c.sha256(Ascii("pq-root-ml-dsa-v1") + node.value)).0
    && slhPk == c.slhKeygen(c.sha256(Ascii("pq-root-slh-dsa-v1") + node.value)).0
  }

  /** Signatures of a message under the secrets belonging to a path. */
  ghost predicate SignedAt(c: Suite, mnemonic: Bytes, path: string, message: Bytes, sig: DualSignature)
  {
    var node := c.deriveNode(mnemonic, path);
    && node.Ok?
    && (exists rnd :: sig.mlDsa ==
          c.mlSign(c.mlKeygen(c.sha256(Ascii("pq-root-ml-dsa-v1") + node.value)).1, message, rnd))
    && (exists rnd :: sig.slhDsa ==
          c.slhSign(c.slhKeygen(c.sha256(Ascii("pq-root-slh-dsa-v1") + node.value)).1, message, rnd))
  }

  /** Derivation fails exactly when no node is found at `m/account'/index'`, with that error; otherwise it
      yields the keys belonging to that path, and what they sign is signed under its secrets. */
  lemma DeriveKeypairExact(c: Suite, mnemonic: Bytes, account: nat, index: nat)
    ensures var path := "m/" + Decimal(account) + "'/" + Decimal(index) + "'";
      var r := DeriveKeypair(c, mnemonic, account, index);
      && (r.Err? <==> c.deriveNode(mnemonic, path).Err?)
      && (r.Err? ==> c.deriveNode(mnemonic, path) == Err(r.error))
      && (r.Ok? ==> KeysAt(c, mnemonic, path, r.value.mlPk, r.value.slhPk))
      && (r.Ok? ==> forall message, sig :: SignedBy(c, r.value, message, sig) <==>
            SignedAt(c, mnemonic, path, message, sig))
  {
    var node := c.deriveNode(mnemonic, SubkeyPath(account, index));
    if node.Ok? {
      FromSeedExact(c, node.value);
    }
  }

  /** The root's path. */
  lemma RootPath()
    ensures SubkeyPath(0, 0) == "m/0'/0'"
  {
    SmallDecimals();
  }

  lemma SmallDecimals()
    ensures Decimal(0) == "0" && Decimal(1) == "1" && Decimal(2) == "2"
  {
  }
}
