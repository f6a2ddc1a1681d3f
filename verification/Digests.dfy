/** SHA-1 digests as text, and the choice of the patch for a file (applypatch/applypatch.c). */
module Digests {
  import opened Suffixes
  import opened ImgChunks

  const SHA_DIGEST_SIZE: nat := 20

  /** The value of a hexadecimal digit of either case, or -1. */
  function HexValue(c: char): (v: int)
    ensures -1 <= v < 16
  {
    if '0' <= c <= '9' then c as int - '0' as int
    else if 'a' <= c <= 'f' then c as int - 'a' as int + 10
    else if 'A' <= c <= 'F' then c as int - 'A' as int + 10
    else -1
  }

  predicate HexText(s: string) {
    |s| == 2 * SHA_DIGEST_SIZE && forall i :: 0 <= i < |s| ==> HexValue(s[i]) >= 0
  }

  /** Byte i of the digest. */
  ghost function PairValue(s: string, i: nat): (v: byte)
    requires 2 * i + 1 < |s| && HexValue(s[2 * i]) >= 0 && HexValue(s[2 * i + 1]) >= 0
  {
    16 * HexValue(s[2 * i]) + HexValue(s[2 * i + 1])
  }

  /** The digest a text stands for: exactly 40 hexadecimal digits and nothing after them. */
  ghost function Parsed(s: string): (r: Option<bytes>) {
    if HexText(s) then Some(seq(SHA_DIGEST_SIZE, i requires 0 <= i < SHA_DIGEST_SIZE => PairValue(s, i))) else None
  }

  /** `ParseSha1` */
  method ParseSha1(str: string) returns (r: Option<bytes>)
    ensures r == Parsed(str)
  {
    var digest := new byte[SHA_DIGEST_SIZE];
    var i, pd := 0, 0;
    while i < 2 * SHA_DIGEST_SIZE
      invariant 0 <= i <= 2 * SHA_DIGEST_SIZE && i <= |str| && pd == i / 2
      invariant forall k :: 0 <= k < i ==> HexValue(str[k]) >= 0
      invariant forall k :: 0 <= k < pd ==> digest[k] == PairValue(str, k)
      invariant i % 2 == 1 ==> digest[pd] == 16 * HexValue(str[i - 1])
    {
      if i == |str| { return None; }
      var digit := HexValue(str[i]);
      if digit < 0 { return None; }
      if i % 2 == 0 {
        digest[pd] := 16 * digit;
      } else {
        digest[pd] := digest[pd] + digit;
        pd := pd + 1;
      }
      i := i + 1;
    }
    if i != |str| { return None; }
    assert HexText(str) && digest[..] == Parsed(str).value;
    return Some(digest[..]);
  }

  function HexDigit(v: int): (c: char)
    requires 0 <= v < 16
  {
    "0123456789abcdef"[v]
  }

  function Hex(d: bytes): (s: string)
    ensures |s| == 2 * |d|
  {
    seq(2 * |d|, i requires 0 <= i < 2 * |d| => if i % 2 == 0 then HexDigit(d[i / 2] / 16) else HexDigit(d[i / 2] % 16))
  }

  lemma HexDigitValue(v: int)
    requires 0 <= v < 16
    ensures HexValue(HexDigit(v)) == v
  {
  }

  lemma HexAt(d: bytes, i: nat)
    requires i < |d|
    ensures HexValue(Hex(d)[2 * i]) == d[i] / 16 && HexValue(Hex(d)[2 * i + 1]) == d[i] % 16
  {
    hide HexValue, HexDigit;
    HexDigitValue(d[i] / 16);
    HexDigitValue(d[i] % 16);
  }

  /** Every digest is the value of its hexadecimal text. */
  lemma HexRoundTrip(d: bytes)
    requires |d| == SHA_DIGEST_SIZE
    ensures Parsed(Hex(d)) == Some(d)
  {
    hide HexValue, HexDigit, Hex;
    var s := Hex(d);
    forall i | 0 <= i < |s|
      ensures HexValue(s[i]) >= 0
    {
      HexAt(d, i / 2);
    }
    assert HexText(s);
    forall i | 0 <= i < |d|
      ensures Parsed(s).value[i] == d[i]
    {
      HexAt(d, i);
    }
    assert Parsed(s).value == d;
  }

  /** The comment above `ParseSha1` allows a colon and more text after the digest; the program does not. */
  lemma NothingAfterDigest(d: bytes, rest: string)
    requires |d| == SHA_DIGEST_SIZE && rest != ""
    ensures Parsed(Hex(d) + rest) == None
  {
  }

  /** The first of the texts that stands for the digest. */
  ghost function FirstMatch(sha1: bytes, strs: seq<string>, i: nat): (r: Option<nat>)
    requires i <= |strs|
    ensures r.Some? ==> i <= r.value < |strs| && Parsed(strs[r.value]) == Some(sha1)
    ensures r.Some? ==> forall k :: i <= k < r.value ==> Parsed(strs[k]) != Some(sha1)
    ensures r.None? ==> forall k :: i <= k < |strs| ==> Parsed(strs[k]) != Some(sha1)
    decreases |strs| - i
  {
    if i == |strs| then None
    else if Parsed(strs[i]) == Some(sha1) then Some(i)
    else FirstMatch(sha1, strs, i + 1)
  }

  /** `FindMatchingPatch` */
  method FindMatchingPatch(sha1: bytes, strs: seq<string>) returns (r: Option<nat>)
    ensures r == FirstMatch(sha1, strs, 0)
  {
    hide Parsed;
    var i := 0;
    while i < |strs|
      invariant 0 <= i <= |strs| && FirstMatch(sha1, strs, i) == FirstMatch(sha1, strs, 0)
    {
      var p := ParseSha1(strs[i]);
      if p == Some(sha1) { return Some(i); }
      i := i + 1;
    }
    return None;
  }
}
