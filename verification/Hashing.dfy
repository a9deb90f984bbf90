/**
 SHA-256 as an arbitrary function on texts. Two facts about it are ever used, always as explicit
 premises: its results are 64 hexadecimal digits, and the finitely many texts that a computation
 hashes do not collide.
 */
module Hashing {

  type Hash = string -> string

  predicate IsHexChar(c: char) {
    '0' <= c <= '9' || 'a' <= c <= 'f' || 'A' <= c <= 'F'
  }

  /** `isHexDigest`: 64 hexadecimal digits in either case. */
  predicate IsHexDigest(s: string) {
    |s| == 64 && forall i :: 0 <= i < |s| ==> IsHexChar(s[i])
  }

  /** Spelled out: 64 characters from 0-9, a-f and A-F. */
  lemma DigestSpelledOut(s: string)
    ensures IsHexDigest(s) <==> |s| == 64 && forall i :: 0 <= i < |s| ==> s[i] in "0123456789abcdefABCDEF"
  {
    forall i | 0 <= i < |s|
      ensures IsHexChar(s[i]) <==> s[i] in "0123456789abcdefABCDEF"
    {
      HexCharSpelledOut(s[i]);
    }
  }

  lemma HexCharSpelledOut(c: char)
    ensures IsHexChar(c) <==> c in "0123456789abcdefABCDEF"
  {
    var digits := "0123456789abcdefABCDEF";
    if '0' <= c <= '9' {
      assert digits[c as int - 48] == c;
    } else if 'a' <= c <= 'f' {
      assert digits[c as int - 87] == c;
    } else if 'A' <= c <= 'F' {
      assert digits[c as int - 49] == c;
    }
  }

  ghost predicate YieldsDigests(h: Hash) {
    forall s :: IsHexDigest(h(s))
  }

  ghost predicate CollisionFree(h: Hash, texts: set<string>) {
    forall a, b :: a in texts && b in texts && h(a) == h(b) ==> a == b
  }

  predicate AllDigests(s: seq<string>) {
    forall i :: 0 <= i < |s| ==> IsHexDigest(s[i])
  }
}
