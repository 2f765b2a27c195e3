/** The alphabet and the test vectors of sections 4 and 10 of RFC 4648, written out. */
module Base64Answers {
  import opened Common
  import opened Base64

  const ALPHABET: string := "ABCDEFGHIJKLMNOPQRSTUVWXYZabcdefghijklmnopqrstuvwxyz0123456789+/"

  lemma Alphabet(v: nat)
    requires v < 64
    ensures |ALPHABET| == 64 && Digit(v) == ALPHABET[v] as int && PAD == '=' as int
  {
    hide ALPHABET;
    LastTwoSigns();
    if v < 26 { Upper(v); } else if v < 52 { Lower(v - 26); } else if v < 62 { Figures(v - 52); }
  }

  lemma Upper(k: nat)
    requires k < 26
    ensures |ALPHABET| == 64 && ALPHABET[k] as int == 'A' as int + k
  {
    assert ALPHABET[k] == "ABCDEFGHIJKLMNOPQRSTUVWXYZ"[k];
    if k < 8 {} else if k < 16 {} else {}
  }

  lemma Lower(k: nat)
    requires k < 26
    ensures |ALPHABET| == 64 && ALPHABET[26 + k] as int == 'a' as int + k
  {}

  lemma Figures(k: nat)
    requires k < 10
    ensures |ALPHABET| == 64 && ALPHABET[52 + k] as int == '0' as int + k
  {}

  lemma LastTwoSigns()
    ensures |ALPHABET| == 64 && ALPHABET[62] == '+' && ALPHABET[63] == '/'
  {}

  /** `f`, `fo` and `foo`. */
  lemma OneGroup()
    ensures Encode([0x66]) == [0x5A, 0x67, 0x3D, 0x3D]
    ensures Encode([0x66, 0x6F]) == [0x5A, 0x6D, 0x38, 0x3D]
    ensures Encode([0x66, 0x6F, 0x6F]) == [0x5A, 0x6D, 0x39, 0x76]
  {}

  /** `foob`, `fooba` and `foobar`, and the text of nothing. */
  lemma TwoGroups()
    ensures Encode([]) == []
    ensures Encode([0x66, 0x6F, 0x6F, 0x62]) == [0x5A, 0x6D, 0x39, 0x76, 0x59, 0x67, 0x3D, 0x3D]
    ensures Encode([0x66, 0x6F, 0x6F, 0x62, 0x61]) == [0x5A, 0x6D, 0x39, 0x76, 0x59, 0x6D, 0x45, 0x3D]
    ensures Encode([0x66, 0x6F, 0x6F, 0x62, 0x61, 0x72]) == [0x5A, 0x6D, 0x39, 0x76, 0x59, 0x6D, 0x46, 0x79]
  {
    hide EncodeGroup;
    OneGroup();
    LastGroups();
    Groups([0x66, 0x6F, 0x6F], [0x62]);
    Groups([0x66, 0x6F, 0x6F], [0x62, 0x61]);
    Groups([0x66, 0x6F, 0x6F], [0x62, 0x61, 0x72]);
    assert [0x66, 0x6F, 0x6F] + [0x62] == [0x66, 0x6F, 0x6F, 0x62];
    assert [0x66, 0x6F, 0x6F] + [0x62, 0x61] == [0x66, 0x6F, 0x6F, 0x62, 0x61];
    assert [0x66, 0x6F, 0x6F] + [0x62, 0x61, 0x72] == [0x66, 0x6F, 0x6F, 0x62, 0x61, 0x72];
  }

  lemma LastGroups()
    ensures Encode([0x62]) == [0x59, 0x67, 0x3D, 0x3D]
    ensures Encode([0x62, 0x61]) == [0x59, 0x6D, 0x45, 0x3D]
    ensures Encode([0x62, 0x61, 0x72]) == [0x59, 0x6D, 0x46, 0x79]
  {}

  lemma Groups(a: bytes, b: bytes)
    requires |a| == 3 && b != []
    ensures Encode(a + b) == Encode(a) + Encode(b)
  {
    hide EncodeGroup;
    assert (a + b)[..3] == a && (a + b)[3..] == b;
  }
}
