/** The text of an input key: 32 bytes in unpadded base64url behind a prefix, in one spelling only. */
module InputKeys {
  import opened Wrappers
  import opened Bytes
  import opened FileNames
  import opened Json
  import opened Messages

  type Sextet = s: int | 0 <= s < 64

  /** The character of a sextet, in the URL-safe alphabet of RFC 4648, section 5. */
  function Character(s: Sextet): CodeUnit {
    if s < 26 then 0x41 + s
    else if s < 52 then 0x61 + s - 26
    else if s < 62 then 0x30 + s - 52
    else if s == 62 then 0x2d
    else 0x5f
  }

  function SextetOf(u: CodeUnit): Sextet
    requires IsBase64Url(u)
  {
    if 0x41 <= u <= 0x5a then u - 0x41
    else if 0x61 <= u <= 0x7a then u - 0x61 + 26
    else if 0x30 <= u <= 0x39 then u - 0x30 + 52
    else if u == 0x2d then 62
    else 63
  }

  const UPPER := "ABCDEFGHIJKLMNOPQRSTUVWXYZ"
  const LOWER := "abcdefghijklmnopqrstuvwxyz"
  const ALPHABET := UPPER + LOWER + "0123456789-_"

  lemma LettersInOrder(k: nat)
    requires k < 26
    ensures UPPER[k] as int == 'A' as int + k && LOWER[k] as int == 'a' as int + k
  {
  }

  /** A sextet is written as the character at its place in the alphabet. */
  lemma CharacterIsPlace(s: Sextet)
    ensures |ALPHABET| == 64 && Character(s) == ALPHABET[s] as int
  {
    if s < 26 {
      assert ALPHABET[s] == UPPER[s];
      LettersInOrder(s);
    } else if s < 52 {
      assert ALPHABET[s] == LOWER[s - 26];
      LettersInOrder(s - 26);
    } else {
      assert ALPHABET[s] == "0123456789-_"[s - 52];
    }
  }

  lemma CharactersAreSextets(s: Sextet, u: CodeUnit)
    ensures IsBase64Url(Character(s)) && SextetOf(Character(s)) == s
    ensures IsBase64Url(u) ==> Character(SextetOf(u)) == u
  {
  }

  // ---------------------------------------------------------------- groups of three bytes

  function FirstSextet(a: byte): Sextet {
    a / 4
  }

  function SecondSextet(a: byte, b: byte): Sextet {
    a as int % 4 * 16 + b as int / 16
  }

  function ThirdSextet(b: byte, c: byte): Sextet {
    b as int % 16 * 4 + c as int / 64
  }

  function FourthSextet(c: byte): Sextet {
    c as int % 64
  }

  function FirstByte(s: Sextet, t: Sextet): byte {
    s as int * 4 + t as int / 16
  }

  function SecondByte(s: Sextet, t: Sextet): byte {
    s as int % 16 * 16 + t as int / 4
  }

  function ThirdByte(s: Sextet, t: Sextet): byte {
    s as int % 4 * 64 + t as int
  }

  lemma BytesBack(a: byte, b: byte, c: byte)
    ensures FirstByte(FirstSextet(a), SecondSextet(a, b)) == a
    ensures SecondByte(SecondSextet(a, b), ThirdSextet(b, c)) == b
    ensures ThirdByte(ThirdSextet(b, c), FourthSextet(c)) == c
  {
  }

  lemma SextetsBack(s: Sextet, t: Sextet, u: Sextet, v: Sextet)
    ensures FirstSextet(FirstByte(s, t)) == s
    ensures SecondSextet(FirstByte(s, t), SecondByte(t, u)) == t
    ensures ThirdSextet(SecondByte(t, u), ThirdByte(u, v)) == u
    ensures FourthSextet(ThirdByte(u, v)) == v
    ensures ThirdSextet(SecondByte(t, u), 0) == u <==> LowBitsClear(u)
  {
  }

  /** The two bits of the last character that carry no data. */
  predicate LowBitsClear(s: Sextet) {
    s as int % 4 == 0
  }

  /** Base64 of whole groups, and of two bytes left over. */
  function Encode(bytes: Blob): (sextets: seq<Sextet>)
    requires |bytes| % 3 != 1
  {
    if |bytes| == 0 then []
    else if |bytes| == 2 then [FirstSextet(bytes[0]), SecondSextet(bytes[0], bytes[1]), ThirdSextet(bytes[1], 0)]
    else
      [FirstSextet(bytes[0]), SecondSextet(bytes[0], bytes[1]), ThirdSextet(bytes[1], bytes[2]), FourthSextet(bytes[2])]
      + Encode(bytes[3..])
  }

  /** The reader ignores the low bits of the last of three characters left over. */
  function Decode(sextets: seq<Sextet>): (bytes: Blob)
    requires |sextets| % 4 == 0 || |sextets| % 4 == 3
  {
    if |sextets| == 0 then []
    else if |sextets| == 3 then [FirstByte(sextets[0], sextets[1]), SecondByte(sextets[1], sextets[2])]
    else
      [FirstByte(sextets[0], sextets[1]), SecondByte(sextets[1], sextets[2]), ThirdByte(sextets[2], sextets[3])]
      + Decode(sextets[4..])
  }

  lemma {:induction false} EncodeLength(bytes: Blob)
    requires |bytes| % 3 != 1
    ensures |Encode(bytes)| == |bytes| / 3 * 4 + if |bytes| % 3 == 2 then 3 else 0
  {
    if |bytes| > 2 {
      EncodeLength(bytes[3..]);
    }
  }

  lemma {:induction false} DecodeLength(sextets: seq<Sextet>)
    requires |sextets| % 4 == 0 || |sextets| % 4 == 3
    ensures |Decode(sextets)| == |sextets| / 4 * 3 + if |sextets| % 4 == 3 then 2 else 0
  {
    if |sextets| > 3 {
      DecodeLength(sextets[4..]);
    }
  }

  /** The number that sextets write in base 64, the first the most significant. */
  function NumberOfSextets(sextets: seq<Sextet>): nat {
    if |sextets| == 0 then 0 else NumberOfSextets(sextets[..|sextets| - 1]) * 64 + sextets[|sextets| - 1]
  }

  function PowerOf64(n: nat): nat {
    if n == 0 then 1 else 64 * PowerOf64(n - 1)
  }

  lemma {:induction false} SextetsJoined(a: seq<Sextet>, b: seq<Sextet>)
    ensures NumberOfSextets(a + b) == NumberOfSextets(a) * PowerOf64(|b|) + NumberOfSextets(b)
  {
    if |b| == 0 {
      assert a + b == a;
    } else {
      var front, last := b[..|b| - 1], b[|b| - 1];
      SextetsJoined(a, front);
      assert a + b == (a + front) + [last];
      assert (a + b)[..|a + b| - 1] == a + front;
      ScaledBy64(NumberOfSextets(a), PowerOf64(|front|), NumberOfSextets(front), last);
    }
  }

  lemma ScaledBy64(x: nat, p: nat, y: nat, z: nat)
    ensures (x * p + y) * 64 + z == x * (64 * p) + (y * 64 + z)
  {
  }

  lemma FourSextets(s: Sextet, t: Sextet, u: Sextet, v: Sextet)
    ensures NumberOfSextets([s, t, u, v]) == ((s * 64 + t) * 64 + u) * 64 + v
    ensures NumberOfSextets([s, t, u]) == (s * 64 + t) * 64 + u
  {
    var one, two, three, four := [s], [s, t], [s, t, u], [s, t, u, v];
    assert four[..3] == three && three[..2] == two && two[..1] == one && one[..0] == [];
    assert NumberOfSextets(one) == s;
    assert NumberOfSextets(two) == s * 64 + t;
    assert NumberOfSextets(three) == (s * 64 + t) * 64 + u;
  }

  lemma ThreeBytes(a: byte, b: byte, c: byte)
    ensures NumberOfBytes([a, b, c]) == (a as nat * 256 + b as nat) * 256 + c as nat
    ensures NumberOfBytes([a, b]) == a as nat * 256 + b as nat
  {
    var one, two, three := [a], [a, b], [a, b, c];
    assert three[..2] == two && two[..1] == one && one[..0] == [];
    assert NumberOfBytes(one) == a as nat;
    assert NumberOfBytes(two) == a as nat * 256 + b as nat;
  }

  /** Four sextets are three bytes, and three of them two bytes and two bits. */
  lemma {:induction false} PowersAgree(bytes: Blob)
    requires |bytes| % 3 != 1
    ensures PowerOf64(|Encode(bytes)|) == PowerOf256(|bytes|) * Scale(bytes)
  {
    if |bytes| == 2 {
      assert PowerOf64(3) == 262144 && PowerOf256(2) == 65536;
    } else if |bytes| > 2 {
      PowersAgree(bytes[3..]);
      var n, k := |Encode(bytes[3..])|, |bytes[3..]|;
      assert PowerOf64(n + 4) == 64 * (64 * (64 * (64 * PowerOf64(n)))) by {
        assert PowerOf64(n + 2) == 64 * (64 * PowerOf64(n));
      }
      assert PowerOf256(k + 3) == 256 * (256 * (256 * PowerOf256(k))) by {
        assert PowerOf256(k + 1) == 256 * PowerOf256(k);
      }
    }
  }

  lemma GroupNumber(a: byte, b: byte, c: byte)
    ensures NumberOfSextets([FirstSextet(a), SecondSextet(a, b), ThirdSextet(b, c), FourthSextet(c)]) == NumberOfBytes([a, b, c])
    ensures NumberOfSextets([FirstSextet(a), SecondSextet(a, b), ThirdSextet(b, 0)]) == NumberOfBytes([a, b]) * 4
  {
    FourSextets(FirstSextet(a), SecondSextet(a, b), ThirdSextet(b, c), FourthSextet(c));
    FourSextets(FirstSextet(a), SecondSextet(a, b), ThirdSextet(b, 0), 0);
    ThreeBytes(a, b, c);
    hide NumberOfSextets, NumberOfBytes;
  }

  function Scale(bytes: Blob): nat {
    if |bytes| % 3 == 2 then 4 else 1
  }

  lemma MoreGroups(a: byte, b: byte, c: byte, rest: Blob)
    requires |rest| % 3 != 1 && NumberOfSextets(Encode(rest)) == NumberOfBytes(rest) * Scale(rest)
    requires PowerOf64(|Encode(rest)|) == PowerOf256(|rest|) * Scale(rest)
    ensures NumberOfSextets(Encode([a, b, c] + rest)) == NumberOfBytes([a, b, c] + rest) * Scale(rest)
  {
    hide *;
    var group := [FirstSextet(a), SecondSextet(a, b), ThirdSextet(b, c), FourthSextet(c)];
    EncodesGroup(a, b, c, rest);
    GroupNumber(a, b, c);
    NumberOfJoined([a, b, c], rest);
    SextetsJoined(group, Encode(rest));
    Distributes(NumberOfBytes([a, b, c]), PowerOf256(|rest|), Scale(rest), NumberOfBytes(rest));
  }

  lemma FewBytes(bytes: Blob)
    requires |bytes| == 0 || |bytes| == 2
    ensures NumberOfSextets(Encode(bytes)) == NumberOfBytes(bytes) * Scale(bytes)
  {
    if |bytes| == 2 {
      GroupNumber(bytes[0], bytes[1], 0);
      assert bytes == [bytes[0], bytes[1]];
    }
  }

  lemma ScaleStays(bytes: Blob)
    requires |bytes| > 2
    ensures Scale(bytes[3..]) == Scale(bytes) && |bytes[3..]| % 3 == |bytes| % 3
  {
  }

  /** Big-endian: the sextets write the number that the bytes do, with two clear bits behind two bytes left over. */
  lemma {:induction false} EncodeNumber(bytes: Blob)
    requires |bytes| % 3 != 1
    ensures NumberOfSextets(Encode(bytes)) == NumberOfBytes(bytes) * Scale(bytes)
  {
    hide *;
    if |bytes| <= 2 {
      FewBytes(bytes);
    } else {
      var rest := bytes[3..];
      ScaleStays(bytes);
      EncodeNumber(rest);
      PowersAgree(rest);
      assert bytes == [bytes[0], bytes[1], bytes[2]] + rest;
      MoreGroups(bytes[0], bytes[1], bytes[2], rest);
    }
  }

  lemma Distributes(x: nat, p: nat, scale: nat, y: nat)
    ensures x * (p * scale) + y * scale == (x * p + y) * scale
  {
  }

  lemma EncodesGroup(a: byte, b: byte, c: byte, rest: Blob)
    requires |rest| % 3 != 1
    ensures Encode([a, b, c] + rest) == [FirstSextet(a), SecondSextet(a, b), ThirdSextet(b, c), FourthSextet(c)] + Encode(rest)
  {
    assert ([a, b, c] + rest)[3..] == rest;
  }

  lemma DecodesGroup(s: Sextet, t: Sextet, u: Sextet, v: Sextet, rest: seq<Sextet>)
    requires |rest| % 4 == 0 || |rest| % 4 == 3
    ensures Decode([s, t, u, v] + rest) == [FirstByte(s, t), SecondByte(t, u), ThirdByte(u, v)] + Decode(rest)
  {
    assert ([s, t, u, v] + rest)[4..] == rest;
  }

  lemma DecodesEncodedEnd(bytes: Blob)
    requires |bytes| == 0 || |bytes| == 2
    ensures (|Encode(bytes)| == 0 || |Encode(bytes)| == 3) && Decode(Encode(bytes)) == bytes
  {
    if |bytes| == 2 {
      BytesBack(bytes[0], bytes[1], 0);
    }
  }

  lemma {:induction false} DecodeEncode(bytes: Blob)
    requires |bytes| % 3 != 1
    ensures (|Encode(bytes)| % 4 == 0 || |Encode(bytes)| % 4 == 3) && Decode(Encode(bytes)) == bytes
  {
    hide *;
    if |bytes| <= 2 {
      DecodesEncodedEnd(bytes);
    } else {
      var a, b, c, rest := bytes[0], bytes[1], bytes[2], bytes[3..];
      assert bytes == [a, b, c] + rest;
      DecodeEncode(rest);
      EncodesGroup(a, b, c, rest);
      DecodesGroup(FirstSextet(a), SecondSextet(a, b), ThirdSextet(b, c), FourthSextet(c), Encode(rest));
      BytesBack(a, b, c);
    }
  }

  lemma EncodesDecodedEnd(sextets: seq<Sextet>)
    requires |sextets| == 3
    ensures |Decode(sextets)| == 2 && (Encode(Decode(sextets)) == sextets <==> LowBitsClear(sextets[2]))
  {
    SextetsBack(sextets[0], sextets[1], sextets[2], 0);
    hide FirstByte, SecondByte, FirstSextet, SecondSextet, ThirdSextet, LowBitsClear;
  }

  /** Encoding what was decoded gives the same text exactly when the bits without data are clear. */
  lemma {:induction false} EncodeDecode(sextets: seq<Sextet>)
    requires |sextets| % 4 == 3
    ensures |Decode(sextets)| % 3 == 2
    ensures Encode(Decode(sextets)) == sextets <==> LowBitsClear(sextets[|sextets| - 1])
  {
    hide *;
    if |sextets| == 3 {
      EncodesDecodedEnd(sextets);
    } else {
      var s, t, u, v, rest := sextets[0], sextets[1], sextets[2], sextets[3], sextets[4..];
      assert sextets == [s, t, u, v] + rest && rest[|rest| - 1] == sextets[|sextets| - 1];
      EncodeDecode(rest);
      DecodesGroup(s, t, u, v, rest);
      EncodesGroup(FirstByte(s, t), SecondByte(t, u), ThirdByte(u, v), Decode(rest));
      SextetsBack(s, t, u, v);
      SameTail([s, t, u, v], Encode(Decode(rest)), rest);
    }
  }

  lemma SameTail(head: seq<Sextet>, a: seq<Sextet>, b: seq<Sextet>)
    ensures head + a == head + b <==> a == b
  {
    if head + a == head + b {
      assert a == (head + a)[|head|..] == (head + b)[|head|..] == b;
    }
  }

  // ---------------------------------------------------------------- keys

  function Characters(sextets: seq<Sextet>): (t: Text)
    ensures |t| == |sextets| && forall i :: 0 <= i < |sextets| ==> t[i] == Character(sextets[i])
  {
    seq(|sextets|, i requires 0 <= i < |sextets| => Character(sextets[i]))
  }

  function Sextets(t: Text): (sextets: seq<Sextet>)
    requires AllBase64Url(t)
    ensures |sextets| == |t| && forall i :: 0 <= i < |t| ==> sextets[i] == SextetOf(t[i])
  {
    seq(|t|, i requires 0 <= i < |t| => SextetOf(t[i]))
  }

  lemma CharactersBack(sextets: seq<Sextet>, t: Text)
    ensures AllBase64Url(Characters(sextets)) && Sextets(Characters(sextets)) == sextets
    ensures AllBase64Url(t) ==> Characters(Sextets(t)) == t
  {
    forall i | 0 <= i < |sextets|
      ensures IsBase64Url(Characters(sextets)[i]) && SextetOf(Characters(sextets)[i]) == sextets[i]
    {
      CharactersAreSextets(sextets[i], 0);
    }
    if AllBase64Url(t) {
      forall i | 0 <= i < |t|
        ensures Characters(Sextets(t))[i] == t[i]
      {
        CharactersAreSextets(0, t[i]);
      }
    }
  }

  /** Unpadded base64url of 32 bytes. */
  function Base64UrlEncode(bytes: Blob): Text
    requires |bytes| == 32
  {
    Characters(Encode(bytes))
  }

  /** Reads 43 characters, and refuses a spelling it would not write itself. */
  function Base64UrlDecode(t: Text): Option<Blob> {
    if |t| != 43 || !AllBase64Url(t) then None
    else
      var bytes := Decode(Sextets(t));
      if |bytes| != 32 || Base64UrlEncode(bytes) != t then None else Some(bytes)
  }

  function KeyPrefix(): Text {
    Ascii("wbk1_")
  }

  function ParseInputKey(t: Text): Option<Blob> {
    if !StartsWith(t, KeyPrefix()) then None else Base64UrlDecode(t[|KeyPrefix()|..])
  }

  lemma DecodesWhen(t: Text)
    requires |t| == 43 && AllBase64Url(t)
    ensures Base64UrlDecode(t).Some? <==> LowBitsClear(SextetOf(t[42]))
  {
    var sextets := Sextets(t);
    DecodeLength(sextets);
    EncodeDecode(sextets);
    hide Decode, Encode, SextetOf, LowBitsClear;
    CharactersBack(Encode(Decode(sextets)), t);
    CharactersBack(sextets, t);
  }

  /** The sixteen characters whose two low bits are clear. */
  lemma LastCharacters(u: CodeUnit)
    ensures u in Ascii("AEIMQUYcgkosw048") <==> IsBase64Url(u) && LowBitsClear(SextetOf(u))
  {
    var ends := Ascii("AEIMQUYcgkosw048");
    assert ends[0] == 0x41 && ends[1] == 0x45 && ends[2] == 0x49 && ends[3] == 0x4d && ends[4] == 0x51 && ends[5] == 0x55
        && ends[6] == 0x59 && ends[7] == 0x63 && ends[8] == 0x67 && ends[9] == 0x6b && ends[10] == 0x6f && ends[11] == 0x73
        && ends[12] == 0x77 && ends[13] == 0x30 && ends[14] == 0x34 && ends[15] == 0x38;
    hide Ascii;
  }

  /** Twenty-two characters hold sixteen bytes and four bits, and the test for an id is that those four are clear. */
  lemma CanonicalIds(t: Text)
    ensures IsCanonicalId(t) <==> |t| == 22 && AllBase64Url(t) && SextetOf(t[21]) % 16 == 0
  {
    if |t| == 22 && AllBase64Url(t) {
      var ends := Ascii("AQgw");
      assert ends[0] == 0x41 && ends[1] == 0x51 && ends[2] == 0x67 && ends[3] == 0x77;
      hide Ascii;
    }
  }

  /**
   The message reader's test for a key, made on the text alone, accepts exactly the texts that parse. And a key that
   is written parses to its bytes.
   */
  lemma CanonicalKeysParse(t: Text)
    ensures IsCanonicalKey(t) <==> ParseInputKey(t).Some?
  {
    assert |KeyPrefix()| == 5;
    if StartsWith(t, KeyPrefix()) && |t| == 48 && AllBase64Url(t[5..]) {
      DecodesWhen(t[5..]);
      LastCharacters(t[47]);
    }
  }

  lemma WrittenKeysParse(bytes: Blob)
    requires |bytes| == 32
    ensures ParseInputKey(KeyPrefix() + Base64UrlEncode(bytes)) == Some(bytes)
  {
    EncodeLength(bytes);
    DecodeEncode(bytes);
    CharactersBack(Encode(bytes), []);
    var t := KeyPrefix() + Base64UrlEncode(bytes);
    hide Encode, Decode, Ascii;
    assert t[|KeyPrefix()|..] == Base64UrlEncode(bytes);
  }
}
