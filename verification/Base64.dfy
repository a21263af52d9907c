/** The mailer's base64 encoder, undone by a strict decoder written from section 4 of RFC 4648, and the
    subject line built from it. */
module Base64 {
  import opened Options

  type Byte = b: int | 0 <= b < 256

  const ROW0 := "ABCDEFGHIJKLMNOP"
  const ROW1 := "QRSTUVWXYZabcdef"
  const ROW2 := "ghijklmnopqrstuv"
  const ROW3 := "wxyz0123456789+/"
  const TABLE := ROW0 + ROW1 + ROW2 + ROW3

  /** Table 1 of RFC 4648. */
  function Letter(v: int): char
    requires 0 <= v < 64
  {
    if v < 26 then ('A' as int + v) as char
    else if v < 52 then ('a' as int + v - 26) as char
    else if v < 62 then ('0' as int + v - 52) as char
    else if v == 62 then '+'
    else '/'
  }

  lemma Row0Letters(v: int)
    requires 0 <= v < 16
    ensures ROW0[v] == Letter(v)
  {
  }

  lemma Row1Letters(v: int)
    requires 0 <= v < 16
    ensures ROW1[v] == Letter(v + 16)
  {
  }

  lemma Row2Letters(v: int)
    requires 0 <= v < 16
    ensures ROW2[v] == Letter(v + 32)
  {
  }

  lemma Row3Letters(v: int)
    requires 0 <= v < 16
    ensures ROW3[v] == Letter(v + 48)
  {
  }

  /** The mailer's table is the standard's. */
  lemma TableIsStandard(v: int)
    requires 0 <= v < 64
    ensures TABLE[v] == Letter(v)
  {
    if v < 16 { Row0Letters(v); }
    else if v < 32 { Row1Letters(v - 16); }
    else if v < 48 { Row2Letters(v - 32); }
    else { Row3Letters(v - 48); }
  }

  // ---- the encoder as a function ---------------------------------------------------------------------

  /** The 24-bit group of up to three bytes, zero-filled. */
  function Group(d: seq<Byte>): (n: int)
    requires |d| <= 3
    ensures 0 <= n < 0x100_0000
  {
    (if |d| > 0 then d[0] as int * 0x1_0000 else 0) + (if |d| > 1 then d[1] as int * 0x100 else 0)
    + (if |d| > 2 then d[2] as int else 0)
  }

  /** Digit k of the group, the most significant first. */
  function Sextet(n: int, k: nat): (v: int)
    requires k < 4
    ensures 0 <= v < 64
  {
    (if k == 0 then n / 0x4_0000 else if k == 1 then n / 0x1000 else if k == 2 then n / 0x40 else n) % 64
  }

  function Quad(d: seq<Byte>): (q: string)
    requires 1 <= |d| <= 3
  {
    var n := Group(d);
    [Letter(Sextet(n, 0)), Letter(Sextet(n, 1)),
     if |d| > 1 then Letter(Sextet(n, 2)) else '=',
     if |d| > 2 then Letter(Sextet(n, 3)) else '=']
  }

  function Encoded(d: seq<Byte>): string {
    if d == [] then ""
    else if |d| <= 3 then Quad(d)
    else Quad(d[..3]) + Encoded(d[3..])
  }

  // ---- the encoder as it runs ---------------------------------------------------------------------------

  const WORD := 0x1_0000_0000

  function Chunk(data: seq<Byte>, i: nat): (c: seq<Byte>)
    requires i < |data|
    ensures 1 <= |c| <= 3
  {
    data[i..if i + 3 <= |data| then i + 3 else |data|]
  }

  /** What remains to be written from byte i on. */
  function Rest(data: seq<Byte>, i: nat): string {
    if i < |data| then Encoded(data[i..]) else ""
  }

  /** The first three bytes from i, shifted into a 32-bit word; pad counts the missing ones. */
  method ReadGroup(data: seq<Byte>, i: nat) returns (n: int, pad: nat)
    requires i < |data|
    ensures n == Group(Chunk(data, i)) && pad == 3 - |Chunk(data, i)|
  {
    n, pad := 0, 0;
    ghost var chunk := Chunk(data, i);
    for j := 0 to 3
      invariant pad == (if j <= |chunk| then 0 else j - |chunk|)
      invariant j == 0 ==> n == 0
      invariant j == 1 ==> n == chunk[0] as int
      invariant j == 2 ==> n == chunk[0] as int * 0x100 + if |chunk| > 1 then chunk[1] as int else 0
      invariant j == 3 ==> n == Group(chunk)
    {
      n := n * 0x100 % WORD;
      if i + j < |data| {
        n := n + data[i + j] as int;
      } else {
        pad := pad + 1;
      }
    }
  }

  /** The four characters of a group, padded. */
  method WriteGroup(n: int, pad: nat, ghost chunk: seq<Byte>) returns (q: string)
    requires 1 <= |chunk| <= 3 && n == Group(chunk) && pad == 3 - |chunk|
    ensures q == Quad(chunk)
  {
    q := "";
    for k := 0 to 4
      invariant |q| == k
      invariant forall i | 0 <= i < k :: q[i] == if i < 4 - pad then Letter(Sextet(n, i)) else '='
    {
      if k < 4 - pad {
        TableIsStandard(Sextet(n, k));
        q := q + [TABLE[Sextet(n, k)]];
      } else {
        q := q + "=";
      }
    }
  }

  method Base64Encode(data: seq<Byte>) returns (out: string)
    ensures out == Encoded(data)
  {
    out := "";
    var i := 0;
    while i < |data|
      invariant 0 <= i
      invariant out + Rest(data, i) == Encoded(data)
    {
      var n, pad := ReadGroup(data, i);
      var q := WriteGroup(n, pad, Chunk(data, i));
      NextChunk(data, i);
      assert out + (q + Rest(data, i + 3)) == (out + q) + Rest(data, i + 3);
      out := out + q;
      i := i + 3;
    }
  }

  lemma NextChunk(data: seq<Byte>, i: nat)
    requires i < |data|
    ensures Rest(data, i) == Quad(Chunk(data, i)) + Rest(data, i + 3)
  {
    if i + 3 < |data| {
      assert data[i..][..3] == data[i..i + 3] && data[i..][3..] == data[i + 3..];
    } else {
      assert Chunk(data, i) == data[i..];
    }
  }

  // ---- a strict decoder, from section 4 of RFC 4648 ---------------------------------------------------------

  /** The value of a character of the base 64 alphabet. */
  function Value(c: char): (v: Option<int>)
    ensures v.Some? ==> 0 <= v.value < 64
  {
    if 'A' <= c <= 'Z' then Some(c as int - 'A' as int)
    else if 'a' <= c <= 'z' then Some(c as int - 'a' as int + 26)
    else if '0' <= c <= '9' then Some(c as int - '0' as int + 52)
    else if c == '+' then Some(62)
    else if c == '/' then Some(63)
    else None
  }

  function Digit(c: char): (v: int)
    ensures 0 <= v < 64
  {
    if Value(c).Some? then Value(c).value else 0
  }

  /** Four characters for n bytes: n + 1 of the alphabet, the rest padding. */
  predicate QuadShape(q: string, n: nat) {
    && 1 <= n <= 3 && |q| == 4
    && (forall i | 0 <= i <= n :: Value(q[i]).Some?)
    && (forall i | n < i < 4 :: q[i] == '=')
  }

  /** The 24-bit group of four digits; padding stands for zero bits. */
  function Word(q: string): (n: int)
    requires |q| == 4
    ensures 0 <= n < 0x100_0000
  {
    Digit(q[0]) * 0x4_0000 + Digit(q[1]) * 0x1000 + Digit(q[2]) * 0x40 + Digit(q[3])
  }

  function HighByte(n: int): Byte
    requires 0 <= n < 0x100_0000
  {
    n / 0x1_0000
  }

  function MiddleByte(n: int): Byte { n / 0x100 % 0x100 }

  function LowByte(n: int): Byte { n % 0x100 }

  /** Padding is allowed in the last four characters, and the bits it makes unused must be zero. */
  function DecodeQuad(q: string, last: bool): Option<seq<Byte>>
    requires |q| == 4
  {
    var n := Word(q);
    if QuadShape(q, 3) then Some([HighByte(n), MiddleByte(n), LowByte(n)])
    else if last && QuadShape(q, 2) && n % 0x100 == 0 then Some([HighByte(n), MiddleByte(n)])
    else if last && QuadShape(q, 1) && n % 0x1_0000 == 0 then Some([HighByte(n)])
    else None
  }

  function Decoded(s: string): Option<seq<Byte>> {
    if s == "" then Some([])
    else if |s| < 4 then None
    else if |s| == 4 then DecodeQuad(s, true)
    else
      var front := DecodeQuad(s[..4], false);
      var rest := Decoded(s[4..]);
      if front.Some? && rest.Some? then Some(front.value + rest.value) else None
  }

  // ---- the alphabet ---------------------------------------------------------------------------------------------

  lemma LetterValue(v: int)
    requires 0 <= v < 64
    ensures Value(Letter(v)) == Some(v)
  {
  }

  lemma ValueIsInjective(c: char, e: char)
    requires Value(c).Some? && Value(c) == Value(e)
    ensures c == e
  {
  }

  /** The decoder knows exactly the characters of the table. */
  lemma AlphabetIsTable(c: char)
    ensures Value(c).Some? <==> c in TABLE
  {
    if Value(c).Some? {
      var v := Value(c).value;
      LetterValue(v);
      ValueIsInjective(c, Letter(v));
      TableIsStandard(v);
      assert TABLE[v] == c;
    }
    if c in TABLE {
      var v :| 0 <= v < 64 && TABLE[v] == c;
      TableIsStandard(v);
      LetterValue(v);
    }
  }

  // ---- one group ---------------------------------------------------------------------------------------------------

  /** A group is the word of its digits. */
  lemma SextetsMakeGroup(n: int)
    requires 0 <= n < 0x100_0000
    ensures n == Sextet(n, 0) * 0x4_0000 + Sextet(n, 1) * 0x1000 + Sextet(n, 2) * 0x40 + Sextet(n, 3)
  {
    assert n / 0x40 / 0x40 == n / 0x1000 && n / 0x1000 / 0x40 == n / 0x4_0000;
  }

  /** Low zero bits of a group are zero digits. */
  lemma ZeroBits(n: int)
    requires 0 <= n < 0x100_0000
    ensures n % 0x100 == 0 ==> Sextet(n, 3) == 0
    ensures n % 0x1_0000 == 0 ==> Sextet(n, 3) == 0 && Sextet(n, 2) == 0
  {
    if n % 0x100 == 0 {
      var k := n / 0x100;
      assert n == 0x40 * (4 * k);
    }
    if n % 0x1_0000 == 0 {
      var k := n / 0x1_0000;
      assert n == 0x40 * (1024 * k);
      assert n / 0x40 == 0x40 * (16 * k);
    }
  }

  lemma SameDigits(v0: int, v1: int, v2: int, v3: int, w0: int, w1: int, w2: int, w3: int)
    requires 0 <= v0 < 64 && 0 <= v1 < 64 && 0 <= v2 < 64 && 0 <= v3 < 64
    requires 0 <= w0 < 64 && 0 <= w1 < 64 && 0 <= w2 < 64 && 0 <= w3 < 64
    requires v0 * 0x4_0000 + v1 * 0x1000 + v2 * 0x40 + v3 == w0 * 0x4_0000 + w1 * 0x1000 + w2 * 0x40 + w3
    ensures v0 == w0 && v1 == w1 && v2 == w2 && v3 == w3
  {
  }

  lemma BytesMakeGroup(n: int)
    requires 0 <= n < 0x100_0000
    ensures n == HighByte(n) as int * 0x1_0000 + MiddleByte(n) as int * 0x100 + LowByte(n) as int
  {
    assert n / 0x100 / 0x100 == n / 0x1_0000;
  }

  lemma BytesAreUnique(b0: int, b1: int, b2: int, c0: int, c1: int, c2: int)
    requires 0 <= b0 < 256 && 0 <= b1 < 256 && 0 <= b2 < 256 && 0 <= c0 < 256 && 0 <= c1 < 256 && 0 <= c2 < 256
    requires b0 * 0x1_0000 + b1 * 0x100 + b2 == c0 * 0x1_0000 + c1 * 0x100 + c2
    ensures b0 == c0 && b1 == c1 && b2 == c2
  {
  }

  lemma ZeroBytes(n: int)
    requires 0 <= n < 0x100_0000
    ensures n % 0x100 == 0 <==> LowByte(n) == 0
    ensures n % 0x1_0000 == 0 <==> LowByte(n) == 0 && MiddleByte(n) == 0
  {
    assert n % 0x1_0000 == n / 0x100 % 0x100 * 0x100 + n % 0x100;
  }

  lemma SameBytes(n: int, b0: int, b1: int, b2: int)
    requires 0 <= n < 0x100_0000 && 0 <= b0 < 256 && 0 <= b1 < 256 && 0 <= b2 < 256
    ensures n == b0 * 0x1_0000 + b1 * 0x100 + b2 <==> b0 == HighByte(n) && b1 == MiddleByte(n) && b2 == LowByte(n)
    ensures n % 0x100 == 0 <==> LowByte(n) == 0
    ensures n % 0x1_0000 == 0 <==> LowByte(n) == 0 && MiddleByte(n) == 0
  {
    ZeroBytes(n);
    var c0: int, c1: int, c2: int := HighByte(n), MiddleByte(n), LowByte(n);
    BytesMakeGroup(n);
    if n == b0 * 0x1_0000 + b1 * 0x100 + b2 { BytesAreUnique(b0, b1, b2, c0, c1, c2); }
  }

  /** q is four characters of the right shape whose word is the group of d. */
  predicate Spells(q: string, d: seq<Byte>) {
    QuadShape(q, |d|) && Word(q) == Group(d)
  }

  lemma QuadSpells(d: seq<Byte>)
    requires 1 <= |d| <= 3
    ensures Spells(Quad(d), d)
  {
    var n := Group(d);
    SextetsMakeGroup(n);
    ShortGroupHasZeros(d);
    LettersSpell(d, Quad(d), n, Sextet(n, 0), Sextet(n, 1), Sextet(n, 2), Sextet(n, 3));
  }

  lemma ShortGroupHasZeros(d: seq<Byte>)
    requires 1 <= |d| <= 3
    ensures (|d| < 3 ==> Sextet(Group(d), 3) == 0) && (|d| < 2 ==> Sextet(Group(d), 2) == 0)
  {
    var n := Group(d);
    assert |d| < 3 ==> n % 0x100 == 0;
    assert |d| < 2 ==> n % 0x1_0000 == 0;
    ZeroBits(n);
  }

  lemma LettersSpell(d: seq<Byte>, q: string, n: int, v0: int, v1: int, v2: int, v3: int)
    requires 1 <= |d| <= 3 && n == Group(d) && |q| == 4
    requires 0 <= v0 < 64 && 0 <= v1 < 64 && 0 <= v2 < 64 && 0 <= v3 < 64
    requires n == v0 * 0x4_0000 + v1 * 0x1000 + v2 * 0x40 + v3
    requires (|d| < 3 ==> v3 == 0) && (|d| < 2 ==> v2 == 0)
    requires q[0] == Letter(v0) && q[1] == Letter(v1)
    requires q[2] == (if |d| > 1 then Letter(v2) else '=') && q[3] == if |d| > 2 then Letter(v3) else '='
    ensures Spells(q, d)
  {
    LetterValue(v0);
    LetterValue(v1);
    LetterValue(v2);
    LetterValue(v3);
    EqualsIsNoDigit();
  }

  lemma SpellingIsUnique(q: string, p: string, d: seq<Byte>)
    requires Spells(q, d) && Spells(p, d)
    ensures q == p
  {
    SameDigits(Digit(q[0]), Digit(q[1]), Digit(q[2]), Digit(q[3]), Digit(p[0]), Digit(p[1]), Digit(p[2]), Digit(p[3]));
    forall i | 0 <= i < 4 ensures q[i] == p[i] {
      if i <= |d| { ValueIsInjective(q[i], p[i]); }
    }
  }

  lemma EqualsIsNoDigit()
    ensures Value('=') == None
  {
  }

  /** The decoder reads exactly the spellings, short ones only at the end. */
  lemma DecodedIffSpelt(q: string, d: seq<Byte>, last: bool)
    requires |q| == 4
    ensures DecodeQuad(q, last) == Some(d) <==> Spells(q, d) && (last || |d| == 3)
  {
    EqualsIsNoDigit();
    if 1 <= |d| <= 3 {
      SameBytes(Word(q), d[0], if |d| > 1 then d[1] else 0, if |d| > 2 then d[2] else 0);
    }
    if |d| == 1 { assert [d[0]] == d; }
    else if |d| == 2 { assert [d[0], d[1]] == d; }
    else if |d| == 3 { assert [d[0], d[1], d[2]] == d; }
  }

  lemma QuadRoundTrip(d: seq<Byte>, last: bool)
    requires 1 <= |d| <= 3 && (last || |d| == 3)
    ensures DecodeQuad(Quad(d), last) == Some(d)
  {
    QuadSpells(d);
    DecodedIffSpelt(Quad(d), d, last);
  }

  /** The decoder accepts nothing but what the encoder writes. */
  lemma QuadIsCanonical(q: string, last: bool)
    requires |q| == 4 && DecodeQuad(q, last).Some?
    ensures var d := DecodeQuad(q, last).value;
      1 <= |d| <= 3 && (last || |d| == 3) && Quad(d) == q
  {
    var d := DecodeQuad(q, last).value;
    DecodedIffSpelt(q, d, last);
    QuadSpells(d);
    SpellingIsUnique(q, Quad(d), d);
  }

  // ---- the theorems ----------------------------------------------------------------------------------------------

  /** Decoding undoes encoding, for every byte string. */
  lemma {:induction false} RoundTrip(d: seq<Byte>)
    ensures Decoded(Encoded(d)) == Some(d)
  {
    if 1 <= |d| <= 3 {
      QuadRoundTrip(d, true);
    } else if |d| > 3 {
      RoundTrip(d[3..]);
      QuadRoundTrip(d[..3], false);
      var q, rest := Quad(d[..3]), Encoded(d[3..]);
      assert (q + rest)[..4] == q && (q + rest)[4..] == rest;
      EncodedLength(d[3..]);
      assert d == d[..3] + d[3..];
    }
  }

  lemma {:induction false} EncodedLength(d: seq<Byte>)
    ensures |Encoded(d)| == 4 * ((|d| + 2) / 3)
  {
    if |d| > 3 {
      EncodedLength(d[3..]);
      assert (|d| - 3 + 2) / 3 == (|d| + 2) / 3 - 1;
    }
  }

  /** A string decodes to d exactly when it is the encoding of d. */
  lemma {:induction false} DecodedIffEncoded(s: string, d: seq<Byte>)
    ensures Decoded(s) == Some(d) <==> s == Encoded(d)
  {
    RoundTrip(d);
    if Decoded(s) == Some(d) { DecodedIsEncoding(s); }
  }

  lemma {:induction false} DecodedIsEncoding(s: string)
    requires Decoded(s).Some?
    ensures s == Encoded(Decoded(s).value)
  {
    if |s| == 4 {
      QuadIsCanonical(s, true);
    } else if |s| > 4 {
      QuadIsCanonical(s[..4], false);
      DecodedIsEncoding(s[4..]);
      var front, rest := DecodeQuad(s[..4], false).value, Decoded(s[4..]).value;
      assert (front + rest)[..3] == front && (front + rest)[3..] == rest;
      assert s == s[..4] + s[4..];
    }
  }

  function Padding(n: nat): nat { (3 - n % 3) % 3 }

  /** Digits of the alphabet, then pad signs '='. */
  predicate Shaped(e: string, pad: nat) {
    && pad <= |e|
    && (forall i | 0 <= i < |e| - pad :: Value(e[i]).Some?)
    && (forall i | |e| - pad <= i < |e| :: e[i] == '=')
  }

  lemma ShapesJoin(q: string, rest: string, pad: nat)
    requires Shaped(q, 0) && Shaped(rest, pad)
    ensures Shaped(q + rest, pad)
  {
  }

  lemma ChunkShape(d: seq<Byte>)
    requires 1 <= |d| <= 3
    ensures Shaped(Quad(d), 3 - |d|)
  {
    QuadSpells(d);
  }

  lemma PaddingRepeats(n: nat)
    ensures n >= 3 ==> Padding(n) == Padding(n - 3)
    ensures 1 <= n <= 3 ==> Padding(n) == 3 - n
  {
  }

  /** Four characters for every three bytes or part of three; the alphabet, then none to two '='. */
  lemma {:induction false} EncodedShape(d: seq<Byte>)
    ensures |Encoded(d)| == 4 * ((|d| + 2) / 3) && Shaped(Encoded(d), Padding(|d|)) && Padding(|d|) <= 2
  {
    EncodedLength(d);
    PaddingRepeats(|d|);
    if 1 <= |d| <= 3 {
      ChunkShape(d);
    } else if |d| > 3 {
      ChunkShape(d[..3]);
      EncodedShape(d[3..]);
      ShapesJoin(Quad(d[..3]), Encoded(d[3..]), Padding(|d| - 3));
    }
  }

  // ---- the subject line ----------------------------------------------------------------------------------------------

  predicate Ascii(b: Byte) { b <= 0x7F }

  /** A subject with a character above 0x7F, hence with such a byte, becomes an RFC 2047 encoded word. */
  method EncodeSubject(s: seq<Byte>) returns (out: string)
    ensures (forall i | 0 <= i < |s| :: s[i] < 128) ==>
              |out| == |s| && forall i | 0 <= i < |s| :: out[i] as int == s[i] as int
    ensures (exists i | 0 <= i < |s| :: s[i] >= 128) ==> out == "=?UTF-8?B?" + Encoded(s) + "?="
  {
    for i := 0 to |s|
      invariant forall j | 0 <= j < i :: Ascii(s[j])
    {
      if s[i] > 0x7F {
        var e := Base64Encode(s);
        return "=?UTF-8?B?" + e + "?=";
      }
    }
    return Chars(s);
  }

  function Chars(s: seq<Byte>): string { seq(|s|, i requires 0 <= i < |s| => s[i] as char) }
}
