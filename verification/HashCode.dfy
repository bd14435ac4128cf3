/** The hash code of the consistent-hash ring: where a string ends up on the ring. */
module HashCode {
  const WORD: int := 0x1_0000_0000
  const LONG: int := 0x1_0000_0000_0000_0000
  const CODES: int := 0x1_0000

  /** A digit of a lower-case hexadecimal string, as its character code. */
  predicate IsHexByte(b: int) {
    48 <= b <= 57 || 97 <= b <= 102
  }

  /** The 32 characters of an MD5 sum in hexadecimal. */
  type Digest = d: seq<int> | |d| == 32 && forall i :: 0 <= i < |d| ==> IsHexByte(d[i])
    witness seq(32, i => 48)

  /** Go's int holds 64 bits and wraps around. */
  function Wrap64(x: int): int {
    (x + LONG / 2) % LONG - LONG / 2
  }

  /** Or-ing a byte into a number whose low byte is empty. */
  function OrByte(h: int, b: int): int
    requires h % 256 == 0 && 0 <= b < 256
  {
    h + b
  }

  /** The number the bytes spell, the first the highest. */
  function Spelled(s: seq<int>): int {
    if s == [] then 0 else Spelled(s[..|s| - 1]) * 256 + s[|s| - 1]
  }

  /** The bytes of four characters, the first the highest. */
  function FourBytes(a: int, b: int, c: int, d: int): int {
    a * 0x100_0000 + b * 0x1_0000 + c * 0x100 + d
  }

  /** Where a digest is on the ring: the character codes of its last four digits. */
  function Position(d: Digest): int {
    FourBytes(d[28], d[29], d[30], d[31])
  }

  lemma WordsAgree(x: int, y: int, k: int)
    requires x == y + k * WORD
    ensures x % WORD == y % WORD
  {
  }

  lemma WrapIsFar(x: int) returns (k: int)
    ensures Wrap64(x) == x + k * LONG
  {
    k := -((x + LONG / 2) / LONG);
  }

  lemma WordIsFar(x: int, y: int) returns (d: int)
    requires x % WORD == y % WORD
    ensures x == y + d * WORD
  {
    d := x / WORD - y / WORD;
  }

  lemma Shifted(h: int, spelled: int, d: int, wrapped: int, k: int)
    requires h == spelled + d * WORD && wrapped == h * 256 + k * LONG
    ensures wrapped == spelled * 256 + (256 * d + k * WORD) * WORD
    ensures wrapped % 256 == 0
  {
    assert wrapped == (h + k * (LONG / 256)) * 256;
  }

  /** One turn of the loop: shifting empties the low byte, and wrapping around only loses high bits. */
  lemma TurnKeepsLow(h: int, spelled: int, b: int)
    requires h % WORD == spelled % WORD
    ensures Wrap64(h * 256) % 256 == 0
    ensures (Wrap64(h * 256) + b) % WORD == (spelled * 256 + b) % WORD
  {
    var wrapped := Wrap64(h * 256);
    var k := WrapIsFar(h * 256);
    var d := WordIsFar(h, spelled);
    Shifted(h, spelled, d, wrapped, k);
    WordsAgree(wrapped + b, spelled * 256 + b, 256 * d + k * WORD);
  }

  /** The loop: 32 shifts of a 64-bit integer, of which only the low 32 bits are kept. */
  method GetHashCode(digest: Digest) returns (code: int)
    ensures code == Position(digest)
  {
    var h := 0;
    for i := 0 to 32
      invariant h % WORD == Spelled(digest[..i]) % WORD
    {
      assert digest[..i + 1][..i] == digest[..i] && IsHexByte(digest[i]);
      TurnKeepsLow(h, Spelled(digest[..i]), digest[i]);
      h := Wrap64(h * 256);
      h := OrByte(h, digest[i] % 256);
    }
    assert digest[..32] == digest;
    LowWordIsPosition(digest);
    code := h % WORD;
  }

  lemma LowWordIsPosition(s: Digest)
    ensures Spelled(s) % WORD == Position(s)
  {
    SpelledEnding(s);
    WordsAgree(Spelled(s), Position(s), Spelled(s[..28]));
    assert IsHexByte(s[28]) && IsHexByte(s[29]) && IsHexByte(s[30]) && IsHexByte(s[31]);
  }

  lemma SpelledEnding(s: Digest)
    ensures Spelled(s) == Spelled(s[..28]) * WORD + Position(s)
  {
    assert s[..31][..30] == s[..30] && s[..30][..29] == s[..29] && s[..29][..28] == s[..28];
    assert Spelled(s) == Spelled(s[..31]) * 256 + s[31];
    assert Spelled(s[..31]) == Spelled(s[..30]) * 256 + s[30];
    assert Spelled(s[..30]) == Spelled(s[..29]) * 256 + s[29];
    assert Spelled(s[..29]) == Spelled(s[..28]) * 256 + s[28];
  }

  /** Two strings meet on the ring exactly when the last four digits of their digests agree. */
  lemma PositionExactly(d: Digest, e: Digest)
    ensures Position(d) == Position(e) <==> d[28..] == e[28..]
  {
    assert forall i :: 28 <= i < 32 ==>
      IsHexByte(d[i]) && IsHexByte(e[i]) && d[28..][i - 28] == d[i] && e[28..][i - 28] == e[i];
    if Position(d) == Position(e) {
      BytesDetermined(d[28], d[29], d[30], d[31], e[28], e[29], e[30], e[31]);
      assert d[28..] == e[28..];
    }
  }

  lemma BytesDetermined(a: int, b: int, c: int, d: int, a': int, b': int, c': int, d': int)
    requires 0 <= a < 256 && 0 <= b < 256 && 0 <= c < 256 && 0 <= d < 256
    requires 0 <= a' < 256 && 0 <= b' < 256 && 0 <= c' < 256 && 0 <= d' < 256
    requires FourBytes(a, b, c, d) == FourBytes(a', b', c', d')
    ensures a == a' && b == b' && c == c' && d == d'
  {
  }

  function HexByte(digit: int): int {
    if digit < 10 then digit + 48 else digit + 87
  }

  function Digit(b: int): int {
    if b <= 57 then b - 48 else b - 87
  }

  /** The position of one of the 65536 four-digit endings. */
  function Ending(c: int): int {
    FourBytes(HexByte(c / 4096), HexByte(c / 256 % 16), HexByte(c / 16 % 16), HexByte(c % 16))
  }

  function Endings(n: nat): set<int> {
    set c | 0 <= c < n :: Ending(c)
  }

  lemma SixteenBits(a: int, b: int, c: int, d: int) returns (code: int)
    requires 0 <= a < 16 && 0 <= b < 16 && 0 <= c < 16 && 0 <= d < 16
    ensures 0 <= code < CODES && code / 4096 == a && code / 256 % 16 == b && code / 16 % 16 == c && code % 16 == d
  {
    code := a * 4096 + b * 256 + c * 16 + d;
    assert code / 256 == a * 16 + b;
    assert code / 16 == a * 256 + b * 16 + c;
  }

  lemma PositionIsEnding(d: Digest)
    ensures Position(d) in Endings(CODES)
  {
    assert IsHexByte(d[28]) && IsHexByte(d[29]) && IsHexByte(d[30]) && IsHexByte(d[31]);
    var code := SixteenBits(Digit(d[28]), Digit(d[29]), Digit(d[30]), Digit(d[31]));
    assert Ending(code) == Position(d);
  }

  lemma EndingsNext(n: nat)
    ensures Endings(n + 1) == Endings(n) + {Ending(n)}
  {
  }

  lemma {:induction false} EndingsSize(n: nat)
    ensures |Endings(n)| <= n
  {
    if n > 0 {
      EndingsSize(n - 1);
      EndingsNext(n - 1);
    }
  }

  lemma {:induction false} SubsetSize<T>(a: set<T>, b: set<T>)
    requires a <= b
    ensures |a| <= |b|
  {
    if a != {} {
      var x :| x in a;
      SubsetSize(a - {x}, b - {x});
    }
  }

  function Positions(digests: seq<Digest>): set<int> {
    set d | d in digests :: Position(d)
  }

  /** However many virtual nodes are added, they share 65536 positions of the 2^32 a hash code has room for. */
  lemma PositionsAreFew(digests: seq<Digest>)
    ensures |Positions(digests)| <= CODES
  {
    forall d | d in digests ensures Position(d) in Endings(CODES) {
      PositionIsEnding(d);
    }
    SubsetSize(Positions(digests), Endings(CODES));
    EndingsSize(CODES);
  }
}
