/** Machine-level values shared by the web server and the sensor code: bytes,
    32-bit words and their little-endian layout in memory (the ESP32 is a
    little-endian core, so a `uint32_t` array reinterpreted as `uint8_t *`
    yields the low byte of each word first). */
module Wire {

  newtype u8 = x: int | 0 <= x < 0x100
  newtype u32 = x: int | 0 <= x < 0x1_0000_0000

  /** The four bytes of one word, lowest first. */
  function WordBytes(w: u32): (b: seq<u8>)
    ensures |b| == 4
  {
    var x := w as int;
    [(x % 0x100) as u8, (x / 0x100 % 0x100) as u8,
     (x / 0x1_0000 % 0x100) as u8, (x / 0x100_0000) as u8]
  }

  /** The word whose little-endian layout is `b`. */
  function BytesWord(b: seq<u8>): (w: u32)
    requires |b| == 4
    ensures w as int % 0x100 == b[0] as int
    ensures w as int / 0x100_0000 == b[3] as int
  {
    (b[0] as int + 0x100 * b[1] as int + 0x1_0000 * b[2] as int + 0x100_0000 * b[3] as int) as u32
  }

  /** Division by a power of two is fixed by a quotient and a remainder below the divisor. */
  lemma DivModByte(x: int, q: int, r: int)
    requires 0 <= r < 0x100 && x == 0x100 * q + r
    ensures x / 0x100 == q && x % 0x100 == r
  {
  }

  lemma DivModHalf(x: int, q: int, r: int)
    requires 0 <= r < 0x1_0000 && x == 0x1_0000 * q + r
    ensures x / 0x1_0000 == q
  {
  }

  lemma DivModThreeBytes(x: int, q: int, r: int)
    requires 0 <= r < 0x100_0000 && x == 0x100_0000 * q + r
    ensures x / 0x100_0000 == q
  {
  }

  lemma WordRoundTrip(w: u32)
    ensures BytesWord(WordBytes(w)) == w
  {
    var x := w as int;
    var c0, c1, c2, c3 := x % 0x100, x / 0x100 % 0x100, x / 0x1_0000 % 0x100, x / 0x100_0000;
    var x1 := x / 0x100;
    DivModByte(x, x1, c0);
    var x2 := x1 / 0x100;
    DivModByte(x1, x2, x1 % 0x100);
    DivModHalf(x, x2, c0 + 0x100 * c1);
    var x3 := x2 / 0x100;
    DivModByte(x2, x3, c2);
    DivModThreeBytes(x, x3, c0 + 0x100 * c1 + 0x1_0000 * c2);
    assert x == c0 + 0x100 * c1 + 0x1_0000 * c2 + 0x100_0000 * c3;
  }

  /** A `uint32_t` array as the bytes it occupies in memory. */
  function WordsBytes(ws: seq<u32>): (b: seq<u8>)
    ensures |b| == 4 * |ws|
  {
    if ws == [] then [] else WordBytes(ws[0]) + WordsBytes(ws[1..])
  }

  /** The words stored in a byte buffer whose length is a multiple of four. */
  function BytesWords(b: seq<u8>): (ws: seq<u32>)
    requires |b| % 4 == 0
    ensures 4 * |ws| == |b|
  {
    if b == [] then [] else [BytesWord(b[..4])] + BytesWords(b[4..])
  }

  lemma {:induction false} WordsRoundTrip(ws: seq<u32>)
    ensures BytesWords(WordsBytes(ws)) == ws
  {
    if ws != [] {
      var b := WordsBytes(ws);
      assert b[..4] == WordBytes(ws[0]);
      assert b[4..] == WordsBytes(ws[1..]);
      WordRoundTrip(ws[0]);
      WordsRoundTrip(ws[1..]);
    }
  }

  /** A character a C `char` can hold. */
  predicate IsByteChar(c: char) { c as int < 0x100 }

  predicate IsByteText(s: string) { forall i :: 0 <= i < |s| ==> IsByteChar(s[i]) }

  /** A prefix of byte text is byte text. */
  lemma ByteTextOfPrefix(p: string, s: string)
    requires IsByteText(s) && p <= s
    ensures IsByteText(p)
  {
    forall i | 0 <= i < |p| ensures IsByteChar(p[i]) { assert p[i] == s[i]; }
  }

  /** The bytes of a C text, one per `char`. */
  function TextBytes(s: string): (b: seq<u8>)
    requires IsByteText(s)
    ensures |b| == |s|
    ensures forall i :: 0 <= i < |s| ==> b[i] as int == s[i] as int
  {
    seq(|s|, i requires 0 <= i < |s| => s[i] as int as u8)
  }
}
