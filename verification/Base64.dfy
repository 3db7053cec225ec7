/**
 Base64 without a library: an encoder over three-byte chunks and two decoders
 that shift six bits at a time through a 32-bit accumulator which is never
 cleared and wraps.

 The independent reading groups the text: four sextets are three bytes
 (sections 4 and 5 of RFC 4648). Text is a `string` whose characters stand for
 the bytes of the source's `&str`.
 */
module Base64 {
  import opened Wrappers

  type Byte = b: int | 0 <= b < 256
  type Sextet = v: int | 0 <= v < 64

  /** The two alphabets differ in their last two characters. */
  datatype Alphabet = Std | Url

  function Letter(a: Alphabet, v: int): char
    requires 0 <= v < 64
  {
    if v < 26 then 'A' + v as char
    else if v < 52 then 'a' + (v - 26) as char
    else if v < 62 then '0' + (v - 52) as char
    else if v == 62 then (if a == Std then '+' else '-')
    else (if a == Std then '/' else '_')
  }

  const WORD: int := 0x1_0000_0000

  // --- the grouped reading ---------------------------------------------------

  // A group of four sextets a, b, c, d and the three bytes it spells.

  function Byte0(a: int, b: int): Byte
    requires 0 <= a < 64 && 0 <= b < 64
  {
    a * 4 + b / 16
  }

  function Byte1(b: int, c: int): Byte
    requires 0 <= b < 64 && 0 <= c < 64
  {
    b % 16 * 16 + c / 4
  }

  function Byte2(c: int, d: int): Byte
    requires 0 <= c < 64 && 0 <= d < 64
  {
    c % 4 * 64 + d
  }

  function Sextet0(x: int): Sextet
    requires 0 <= x < 256
  {
    x / 4
  }

  function Sextet1(x: int, y: int): Sextet
    requires 0 <= x < 256 && 0 <= y < 256
  {
    x % 4 * 16 + y / 16
  }

  function Sextet2(y: int, z: int): Sextet
    requires 0 <= y < 256 && 0 <= z < 256
  {
    y % 16 * 4 + z / 64
  }

  function Sextet3(z: int): Sextet
    requires 0 <= z < 256
  {
    z % 64
  }

  lemma GroupInverse(x: Byte, y: Byte, z: Byte)
    ensures Byte0(Sextet0(x), Sextet1(x, y)) == x
    ensures Byte1(Sextet1(x, y), Sextet2(y, z)) == y
    ensures Byte2(Sextet2(y, z), Sextet3(z)) == z
  {
  }

  /** The sextets of `bytes`: three bytes make four, a rest of two makes three, of one two. */
  function Sextets(bytes: seq<Byte>): seq<Sextet> {
    if |bytes| == 0 then []
    else if |bytes| == 1 then [Sextet0(bytes[0]), Sextet1(bytes[0], 0)]
    else if |bytes| == 2 then [Sextet0(bytes[0]), Sextet1(bytes[0], bytes[1]), Sextet2(bytes[1], 0)]
    else [Sextet0(bytes[0]), Sextet1(bytes[0], bytes[1]), Sextet2(bytes[1], bytes[2]), Sextet3(bytes[2])]
         + Sextets(bytes[3..])
  }

  /** The bytes that groups of sextets make; a rest of one sextet makes none. */
  function Bytes(vs: seq<Sextet>): seq<Byte> {
    if |vs| < 2 then []
    else if |vs| == 2 then [Byte0(vs[0], vs[1])]
    else if |vs| == 3 then [Byte0(vs[0], vs[1]), Byte1(vs[1], vs[2])]
    else [Byte0(vs[0], vs[1]), Byte1(vs[1], vs[2]), Byte2(vs[2], vs[3])] + Bytes(vs[4..])
  }

  lemma {:induction false} BytesOfSextets(bytes: seq<Byte>)
    ensures Bytes(Sextets(bytes)) == bytes
  {
    if |bytes| == 1 {
      BytesOfOne(bytes[0]);
      assert bytes == [bytes[0]];
    } else if |bytes| == 2 {
      BytesOfTwo(bytes[0], bytes[1]);
      assert bytes == [bytes[0], bytes[1]];
    } else if |bytes| > 2 {
      BytesOfSextets(bytes[3..]);
      BytesOfThree(bytes[0], bytes[1], bytes[2], bytes[3..]);
      assert bytes == [bytes[0], bytes[1], bytes[2]] + bytes[3..];
    }
  }

  lemma BytesOfOne(x: Byte)
    ensures Bytes(Sextets([x])) == [x]
  {
    hide Sextet0, Sextet1, Sextet2, Sextet3, Byte0, Byte1, Byte2;
    GroupInverse(x, 0, 0);
  }

  lemma BytesOfTwo(x: Byte, y: Byte)
    ensures Bytes(Sextets([x, y])) == [x, y]
  {
    hide Sextet0, Sextet1, Sextet2, Sextet3, Byte0, Byte1, Byte2;
    GroupInverse(x, y, 0);
  }

  lemma BytesOfThree(x: Byte, y: Byte, z: Byte, more: seq<Byte>)
    ensures Bytes(Sextets([x, y, z] + more)) == [x, y, z] + Bytes(Sextets(more))
  {
    hide Sextet0, Sextet1, Sextet2, Sextet3, Byte0, Byte1, Byte2;
    var bytes := [x, y, z] + more;
    assert bytes[3..] == more;
    BytesOfGroup(x, y, z, Sextets(more));
  }

  lemma BytesOfGroup(x: Byte, y: Byte, z: Byte, vs: seq<Sextet>)
    ensures Bytes([Sextet0(x), Sextet1(x, y), Sextet2(y, z), Sextet3(z)] + vs) == [x, y, z] + Bytes(vs)
  {
    hide Sextet0, Sextet1, Sextet2, Sextet3, Byte0, Byte1, Byte2;
    var group := [Sextet0(x), Sextet1(x, y), Sextet2(y, z), Sextet3(z)];
    assert (group + vs)[4..] == vs;
    GroupInverse(x, y, z);
  }

  /** The byte that sextet `i` of `vs` completes, if any. */
  function Completes(vs: seq<Sextet>, i: nat): seq<Byte>
    requires i < |vs|
  {
    if i % 4 == 0 then []
    else if i % 4 == 1 then [Byte0(vs[i - 1], vs[i])]
    else if i % 4 == 2 then [Byte1(vs[i - 1], vs[i])]
    else [Byte2(vs[i - 1], vs[i])]
  }

  /** One more sextet adds the byte it completes. */
  lemma {:induction false} BytesStep(vs: seq<Sextet>, i: nat)
    requires i < |vs|
    ensures Bytes(vs[..i + 1]) == Bytes(vs[..i]) + Completes(vs, i)
  {
    hide Byte0, Byte1, Byte2, Completes;
    if i >= 4 {
      var tail := vs[4..];
      var group := [Byte0(vs[0], vs[1]), Byte1(vs[1], vs[2]), Byte2(vs[2], vs[3])];
      BytesStep(tail, i - 4);
      CompletesLater(vs, i);
      assert vs[..i + 1][4..] == tail[..i - 3] && vs[..i][4..] == tail[..i - 4];
      assert Bytes(vs[..i + 1]) == group + Bytes(tail[..i - 3]);
      assert Bytes(vs[..i]) == group + Bytes(tail[..i - 4]);
    } else {
      BytesStepFirst(vs, i);
    }
  }

  lemma BytesStepFirst(vs: seq<Sextet>, i: nat)
    requires i < |vs| && i < 4
    ensures Bytes(vs[..i + 1]) == Bytes(vs[..i]) + Completes(vs, i)
  {
    hide Byte0, Byte1, Byte2;
    assert i == 3 ==> vs[..i + 1][4..] == [];
  }

  lemma CompletesLater(vs: seq<Sextet>, i: nat)
    requires 4 <= i < |vs|
    ensures Completes(vs[4..], i - 4) == Completes(vs, i)
  {
    hide Byte0, Byte1, Byte2;
    assert (i - 4) % 4 == i % 4;
  }

  // --- the accumulator -------------------------------------------------------

  /** Two to the power of a number of waiting bits. */
  function Pow2(n: int): (p: int)
    requires n in {0, 2, 4, 6}
    ensures p > 0
  {
    if n == 0 then 1 else if n == 2 then 4 else if n == 4 then 16 else 64
  }

  /** How many bits wait for a byte after `n` sextets. */
  function Waiting(n: nat): int {
    if n % 4 == 0 then 0 else 8 - n % 4 * 2
  }

  /** What a decoder holds between characters: the bytes so far, and in the low `nbits` bits
      of the accumulator, under whatever older bits still sit above them, the last sextet's
      bits that no byte has used. */
  ghost predicate Holds(vs: seq<Sextet>, bits: int, nbits: int, out: seq<Byte>) {
    && 0 <= bits < WORD
    && nbits == Waiting(|vs|)
    && out == Bytes(vs)
    && (|vs| % 4 != 0 ==> bits % Pow2(nbits) == vs[|vs| - 1] % Pow2(nbits))
  }

  /** Wrapping at 32 bits never reaches the bits that are still to be used. */
  lemma ShiftIn(vs: seq<Sextet>, v: Sextet, bits: int, nbits: int, out: seq<Byte>)
    requires Holds(vs, bits, nbits, out)
    ensures var bits' := (bits * 64 + v) % WORD;
            if nbits + 6 >= 8
            then Holds(vs + [v], bits', nbits - 2, out + [bits' / Pow2(nbits - 2) % 256])
            else Holds(vs + [v], bits', nbits + 6, out)
  {
    var i := |vs|;
    var vs' := vs + [v];
    var bits' := (bits * 64 + v) % WORD;
    assert vs'[..i] == vs && vs'[..i + 1] == vs';
    BytesStep(vs', i);
    NextByte(vs, v, bits, nbits, out);
    WaitingStep(i);
    assert bits' % 64 == v && 0 <= bits' < WORD by { WrapLow(bits, v); }
    LowOf(bits', v, Waiting(i + 1));
  }

  lemma WaitingStep(n: nat)
    ensures Waiting(n + 1) == if Waiting(n) + 6 >= 8 then Waiting(n) - 2 else Waiting(n) + 6
  {
  }

  lemma LowOf(b: int, v: Sextet, n: int)
    requires b % 64 == v && n in {0, 2, 4, 6}
    ensures b % Pow2(n) == v % Pow2(n)
  {
    if n == 2 {
      AddMod4(16 * (b / 64), v);
    } else if n == 4 {
      AddMod16(4 * (b / 64), v);
    }
  }

  lemma NextByte(vs: seq<Sextet>, v: Sextet, bits: int, nbits: int, out: seq<Byte>)
    requires Holds(vs, bits, nbits, out)
    ensures Completes(vs + [v], |vs|) ==
            if nbits == 0 then [] else [(bits * 64 + v) % WORD / Pow2(nbits - 2) % 256]
  {
    hide Byte0, Byte1, Byte2;
    if |vs| % 4 == 1 {
      Shift6(bits, v);
      ByteOfRest(vs[|vs| - 1], v);
    } else if |vs| % 4 == 2 {
      Shift4(bits, v);
      ByteOfRest(vs[|vs| - 1], v);
    } else if |vs| % 4 == 3 {
      Shift2(bits, v);
      ByteOfRest(vs[|vs| - 1], v);
    }
  }

  lemma ByteOfRest(u: Sextet, v: Sextet)
    ensures Byte0(u, v) == (u % 64 * 64 + v) / 16
    ensures Byte1(u, v) == (u % 16 * 64 + v) / 4
    ensures Byte2(u, v) == u % 4 * 64 + v
  {
  }

  lemma WrapLow(bits: int, v: Sextet)
    requires 0 <= bits
    ensures (bits * 64 + v) % WORD == bits % 0x400_0000 * 64 + v
    ensures (bits * 64 + v) % WORD % 64 == v
  {
    assert bits * 64 + v == WORD * (bits / 0x400_0000) + (bits % 0x400_0000 * 64 + v);
    AddMod64(bits % 0x400_0000, v);
  }

  lemma Shift2(bits: int, v: Sextet)
    requires 0 <= bits
    ensures (bits * 64 + v) % WORD % 256 == bits % 4 * 64 + v
  {
    WrapLow(bits, v);
    LowBits(bits, 4);
    DropHigh2(bits % 0x400_0000 / 4, bits % 4, v);
  }

  lemma Shift4(bits: int, v: Sextet)
    requires 0 <= bits
    ensures (bits * 64 + v) % WORD / 4 % 256 == (bits % 16 * 64 + v) / 4
  {
    WrapLow(bits, v);
    LowBits(bits, 16);
    DropHigh4(bits % 0x400_0000 / 16, bits % 16, v);
  }

  lemma Shift6(bits: int, v: Sextet)
    requires 0 <= bits
    ensures (bits * 64 + v) % WORD / 16 % 256 == (bits % 64 * 64 + v) / 16
  {
    WrapLow(bits, v);
    LowBits(bits, 64);
    DropHigh6(bits % 0x400_0000 / 64, bits % 64, v);
  }

  lemma LowBits(bits: int, m: int)
    requires 0 <= bits && m in {4, 16, 64}
    ensures bits % 0x400_0000 % m == bits % m
  {
    var q, r := bits / 0x400_0000, bits % 0x400_0000;
    if m == 4 {
      AddMod4(0x100_0000 * q, r);
    } else if m == 16 {
      AddMod16(0x40_0000 * q, r);
    } else {
      AddMod64(0x10_0000 * q, r);
    }
  }

  lemma AddMod4(a: int, r: int)
    ensures (4 * a + r) % 4 == r % 4
  {
  }

  lemma AddMod16(a: int, r: int)
    ensures (16 * a + r) % 16 == r % 16
  {
  }

  lemma AddMod64(a: int, r: int)
    ensures (64 * a + r) % 64 == r % 64
  {
  }

  lemma DropHigh2(a: int, b: int, v: Sextet)
    requires 0 <= a && 0 <= b < 4
    ensures ((4 * a + b) * 64 + v) % 256 == b * 64 + v
  {
    assert (4 * a + b) * 64 + v == 256 * a + (b * 64 + v);
  }

  lemma DropHigh4(a: int, b: int, v: Sextet)
    requires 0 <= a && 0 <= b < 16
    ensures ((16 * a + b) * 64 + v) / 4 % 256 == (b * 64 + v) / 4
  {
    assert ((16 * a + b) * 64 + v) / 4 == 256 * a + (b * 64 + v) / 4;
  }

  lemma DropHigh6(a: int, b: int, v: Sextet)
    requires 0 <= a && 0 <= b < 64
    ensures ((64 * a + b) * 64 + v) / 16 % 256 == (b * 64 + v) / 16
  {
    assert ((64 * a + b) * 64 + v) / 16 == 256 * a + (b * 64 + v) / 16;
  }

  // --- the encoder -----------------------------------------------------------

  function Letters(a: Alphabet, vs: seq<Sextet>): (s: string)
    ensures |s| == |vs|
  {
    if vs == [] then "" else [Letter(a, vs[0])] + Letters(a, vs[1..])
  }

  function Padding(n: nat, pad: bool): string {
    if !pad || n % 3 == 0 then "" else if n % 3 == 1 then "==" else "="
  }

  function Encoded(bytes: seq<Byte>, a: Alphabet, pad: bool): string {
    Letters(a, Sextets(bytes)) + Padding(|bytes|, pad)
  }

  lemma SextetsByChunks(chunk: seq<Byte>, more: seq<Byte>)
    requires |chunk| == 3
    ensures Sextets(chunk + more) == Sextets(chunk) + Sextets(more)
  {
    hide Sextet0, Sextet1, Sextet2, Sextet3;
    var whole := chunk + more;
    var group := [Sextet0(chunk[0]), Sextet1(chunk[0], chunk[1]), Sextet2(chunk[1], chunk[2]), Sextet3(chunk[2])];
    assert whole[3..] == more && chunk[3..] == [];
    assert Sextets(whole) == group + Sextets(more);
    assert Sextets(chunk) == group + Sextets([]);
    assert Sextets(chunk) == group;
  }

  lemma LettersAt(a: Alphabet, vs: seq<Sextet>)
    ensures forall i :: 0 <= i < |vs| ==> Letters(a, vs)[i] == Letter(a, vs[i])
  {
  }

  lemma LettersConcat(a: Alphabet, us: seq<Sextet>, vs: seq<Sextet>)
    ensures Letters(a, us + vs) == Letters(a, us) + Letters(a, vs)
  {
    hide Letter, Letters;
    LettersAt(a, us);
    LettersAt(a, vs);
    LettersAt(a, us + vs);
  }

  lemma PaddingByChunks(n: nat, pad: bool)
    ensures Padding(n + 3, pad) == Padding(n, pad) && Padding(3, pad) == ""
  {
  }

  lemma EncodedByChunks(chunk: seq<Byte>, more: seq<Byte>, a: Alphabet, pad: bool)
    requires |chunk| == 3
    ensures Encoded(chunk + more, a, pad) == Encoded(chunk, a, pad) + Encoded(more, a, pad)
  {
    hide Sextets, Letters, Padding;
    var first, rest := Letters(a, Sextets(chunk)), Letters(a, Sextets(more));
    SextetsByChunks(chunk, more);
    PaddingByChunks(|more|, pad);
    LettersConcat(a, Sextets(chunk), Sextets(more));
    assert Encoded(chunk, a, pad) == first;
    assert first + rest + Padding(|more|, pad) == first + (rest + Padding(|more|, pad));
  }

  lemma EncodedChunk(chunk: seq<Byte>, a: Alphabet, pad: bool)
    requires 1 <= |chunk| <= 3
    ensures var y := if |chunk| > 1 then chunk[1] else 0;
            var z := if |chunk| > 2 then chunk[2] else 0;
            Encoded(chunk, a, pad) ==
              [Letter(a, Sextet0(chunk[0]))] + [Letter(a, Sextet1(chunk[0], y))]
              + (if |chunk| > 1 then [Letter(a, Sextet2(y, z))] else if pad then "=" else "")
              + (if |chunk| > 2 then [Letter(a, Sextet3(z))] else if pad then "=" else "")
  {
    if |chunk| == 3 {
      assert Sextets(chunk[3..]) == [];
    }
    LettersAt(a, Sextets(chunk));
    hide Letter, Letters;
  }

  /** The four sextets read out of the 24-bit chunk. */
  lemma ChunkBits(x: Byte, y: Byte, z: Byte)
    ensures var n := x * 65536 + y * 256 + z;
            && n / 262144 % 64 == Sextet0(x)
            && n / 4096 % 64 == Sextet1(x, y)
            && n / 64 % 64 == Sextet2(y, z)
            && n % 64 == Sextet3(z)
  {
    ChunkBits0(x, y * 256 + z);
    ChunkBits1(x, y, z);
    ChunkBits2(x, y, z);
  }

  lemma ChunkBits0(x: Byte, low: int)
    requires 0 <= low < 65536
    ensures (x * 65536 + low) / 262144 % 64 == x / 4
  {
  }

  lemma ChunkBits1(x: Byte, y: Byte, z: Byte)
    ensures (x * 65536 + y * 256 + z) / 4096 % 64 == x % 4 * 16 + y / 16
  {
    assert x * 65536 + y * 256 + z == 4096 * (16 * x + y / 16) + (y % 16 * 256 + z);
    assert (x * 65536 + y * 256 + z) / 4096 == 16 * x + y / 16;
    assert 16 * x + y / 16 == 64 * (x / 4) + (x % 4 * 16 + y / 16);
    AddMod64(x / 4, x % 4 * 16 + y / 16);
  }

  lemma ChunkBits2(x: Byte, y: Byte, z: Byte)
    ensures (x * 65536 + y * 256 + z) / 64 % 64 == y % 16 * 4 + z / 64
    ensures (x * 65536 + y * 256 + z) % 64 == z % 64
  {
    AddMod64(x * 1024 + y * 4, z);
    assert x * 65536 + y * 256 + z == 64 * (x * 1024 + y * 4 + z / 64) + z % 64;
    assert (x * 65536 + y * 256 + z) / 64 == x * 1024 + y * 4 + z / 64;
    assert x * 1024 + y * 4 + z / 64 == 64 * (16 * x + y / 16) + (y % 16 * 4 + z / 64);
    AddMod64(16 * x + y / 16, y % 16 * 4 + z / 64);
  }

  /** One chunk of up to three bytes. */
  method EncodeChunk(chunk: seq<Byte>, a: Alphabet, pad: bool) returns (out: string)
    requires 1 <= |chunk| <= 3
    ensures out == Encoded(chunk, a, pad)
  {
    hide Letter, Letters, Encoded, Sextet0, Sextet1, Sextet2, Sextet3;
    var b0: int := chunk[0];
    var b1: int := if |chunk| > 1 then chunk[1] else 0;
    var b2: int := if |chunk| > 2 then chunk[2] else 0;
    var n := b0 * 65536 + b1 * 256 + b2;
    ChunkBits(b0, b1, b2);
    EncodedChunk(chunk, a, pad);
    out := [Letter(a, n / 262144 % 64)];
    out := out + [Letter(a, n / 4096 % 64)];
    if |chunk| > 1 {
      out := out + [Letter(a, n / 64 % 64)];
    } else if pad {
      out := out + "=";
    }
    if |chunk| > 2 {
      out := out + [Letter(a, n % 64)];
    } else if pad {
      out := out + "=";
    }
  }

  method Encode(input: seq<Byte>, a: Alphabet, pad: bool) returns (out: string)
    ensures out == Encoded(input, a, pad)
  {
    hide Letters, Encoded;
    out := "";
    var i := 0;
    assert input[0..] == input;
    while i < |input|
      invariant 0 <= i <= |input|
      invariant out + Encoded(input[i..], a, pad) == Encoded(input, a, pad)
    {
      var chunk := input[i..if i + 3 <= |input| then i + 3 else |input|];
      var group := EncodeChunk(chunk, a, pad);
      EncodedRest(input[i..], chunk, input[i + |chunk|..], a, pad);
      out := out + group;
      i := i + |chunk|;
    }
    assert input[i..] == [];
    EncodedNone(a, pad);
  }

  lemma EncodedNone(a: Alphabet, pad: bool)
    ensures Encoded([], a, pad) == ""
  {
  }

  lemma EncodedRest(tail: seq<Byte>, chunk: seq<Byte>, rest: seq<Byte>, a: Alphabet, pad: bool)
    requires tail == chunk + rest && (|chunk| == 3 || (|chunk| > 0 && rest == []))
    ensures Encoded(tail, a, pad) == Encoded(chunk, a, pad) + Encoded(rest, a, pad)
  {
    if |chunk| == 3 {
      EncodedByChunks(chunk, rest, a, pad);
    } else {
      assert tail == chunk;
    }
  }

  // --- the decoders ----------------------------------------------------------

  datatype Read = Stop | Skip | Bad | Value(v: Sextet)

  function Offset(c: char, from: char, base: int): Read
    requires from <= c && 0 <= base + (c as int - from as int) < 64
  {
    Value(base + (c as int - from as int))
  }

  /** How the lenient decoder reads one character. */
  function UrlChar(c: char): Read {
    if 'A' <= c <= 'Z' then Offset(c, 'A', 0)
    else if 'a' <= c <= 'z' then Offset(c, 'a', 26)
    else if '0' <= c <= '9' then Offset(c, '0', 52)
    else if c == '-' || c == '+' then Value(62)
    else if c == '_' || c == '/' then Value(63)
    else if c == '=' then Stop
    else if c == '\n' || c == '\r' || c == ' ' then Skip
    else Bad
  }

  /** How the strict one does. */
  function StdChar(c: char): Read {
    if 'A' <= c <= 'Z' then Offset(c, 'A', 0)
    else if 'a' <= c <= 'z' then Offset(c, 'a', 26)
    else if '0' <= c <= '9' then Offset(c, '0', 52)
    else if c == '+' then Value(62)
    else if c == '/' then Value(63)
    else Bad
  }

  datatype Decoder = Lenient | Strict

  function ReadChar(d: Decoder, c: char): Read {
    if d == Lenient then UrlChar(c) else StdChar(c)
  }

  /** The sextets of a text: characters up to a stop, skipped ones left out; none at all
      when one of them is bad. */
  function ReadSextets(d: Decoder, s: string): Option<seq<Sextet>> {
    if s == "" then Some([])
    else match ReadChar(d, s[0])
      case Stop => Some([])
      case Bad => None
      case Skip => ReadSextets(d, s[1..])
      case Value(v) => Prepend([v], ReadSextets(d, s[1..]))
  }

  function Prepend(vs: seq<Sextet>, rest: Option<seq<Sextet>>): Option<seq<Sextet>> {
    match rest
    case None => None
    case Some(more) => Some(vs + more)
  }

  /** What `url_decode` promises: the grouped bytes of the sextets it reads. */
  function UrlDecoded(s: string): Option<seq<Byte>> {
    match ReadSextets(Lenient, s)
    case None => None
    case Some(vs) => Some(Bytes(vs))
  }

  lemma PrependNone(r: Option<seq<Sextet>>)
    ensures Prepend([], r) == r
  {
    assert r.Some? ==> [] + r.value == r.value;
  }

  lemma PrependOne(vs: seq<Sextet>, v: Sextet, r: Option<seq<Sextet>>)
    ensures Prepend(vs, Prepend([v], r)) == Prepend(vs + [v], r)
  {
    assert r.Some? ==> vs + ([v] + r.value) == vs + [v] + r.value;
  }

  lemma PrependAll(vs: seq<Sextet>)
    ensures Prepend(vs, Some([])) == Some(vs) && Prepend(vs, None) == None
  {
    assert vs + [] == vs;
  }

  method UrlDecode(s: string) returns (r: Option<seq<Byte>>)
    ensures r == UrlDecoded(s)
  {
    hide Bytes, UrlChar, Pow2, Prepend;
    var bits, nbits := 0, 0;
    var out: seq<Byte> := [];
    ghost var vs: seq<Sextet> := [];
    NothingRead();
    PrependNone(ReadSextets(Lenient, s));
    assert s[0..] == s;
    var i := 0;
    while i < |s|
      invariant 0 <= i <= |s|
      invariant Holds(vs, bits, nbits, out)
      invariant ReadSextets(Lenient, s) == Prepend(vs, ReadSextets(Lenient, s[i..]))
    {
      assert s[i..][1..] == s[i + 1..] && s[i..][0] == s[i];
      PrependAll(vs);
      var c := UrlChar(s[i]);
      match c {
        case Stop => return Some(out);
        case Skip =>
        case Bad => return None;
        case Value(v) =>
          ShiftIn(vs, v, bits, nbits, out);
          PrependOne(vs, v, ReadSextets(Lenient, s[i + 1..]));
          vs := vs + [v];
          bits := (bits * 64 + v) % WORD;
          nbits := nbits + 6;
          if nbits >= 8 {
            nbits := nbits - 8;
            out := out + [bits / Pow2(nbits) % 256];
          }
      }
      i := i + 1;
    }
    PrependAll(vs);
    return Some(out);
  }

  lemma NothingRead()
    ensures Holds([], 0, 0, [])
  {
  }

  function TrimEnd(s: string): (t: string)
    ensures |t| <= |s|
  {
    if s != "" && s[|s| - 1] == '=' then TrimEnd(s[..|s| - 1]) else s
  }

  predicate Pads(pad: string) {
    forall i :: 0 <= i < |pad| ==> pad[i] == '='
  }

  lemma {:induction false} TrimSplit(s: string)
    ensures var body := TrimEnd(s);
            s == body + s[|body|..] && Pads(s[|body|..]) && (body != "" ==> body[|body| - 1] != '=')
  {
    hide Pads;
    if s != "" && s[|s| - 1] == '=' {
      var t := s[..|s| - 1];
      TrimSplit(t);
      PadsOne(TrimEnd(t), t, s);
    } else {
      NoPads(s);
    }
  }

  lemma NoPads(s: string)
    ensures s + s[|s|..] == s && Pads(s[|s|..])
  {
  }

  lemma PadsOne(body: string, t: string, s: string)
    requires |body| <= |t| && t == body + t[|body|..] && Pads(t[|body|..]) && s == t + "="
    ensures s == body + s[|body|..] && Pads(s[|body|..])
  {
    var pad := t[|body|..];
    assert s == body + (pad + "=");
    assert s[|body|..] == pad + "=";
  }

  predicate BadLength(s: string) {
    var body := TrimEnd(s);
    var pad := |s| - |body|;
    pad > 2 || (pad > 0 && |s| % 4 != 0) || |body| % 4 == 1
  }

  /** What `std_decode` promises: the grouped bytes of a body of the standard alphabet only,
      whose length the padding completes. */
  function StdDecoded(s: string): Option<seq<Byte>> {
    if BadLength(s) then None
    else match ReadSextets(Strict, TrimEnd(s))
      case None => None
      case Some(vs) => Some(Bytes(vs))
  }

  method StdDecode(s: string) returns (r: Option<seq<Byte>>)
    ensures r == StdDecoded(s)
  {
    hide Bytes, StdChar, Pow2, Prepend;
    var body := TrimEnd(s);
    var pad := |s| - |body|;
    if pad > 2 || (pad > 0 && |s| % 4 != 0) || |body| % 4 == 1 {
      return None;
    }
    var bits, nbits := 0, 0;
    var out: seq<Byte> := [];
    ghost var vs: seq<Sextet> := [];
    NothingRead();
    PrependNone(ReadSextets(Strict, body));
    StdCharNeverStops();
    assert body[0..] == body;
    for i := 0 to |body|
      invariant Holds(vs, bits, nbits, out)
      invariant ReadSextets(Strict, body) == Prepend(vs, ReadSextets(Strict, body[i..]))
    {
      assert body[i..][1..] == body[i + 1..] && body[i..][0] == body[i];
      PrependAll(vs);
      var c := StdChar(body[i]);
      if c.Value? {
        ShiftIn(vs, c.v, bits, nbits, out);
        PrependOne(vs, c.v, ReadSextets(Strict, body[i + 1..]));
        vs := vs + [c.v];
        bits := (bits * 64 + c.v) % WORD;
        nbits := nbits + 6;
        if nbits >= 8 {
          nbits := nbits - 8;
          out := out + [bits / Pow2(nbits) % 256];
        }
      } else {
        return None;
      }
    }
    PrependAll(vs);
    return Some(out);
  }

  lemma StdCharNeverStops()
    ensures forall c :: StdChar(c).Bad? || StdChar(c).Value?
  {
  }

  // --- round trips -----------------------------------------------------------

  lemma LetterRead(a: Alphabet, v: Sextet)
    ensures ReadChar(Lenient, Letter(a, v)) == Value(v)
    ensures ReadChar(Strict, Letter(Std, v)) == Value(v)
    ensures Letter(a, v) != '='
  {
  }

  lemma {:induction false} ReadLetters(d: Decoder, a: Alphabet, vs: seq<Sextet>, stop: string)
    requires d == Strict ==> a == Std && stop == ""
    requires stop == "" || stop[0] == '='
    ensures ReadSextets(d, Letters(a, vs) + stop) == Some(vs)
  {
    hide ReadChar, Letter;
    var s := Letters(a, vs) + stop;
    if vs == [] {
      assert s == stop;
      PaddingStops();
    } else {
      assert s[0] == Letter(a, vs[0]) && s[1..] == Letters(a, vs[1..]) + stop;
      LetterRead(a, vs[0]);
      ReadLetters(d, a, vs[1..], stop);
      assert vs == [vs[0]] + vs[1..];
    }
  }

  lemma PaddingStops()
    ensures ReadChar(Lenient, '=') == Stop
  {
  }

  /** The lenient decoder undoes the encoder, in either alphabet, padded or not. */
  lemma UrlDecodeInverts(bytes: seq<Byte>, a: Alphabet, pad: bool)
    ensures UrlDecoded(Encoded(bytes, a, pad)) == Some(bytes)
  {
    ReadLetters(Lenient, a, Sextets(bytes), Padding(|bytes|, pad));
    BytesOfSextets(bytes);
  }

  lemma {:induction false} SextetsCount(bytes: seq<Byte>)
    ensures |Sextets(bytes)| == |bytes| / 3 * 4 + (if |bytes| % 3 == 0 then 0 else |bytes| % 3 + 1)
  {
    hide Sextet0, Sextet1, Sextet2, Sextet3;
    if |bytes| > 2 {
      SextetsCount(bytes[3..]);
      ThreeFewer(|bytes|);
    }
  }

  lemma ThreeFewer(n: nat)
    requires n >= 3
    ensures (n - 3) / 3 == n / 3 - 1 && (n - 3) % 3 == n % 3
  {
  }

  lemma {:induction false} TrimPadding(s: string, padding: string)
    requires s == "" || s[|s| - 1] != '='
    requires Pads(padding)
    ensures TrimEnd(s + padding) == s
  {
    if padding == "" {
      assert s + padding == s;
    } else {
      var shorter := padding[..|padding| - 1];
      assert (s + padding)[..|s + padding| - 1] == s + shorter;
      TrimPadding(s, shorter);
    }
  }

  lemma EncodedLength(bytes: seq<Byte>)
    ensures TrimEnd(Encoded(bytes, Std, true)) == Letters(Std, Sextets(bytes))
    ensures !BadLength(Encoded(bytes, Std, true))
  {
    hide Letter, Sextets, Padding, TrimEnd;
    var vs := Sextets(bytes);
    var body, padding := Letters(Std, vs), Padding(|bytes|, true);
    if vs != [] {
      LettersAt(Std, vs);
      LetterRead(Std, vs[|vs| - 1]);
    }
    SextetsCount(bytes);
    PaddingFits(|bytes|, |vs|);
    TrimPadding(body, padding);
  }

  lemma PaddingFits(n: nat, k: nat)
    requires k == n / 3 * 4 + (if n % 3 == 0 then 0 else n % 3 + 1)
    ensures |Padding(n, true)| <= 2 && (k + |Padding(n, true)|) % 4 == 0 && k % 4 != 1
    ensures Pads(Padding(n, true))
  {
  }

  /** The strict decoder undoes the padded standard encoder. */
  lemma StdDecodeInverts(bytes: seq<Byte>)
    ensures StdDecoded(Encoded(bytes, Std, true)) == Some(bytes)
  {
    hide Letter, ReadChar, BadLength, TrimEnd;
    var body := Letters(Std, Sextets(bytes));
    EncodedLength(bytes);
    ReadLetters(Strict, Std, Sextets(bytes), "");
    assert body + "" == body;
    BytesOfSextets(bytes);
  }

  lemma {:induction false} StrictReadIsLenientRead(body: string, rest: string)
    requires ReadSextets(Strict, body).Some?
    requires rest == "" || rest[0] == '='
    ensures ReadSextets(Lenient, body + rest) == ReadSextets(Strict, body)
  {
    if body == "" {
      assert body + rest == rest;
    } else {
      assert (body + rest)[1..] == body[1..] + rest;
      StrictReadIsLenientRead(body[1..], rest);
    }
  }

  /** Whatever the strict decoder accepts, the lenient one reads the same. */
  lemma StdDecodedIsUrlDecoded(s: string)
    requires StdDecoded(s).Some?
    ensures UrlDecoded(s) == StdDecoded(s)
  {
    var body := TrimEnd(s);
    TrimSplit(s);
    StrictReadIsLenientRead(body, s[|body|..]);
  }

  // --- texts that are written as the encoder writes them ---------------------

  /** The bits of the last sextet that belong to no byte are zero. */
  predicate Tight(vs: seq<Sextet>) {
    && (|vs| % 4 == 2 ==> vs[|vs| - 1] % 16 == 0)
    && (|vs| % 4 == 3 ==> vs[|vs| - 1] % 4 == 0)
  }

  lemma GroupBack(a: Sextet, b: Sextet, c: Sextet, d: Sextet)
    ensures Sextet0(Byte0(a, b)) == a
    ensures Sextet1(Byte0(a, b), Byte1(b, c)) == b
    ensures Sextet2(Byte1(b, c), Byte2(c, d)) == c
    ensures Sextet3(Byte2(c, d)) == d
  {
  }

  lemma RestBack1(a: Sextet, b: Sextet)
    ensures Sextet1(Byte0(a, b), 0) == b <==> b % 16 == 0
  {
    assert (a * 4 + b / 16) % 4 == b / 16;
  }

  lemma RestBack2(b: Sextet, c: Sextet)
    ensures Sextet2(Byte1(b, c), 0) == c <==> c % 4 == 0
  {
    assert (b % 16 * 16 + c / 4) % 16 == c / 4;
  }

  /** `k` sextets of which `n` bytes are made leave the rest that `n` bytes leave. */
  predicate Rests(n: nat, k: nat) {
    k % 4 != 1 && n % 3 == if k % 4 == 0 then 0 else k % 4 - 1
  }

  predicate Whole(n: nat) {
    n % 4 == 0
  }

  /** Grouping sextets into bytes and back gives them back exactly when they are tight. */
  lemma {:induction false} SextetsOfBytes(vs: seq<Sextet>)
    requires |vs| % 4 != 1
    ensures Rests(|Bytes(vs)|, |vs|)
    ensures Sextets(Bytes(vs)) == vs <==> Tight(vs)
  {
    hide Bytes, Sextets, Tight;
    if |vs| < 4 {
      SmallTight(vs);
    } else {
      SextetsOfBytes(vs[4..]);
      GroupTight(vs);
    }
  }

  lemma SmallTight(vs: seq<Sextet>)
    requires |vs| < 4 && |vs| != 1
    ensures |Bytes(vs)| == if |vs| == 0 then 0 else |vs| - 1
    ensures Sextets(Bytes(vs)) == vs <==> Tight(vs)
  {
    hide Sextet0, Sextet1, Sextet2, Sextet3, Byte0, Byte1, Byte2;
    if |vs| >= 2 {
      var c := if |vs| == 3 then vs[2] else 0;
      GroupBack(vs[0], vs[1], c, 0);
      RestBack1(vs[0], vs[1]);
      RestBack2(vs[1], c);
      SmallBack(vs);
    }
  }

  lemma GroupTight(vs: seq<Sextet>)
    requires |vs| >= 4
    ensures |vs[4..]| % 4 == |vs| % 4 && |Bytes(vs)| % 3 == |Bytes(vs[4..])| % 3
    ensures Tight(vs) <==> Tight(vs[4..])
    ensures Sextets(Bytes(vs)) == vs <==> Sextets(Bytes(vs[4..])) == vs[4..]
  {
    hide Sextet0, Sextet1, Sextet2, Sextet3, Byte0, Byte1, Byte2, Bytes, Sextets;
    var more := vs[4..];
    FourFewer(|vs|);
    GroupBack(vs[0], vs[1], vs[2], vs[3]);
    BytesGroup(vs, Bytes(more));
    var group := [vs[0], vs[1], vs[2], vs[3]];
    assert vs == group + more;
    assert forall us: seq<Sextet> :: group + us == vs ==> us == (group + us)[4..] == more;
  }

  lemma SmallBack(vs: seq<Sextet>)
    requires 2 <= |vs| < 4
    ensures |Bytes(vs)| == |vs| - 1
    ensures Sextets(Bytes(vs)) ==
            if |vs| == 2 then [Sextet0(Byte0(vs[0], vs[1])), Sextet1(Byte0(vs[0], vs[1]), 0)]
            else [Sextet0(Byte0(vs[0], vs[1])), Sextet1(Byte0(vs[0], vs[1]), Byte1(vs[1], vs[2])),
                Sextet2(Byte1(vs[1], vs[2]), 0)]
  {
    hide Sextet0, Sextet1, Sextet2, Sextet3, Byte0, Byte1, Byte2;
  }

  lemma FourFewer(n: nat)
    requires n >= 4
    ensures (n - 4) % 4 == n % 4
  {
  }

  lemma BytesGroup(vs: seq<Sextet>, rest: seq<Byte>)
    requires |vs| >= 4 && rest == Bytes(vs[4..])
    ensures |Bytes(vs)| == |rest| + 3
    ensures var x, y, z := Byte0(vs[0], vs[1]), Byte1(vs[1], vs[2]), Byte2(vs[2], vs[3]);
            Sextets(Bytes(vs)) == [Sextet0(x), Sextet1(x, y), Sextet2(y, z), Sextet3(z)] + Sextets(rest)
  {
    hide Sextet0, Sextet1, Sextet2, Sextet3, Byte0, Byte1, Byte2;
    assert Bytes(vs)[3..] == rest;
  }

  /** What the strict decoder reads is what the standard alphabet writes. */
  lemma {:induction false} StrictReadBack(body: string)
    requires ReadSextets(Strict, body).Some?
    ensures Letters(Std, ReadSextets(Strict, body).value) == body
  {
    hide Letter, StdChar;
    if body == "" {
    } else {
      StdCharBack(body[0]);
      StrictReadBack(body[1..]);
      var vs := ReadSextets(Strict, body).value;
      assert vs[1..] == ReadSextets(Strict, body[1..]).value;
      assert body == [body[0]] + body[1..];
    }
  }

  lemma StdCharBack(c: char)
    ensures StdChar(c).Bad? || (StdChar(c).Value? && Letter(Std, StdChar(c).v) == c)
  {
  }

  lemma PaddingIs(n: nat, k: nat, pad: string)
    requires Rests(n, k) && |pad| <= 2
    requires Pads(pad)
    ensures Padding(n, true) == pad <==> Whole(k + |pad|)
  {
    assert pad == if |pad| == 0 then "" else if |pad| == 1 then "=" else "==";
  }

  lemma LettersInjective(us: seq<Sextet>, vs: seq<Sextet>)
    requires Letters(Std, us) == Letters(Std, vs)
    ensures us == vs
  {
    hide ReadSextets, Letters;
    ReadLetters(Strict, Std, us, "");
    ReadLetters(Strict, Std, vs, "");
    assert Letters(Std, us) + "" == Letters(Std, us);
  }

  lemma LettersTight(vs: seq<Sextet>)
    requires |vs| % 4 != 1
    ensures Letters(Std, Sextets(Bytes(vs))) == Letters(Std, vs) <==> Tight(vs)
  {
    hide Letters, Tight, Sextets, Bytes;
    SextetsOfBytes(vs);
    if Letters(Std, Sextets(Bytes(vs))) == Letters(Std, vs) {
      LettersInjective(Sextets(Bytes(vs)), vs);
    }
  }

  lemma SameText(body: string, pad: string, letters: string, padding: string)
    ensures letters == body ==> (letters + padding == body + pad <==> padding == pad)
  {
    if letters == body && letters + padding == body + pad {
      assert padding == (letters + padding)[|letters|..] && pad == (body + pad)[|body|..];
    }
  }

  /** A text of the letters of `vs` and some padding is an encoding exactly when it is padded
      to four and `vs` is tight. */
  lemma EncodedExactly(body: string, pad: string, vs: seq<Sextet>)
    requires body == Letters(Std, vs) && |vs| % 4 != 1 && |pad| <= 2
    requires Pads(pad)
    requires TrimEnd(body + pad) == body
    ensures Encoded(Bytes(vs), Std, true) == body + pad <==> Whole(|vs| + |pad|) && Tight(vs)
  {
    hide Bytes, Sextets, Tight, Padding, TrimEnd, Letters, BadLength, Rests, Whole, Pads;
    var bytes := Bytes(vs);
    var letters := Letters(Std, Sextets(bytes));
    SextetsOfBytes(vs);
    PaddingIs(|bytes|, |vs|, pad);
    LettersTight(vs);
    SameText(body, pad, letters, Padding(|bytes|, true));
    EncodedLength(bytes);
  }

  /** The strict decoder takes more than the encoder writes: padding may be left off, and the
      spare bits of the last character may be anything. A text it takes is the encoding of
      what it decodes to exactly when its length is a multiple of four and those bits are zero. */
  lemma CanonicalExactly(s: string)
    requires StdDecoded(s).Some?
    ensures Encoded(StdDecoded(s).value, Std, true) == s <==>
              |s| % 4 == 0 && Tight(ReadSextets(Strict, TrimEnd(s)).value)
  {
    hide Letters, ReadSextets, Bytes, Sextets, Tight, Padding, TrimEnd, Encoded, Pads;
    var body := TrimEnd(s);
    var vs, pad := ReadSextets(Strict, body).value, s[|body|..];
    TrimSplit(s);
    StrictReadBack(body);
    EncodedExactly(body, pad, vs);
  }

  /** Two texts of one byte: the second has a spare bit set. */
  lemma TwoTextsOneByte()
    ensures StdDecoded("QQ==") == StdDecoded("QR==") == StdDecoded("QQ") == Some([65])
  {
    SpareBits("QQ==", "QQ", 16);
    SpareBits("QR==", "QR", 17);
    SpareBits("QQ", "QQ", 16);
  }

  lemma SpareBits(s: string, body: string, v: Sextet)
    requires (s == body || s == body + "==") && |body| == 2
    requires body[0] == 'Q' && StdChar(body[1]) == Value(v) && 16 <= v < 32 && body[1] != '='
    ensures StdDecoded(s) == Some([65])
  {
    TrimPadding(body, s[2..]);
    assert s == body + s[2..];
    assert ReadSextets(Strict, body[1..][1..]) == Some([]);
    assert [v] + [] == [v] && [16] + [v] == [16, v];
    assert ReadSextets(Strict, body[1..]) == Prepend([v], Some([]));
    assert ReadSextets(Strict, body) == Prepend([16], Some([v]));
    assert Byte0(16, v) == 65;
  }

  // --- the alphabets and the texts that are taken ----------------------------

  const UPPER_A := "ABCDEFGHIJKLM"
  const UPPER_N := "NOPQRSTUVWXYZ"
  const LOWER_A := "abcdefghijklm"
  const LOWER_N := "nopqrstuvwxyz"
  const DIGITS := "0123456789"
  const COMMON := UPPER_A + UPPER_N + LOWER_A + LOWER_N + DIGITS
  const STD := COMMON + "+/"
  const URL := COMMON + "-_"

  /** The letters are those of the two tables of RFC 4648. */
  lemma LetterTables(v: Sextet)
    ensures |STD| == |URL| == 64
    ensures Letter(Std, v) == STD[v] && Letter(Url, v) == URL[v]
  {
    if v < 13 {
      InUpperA(v);
    } else if v < 26 {
      InUpperN(v - 13);
    } else if v < 39 {
      InLowerA(v - 26);
    } else if v < 52 {
      InLowerN(v - 39);
    } else if v < 62 {
      InDigits(v - 52);
    }
  }

  lemma InUpperA(i: int)
    requires 0 <= i < 13
    ensures UPPER_A[i] == 'A' + i as char
  {
  }

  lemma InUpperN(i: int)
    requires 0 <= i < 13
    ensures UPPER_N[i] == 'A' + (13 + i) as char
  {
  }

  lemma InLowerA(i: int)
    requires 0 <= i < 13
    ensures LOWER_A[i] == 'a' + i as char
  {
  }

  lemma InLowerN(i: int)
    requires 0 <= i < 13
    ensures LOWER_N[i] == 'a' + (13 + i) as char
  {
  }

  lemma InDigits(i: int)
    requires 0 <= i < 10
    ensures DIGITS[i] == '0' + i as char
  {
  }

  /** `=` as often as it takes to make the length a multiple of four. */
  function Filler(n: nat): string {
    if n % 4 == 2 then "==" else if n % 4 == 3 then "=" else ""
  }

  lemma FillerPads(n: nat, pad: string)
    requires n % 4 != 1 && Pads(pad) && 0 < |pad| <= 2
    ensures pad == Filler(n) <==> (n + |pad|) % 4 == 0
  {
    assert pad == if |pad| == 1 then "=" else "==";
  }

  /** The strict decoder takes the letters of sextets, one alone at the end excepted, with no
      padding or with all of it; and nothing else. */
  ghost predicate TakenAs(s: string, vs: seq<Sextet>) {
    |vs| % 4 != 1 && (s == Letters(Std, vs) || s == Letters(Std, vs) + Filler(|vs|))
  }

  lemma StdTakesExactly(s: string, bytes: seq<Byte>)
    ensures StdDecoded(s) == Some(bytes) <==> exists vs :: TakenAs(s, vs) && bytes == Bytes(vs)
  {
    hide Bytes, Letters, ReadSextets, TrimEnd, Pads, Filler;
    if StdDecoded(s) == Some(bytes) {
      var body := TrimEnd(s);
      var vs, pad := ReadSextets(Strict, body).value, s[|body|..];
      TrimSplit(s);
      StrictReadBack(body);
      if pad == "" {
        assert s == body;
      } else {
        FillerPads(|vs|, pad);
      }
      assert TakenAs(s, vs);
    }
    forall vs | TakenAs(s, vs) && bytes == Bytes(vs) ensures StdDecoded(s) == Some(bytes) {
      TakenDecodes(s, vs);
    }
  }

  lemma TakenDecodes(s: string, vs: seq<Sextet>)
    requires TakenAs(s, vs)
    ensures StdDecoded(s) == Some(Bytes(vs))
  {
    hide Bytes, ReadSextets, TrimEnd, Letter, Letters;
    var body := Letters(Std, vs);
    var pad := s[|body|..];
    assert s == body + pad && (pad == "" || pad == Filler(|vs|));
    LastLetter(vs);
    TrimPadding(body, pad);
    ReadLetters(Strict, Std, vs, "");
    assert body + "" == body;
  }

  lemma LastLetter(vs: seq<Sextet>)
    ensures Letters(Std, vs) != "" ==> Letters(Std, vs)[|vs| - 1] != '='
  {
    hide Letter, Letters;
    if vs != [] {
      LettersAt(Std, vs);
      LetterRead(Std, vs[|vs| - 1]);
    }
  }

  // The lenient decoder: what it reads a character as.

  predicate Skipped(c: char) {
    c in {'\n', '\r', ' '}
  }

  lemma UrlCharExactly(c: char)
    ensures UrlChar(c) == Stop <==> c == '='
    ensures UrlChar(c) == Skip <==> Skipped(c)
    ensures forall v: Sextet :: UrlChar(c) == Value(v) <==> c == Letter(Std, v) || c == Letter(Url, v)
  {
  }

  /** It goes on to the first `=`, passes over line ends and spaces, and fails on any character
      before that which neither alphabet has. */
  lemma UrlDecodeByChar(c: char, rest: string)
    ensures ReadSextets(Lenient, "") == Some([])
    ensures var all := ReadSextets(Lenient, [c] + rest);
            && (c == '=' ==> all == Some([]))
            && (Skipped(c) ==> all == ReadSextets(Lenient, rest))
            && (forall v: Sextet :: c == Letter(Std, v) || c == Letter(Url, v) ==>
                  all == Prepend([v], ReadSextets(Lenient, rest)))
            && (c != '=' && !Skipped(c) && (forall v: Sextet :: c != Letter(Std, v) && c != Letter(Url, v)) ==>
                  all == None)
  {
    hide UrlChar, Letter, Skipped;
    assert ([c] + rest)[1..] == rest && ([c] + rest)[0] == c;
    UrlCharExactly(c);
  }
}
