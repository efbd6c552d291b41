/**
 * The on-disk layout of the byte-per-slot filter (new.cpp `dump` and `load`):
 *
 *   header bytes | version: u16 LE | hash count: u16 LE | slot count: i32 LE | one byte per slot
 *
 * Encoding and decoding are pure functions over byte strings; opening the file is a parameter
 * of the filter's Dump and Load methods.
 */
module Codec {
  import opened Base

  /** What a filter file records: the version tag, the number of hash functions and the slots. */
  datatype Image = Image(version: u16, hashCount: u16, slots: Bytes)

  /** Why a file is not accepted. */
  datatype LoadError =
    | InvalidFormat   // the first four bytes do not match the expected header
    | Truncated       // fewer bytes than the layout or the slot count asks for
    | NegativeCount   // the slot count, read as a signed 32-bit int, is negative

  /** Little-endian bytes of a 16-bit value, as a native write on a little-endian host produces. */
  function LE16(x: u16): Bytes
  {
    [(x % 0x100) as byte, (x / 0x100) as byte]
  }

  /** Little-endian bytes of a 32-bit value. */
  function LE32(x: nat): Bytes
    requires x < 0x1_0000_0000
  {
    var q1 := x / 0x100;
    var q2 := q1 / 0x100;
    [(x % 0x100) as byte, (q1 % 0x100) as byte, (q2 % 0x100) as byte, (q2 / 0x100) as byte]
  }

  /** The 16-bit value whose little-endian bytes are `b`. */
  function ReadLE16(b: Bytes): u16
    requires |b| == 2
  {
    (b[0] as int + 0x100 * b[1] as int) as u16
  }

  /** The unsigned 32-bit value whose little-endian bytes are `b`. */
  function ReadLE32(b: Bytes): (x: nat)
    requires |b| == 4
    ensures x < 0x1_0000_0000
  {
    b[0] as int + 0x100 * b[1] as int + 0x1_0000 * b[2] as int + 0x100_0000 * b[3] as int
  }

  lemma LE16RoundTrip(x: u16)
    ensures |LE16(x)| == 2 && ReadLE16(LE16(x)) == x
  {
  }

  lemma ReadLE16RoundTrip(b: Bytes)
    requires |b| == 2
    ensures LE16(ReadLE16(b)) == b
  {
  }

  lemma LE32RoundTrip(x: nat)
    requires x < 0x1_0000_0000
    ensures |LE32(x)| == 4 && ReadLE32(LE32(x)) == x
  {
    var q1 := x / 0x100;
    var q2 := q1 / 0x100;
    assert x == x % 0x100 + 0x100 * q1;
    assert q1 == q1 % 0x100 + 0x100 * q2;
    assert q2 == q2 % 0x100 + 0x100 * (q2 / 0x100);
  }

  lemma ReadLE32RoundTrip(b: Bytes)
    requires |b| == 4
    ensures LE32(ReadLE32(b)) == b
  {
    var x := ReadLE32(b);
    var q2 := b[2] as int + 0x100 * b[3] as int;
    var q1 := b[1] as int + 0x100 * q2;
    DivMod256(x, q1, b[0] as int);
    DivMod256(q1, q2, b[1] as int);
    DivMod256(q2, b[3] as int, b[2] as int);
  }

  /**
   * The C string a byte buffer holds: the longest prefix without a NUL byte. The header check
   * compares the four bytes read (plus a terminating NUL) with the expected header through strcmp.
   */
  function CString(b: Bytes): (r: Bytes)
    ensures r <= b && 0 !in r
    ensures |r| < |b| ==> b[|r|] == 0
  {
    if b == [] || b[0] == 0 then [] else [b[0]] + CString(b[1..])
  }

  /**
   * The slot count as `int filter_bits = mem.size()` stores it: the size modulo 2^32, whose
   * little-endian bytes are those of the two's-complement int.
   */
  function CountField(n: nat): (x: nat)
    ensures x < 0x1_0000_0000
  {
    n % 0x1_0000_0000
  }

  /** The bytes `dump` writes. */
  function Encode(header: Bytes, img: Image): (r: Bytes)
    ensures |r| == |header| + 8 + |img.slots|
    ensures r[..|header|] == header && r[|header| + 8..] == img.slots
  {
    header + LE16(img.version) + LE16(img.hashCount) + LE32(CountField(|img.slots|)) + img.slots
  }

  /**
   * What `load` reads from `file` given the filter's expected `header`. Bytes after the declared
   * slots are ignored.
   */
  function Decode(file: Bytes, header: Bytes): (r: Result<Image, LoadError>)
    ensures |file| >= 4 ==> (r == Err(InvalidFormat) <==> CString(file[..4]) != CString(header))
    ensures r.Ok? ==> |file| >= 12 + |r.value.slots| && r.value.slots == file[12..12 + |r.value.slots|]
    ensures r.Ok? ==> |r.value.slots| < 0x8000_0000
  {
    if |file| < 4 then Err(Truncated)
    else if CString(file[..4]) != CString(header) then Err(InvalidFormat)
    else if |file| < 12 then Err(Truncated)
    else
      var count := ReadLE32(file[8..12]);
      if count >= 0x8000_0000 then Err(NegativeCount)
      else if |file| - 12 < count then Err(Truncated)
      else Ok(Image(ReadLE16(file[4..6]), ReadLE16(file[6..8]), file[12..12 + count]))
  }

  /** For a four-byte header without NUL bytes, the strcmp check is exact byte equality. */
  lemma HeaderCheckExact(read: Bytes, header: Bytes)
    requires |read| == 4 && |header| == 4 && 0 !in header
    ensures CString(read) == CString(header) <==> read == header
  {
  }

  /** Decoding what was encoded with a four-byte header gives back the image, whatever follows it. */
  lemma DecodeEncode(header: Bytes, img: Image, rest: Bytes)
    requires |header| == 4 && |img.slots| < 0x8000_0000
    ensures Decode(Encode(header, img) + rest, header) == Ok(img)
  {
    var file := Encode(header, img) + rest;
    var n := |img.slots|;
    LE16RoundTrip(img.version);
    LE16RoundTrip(img.hashCount);
    LE32RoundTrip(CountField(n));
    assert file[..4] == header;
    assert file[4..6] == LE16(img.version);
    assert file[6..8] == LE16(img.hashCount);
    assert file[8..12] == LE32(CountField(n));
    assert file[12..12 + n] == img.slots;
  }

  /** Conversely, an accepted file starts with the encoding of what was decoded from it. */
  lemma EncodeDecode(file: Bytes, header: Bytes)
    requires |header| == 4 && 0 !in header && Decode(file, header).Ok?
    ensures file[..12 + |Decode(file, header).value.slots|] == Encode(header, Decode(file, header).value)
  {
    var img := Decode(file, header).value;
    HeaderCheckExact(file[..4], header);
    ReadLE16RoundTrip(file[4..6]);
    ReadLE16RoundTrip(file[6..8]);
    ReadLE32RoundTrip(file[8..12]);
    assert file[..12 + |img.slots|] == file[..4] + file[4..6] + file[6..8] + file[8..12] + file[12..12 + |img.slots|];
  }
}
