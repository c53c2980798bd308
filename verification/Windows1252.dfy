/**
 Windows-1252 as editors use it: the code page, with its five undefined bytes
 passed through as the C1 control of the same number.
 */
module Windows1252 {
  import opened Bytes
  import opened Utf8

  // The code page itself.
  function CodePage(b: byte): Option<scalar> {
    match b
    case 0x80 => Some(0x20AC)
    case 0x82 => Some(0x201A)
    case 0x83 => Some(0x0192)
    case 0x84 => Some(0x201E)
    case 0x85 => Some(0x2026)
    case 0x86 => Some(0x2020)
    case 0x87 => Some(0x2021)
    case 0x88 => Some(0x02C6)
    case 0x89 => Some(0x2030)
    case 0x8A => Some(0x0160)
    case 0x8B => Some(0x2039)
    case 0x8C => Some(0x0152)
    case 0x8E => Some(0x017D)
    case 0x91 => Some(0x2018)
    case 0x92 => Some(0x2019)
    case 0x93 => Some(0x201C)
    case 0x94 => Some(0x201D)
    case 0x95 => Some(0x2022)
    case 0x96 => Some(0x2013)
    case 0x97 => Some(0x2014)
    case 0x98 => Some(0x02DC)
    case 0x99 => Some(0x2122)
    case 0x9A => Some(0x0161)
    case 0x9B => Some(0x203A)
    case 0x9C => Some(0x0153)
    case 0x9E => Some(0x017E)
    case 0x9F => Some(0x0178)
    case 0x81 => None
    case 0x8D => None
    case 0x8F => None
    case 0x90 => None
    case 0x9D => None
    case _ => Some(b as scalar)
  }

  function CharOf(b: byte): scalar {
    if CodePage(b).Some? then CodePage(b).value else b
  }

  // The reading of the table backwards.
  function ByteOf(c: scalar): Option<byte> {
    match c
    case 0x20AC => Some(0x80)
    case 0x201A => Some(0x82)
    case 0x0192 => Some(0x83)
    case 0x201E => Some(0x84)
    case 0x2026 => Some(0x85)
    case 0x2020 => Some(0x86)
    case 0x2021 => Some(0x87)
    case 0x02C6 => Some(0x88)
    case 0x2030 => Some(0x89)
    case 0x0160 => Some(0x8A)
    case 0x2039 => Some(0x8B)
    case 0x0152 => Some(0x8C)
    case 0x017D => Some(0x8E)
    case 0x2018 => Some(0x91)
    case 0x2019 => Some(0x92)
    case 0x201C => Some(0x93)
    case 0x201D => Some(0x94)
    case 0x2022 => Some(0x95)
    case 0x2013 => Some(0x96)
    case 0x2014 => Some(0x97)
    case 0x02DC => Some(0x98)
    case 0x2122 => Some(0x99)
    case 0x0161 => Some(0x9A)
    case 0x203A => Some(0x9B)
    case 0x0153 => Some(0x9C)
    case 0x017E => Some(0x9E)
    case 0x0178 => Some(0x9F)
    case _ => if c < 0x80 || 0xA0 <= c <= 0xFF || (c < 0xA0 && CodePage(c).None?) then Some(c) else None
  }

  // The characters of the upper half.
  predicate IsUpper(c: scalar) {
    c >= 0x80 && ByteOf(c).Some?
  }

  /** The 256 bytes and their characters match one to one. */
  lemma ByteOfCharOf(b: byte)
    ensures ByteOf(CharOf(b)) == Some(b)
  {
  }

  lemma CharOfByteOf(c: scalar)
    requires ByteOf(c).Some?
    ensures CharOf(ByteOf(c).value) == c
  {
  }

  /** Below 0x80 a byte is its own character; from 0x80 up its character is an upper one. */
  lemma CharOfHalves(b: byte)
    ensures b < 0x80 ==> CharOf(b) == b
    ensures b >= 0x80 <==> IsUpper(CharOf(b))
    ensures b >= 0x80 <==> CharOf(b) >= 0x80
  {
  }

  /**
   The characters of the bytes 0x80 to 0x9F, as the code page lists them, the five undefined ones
   as themselves; every other byte is its own character.
   */
  lemma CharOfTable(b: byte)
    ensures CharOf(b) ==
      if b < 0x80 || 0xA0 <= b then b
      else [0x20AC, 0x0081, 0x201A, 0x0192, 0x201E, 0x2026, 0x2020, 0x2021,
            0x02C6, 0x2030, 0x0160, 0x2039, 0x0152, 0x008D, 0x017D, 0x008F,
            0x0090, 0x2018, 0x2019, 0x201C, 0x201D, 0x2022, 0x2013, 0x2014,
            0x02DC, 0x2122, 0x0161, 0x203A, 0x0153, 0x009D, 0x017E, 0x0178][b - 0x80]
  {
  }

  /** The loop that fills `TO_1252` builds exactly the inverse of the reading. */
  method BuildTable() returns (table: map<scalar, byte>)
    ensures forall c :: c in table <==> ByteOf(c).Some?
    ensures forall c :: c in table ==> ByteOf(c) == Some(table[c])
  {
    table := map[];
    for b: int := 0 to 256
      invariant forall c :: c in table <==> ByteOf(c).Some? && ByteOf(c).value < b
      invariant forall c :: c in table ==> ByteOf(c) == Some(table[c])
    {
      ByteOfCharOf(b);
      forall c: scalar | ByteOf(c) == Some(b)
        ensures c == CharOf(b)
      {
        CharOfByteOf(c);
      }
      if CodePage(b).Some? {
        table := table[CodePage(b).value := b];
      } else {
        table := table[b := b];
      }
    }
  }
}
