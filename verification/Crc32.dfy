/** The checksum of separate debug files (agent/src/os/linux/symtab.c): the table-driven CRC is
    the bit-at-a-time one, whatever the chunks the file is read in. */
module Crc32 {
  // ---- The bit-at-a-time CRC --------------------------------------------------------------

  /** One bit: the inner step of section 8 of RFC 1952. */
  function Shift(c: bv32): bv32 { if c & 1 == 1 then (c >> 1) ^ 0xedb88320 else c >> 1 }

  function Iterate<T>(f: T -> T, x: T, n: nat): T { if n == 0 then x else f(Iterate(f, x, n - 1)) }

  /** One byte. */
  function Shift8(c: bv32): bv32 { Iterate(Shift, c, 8) }

  function ByteStep(c: bv32, b: bv8): bv32 { Shift8(c ^ (b as bv32)) }

  function Fold<T, B>(step: (T, B) -> T, x: T, bytes: seq<B>): T {
    if bytes == [] then x
    else step(Fold(step, x, bytes[..|bytes| - 1]), bytes[|bytes| - 1])
  }

  function Not(c: bv32): bv32 { !c }

  /** A checksum whose register is complemented on the way in and out. */
  function Checksum<T, B>(step: (T, B) -> T, complement: T -> T, crc: T, bytes: seq<B>): T {
    complement(Fold(step, complement(crc), bytes))
  }

  /** The CRC of some bytes that follow others whose CRC is `crc`. */
  function Crc(crc: bv32, bytes: seq<bv8>): bv32 { Checksum(ByteStep, Not, crc, bytes) }

  // ---- The table --------------------------------------------------------------------------

  function Pick(k: bv8, e0: bv32, e1: bv32, e2: bv32, e3: bv32, e4: bv32, e5: bv32, e6: bv32, e7: bv32,
                e8: bv32, e9: bv32, ea: bv32, eb: bv32, ec: bv32, ed: bv32, ee: bv32, ef: bv32): bv32 {
    match k
    case 0 => e0
    case 1 => e1
    case 2 => e2
    case 3 => e3
    case 4 => e4
    case 5 => e5
    case 6 => e6
    case 7 => e7
    case 8 => e8
    case 9 => e9
    case 10 => ea
    case 11 => eb
    case 12 => ec
    case 13 => ed
    case 14 => ee
    case _ => ef
  }

  function Row0(k: bv8): bv32 {
    Pick(k, 0x00000000, 0x77073096, 0xee0e612c, 0x990951ba, 0x076dc419, 0x706af48f, 0xe963a535, 0x9e6495a3,
            0x0edb8832, 0x79dcb8a4, 0xe0d5e91e, 0x97d2d988, 0x09b64c2b, 0x7eb17cbd, 0xe7b82d07, 0x90bf1d91)
  }

  function Row1(k: bv8): bv32 {
    Pick(k, 0x1db71064, 0x6ab020f2, 0xf3b97148, 0x84be41de, 0x1adad47d, 0x6ddde4eb, 0xf4d4b551, 0x83d385c7,
            0x136c9856, 0x646ba8c0, 0xfd62f97a, 0x8a65c9ec, 0x14015c4f, 0x63066cd9, 0xfa0f3d63, 0x8d080df5)
  }

  function Row2(k: bv8): bv32 {
    Pick(k, 0x3b6e20c8, 0x4c69105e, 0xd56041e4, 0xa2677172, 0x3c03e4d1, 0x4b04d447, 0xd20d85fd, 0xa50ab56b,
            0x35b5a8fa, 0x42b2986c, 0xdbbbc9d6, 0xacbcf940, 0x32d86ce3, 0x45df5c75, 0xdcd60dcf, 0xabd13d59)
  }

  function Row3(k: bv8): bv32 {
    Pick(k, 0x26d930ac, 0x51de003a, 0xc8d75180, 0xbfd06116, 0x21b4f4b5, 0x56b3c423, 0xcfba9599, 0xb8bda50f,
            0x2802b89e, 0x5f058808, 0xc60cd9b2, 0xb10be924, 0x2f6f7c87, 0x58684c11, 0xc1611dab, 0xb6662d3d)
  }

  function Row4(k: bv8): bv32 {
    Pick(k, 0x76dc4190, 0x01db7106, 0x98d220bc, 0xefd5102a, 0x71b18589, 0x06b6b51f, 0x9fbfe4a5, 0xe8b8d433,
            0x7807c9a2, 0x0f00f934, 0x9609a88e, 0xe10e9818, 0x7f6a0dbb, 0x086d3d2d, 0x91646c97, 0xe6635c01)
  }

  function Row5(k: bv8): bv32 {
    Pick(k, 0x6b6b51f4, 0x1c6c6162, 0x856530d8, 0xf262004e, 0x6c0695ed, 0x1b01a57b, 0x8208f4c1, 0xf50fc457,
            0x65b0d9c6, 0x12b7e950, 0x8bbeb8ea, 0xfcb9887c, 0x62dd1ddf, 0x15da2d49, 0x8cd37cf3, 0xfbd44c65)
  }

  function Row6(k: bv8): bv32 {
    Pick(k, 0x4db26158, 0x3ab551ce, 0xa3bc0074, 0xd4bb30e2, 0x4adfa541, 0x3dd895d7, 0xa4d1c46d, 0xd3d6f4fb,
            0x4369e96a, 0x346ed9fc, 0xad678846, 0xda60b8d0, 0x44042d73, 0x33031de5, 0xaa0a4c5f, 0xdd0d7cc9)
  }

  function Row7(k: bv8): bv32 {
    Pick(k, 0x5005713c, 0x270241aa, 0xbe0b1010, 0xc90c2086, 0x5768b525, 0x206f85b3, 0xb966d409, 0xce61e49f,
            0x5edef90e, 0x29d9c998, 0xb0d09822, 0xc7d7a8b4, 0x59b33d17, 0x2eb40d81, 0xb7bd5c3b, 0xc0ba6cad)
  }

  function Row8(k: bv8): bv32 {
    Pick(k, 0xedb88320, 0x9abfb3b6, 0x03b6e20c, 0x74b1d29a, 0xead54739, 0x9dd277af, 0x04db2615, 0x73dc1683,
            0xe3630b12, 0x94643b84, 0x0d6d6a3e, 0x7a6a5aa8, 0xe40ecf0b, 0x9309ff9d, 0x0a00ae27, 0x7d079eb1)
  }

  function Row9(k: bv8): bv32 {
    Pick(k, 0xf00f9344, 0x8708a3d2, 0x1e01f268, 0x6906c2fe, 0xf762575d, 0x806567cb, 0x196c3671, 0x6e6b06e7,
            0xfed41b76, 0x89d32be0, 0x10da7a5a, 0x67dd4acc, 0xf9b9df6f, 0x8ebeeff9, 0x17b7be43, 0x60b08ed5)
  }

  function RowA(k: bv8): bv32 {
    Pick(k, 0xd6d6a3e8, 0xa1d1937e, 0x38d8c2c4, 0x4fdff252, 0xd1bb67f1, 0xa6bc5767, 0x3fb506dd, 0x48b2364b,
            0xd80d2bda, 0xaf0a1b4c, 0x36034af6, 0x41047a60, 0xdf60efc3, 0xa867df55, 0x316e8eef, 0x4669be79)
  }

  function RowB(k: bv8): bv32 {
    Pick(k, 0xcb61b38c, 0xbc66831a, 0x256fd2a0, 0x5268e236, 0xcc0c7795, 0xbb0b4703, 0x220216b9, 0x5505262f,
            0xc5ba3bbe, 0xb2bd0b28, 0x2bb45a92, 0x5cb36a04, 0xc2d7ffa7, 0xb5d0cf31, 0x2cd99e8b, 0x5bdeae1d)
  }

  function RowC(k: bv8): bv32 {
    Pick(k, 0x9b64c2b0, 0xec63f226, 0x756aa39c, 0x026d930a, 0x9c0906a9, 0xeb0e363f, 0x72076785, 0x05005713,
            0x95bf4a82, 0xe2b87a14, 0x7bb12bae, 0x0cb61b38, 0x92d28e9b, 0xe5d5be0d, 0x7cdcefb7, 0x0bdbdf21)
  }

  function RowD(k: bv8): bv32 {
    Pick(k, 0x86d3d2d4, 0xf1d4e242, 0x68ddb3f8, 0x1fda836e, 0x81be16cd, 0xf6b9265b, 0x6fb077e1, 0x18b74777,
            0x88085ae6, 0xff0f6a70, 0x66063bca, 0x11010b5c, 0x8f659eff, 0xf862ae69, 0x616bffd3, 0x166ccf45)
  }

  function RowE(k: bv8): bv32 {
    Pick(k, 0xa00ae278, 0xd70dd2ee, 0x4e048354, 0x3903b3c2, 0xa7672661, 0xd06016f7, 0x4969474d, 0x3e6e77db,
            0xaed16a4a, 0xd9d65adc, 0x40df0b66, 0x37d83bf0, 0xa9bcae53, 0xdebb9ec5, 0x47b2cf7f, 0x30b5ffe9)
  }

  function RowF(k: bv8): bv32 {
    Pick(k, 0xbdbdf21c, 0xcabac28a, 0x53b39330, 0x24b4a3a6, 0xbad03605, 0xcdd70693, 0x54de5729, 0x23d967bf,
            0xb3667a2e, 0xc4614ab8, 0x5d681b02, 0x2a6f2b94, 0xb40bbe37, 0xc30c8ea1, 0x5a05df1b, 0x2d02ef8d)
  }

  /** crc32_table, sixteen entries to a row. */
  function Table(x: bv8): bv32 {
    match x >> 4
    case 0 => Row0(x & 0xf)
    case 1 => Row1(x & 0xf)
    case 2 => Row2(x & 0xf)
    case 3 => Row3(x & 0xf)
    case 4 => Row4(x & 0xf)
    case 5 => Row5(x & 0xf)
    case 6 => Row6(x & 0xf)
    case 7 => Row7(x & 0xf)
    case 8 => Row8(x & 0xf)
    case 9 => Row9(x & 0xf)
    case 10 => RowA(x & 0xf)
    case 11 => RowB(x & 0xf)
    case 12 => RowC(x & 0xf)
    case 13 => RowD(x & 0xf)
    case 14 => RowE(x & 0xf)
    case _ => RowF(x & 0xf)
  }

  function Nested2(c: bv32): bv32 { Shift(Shift(c)) }
  function Nested4(c: bv32): bv32 { Nested2(Nested2(c)) }
  function Nested8(c: bv32): bv32 { Nested4(Nested4(c)) }

  lemma Unrolled(c: bv32)
    ensures Shift8(c) == Nested8(c)
  {
    var c4 := Nested4(c);
    assert Iterate(Shift, c, 2) == Nested2(c) by {
      assert Iterate(Shift, c, 0) == c;
      assert Iterate(Shift, c, 1) == Shift(c);
    }
    assert Iterate(Shift, c, 4) == c4 by {
      assert Iterate(Shift, c, 3) == Shift(Nested2(c));
    }
    assert Iterate(Shift, c, 6) == Nested2(c4) by {
      assert Iterate(Shift, c, 5) == Shift(c4);
    }
    assert Iterate(Shift, c, 7) == Shift(Nested2(c4));
  }

  lemma Row0Is(k: bv8)
    requires k < 16
    ensures Row0(k) == Nested8(0x00 | (k as bv32))
  {
  }

  lemma Row1Is(k: bv8)
    requires k < 16
    ensures Row1(k) == Nested8(0x10 | (k as bv32))
  {
  }

  lemma Row2Is(k: bv8)
    requires k < 16
    ensures Row2(k) == Nested8(0x20 | (k as bv32))
  {
  }

  lemma Row3Is(k: bv8)
    requires k < 16
    ensures Row3(k) == Nested8(0x30 | (k as bv32))
  {
  }

  lemma Row4Is(k: bv8)
    requires k < 16
    ensures Row4(k) == Nested8(0x40 | (k as bv32))
  {
  }

  lemma Row5Is(k: bv8)
    requires k < 16
    ensures Row5(k) == Nested8(0x50 | (k as bv32))
  {
  }

  lemma Row6Is(k: bv8)
    requires k < 16
    ensures Row6(k) == Nested8(0x60 | (k as bv32))
  {
  }

  lemma Row7Is(k: bv8)
    requires k < 16
    ensures Row7(k) == Nested8(0x70 | (k as bv32))
  {
  }

  lemma Row8Is(k: bv8)
    requires k < 16
    ensures Row8(k) == Nested8(0x80 | (k as bv32))
  {
  }

  lemma Row9Is(k: bv8)
    requires k < 16
    ensures Row9(k) == Nested8(0x90 | (k as bv32))
  {
  }

  lemma RowAIs(k: bv8)
    requires k < 16
    ensures RowA(k) == Nested8(0xA0 | (k as bv32))
  {
  }

  lemma RowBIs(k: bv8)
    requires k < 16
    ensures RowB(k) == Nested8(0xB0 | (k as bv32))
  {
  }

  lemma RowCIs(k: bv8)
    requires k < 16
    ensures RowC(k) == Nested8(0xC0 | (k as bv32))
  {
  }

  lemma RowDIs(k: bv8)
    requires k < 16
    ensures RowD(k) == Nested8(0xD0 | (k as bv32))
  {
  }

  lemma RowEIs(k: bv8)
    requires k < 16
    ensures RowE(k) == Nested8(0xE0 | (k as bv32))
  {
  }

  lemma RowFIs(k: bv8)
    requires k < 16
    ensures RowF(k) == Nested8(0xF0 | (k as bv32))
  {
  }

  /** Every entry is what eight shifts of its index give. */
  lemma TableIs(x: bv8)
    ensures Table(x) == Shift8(x as bv32)
  {
    Unrolled(x as bv32);
    var k := x & 0xf;
    match x >> 4
    case 0 => Row0Is(k); assert x as bv32 == 0x00 | (k as bv32);
    case 1 => Row1Is(k); assert x as bv32 == 0x10 | (k as bv32);
    case 2 => Row2Is(k); assert x as bv32 == 0x20 | (k as bv32);
    case 3 => Row3Is(k); assert x as bv32 == 0x30 | (k as bv32);
    case 4 => Row4Is(k); assert x as bv32 == 0x40 | (k as bv32);
    case 5 => Row5Is(k); assert x as bv32 == 0x50 | (k as bv32);
    case 6 => Row6Is(k); assert x as bv32 == 0x60 | (k as bv32);
    case 7 => Row7Is(k); assert x as bv32 == 0x70 | (k as bv32);
    case 8 => Row8Is(k); assert x as bv32 == 0x80 | (k as bv32);
    case 9 => Row9Is(k); assert x as bv32 == 0x90 | (k as bv32);
    case 10 => RowAIs(k); assert x as bv32 == 0xA0 | (k as bv32);
    case 11 => RowBIs(k); assert x as bv32 == 0xB0 | (k as bv32);
    case 12 => RowCIs(k); assert x as bv32 == 0xC0 | (k as bv32);
    case 13 => RowDIs(k); assert x as bv32 == 0xD0 | (k as bv32);
    case 14 => RowEIs(k); assert x as bv32 == 0xE0 | (k as bv32);
    case _ => RowFIs(k); assert x as bv32 == 0xF0 | (k as bv32);
  }

  // ---- The table-driven step --------------------------------------------------------------

  lemma Parity(a: bv32, b: bv32)
    ensures ((a ^ b) & 1 == 1) <==> ((a & 1 == 1) != (b & 1 == 1))
  {
  }

  lemma Halve(a: bv32, b: bv32)
    ensures (a ^ b) >> 1 == (a >> 1) ^ (b >> 1)
  {
  }

  lemma Cancel(x: bv32, y: bv32, p: bv32)
    ensures (x ^ p) ^ (y ^ p) == x ^ y && (x ^ y) ^ p == (x ^ p) ^ y == x ^ (y ^ p)
  {
  }

  /** The shift register is linear. */
  lemma ShiftLinear(a: bv32, b: bv32)
    ensures Shift(a ^ b) == Shift(a) ^ Shift(b)
  {
    Parity(a, b);
    Halve(a, b);
    Cancel(a >> 1, b >> 1, 0xedb88320);
  }

  lemma {:induction false} IterateDistributes<T(!new)>(f: T -> T, op: (T, T) -> T, a: T, b: T, n: nat)
    requires forall u, v :: f(op(u, v)) == op(f(u), f(v))
    ensures Iterate(f, op(a, b), n) == op(Iterate(f, a, n), Iterate(f, b, n))
  {
    if n > 0 {
      IterateDistributes(f, op, a, b, n - 1);
    }
  }

  function Xor(a: bv32, b: bv32): bv32 { a ^ b }

  lemma ShiftDistributes()
    ensures forall a, b :: Shift(Xor(a, b)) == Xor(Shift(a), Shift(b))
  {
    forall a, b
      ensures Shift(Xor(a, b)) == Xor(Shift(a), Shift(b))
    {
      ShiftLinear(a, b);
    }
  }

  lemma NestedHigh(c: bv32)
    ensures Nested8(c & 0xffffff00) == c >> 8
  {
  }

  /** Eight shifts of a value whose low byte is zero only move it. */
  lemma ShiftHigh(c: bv32)
    ensures Shift8(c & 0xffffff00) == c >> 8
  {
    NestedHigh(c);
    Unrolled(c & 0xffffff00);
  }

  lemma IterateSplit<T(!new)>(f: T -> T, op: (T, T) -> T, x: T, low: T, high: T, moved: T, n: nat)
    requires forall u, v :: f(op(u, v)) == op(f(u), f(v))
    requires op(low, high) == x && Iterate(f, high, n) == moved
    ensures Iterate(f, x, n) == op(Iterate(f, low, n), moved)
  {
    IterateDistributes(f, op, low, high, n);
  }

  /** So only the low byte meets the polynomial. */
  lemma ShiftSplit(c: bv32)
    ensures Shift8(c) == Xor(Shift8(c & 0xff), c >> 8)
  {
    ShiftDistributes();
    ShiftHigh(c);
    assert Xor(c & 0xff, c & 0xffffff00) == c;
    IterateSplit(Shift, Xor, c, c & 0xff, c & 0xffffff00, c >> 8, 8);
  }

  /** The body of the loop of gnu_debuglink_crc32. */
  function TableStep(c: bv32, b: bv8): bv32 { StepWith(Table, c, b) }

  function StepWith(table: bv8 -> bv32, c: bv32, b: bv8): bv32 {
    Xor(table(((c ^ (b as bv32)) & 0xff) as bv8), c >> 8)
  }

  function High(c: bv32): bv32 { c >> 8 }

  lemma HighIs(c: bv32, b: bv8)
    ensures High(c ^ (b as bv32)) == c >> 8
  {
  }

  lemma LowIs(y: bv32)
    ensures ((y & 0xff) as bv8) as bv32 == y & 0xff
  {
  }

  lemma TableAtLow(table: bv8 -> bv32, eight: bv32 -> bv32, y: bv32)
    requires forall x :: table(x) == eight(x as bv32)
    ensures table((y & 0xff) as bv8) == eight(y & 0xff)
  {
    LowIs(y);
  }

  lemma SplitAt(eight: bv32 -> bv32, c: bv32, b: bv8)
    requires forall x {:trigger High(x)} :: eight(x) == Xor(eight(x & 0xff), High(x))
    ensures eight(c ^ (b as bv32)) == Xor(eight((c ^ (b as bv32)) & 0xff), c >> 8)
  {
    HighIs(c, b);
  }

  lemma Assemble<T, I>(table: I -> T, eight: T -> T, op: (T, T) -> T, i: I, low: T, y: T, high: T)
    requires table(i) == eight(low) && eight(y) == op(eight(low), high)
    ensures op(table(i), high) == eight(y)
  {
  }

  lemma StepWithIs(table: bv8 -> bv32, eight: bv32 -> bv32, c: bv32, b: bv8)
    requires forall x :: table(x) == eight(x as bv32)
    requires forall x {:trigger High(x)} :: eight(x) == Xor(eight(x & 0xff), High(x))
    ensures StepWith(table, c, b) == eight(c ^ (b as bv32))
  {
    TableAtLow(table, eight, c ^ (b as bv32));
    SplitAt(eight, c, b);
    Assemble(table, eight, Xor, ((c ^ (b as bv32)) & 0xff) as bv8, (c ^ (b as bv32)) & 0xff, c ^ (b as bv32), c >> 8);
  }

  lemma StepIs(c: bv32, b: bv8)
    ensures TableStep(c, b) == ByteStep(c, b)
  {
    forall x
      ensures Table(x) == Shift8(x as bv32)
    {
      TableIs(x);
    }
    forall x
      ensures Shift8(x) == Xor(Shift8(x & 0xff), High(x))
    {
      ShiftSplit(x);
    }
    StepWithIs(Table, Shift8, c, b);
  }

  // ---- The checksum -----------------------------------------------------------------------

  lemma {:induction false} FoldAppend<T, B>(step: (T, B) -> T, x: T, s: seq<B>, t: seq<B>)
    ensures Fold(step, x, s + t) == Fold(step, Fold(step, x, s), t)
  {
    if t == [] {
      assert s + t == s;
    } else {
      assert (s + t)[..|s + t| - 1] == s + t[..|t| - 1];
      FoldAppend(step, x, s, t[..|t| - 1]);
    }
  }

  /** A checksum can be continued. */
  lemma ChecksumAppend<T(!new), B>(step: (T, B) -> T, complement: T -> T, crc: T, s: seq<B>, t: seq<B>)
    requires forall x :: complement(complement(x)) == x
    ensures Checksum(step, complement, Checksum(step, complement, crc, s), t) == Checksum(step, complement, crc, s + t)
  {
    FoldAppend(step, complement(crc), s, t);
  }

  lemma CrcAppend(crc: bv32, s: seq<bv8>, t: seq<bv8>)
    ensures Crc(Crc(crc, s), t) == Crc(crc, s + t)
  {
    ChecksumAppend(ByteStep, Not, crc, s, t);
  }

  /** The complements written out. */
  lemma CrcIs(crc: bv32, bytes: seq<bv8>)
    ensures Crc(crc, bytes) == !Fold(ByteStep, !crc, bytes)
  {
  }

  lemma StepValue(c: bv32, b: bv8, n: bv32)
    requires Nested8(c ^ (b as bv32)) == n
    ensures ByteStep(c, b) == n
  {
    Unrolled(c ^ (b as bv32));
  }

  lemma FoldLast<T, B>(step: (T, B) -> T, x: T, s: seq<B>, y: T, b: B, z: T)
    requires Fold(step, x, s) == y && step(y, b) == z
    ensures Fold(step, x, s + [b]) == z
  {
    assert (s + [b])[..|s + [b]| - 1] == s;
  }

  /** One byte, from the register it meets to the one it leaves. */
  lemma CheckStep(s: seq<bv8>, y: bv32, b: bv8, z: bv32, t: seq<bv8>)
    requires Fold(ByteStep, 0xffff_ffff, s) == y && Nested8(y ^ (b as bv32)) == z && t == s + [b]
    ensures Fold(ByteStep, 0xffff_ffff, t) == z
  {
    StepValue(y, b, z);
    FoldLast(ByteStep, 0xffff_ffff, s, y, b, z);
  }

  lemma CheckRegister()
    ensures Fold(ByteStep, 0xffff_ffff, [0x31, 0x32, 0x33, 0x34, 0x35, 0x36, 0x37, 0x38, 0x39]) == 0x340b_c6d9
  {
    CheckStep([], 0xffffffff, 0x31, 0x7c231048, [0x31]);
    CheckStep([0x31], 0x7c231048, 0x32, 0xb0acbb32, [0x31, 0x32]);
    CheckStep([0x31, 0x32], 0xb0acbb32, 0x33, 0x77b79c2d, [0x31, 0x32, 0x33]);
    CheckStep([0x31, 0x32, 0x33], 0x77b79c2d, 0x34, 0x641c1f5c, [0x31, 0x32, 0x33, 0x34]);
    CheckStep([0x31, 0x32, 0x33, 0x34], 0x641c1f5c, 0x35, 0x340ac5e3, [0x31, 0x32, 0x33, 0x34, 0x35]);
    CheckStep([0x31, 0x32, 0x33, 0x34, 0x35], 0x340ac5e3, 0x36, 0xf68d2c9e, [0x31, 0x32, 0x33, 0x34, 0x35, 0x36]);
    CheckStep([0x31, 0x32, 0x33, 0x34, 0x35, 0x36], 0xf68d2c9e, 0x37, 0xaffc9660, [0x31, 0x32, 0x33, 0x34, 0x35, 0x36, 0x37]);
    CheckStep([0x31, 0x32, 0x33, 0x34, 0x35, 0x36, 0x37], 0xaffc9660, 0x38, 0x651f2550, [0x31, 0x32, 0x33, 0x34, 0x35, 0x36, 0x37, 0x38]);
    CheckStep([0x31, 0x32, 0x33, 0x34, 0x35, 0x36, 0x37, 0x38], 0x651f2550, 0x39, 0x340bc6d9, [0x31, 0x32, 0x33, 0x34, 0x35, 0x36, 0x37, 0x38, 0x39]);
  }

  /** Known checksums: the check value of CRC-32, of the digits "123456789", and of a zero byte. */
  lemma CheckValues()
    ensures Crc(0, [0x31, 0x32, 0x33, 0x34, 0x35, 0x36, 0x37, 0x38, 0x39]) == 0xcbf4_3926
    ensures Crc(0, [0]) == 0xd202_ef8d
  {
    CrcIs(0, [0x31, 0x32, 0x33, 0x34, 0x35, 0x36, 0x37, 0x38, 0x39]);
    CheckRegister();
    CrcIs(0, [0]);
    CheckStep([], 0xffff_ffff, 0, 0x2dfd_1072, [0]);
  }

  /** The byte step under another name, for proofs about loops that need not know its bits. */
  lemma StandIn() returns (step: (bv32, bv8) -> bv32)
    ensures forall c, b {:trigger TableStep(c, b)} :: step(c, b) == TableStep(c, b)
    ensures forall crc, bytes {:trigger Crc(crc, bytes)} :: Checksum(step, Not, crc, bytes) == Crc(crc, bytes)
  {
    step := ByteStep;
    forall c, b
      ensures ByteStep(c, b) == TableStep(c, b)
    {
      StepIs(c, b);
    }
  }

  /** gnu_debuglink_crc32. */
  method DebuglinkCrc32(start: bv32, buf: array<bv8>, len: nat) returns (crc: bv32)
    requires len <= buf.Length
    ensures crc == !Fold(ByteStep, !start, buf[..len]) == Crc(start, buf[..len])
  {
    ghost var step := StandIn();
    crc := Not(start);
    var i := 0;
    while i < len
      invariant 0 <= i <= len && crc == Fold(step, Not(start), buf[..i])
    {
      assert buf[..i + 1][..i] == buf[..i];
      crc := TableStep(crc, buf[i]);
      i := i + 1;
    }
    crc := Not(crc);
    CrcIs(start, buf[..len]);
  }

  /** The end of the data that a run of read calls delivers: read(pos) is what the call at file
      position pos returns. */
  function Delivered(file: seq<bv8>, read: nat -> int, pos: nat): (end: nat)
    requires pos <= |file| && forall p :: 0 <= p <= |file| ==> read(p) <= |file| - p
    ensures pos <= end <= |file|
    ensures (forall p :: 0 <= p < |file| ==> read(p) > 0) ==> end == |file|
    decreases |file| - pos
  {
    if read(pos) <= 0 then pos else Delivered(file, read, pos + read(pos))
  }

  lemma SumStandIn() returns (sum: (bv32, seq<bv8>) -> bv32)
    ensures sum(0, []) == 0
    ensures forall s, t {:trigger s + t} :: sum(sum(0, s), t) == sum(0, s + t)
    ensures forall crc, s {:trigger Crc(crc, s)} :: sum(crc, s) == Crc(crc, s)
  {
    sum := Crc;
    forall s, t
      ensures Crc(Crc(0, s), t) == Crc(0, s + t)
    {
      CrcAppend(0, s, t);
    }
  }

  /** gnu_debuglink_crc32, with the checksum under another name. */
  method AddChunk(ghost sum: (bv32, seq<bv8>) -> bv32, crc: bv32, buf: array<bv8>, len: nat) returns (next: bv32)
    requires len <= buf.Length && forall c, s {:trigger Crc(c, s)} :: sum(c, s) == Crc(c, s)
    ensures next == sum(crc, buf[..len])
  {
    next := DebuglinkCrc32(crc, buf, len);
  }

  method ReadChunk(file: seq<bv8>, pos: nat, buffer: array<bv8>, len: nat)
    requires pos + len <= |file| && len <= buffer.Length
    modifies buffer
    ensures buffer[..len] == file[pos..pos + len]
  {
    forall i | 0 <= i < len {
      buffer[i] := file[pos + i];
    }
  }

  lemma PrefixSplits(file: seq<bv8>, pos: nat, len: nat)
    requires pos + len <= |file|
    ensures file[..pos + len] == file[..pos] + file[pos..pos + len]
  {
  }

  /** The chunk loop of open_debug_file. */
  method FileCrc(file: seq<bv8>, read: nat -> int) returns (crc: bv32)
    requires forall p :: 0 <= p <= |file| ==> read(p) <= |file| - p && read(p) <= 8192
    ensures crc == Crc(0, file[..Delivered(file, read, 0)])
  {
    ghost var sum := SumStandIn();
    crc := 0;
    var pos: nat := 0;
    var buffer := new bv8[8192];
    while read(pos) > 0
      invariant pos <= |file| && crc == sum(0, file[..pos])
      invariant Delivered(file, read, 0) == Delivered(file, read, pos)
      decreases |file| - pos
    {
      var len := read(pos);
      ReadChunk(file, pos, buffer, len);
      PrefixSplits(file, pos, len);
      crc := AddChunk(sum, crc, buffer, len);
      pos := pos + len;
    }
  }

  /** open_debug_file, once the file is open: whatever the sizes of the chunks, the file is
      accepted exactly when the checksum of all that was delivered is the given one. */
  method OpenDebugFile(file: seq<bv8>, read: nat -> int, crc: bv32) returns (ok: bool)
    requires forall p :: 0 <= p <= |file| ==> read(p) <= |file| - p && read(p) <= 8192
    ensures ok <==> crc == Crc(0, file[..Delivered(file, read, 0)])
    ensures (forall p :: 0 <= p < |file| ==> read(p) > 0) ==> (ok <==> crc == Crc(0, file))
  {
    var fileCrc := FileCrc(file, read);
    assert file[..|file|] == file;
    return crc == fileCrc;
  }
}
