/** The checksum over bucket ranges of src/chromium/metrics/histogram.cc.

    A range is four bytes, lowest first.  The checksum of a range is one table step per byte.
  */
module RangeChecksum {
  import opened Powers

  function Row0(k: bv8): bv32 {
    match k
    case 0 => 0x00000000 case 1 => 0x77073096 case 2 => 0xee0e612c case 3 => 0x990951ba
    case 4 => 0x076dc419 case 5 => 0x706af48f case 6 => 0xe963a535 case 7 => 0x9e6495a3
    case 8 => 0x0edb8832 case 9 => 0x79dcb8a4 case 10 => 0xe0d5e91e case 11 => 0x97d2d988
    case 12 => 0x09b64c2b case 13 => 0x7eb17cbd case 14 => 0xe7b82d07 case _ => 0x90bf1d91
  }

  function Row1(k: bv8): bv32 {
    match k
    case 0 => 0x1db71064 case 1 => 0x6ab020f2 case 2 => 0xf3b97148 case 3 => 0x84be41de
    case 4 => 0x1adad47d case 5 => 0x6ddde4eb case 6 => 0xf4d4b551 case 7 => 0x83d385c7
    case 8 => 0x136c9856 case 9 => 0x646ba8c0 case 10 => 0xfd62f97a case 11 => 0x8a65c9ec
    case 12 => 0x14015c4f case 13 => 0x63066cd9 case 14 => 0xfa0f3d63 case _ => 0x8d080df5
  }

  function Row2(k: bv8): bv32 {
    match k
    case 0 => 0x3b6e20c8 case 1 => 0x4c69105e case 2 => 0xd56041e4 case 3 => 0xa2677172
    case 4 => 0x3c03e4d1 case 5 => 0x4b04d447 case 6 => 0xd20d85fd case 7 => 0xa50ab56b
    case 8 => 0x35b5a8fa case 9 => 0x42b2986c case 10 => 0xdbbbc9d6 case 11 => 0xacbcf940
    case 12 => 0x32d86ce3 case 13 => 0x45df5c75 case 14 => 0xdcd60dcf case _ => 0xabd13d59
  }

  function Row3(k: bv8): bv32 {
    match k
    case 0 => 0x26d930ac case 1 => 0x51de003a case 2 => 0xc8d75180 case 3 => 0xbfd06116
    case 4 => 0x21b4f4b5 case 5 => 0x56b3c423 case 6 => 0xcfba9599 case 7 => 0xb8bda50f
    case 8 => 0x2802b89e case 9 => 0x5f058808 case 10 => 0xc60cd9b2 case 11 => 0xb10be924
    case 12 => 0x2f6f7c87 case 13 => 0x58684c11 case 14 => 0xc1611dab case _ => 0xb6662d3d
  }

  function Row4(k: bv8): bv32 {
    match k
    case 0 => 0x76dc4190 case 1 => 0x01db7106 case 2 => 0x98d220bc case 3 => 0xefd5102a
    case 4 => 0x71b18589 case 5 => 0x06b6b51f case 6 => 0x9fbfe4a5 case 7 => 0xe8b8d433
    case 8 => 0x7807c9a2 case 9 => 0x0f00f934 case 10 => 0x9609a88e case 11 => 0xe10e9818
    case 12 => 0x7f6a0dbb case 13 => 0x086d3d2d case 14 => 0x91646c97 case _ => 0xe6635c01
  }

  function Row5(k: bv8): bv32 {
    match k
    case 0 => 0x6b6b51f4 case 1 => 0x1c6c6162 case 2 => 0x856530d8 case 3 => 0xf262004e
    case 4 => 0x6c0695ed case 5 => 0x1b01a57b case 6 => 0x8208f4c1 case 7 => 0xf50fc457
    case 8 => 0x65b0d9c6 case 9 => 0x12b7e950 case 10 => 0x8bbeb8ea case 11 => 0xfcb9887c
    case 12 => 0x62dd1ddf case 13 => 0x15da2d49 case 14 => 0x8cd37cf3 case _ => 0xfbd44c65
  }

  function Row6(k: bv8): bv32 {
    match k
    case 0 => 0x4db26158 case 1 => 0x3ab551ce case 2 => 0xa3bc0074 case 3 => 0xd4bb30e2
    case 4 => 0x4adfa541 case 5 => 0x3dd895d7 case 6 => 0xa4d1c46d case 7 => 0xd3d6f4fb
    case 8 => 0x4369e96a case 9 => 0x346ed9fc case 10 => 0xad678846 case 11 => 0xda60b8d0
    case 12 => 0x44042d73 case 13 => 0x33031de5 case 14 => 0xaa0a4c5f case _ => 0xdd0d7cc9
  }

  function Row7(k: bv8): bv32 {
    match k
    case 0 => 0x5005713c case 1 => 0x270241aa case 2 => 0xbe0b1010 case 3 => 0xc90c2086
    case 4 => 0x5768b525 case 5 => 0x206f85b3 case 6 => 0xb966d409 case 7 => 0xce61e49f
    case 8 => 0x5edef90e case 9 => 0x29d9c998 case 10 => 0xb0d09822 case 11 => 0xc7d7a8b4
    case 12 => 0x59b33d17 case 13 => 0x2eb40d81 case 14 => 0xb7bd5c3b case _ => 0xc0ba6cad
  }

  function Row8(k: bv8): bv32 {
    match k
    case 0 => 0xedb88320 case 1 => 0x9abfb3b6 case 2 => 0x03b6e20c case 3 => 0x74b1d29a
    case 4 => 0xead54739 case 5 => 0x9dd277af case 6 => 0x04db2615 case 7 => 0x73dc1683
    case 8 => 0xe3630b12 case 9 => 0x94643b84 case 10 => 0x0d6d6a3e case 11 => 0x7a6a5aa8
    case 12 => 0xe40ecf0b case 13 => 0x9309ff9d case 14 => 0x0a00ae27 case _ => 0x7d079eb1
  }

  function Row9(k: bv8): bv32 {
    match k
    case 0 => 0xf00f9344 case 1 => 0x8708a3d2 case 2 => 0x1e01f268 case 3 => 0x6906c2fe
    case 4 => 0xf762575d case 5 => 0x806567cb case 6 => 0x196c3671 case 7 => 0x6e6b06e7
    case 8 => 0xfed41b76 case 9 => 0x89d32be0 case 10 => 0x10da7a5a case 11 => 0x67dd4acc
    case 12 => 0xf9b9df6f case 13 => 0x8ebeeff9 case 14 => 0x17b7be43 case _ => 0x60b08ed5
  }

  function RowA(k: bv8): bv32 {
    match k
    case 0 => 0xd6d6a3e8 case 1 => 0xa1d1937e case 2 => 0x38d8c2c4 case 3 => 0x4fdff252
    case 4 => 0xd1bb67f1 case 5 => 0xa6bc5767 case 6 => 0x3fb506dd case 7 => 0x48b2364b
    case 8 => 0xd80d2bda case 9 => 0xaf0a1b4c case 10 => 0x36034af6 case 11 => 0x41047a60
    case 12 => 0xdf60efc3 case 13 => 0xa867df55 case 14 => 0x316e8eef case _ => 0x4669be79
  }

  function RowB(k: bv8): bv32 {
    match k
    case 0 => 0xcb61b38c case 1 => 0xbc66831a case 2 => 0x256fd2a0 case 3 => 0x5268e236
    case 4 => 0xcc0c7795 case 5 => 0xbb0b4703 case 6 => 0x220216b9 case 7 => 0x5505262f
    case 8 => 0xc5ba3bbe case 9 => 0xb2bd0b28 case 10 => 0x2bb45a92 case 11 => 0x5cb36a04
    case 12 => 0xc2d7ffa7 case 13 => 0xb5d0cf31 case 14 => 0x2cd99e8b case _ => 0x5bdeae1d
  }

  function RowC(k: bv8): bv32 {
    match k
    case 0 => 0x9b64c2b0 case 1 => 0xec63f226 case 2 => 0x756aa39c case 3 => 0x026d930a
    case 4 => 0x9c0906a9 case 5 => 0xeb0e363f case 6 => 0x72076785 case 7 => 0x05005713
    case 8 => 0x95bf4a82 case 9 => 0xe2b87a14 case 10 => 0x7bb12bae case 11 => 0x0cb61b38
    case 12 => 0x92d28e9b case 13 => 0xe5d5be0d case 14 => 0x7cdcefb7 case _ => 0x0bdbdf21
  }

  function RowD(k: bv8): bv32 {
    match k
    case 0 => 0x86d3d2d4 case 1 => 0xf1d4e242 case 2 => 0x68ddb3f8 case 3 => 0x1fda836e
    case 4 => 0x81be16cd case 5 => 0xf6b9265b case 6 => 0x6fb077e1 case 7 => 0x18b74777
    case 8 => 0x88085ae6 case 9 => 0xff0f6a70 case 10 => 0x66063bca case 11 => 0x11010b5c
    case 12 => 0x8f659eff case 13 => 0xf862ae69 case 14 => 0x616bffd3 case _ => 0x166ccf45
  }

  function RowE(k: bv8): bv32 {
    match k
    case 0 => 0xa00ae278 case 1 => 0xd70dd2ee case 2 => 0x4e048354 case 3 => 0x3903b3c2
    case 4 => 0xa7672661 case 5 => 0xd06016f7 case 6 => 0x4969474d case 7 => 0x3e6e77db
    case 8 => 0xaed16a4a case 9 => 0xd9d65adc case 10 => 0x40df0b66 case 11 => 0x37d83bf0
    case 12 => 0xa9bcae53 case 13 => 0xdebb9ec5 case 14 => 0x47b2cf7f case _ => 0x30b5ffe9
  }

  function RowF(k: bv8): bv32 {
    match k
    case 0 => 0xbdbdf21c case 1 => 0xcabac28a case 2 => 0x53b39330 case 3 => 0x24b4a3a6
    case 4 => 0xbad03605 case 5 => 0xcdd70693 case 6 => 0x54de5729 case 7 => 0x23d967bf
    case 8 => 0xb3667a2e case 9 => 0xc4614ab8 case 10 => 0x5d681b02 case 11 => 0x2a6f2b94
    case 12 => 0xb40bbe37 case 13 => 0xc30c8ea1 case 14 => 0x5a05df1b case _ => 0x2d02ef8d
  }

  /** The static table of the source, a row for each high half of a byte. */
  function Table(i: bv8): bv32 {
    var k := i & 0xf;
    match i >> 4
    case 0 => Row0(k) case 1 => Row1(k) case 2 => Row2(k) case 3 => Row3(k)
    case 4 => Row4(k) case 5 => Row5(k) case 6 => Row6(k) case 7 => Row7(k)
    case 8 => Row8(k) case 9 => Row9(k) case 10 => RowA(k) case 11 => RowB(k)
    case 12 => RowC(k) case 13 => RowD(k) case 14 => RowE(k) case _ => RowF(k)
  }

  /** One step of division by the reversed polynomial 0xedb88320. */
  function Divide(x: bv32): bv32 {
    if x & 1 == 1 then (x >> 1) ^ 0xedb8_8320 else x >> 1
  }

  /** The remainder a byte leaves, by definition. */
  function Remainder(x: bv32): bv32 {
    Divide(Divide(Divide(Divide(Divide(Divide(Divide(Divide(x))))))))
  }

  /** The table lists remainders, a few rows at a time. */
  lemma Rows00(i: bv8)
    requires i & 0xf0 == 0x00
    ensures Table(i) == Remainder(i as bv32)
  {
    hide Row1, Row2, Row3, Row4, Row5, Row6, Row7, Row8, Row9, RowA, RowB, RowC, RowD, RowE, RowF;
  }

  lemma Rows10(i: bv8)
    requires i & 0xf0 == 0x10
    ensures Table(i) == Remainder(i as bv32)
  {
  }

  lemma Rows20(i: bv8)
    requires i & 0xe0 == 0x20
    ensures Table(i) == Remainder(i as bv32)
  {
  }

  lemma Rows40(i: bv8)
    requires i & 0xe0 == 0x40
    ensures Table(i) == Remainder(i as bv32)
  {
  }

  lemma Rows60(i: bv8)
    requires i & 0xe0 == 0x60
    ensures Table(i) == Remainder(i as bv32)
  {
  }

  lemma Rows80(i: bv8)
    requires i & 0xe0 == 0x80
    ensures Table(i) == Remainder(i as bv32)
  {
  }

  lemma RowsA0(i: bv8)
    requires i & 0xe0 == 0xa0
    ensures Table(i) == Remainder(i as bv32)
  {
  }

  lemma RowsC0(i: bv8)
    requires i & 0xe0 == 0xc0
    ensures Table(i) == Remainder(i as bv32)
  {
  }

  lemma RowsE0(i: bv8)
    requires i & 0xe0 == 0xe0
    ensures Table(i) == Remainder(i as bv32)
  {
  }

  lemma AnyRow(i: bv8)
    ensures i & 0xf0 in {0x00, 0x10} || i & 0xe0 in {0x20, 0x40, 0x60, 0x80, 0xa0, 0xc0, 0xe0}
  {
  }

  /** The table lists the remainders. */
  lemma TableIsRemainders(i: bv8)
    ensures Table(i) == Remainder(i as bv32)
  {
    hide Table, Remainder;
    if i & 0xf0 == 0x00 {
      Rows00(i);
    } else if i & 0xf0 == 0x10 {
      Rows10(i);
    } else if i & 0xe0 == 0x20 {
      Rows20(i);
    } else if i & 0xe0 == 0x40 {
      Rows40(i);
    } else if i & 0xe0 == 0x60 {
      Rows60(i);
    } else if i & 0xe0 == 0x80 {
      Rows80(i);
    } else if i & 0xe0 == 0xa0 {
      RowsA0(i);
    } else if i & 0xe0 == 0xc0 {
      RowsC0(i);
    } else {
      AnyRow(i);
      RowsE0(i);
    }
  }

  /** A word without its lowest byte. */
  function DropByte(x: bv32): bv32 {
    x >> 8
  }

  function Xor(x: bv32, y: bv32): bv32 {
    x ^ y
  }

  function LowByte(x: bv32): bv8 {
    (x & 0xff) as bv8
  }

  function XorByte(x: bv8, y: bv8): bv8 {
    x ^ y
  }

  /** A word without its `k` lowest bytes. */
  function Upper(x: bv32, k: nat): bv32 {
    if k == 0 then x else Upper(DropByte(x), k - 1)
  }

  lemma TopByte(x: bv32)
    ensures Upper(x, 3) == x >> 24
  {
    assert Upper(x, 3) == Upper(DropByte(x), 2) == Upper(DropByte(DropByte(x)), 1);
  }

  lemma RemaindersDiffer(i: bv8, j: bv8)
    requires Remainder(i as bv32) >> 24 == Remainder(j as bv32) >> 24
    ensures i == j
  {
  }

  /** No two entries share their top byte. */
  lemma TopBytesDiffer(i: bv8, j: bv8)
    requires Upper(Table(i), 3) == Upper(Table(j), 3)
    ensures i == j
  {
    hide Table, Upper, Remainder;
    TopByte(Table(i));
    TopByte(Table(j));
    TableIsRemainders(i);
    TableIsRemainders(j);
    RemaindersDiffer(i, j);
  }

  // ---------------------------------------------------------------------------------
  // One range
  // ---------------------------------------------------------------------------------

  /** A number halved `i` times. */
  function Halved(x: nat, i: nat): nat {
    if i == 0 then x else Halved(x, i - 1) / 2
  }

  function BitOf(x: nat, i: nat): bool {
    Halved(x, i) % 2 == 1
  }

  /** A number below 256 as eight bits. */
  function ToByte(x: nat): bv8 {
      (if BitOf(x, 0) then 0x01 else 0) | (if BitOf(x, 1) then 0x02 else 0)
    | (if BitOf(x, 2) then 0x04 else 0) | (if BitOf(x, 3) then 0x08 else 0)
    | (if BitOf(x, 4) then 0x10 else 0) | (if BitOf(x, 5) then 0x20 else 0)
    | (if BitOf(x, 6) then 0x40 else 0) | (if BitOf(x, 7) then 0x80 else 0)
  }

  function Weight(i: nat): nat
    requires i < 4
  {
    if i == 0 then 0x1 else if i == 1 then 0x100 else if i == 2 then 0x1_0000 else 0x100_0000
  }

  /** Digit `i` to base 256 of a 32-bit sample in two's complement, lowest first. */
  function DigitOf(range: int, i: nat): (d: nat)
    requires i < 4
    ensures d < 256
  {
    range % 0x1_0000_0000 / Weight(i) % 256
  }

  function ByteOf(range: int, i: nat): bv8
    requires i < 4
  {
    ToByte(DigitOf(range, i))
  }

  /** The table entry a step uses. */
  function Index(sum: bv32, b: bv8): bv8 {
    XorByte(LowByte(sum), b)
  }

  /** One table step: the running sum takes in a byte. */
  function TakeByte(sum: bv32, b: bv8): bv32 {
    Xor(Table(Index(sum, b)), DropByte(sum))
  }

  /** The checksum after `n` of a range's bytes. */
  function TakeBytes(sum: bv32, range: int, n: nat): bv32
    requires n <= 4
  {
    if n == 0 then sum else TakeByte(TakeBytes(sum, range, n - 1), ByteOf(range, n - 1))
  }

  method Crc32(sum: bv32, range: int) returns (newSum: bv32)
    ensures newSum == TakeBytes(sum, range, 4)
  {
    hide Table, ByteOf, Index, DropByte, Xor;
    newSum := sum;
    for i := 0 to 4
      invariant newSum == TakeBytes(sum, range, i)
    {
      newSum := Xor(Table(Index(newSum, ByteOf(range, i))), DropByte(newSum));
    }
  }

  lemma {:induction false} UpperXor(x: bv32, y: bv32, k: nat)
    ensures Upper(Xor(x, y), k) == Xor(Upper(x, k), Upper(y, k))
    decreases k
  {
    hide Xor, DropByte;
    if k > 0 {
      DropByteXor(x, y);
      UpperXor(DropByte(x), DropByte(y), k - 1);
    }
  }

  lemma DropByteXor(x: bv32, y: bv32)
    ensures DropByte(Xor(x, y)) == Xor(DropByte(x), DropByte(y))
  {
  }

  lemma {:induction false} UpperAdds(x: bv32, j: nat, k: nat)
    ensures Upper(Upper(x, j), k) == Upper(x, j + k)
    decreases j
  {
    hide DropByte;
    if j > 0 {
      UpperAdds(DropByte(x), j - 1, k);
    }
  }

  lemma TopOfStep(entry: bv32, sum: bv32)
    ensures Upper(Xor(entry, DropByte(sum)), 3) == Upper(entry, 3)
  {
    TopByte(Xor(entry, DropByte(sum)));
    TopByte(entry);
    hide Upper;
    TopByteOnly(entry, sum);
  }

  lemma TopByteOnly(entry: bv32, sum: bv32)
    ensures Xor(entry, DropByte(sum)) >> 24 == entry >> 24
  {
  }

  /** The top byte of a new sum tells which entry was used, and with it the rest of the old
      sum shows through. */
  lemma StepBack(sum: bv32, b: bv8, other: bv32, c: bv8, k: nat)
    requires k < 4 && Upper(TakeByte(sum, b), k) == Upper(TakeByte(other, c), k)
    ensures Index(sum, b) == Index(other, c) && Upper(sum, k + 1) == Upper(other, k + 1)
  {
    var i, j := Index(sum, b), Index(other, c);
    hide Table, Index, Upper, Xor, DropByte;
    UpperAdds(TakeByte(sum, b), k, 3 - k);
    UpperAdds(TakeByte(other, c), k, 3 - k);
    TopOfStep(Table(i), sum);
    TopOfStep(Table(j), other);
    TopBytesDiffer(i, j);
    UpperXor(Table(i), DropByte(sum), k);
    UpperXor(Table(i), DropByte(other), k);
    UpperDropped(sum, k);
    UpperDropped(other, k);
    SameXor(Upper(Table(i), k), Upper(sum, k + 1), Upper(other, k + 1));
  }

  lemma UpperDropped(x: bv32, k: nat)
    ensures Upper(DropByte(x), k) == Upper(x, k + 1)
  {
    hide DropByte;
  }

  lemma SameXor(a: bv32, b: bv32, c: bv32)
    requires Xor(a, b) == Xor(a, c)
    ensures b == c
  {
  }

  lemma SameIndex(sum: bv32, b: bv8, c: bv8)
    requires Index(sum, b) == Index(sum, c)
    ensures b == c
  {
    hide LowByte;
  }

  /** Once the sums after `n` bytes agree above the `4 - n` lowest bytes, the bytes agree. */
  lemma {:induction false} BytesAgree(sum: bv32, range: int, other: int, n: nat)
    requires n <= 4 && Upper(TakeBytes(sum, range, n), 4 - n) == Upper(TakeBytes(sum, other, n), 4 - n)
    ensures forall i :: 0 <= i < n ==> ByteOf(range, i) == ByteOf(other, i)
    ensures TakeBytes(sum, range, n) == TakeBytes(sum, other, n)
  {
    hide Table, ByteOf, Index, Upper, TakeByte, TakeBytes;
    if n == 0 {
      NoBytes(sum, range);
      NoBytes(sum, other);
    } else {
      LastByte(sum, range, n);
      LastByte(sum, other, n);
      var x, y := TakeBytes(sum, range, n - 1), TakeBytes(sum, other, n - 1);
      StepBack(x, ByteOf(range, n - 1), y, ByteOf(other, n - 1), 4 - n);
      BytesAgree(sum, range, other, n - 1);
      SameIndex(x, ByteOf(range, n - 1), ByteOf(other, n - 1));
    }
  }

  lemma NoBytes(sum: bv32, range: int)
    ensures TakeBytes(sum, range, 0) == sum
  {
  }

  lemma LastByte(sum: bv32, range: int, n: nat)
    requires 0 < n <= 4
    ensures TakeBytes(sum, range, n) == TakeByte(TakeBytes(sum, range, n - 1), ByteOf(range, n - 1))
  {
    hide TakeByte, ByteOf;
  }

  lemma SameBits(x: nat, y: nat)
    requires ToByte(x) == ToByte(y)
    ensures forall i :: 0 <= i < 8 ==> BitOf(x, i) == BitOf(y, i)
  {
    hide BitOf;
  }

  /** The bits of a number from bit `i` on make up the number halved `i` times. */
  function FromBits(x: nat, i: nat): nat
    requires i <= 8
    decreases 8 - i
  {
    if i == 8 then 0 else (if BitOf(x, i) then 1 else 0) + 2 * FromBits(x, i + 1)
  }

  lemma {:induction false} FromBitsOfNumber(x: nat, i: nat)
    requires i <= 8 && Halved(x, 8) == 0
    ensures FromBits(x, i) == Halved(x, i)
    decreases 8 - i
  {
    if i < 8 {
      FromBitsOfNumber(x, i + 1);
    }
  }

  lemma SmallHalved(x: nat)
    requires x < 256
    ensures Halved(x, 8) == 0 && Halved(x, 0) == x
  {
    assert Halved(x, 4) == Halved(x, 3) / 2 && Halved(x, 2) == Halved(x, 1) / 2;
    assert Halved(x, 4) < 16;
    assert Halved(x, 6) == Halved(x, 5) / 2 && Halved(x, 8) == Halved(x, 7) / 2;
  }

  lemma ToByteIsInjective(x: nat, y: nat)
    requires x < 256 && y < 256 && ToByte(x) == ToByte(y)
    ensures x == y
  {
    hide ToByte, BitOf, Halved, FromBits;
    SameBits(x, y);
    SmallHalved(x);
    SmallHalved(y);
    FromBitsOfNumber(x, 0);
    FromBitsOfNumber(y, 0);
    SameFromBits(x, y, 0);
  }

  lemma {:induction false} SameFromBits(x: nat, y: nat, i: nat)
    requires i <= 8 && forall j :: 0 <= j < 8 ==> BitOf(x, j) == BitOf(y, j)
    ensures FromBits(x, i) == FromBits(y, i)
    decreases 8 - i
  {
    hide BitOf;
    if i < 8 {
      SameFromBits(x, y, i + 1);
    }
  }

  lemma FromDigits(range: int)
    ensures range % 0x1_0000_0000 ==
            DigitOf(range, 0) + 0x100 * DigitOf(range, 1) + 0x1_0000 * DigitOf(range, 2) + 0x100_0000 * DigitOf(range, 3)
  {
    var m := range % 0x1_0000_0000;
    assert m / 0x1_0000 == m / 0x100 / 0x100;
    assert m / 0x100_0000 == m / 0x1_0000 / 0x100;
  }

  lemma BytesDetermineRange(range: int, other: int)
    requires IsSample(range) && IsSample(other)
    requires forall i :: 0 <= i < 4 ==> ByteOf(range, i) == ByteOf(other, i)
    ensures range == other
  {
    FromDigits(range);
    FromDigits(other);
    hide DigitOf, ToByte;
    assert ByteOf(range, 0) == ByteOf(other, 0) && ByteOf(range, 1) == ByteOf(other, 1);
    assert ByteOf(range, 2) == ByteOf(other, 2) && ByteOf(range, 3) == ByteOf(other, 3);
    ToByteIsInjective(DigitOf(range, 0), DigitOf(other, 0));
    ToByteIsInjective(DigitOf(range, 1), DigitOf(other, 1));
    ToByteIsInjective(DigitOf(range, 2), DigitOf(other, 2));
    ToByteIsInjective(DigitOf(range, 3), DigitOf(other, 3));
  }

  predicate IsSample(x: int) {
    -0x8000_0000 <= x < 0x8000_0000
  }

  /** For a fixed sum, different ranges give different sums. */
  lemma Crc32SeparatesRanges(sum: bv32, range: int, other: int)
    requires IsSample(range) && IsSample(other)
    requires TakeBytes(sum, range, 4) == TakeBytes(sum, other, 4)
    ensures range == other
  {
    hide Table, ByteOf, TakeBytes;
    BytesAgree(sum, range, other, 4);
    BytesDetermineRange(range, other);
  }

  lemma TakeByteSeparatesSums(sum: bv32, other: bv32, b: bv8)
    requires TakeByte(sum, b) == TakeByte(other, b)
    ensures sum == other
  {
    StepBack(sum, b, other, b, 0);
    hide Table, TakeByte, Xor;
    SumsAgree(sum, other, b);
  }

  lemma SumsAgree(sum: bv32, other: bv32, b: bv8)
    requires Upper(sum, 1) == Upper(other, 1) && Index(sum, b) == Index(other, b)
    ensures sum == other
  {
    assert Upper(sum, 1) == DropByte(sum) && Upper(other, 1) == DropByte(other);
    hide Upper, DropByte, LowByte, XorByte;
    SameXorByte(LowByte(sum), LowByte(other), b);
    Rejoin(sum, other);
  }

  lemma SameXorByte(x: bv8, y: bv8, b: bv8)
    requires XorByte(x, b) == XorByte(y, b)
    ensures x == y
  {
  }

  lemma Rejoin(x: bv32, y: bv32)
    requires DropByte(x) == DropByte(y) && LowByte(x) == LowByte(y)
    ensures x == y
  {
  }

  /** For a fixed range, different sums stay different. */
  lemma {:induction false} Crc32SeparatesSums(sum: bv32, other: bv32, range: int, n: nat)
    requires n <= 4 && TakeBytes(sum, range, n) == TakeBytes(other, range, n)
    ensures sum == other
  {
    if n > 0 {
      hide Table, ByteOf, Index, TakeByte;
      TakeByteSeparatesSums(TakeBytes(sum, range, n - 1), TakeBytes(other, range, n - 1), ByteOf(range, n - 1));
      Crc32SeparatesSums(sum, other, range, n - 1);
    }
  }

  // ---------------------------------------------------------------------------------
  // All ranges
  // ---------------------------------------------------------------------------------

  /** The sum over a list of ranges, starting from a sum. */
  function SumOver(sum: bv32, ranges: seq<int>): bv32 {
    if ranges == [] then sum
    else TakeBytes(SumOver(sum, ranges[..|ranges| - 1]), ranges[|ranges| - 1], 4)
  }

  /** `CalculateRangeChecksum`: the seed is the number of ranges; the last range, the largest
      sample, is not part of the sum. */
  function Checksum(ranges: seq<int>): bv32
    requires 0 < |ranges| < 0x1_0000_0000
  {
    SumOver(|ranges| as bv32, ranges[..|ranges| - 1])
  }

  lemma {:induction false} OneChangeSeparates(sum: bv32, ranges: seq<int>, i: nat, x: int)
    requires i < |ranges| && IsSample(ranges[i]) && IsSample(x) && ranges[i] != x
    ensures SumOver(sum, ranges) != SumOver(sum, ranges[i := x])
  {
    hide Table, TakeBytes;
    var last := |ranges| - 1;
    var changed := ranges[i := x];
    if i == last {
      assert ranges[..last] == changed[..last];
      if TakeBytes(SumOver(sum, ranges[..last]), ranges[last], 4) == TakeBytes(SumOver(sum, ranges[..last]), x, 4) {
        Crc32SeparatesRanges(SumOver(sum, ranges[..last]), ranges[last], x);
      }
    } else {
      OneChangeSeparates(sum, ranges[..last], i, x);
      assert ranges[..last][i := x] == changed[..last];
      if SumOver(sum, ranges) == SumOver(sum, changed) {
        Crc32SeparatesSums(SumOver(sum, ranges[..last]), SumOver(sum, changed[..last]), ranges[last], 4);
      }
    }
  }

  /** Changing one range leaves the checksum valid exactly when it is the last one, which the
      checksum does not cover. */
  lemma OneChangeIsDetected(ranges: seq<int>, i: nat, x: int)
    requires i < |ranges| < 0x1_0000_0000 && IsSample(ranges[i]) && IsSample(x) && ranges[i] != x
    ensures Checksum(ranges[i := x]) == Checksum(ranges) <==> i == |ranges| - 1
  {
    var covered := ranges[..|ranges| - 1];
    if i < |ranges| - 1 {
      OneChangeSeparates(|ranges| as bv32, covered, i, x);
      assert covered[i := x] == ranges[i := x][..|ranges| - 1];
    } else {
      assert covered == ranges[i := x][..|ranges| - 1];
    }
  }

  // ---------------------------------------------------------------------------------
  // The sum without the table: a range as a word
  // ---------------------------------------------------------------------------------

  /** A range as a 32-bit word in two's complement. */
  function Word(range: int): bv32 {
    (range % 0x1_0000_0000) as bv32
  }

  /** The bits of a word are the binary digits of the number, eight at a time. */
  lemma Bits0(x: nat)
    requires x < 0x1_0000_0000
    ensures (x as bv32) & 0x01 == 0x01 <==> x % 2 == 1
    ensures (x as bv32) & 0x02 == 0x02 <==> x / 0x2 % 2 == 1
    ensures (x as bv32) & 0x04 == 0x04 <==> x / 0x4 % 2 == 1
    ensures (x as bv32) & 0x08 == 0x08 <==> x / 0x8 % 2 == 1
    ensures (x as bv32) & 0x10 == 0x10 <==> x / 0x10 % 2 == 1
    ensures (x as bv32) & 0x20 == 0x20 <==> x / 0x20 % 2 == 1
    ensures (x as bv32) & 0x40 == 0x40 <==> x / 0x40 % 2 == 1
    ensures (x as bv32) & 0x80 == 0x80 <==> x / 0x80 % 2 == 1
  {
  }

  lemma Bits1(x: nat)
    requires x < 0x1_0000_0000
    ensures ((x as bv32) >> 8) & 0x01 == 0x01 <==> x / 0x100 % 2 == 1
    ensures ((x as bv32) >> 8) & 0x02 == 0x02 <==> x / 0x200 % 2 == 1
    ensures ((x as bv32) >> 8) & 0x04 == 0x04 <==> x / 0x400 % 2 == 1
    ensures ((x as bv32) >> 8) & 0x08 == 0x08 <==> x / 0x800 % 2 == 1
    ensures ((x as bv32) >> 8) & 0x10 == 0x10 <==> x / 0x1000 % 2 == 1
    ensures ((x as bv32) >> 8) & 0x20 == 0x20 <==> x / 0x2000 % 2 == 1
    ensures ((x as bv32) >> 8) & 0x40 == 0x40 <==> x / 0x4000 % 2 == 1
    ensures ((x as bv32) >> 8) & 0x80 == 0x80 <==> x / 0x8000 % 2 == 1
  {
  }

  lemma Bits2(x: nat)
    requires x < 0x1_0000_0000
    ensures ((x as bv32) >> 16) & 0x01 == 0x01 <==> x / 0x1_0000 % 2 == 1
    ensures ((x as bv32) >> 16) & 0x02 == 0x02 <==> x / 0x2_0000 % 2 == 1
    ensures ((x as bv32) >> 16) & 0x04 == 0x04 <==> x / 0x4_0000 % 2 == 1
    ensures ((x as bv32) >> 16) & 0x08 == 0x08 <==> x / 0x8_0000 % 2 == 1
    ensures ((x as bv32) >> 16) & 0x10 == 0x10 <==> x / 0x10_0000 % 2 == 1
    ensures ((x as bv32) >> 16) & 0x20 == 0x20 <==> x / 0x20_0000 % 2 == 1
    ensures ((x as bv32) >> 16) & 0x40 == 0x40 <==> x / 0x40_0000 % 2 == 1
    ensures ((x as bv32) >> 16) & 0x80 == 0x80 <==> x / 0x80_0000 % 2 == 1
  {
  }

  lemma Bits3(x: nat)
    requires x < 0x1_0000_0000
    ensures ((x as bv32) >> 24) & 0x01 == 0x01 <==> x / 0x100_0000 % 2 == 1
    ensures ((x as bv32) >> 24) & 0x02 == 0x02 <==> x / 0x200_0000 % 2 == 1
    ensures ((x as bv32) >> 24) & 0x04 == 0x04 <==> x / 0x400_0000 % 2 == 1
    ensures ((x as bv32) >> 24) & 0x08 == 0x08 <==> x / 0x800_0000 % 2 == 1
    ensures ((x as bv32) >> 24) & 0x10 == 0x10 <==> x / 0x1000_0000 % 2 == 1
    ensures ((x as bv32) >> 24) & 0x20 == 0x20 <==> x / 0x2000_0000 % 2 == 1
    ensures ((x as bv32) >> 24) & 0x40 == 0x40 <==> x / 0x4000_0000 % 2 == 1
    ensures ((x as bv32) >> 24) & 0x80 == 0x80 <==> x / 0x8000_0000 % 2 == 1
  {
  }

  /** A digit to base 256 keeps the binary digits. */
  lemma DigitKeepsBit(q: nat, m: nat, half: nat)
    requires 0 < m && m * (2 * half) == 256
    ensures q % 256 / m % 2 == q / m % 2
  {
    var t, d := q / 256, q % 256;
    Euclid(d, m);
    Nested(m, 2 * half, t, d / m);
    QuotientIs(q, m, 2 * half * t + d / m, d % m);
    EvenDrops(half, t, d / m);
  }

  lemma EvenDrops(half: nat, t: nat, p: nat)
    ensures (2 * half * t + p) % 2 == p % 2
  {
    Nested(2, half, t, 0);
  }

  lemma BitOfDigit(x: nat, w: nat, m: nat, half: nat)
    requires 0 < w && 0 < m && m * (2 * half) == 256
    ensures 0 < w * m && x / w % 256 / m % 2 == x / (w * m) % 2
  {
    DigitKeepsBit(x / w, m, half);
    QuotientOfQuotient(x, w, m);
  }

  /** A number halved `i` times is its quotient by 2^i. */
  lemma HalvedIsQuotient(d: nat, i: nat, m: nat)
    requires 0 < m && Halved(d, i) == d / m
    ensures Halved(d, i + 1) == d / (2 * m)
  {
    QuotientOfQuotient(d, m, 2);
  }

  lemma HalvedAre(d: nat)
    ensures Halved(d, 0) == d
    ensures Halved(d, 1) == d / 0x2
    ensures Halved(d, 2) == d / 0x4
    ensures Halved(d, 3) == d / 0x8
    ensures Halved(d, 4) == d / 0x10
    ensures Halved(d, 5) == d / 0x20
    ensures Halved(d, 6) == d / 0x40
    ensures Halved(d, 7) == d / 0x80
  {
    hide Halved;
    HalvedOnce(d);
    HalvedIsQuotient(d, 0, 0x1);
    HalvedIsQuotient(d, 1, 0x2);
    HalvedIsQuotient(d, 2, 0x4);
    HalvedIsQuotient(d, 3, 0x8);
    HalvedIsQuotient(d, 4, 0x10);
    HalvedIsQuotient(d, 5, 0x20);
    HalvedIsQuotient(d, 6, 0x40);
  }

  lemma HalvedOnce(d: nat)
    ensures Halved(d, 0) == d
  {
  }

  lemma BitsOfDigit(x: nat, w: nat)
    requires 0 < w
    ensures BitOf(x / w % 256, 0) <==> x / w % 2 == 1
    ensures BitOf(x / w % 256, 1) <==> x / (0x2 * w) % 2 == 1
    ensures BitOf(x / w % 256, 2) <==> x / (0x4 * w) % 2 == 1
    ensures BitOf(x / w % 256, 3) <==> x / (0x8 * w) % 2 == 1
    ensures BitOf(x / w % 256, 4) <==> x / (0x10 * w) % 2 == 1
    ensures BitOf(x / w % 256, 5) <==> x / (0x20 * w) % 2 == 1
    ensures BitOf(x / w % 256, 6) <==> x / (0x40 * w) % 2 == 1
    ensures BitOf(x / w % 256, 7) <==> x / (0x80 * w) % 2 == 1
  {
    hide Halved;
    var d := x / w % 256;
    HalvedAre(d);
    BitOfDigit(x, w, 0x1, 0x80);
    BitOfDigit(x, w, 0x2, 0x40);
    BitOfDigit(x, w, 0x4, 0x20);
    BitOfDigit(x, w, 0x8, 0x10);
    BitOfDigit(x, w, 0x10, 0x8);
    BitOfDigit(x, w, 0x20, 0x4);
    BitOfDigit(x, w, 0x40, 0x2);
    BitOfDigit(x, w, 0x80, 0x1);
  }

  lemma ByteByBits(w: bv32, d: nat)
    requires w & 0x01 == 0x01 <==> BitOf(d, 0)
    requires w & 0x02 == 0x02 <==> BitOf(d, 1)
    requires w & 0x04 == 0x04 <==> BitOf(d, 2)
    requires w & 0x08 == 0x08 <==> BitOf(d, 3)
    requires w & 0x10 == 0x10 <==> BitOf(d, 4)
    requires w & 0x20 == 0x20 <==> BitOf(d, 5)
    requires w & 0x40 == 0x40 <==> BitOf(d, 6)
    requires w & 0x80 == 0x80 <==> BitOf(d, 7)
    ensures LowByte(w) == ToByte(d)
  {
    hide BitOf;
  }

  lemma Byte0(range: int)
    ensures LowByte(Word(range)) == ByteOf(range, 0)
  {
    hide BitOf, LowByte, ToByte;
    var x := range % 0x1_0000_0000;
    Bits0(x);
    BitsOfDigit(x, Weight(0));
    ByteByBits(Word(range), DigitOf(range, 0));
  }

  lemma Byte1(range: int)
    ensures LowByte(Word(range) >> 8) == ByteOf(range, 1)
  {
    hide BitOf, LowByte, ToByte;
    var x := range % 0x1_0000_0000;
    Bits1(x);
    BitsOfDigit(x, Weight(1));
    ByteByBits(Word(range) >> 8, DigitOf(range, 1));
  }

  lemma Byte2(range: int)
    ensures LowByte(Word(range) >> 16) == ByteOf(range, 2)
  {
    hide BitOf, LowByte, ToByte;
    var x := range % 0x1_0000_0000;
    Bits2(x);
    BitsOfDigit(x, Weight(2));
    ByteByBits(Word(range) >> 16, DigitOf(range, 2));
  }

  lemma Byte3(range: int)
    ensures LowByte(Word(range) >> 24) == ByteOf(range, 3)
  {
    hide BitOf, LowByte, ToByte;
    var x := range % 0x1_0000_0000;
    Bits3(x);
    BitsOfDigit(x, Weight(3));
    ByteByBits(Word(range) >> 24, DigitOf(range, 3));
  }

  // ---------------------------------------------------------------------------------
  // The sum without the table: division step by step
  // ---------------------------------------------------------------------------------

  /** A word after `n` steps of division. */
  function Divided(x: bv32, n: nat): bv32 {
    if n == 0 then x else Divide(Divided(x, n - 1))
  }

  lemma EightSteps(x: bv32, n: nat)
    ensures Divided(x, n + 8) == Remainder(Divided(x, n))
  {
    hide Divide;
    assert Divided(x, n + 4) == Divide(Divide(Divide(Divide(Divided(x, n))))) by {
      assert Divided(x, n + 2) == Divide(Divide(Divided(x, n)));
    }
    assert Divided(x, n + 6) == Divide(Divide(Divided(x, n + 4)));
  }

  lemma LowBitXor(x: bv32, y: bv32)
    ensures (x ^ y) & 1 == 1 <==> (x & 1 == 1) != (y & 1 == 1)
    ensures (x ^ y) >> 1 == (x >> 1) ^ (y >> 1)
  {
  }

  lemma XorMoves(a: bv32, b: bv32, p: bv32)
    ensures (a ^ p) ^ b == (a ^ b) ^ p == a ^ (b ^ p) && (a ^ p) ^ (b ^ p) == a ^ b
  {
  }

  lemma DivideXor(x: bv32, y: bv32)
    ensures Divide(Xor(x, y)) == Xor(Divide(x), Divide(y))
  {
    LowBitXor(x, y);
    XorMoves(x >> 1, y >> 1, 0xedb8_8320);
  }

  lemma RemainderXor(x: bv32, y: bv32)
    ensures Remainder(Xor(x, y)) == Xor(Remainder(x), Remainder(y))
  {
    hide Xor, Divide;
    var x1, y1 := Divide(x), Divide(y);
    var x2, y2 := Divide(x1), Divide(y1);
    var x3, y3 := Divide(x2), Divide(y2);
    var x4, y4 := Divide(x3), Divide(y3);
    var x5, y5 := Divide(x4), Divide(y4);
    var x6, y6 := Divide(x5), Divide(y5);
    var x7, y7 := Divide(x6), Divide(y6);
    DivideXor(x, y);
    DivideXor(x1, y1);
    DivideXor(x2, y2);
    DivideXor(x3, y3);
    DivideXor(x4, y4);
    DivideXor(x5, y5);
    DivideXor(x6, y6);
    DivideXor(x7, y7);
  }

  lemma RemainderOfShifted(x: bv32)
    ensures Remainder(DropByte(x) << 8) == DropByte(x)
  {
  }

  lemma WordOfParts(x: bv32)
    ensures x == Xor(LowByte(x) as bv32, DropByte(x) << 8)
  {
  }

  /** Division treats the lowest byte and the rest apart. */
  lemma RemainderOfParts(x: bv32)
    ensures Remainder(x) == Xor(Remainder(LowByte(x) as bv32), DropByte(x))
  {
    hide Remainder, Xor, LowByte, DropByte;
    WordOfParts(x);
    RemainderXor(LowByte(x) as bv32, DropByte(x) << 8);
    RemainderOfShifted(x);
  }

  lemma LowByteXor(x: bv32, y: bv32)
    ensures LowByte(Xor(x, y)) == XorByte(LowByte(x), LowByte(y))
  {
  }

  lemma XorAssociates(x: bv32, y: bv32, z: bv32)
    ensures Xor(x, Xor(y, z)) == Xor(Xor(x, y), z)
  {
  }

  /** A table step takes a byte in as eight steps of division would. */
  lemma TakeByteDivides(sum: bv32, w: bv32)
    ensures Remainder(Xor(sum, w)) == Xor(TakeByte(sum, LowByte(w)), DropByte(w))
  {
    hide Remainder, Table, Xor, XorByte, LowByte, DropByte;
    RemainderOfParts(Xor(sum, w));
    LowByteXor(sum, w);
    DropByteXor(sum, w);
    TableIsRemainders(Index(sum, LowByte(w)));
    XorAssociates(Table(Index(sum, LowByte(w))), DropByte(sum), DropByte(w));
  }

  lemma UpperIsShifted(w: bv32)
    ensures Upper(w, 1) == w >> 8 && Upper(w, 2) == w >> 16 && Upper(w, 3) == w >> 24 && Upper(w, 4) == 0
  {
    TopByte(w);
    assert Upper(w, 2) == DropByte(DropByte(w)) by {
      hide DropByte;
      assert Upper(w, 2) == Upper(DropByte(w), 1) == Upper(DropByte(DropByte(w)), 0);
    }
    UpperAdds(w, 3, 1);
    assert Upper(w, 1) == DropByte(w);
    assert Upper(Upper(w, 3), 1) == DropByte(Upper(w, 3));
  }

  lemma ByteOfWord(range: int, n: nat)
    requires n < 4
    ensures LowByte(Upper(Word(range), n)) == ByteOf(range, n)
  {
    hide Word, ByteOf, LowByte, Upper;
    UpperIsShifted(Word(range));
    if n == 0 {
      UpperNone(Word(range));
      Byte0(range);
    } else if n == 1 {
      Byte1(range);
    } else if n == 2 {
      Byte2(range);
    } else {
      Byte3(range);
    }
  }

  lemma UpperNone(w: bv32)
    ensures Upper(w, 0) == w
  {
  }

  lemma {:induction false} TakeBytesDivides(sum: bv32, range: int, n: nat)
    requires n <= 4
    ensures Divided(Xor(sum, Word(range)), 8 * n) == Xor(TakeBytes(sum, range, n), Upper(Word(range), n))
  {
    hide Word, Remainder, Table, Xor, LowByte, DropByte, TakeByte, ByteOf, Divided, TakeBytes;
    if n == 0 {
      NoBytes(sum, range);
      NoSteps(Xor(sum, Word(range)));
      UpperNone(Word(range));
    } else {
      TakeBytesDivides(sum, range, n - 1);
      var w := Upper(Word(range), n - 1);
      EightSteps(Xor(sum, Word(range)), 8 * (n - 1));
      TakeByteDivides(TakeBytes(sum, range, n - 1), w);
      ByteOfWord(range, n - 1);
      LastByte(sum, range, n);
      UpperAdds(Word(range), n - 1, 1);
      UpperIsShifted(w);
    }
  }

  lemma NoSteps(x: bv32)
    ensures Divided(x, 0) == x
  {
  }

  /** A range is taken in by 32 steps of division. */
  lemma RangeDivides(sum: bv32, range: int)
    ensures TakeBytes(sum, range, 4) == Divided(sum ^ Word(range), 32)
  {
    hide Word, Divided, TakeBytes;
    TakeBytesDivides(sum, range, 4);
    NothingLeft(TakeBytes(sum, range, 4), Word(range));
  }

  lemma NothingLeft(x: bv32, w: bv32)
    ensures Xor(x, Upper(w, 4)) == x
  {
    hide Upper;
    UpperIsShifted(w);
  }

  /** The running sums of a bitwise CRC that is seeded with the number of ranges: a range is added
      as a word, and 32 steps of division follow.  The last range is left out. */
  predicate IsBitwiseCrc(sums: seq<bv32>, ranges: seq<int>)
    requires 0 < |ranges| < 0x1_0000_0000
  {
    && |sums| == |ranges| && sums[0] == |ranges| as bv32
    && forall i :: 0 <= i < |ranges| - 1 ==> sums[i + 1] == Divided(sums[i] ^ Word(ranges[i]), 32)
  }

  lemma SumMore(sum: bv32, ranges: seq<int>, i: nat)
    requires i < |ranges|
    ensures SumOver(sum, ranges[..i + 1]) == TakeBytes(SumOver(sum, ranges[..i]), ranges[i], 4)
  {
    hide TakeBytes;
    assert ranges[..i + 1][..i] == ranges[..i];
  }

  lemma SumsDivide(sum: bv32, ranges: seq<int>) returns (sums: seq<bv32>)
    ensures |sums| == |ranges| + 1 && sums[0] == sum && sums[|ranges|] == SumOver(sum, ranges)
    ensures forall i :: 0 <= i < |ranges| ==> sums[i + 1] == Divided(sums[i] ^ Word(ranges[i]), 32)
  {
    hide Word, Divided, TakeBytes, SumOver;
    SumOfNone(sum);
    assert ranges[..0] == [] && ranges[..|ranges|] == ranges;
    sums := seq(|ranges| + 1, i requires 0 <= i <= |ranges| => SumOver(sum, ranges[..i]));
    forall i | 0 <= i < |ranges| ensures sums[i + 1] == Divided(sums[i] ^ Word(ranges[i]), 32) {
      SumMore(sum, ranges, i);
      RangeDivides(sums[i], ranges[i]);
    }
  }

  /** The checksum is the last sum of the bitwise CRC. */
  lemma ChecksumIsBitwise(ranges: seq<int>) returns (sums: seq<bv32>)
    requires 0 < |ranges| < 0x1_0000_0000
    ensures IsBitwiseCrc(sums, ranges) && Checksum(ranges) == sums[|ranges| - 1]
  {
    hide Word, Divided, SumOver;
    sums := SumsDivide(|ranges| as bv32, ranges[..|ranges| - 1]);
  }

  lemma SumOfNone(sum: bv32)
    ensures SumOver(sum, []) == sum
  {
  }

  method CalculateRangeChecksum(ranges: seq<int>) returns (checksum: bv32)
    requires 0 < |ranges| < 0x1_0000_0000
    ensures checksum == Checksum(ranges)
    ensures exists sums :: IsBitwiseCrc(sums, ranges) && checksum == sums[|ranges| - 1]
  {
    hide TakeBytes;
    ghost var sums := ChecksumIsBitwise(ranges);
    checksum := |ranges| as bv32;
    for index := 0 to |ranges| - 1
      invariant checksum == SumOver(|ranges| as bv32, ranges[..index])
    {
      assert ranges[..index + 1][..index] == ranges[..index];
      checksum := Crc32(checksum, ranges[index]);
    }
  }
}
