/** The table-driven CRC-32: polynomial 0x04C11DB7 taken backwards, register
    preset to all ones, result complemented. */
module Crc {
  import opened Words

  const POLYNOMIAL: bv32 := 0xedb88320
  const ALL_ONES: bv32 := 0xffffffff

  function Widen(o: bv8): bv32 {
    o as bv32
  }

  function Low8(c: bv32): bv8 {
    (c & 0xff) as bv8
  }

  /** All but the low byte. */
  function High(c: bv32): bv32 {
    c & 0xffffff00
  }

  function Complement(r: bv32): bv32 {
    !r
  }

  // ------------------------------------------------- the bit-serial register

  /** One bit enters the shift register: when it differs from the bit shifted
      out, the polynomial is fed back. */
  function Serial(r: bv32, bit: bool): bv32 {
    if Odd(r) != bit then Xor(Half(r), POLYNOMIAL) else Half(r)
  }

  function Register(r: bv32, bits: seq<bool>): bv32
    decreases |bits|
  {
    if bits == [] then r else Register(Serial(r, bits[0]), bits[1..])
  }

  /** The low `n` bits of a word, in the order they are transmitted. */
  function WordBits(q: bv32, n: nat): (bits: seq<bool>)
    ensures |bits| == n
    decreases n
  {
    if n == 0 then [] else [Odd(q)] + WordBits(Half(q), n - 1)
  }

  /** The bits of a buffer in transmission order: bytes in turn, low bit first. */
  function Bits(buffer: seq<bv8>): (bits: seq<bool>)
    ensures |bits| == 8 * |buffer|
  {
    if buffer == [] then [] else WordBits(Widen(buffer[0]), 8) + Bits(buffer[1..])
  }

  /** The CRC by bit-serial division. */
  function SerialCrc(buffer: seq<bv8>): bv32 {
    Complement(Register(ALL_ONES, Bits(buffer)))
  }

  // -------------------------------------------------------- the table

  function Row(c: bv8, e0: bv32, e1: bv32, e2: bv32, e3: bv32, e4: bv32, e5: bv32, e6: bv32, e7: bv32): bv32 {
    if c == 0 then e0 else if c == 1 then e1 else if c == 2 then e2 else if c == 3 then e3
    else if c == 4 then e4 else if c == 5 then e5 else if c == 6 then e6 else e7
  }

  /** The feedback terms, eight to a row. */
  function TableEntry(i: bv8): bv32 {
    var c := i & 7;
    match i >> 3
    case 0 => Row(c, 0x00000000, 0x77073096, 0xee0e612c, 0x990951ba, 0x076dc419, 0x706af48f, 0xe963a535, 0x9e6495a3)
    case 1 => Row(c, 0x0edb8832, 0x79dcb8a4, 0xe0d5e91e, 0x97d2d988, 0x09b64c2b, 0x7eb17cbd, 0xe7b82d07, 0x90bf1d91)
    case 2 => Row(c, 0x1db71064, 0x6ab020f2, 0xf3b97148, 0x84be41de, 0x1adad47d, 0x6ddde4eb, 0xf4d4b551, 0x83d385c7)
    case 3 => Row(c, 0x136c9856, 0x646ba8c0, 0xfd62f97a, 0x8a65c9ec, 0x14015c4f, 0x63066cd9, 0xfa0f3d63, 0x8d080df5)
    case 4 => Row(c, 0x3b6e20c8, 0x4c69105e, 0xd56041e4, 0xa2677172, 0x3c03e4d1, 0x4b04d447, 0xd20d85fd, 0xa50ab56b)
    case 5 => Row(c, 0x35b5a8fa, 0x42b2986c, 0xdbbbc9d6, 0xacbcf940, 0x32d86ce3, 0x45df5c75, 0xdcd60dcf, 0xabd13d59)
    case 6 => Row(c, 0x26d930ac, 0x51de003a, 0xc8d75180, 0xbfd06116, 0x21b4f4b5, 0x56b3c423, 0xcfba9599, 0xb8bda50f)
    case 7 => Row(c, 0x2802b89e, 0x5f058808, 0xc60cd9b2, 0xb10be924, 0x2f6f7c87, 0x58684c11, 0xc1611dab, 0xb6662d3d)
    case 8 => Row(c, 0x76dc4190, 0x01db7106, 0x98d220bc, 0xefd5102a, 0x71b18589, 0x06b6b51f, 0x9fbfe4a5, 0xe8b8d433)
    case 9 => Row(c, 0x7807c9a2, 0x0f00f934, 0x9609a88e, 0xe10e9818, 0x7f6a0dbb, 0x086d3d2d, 0x91646c97, 0xe6635c01)
    case 10 => Row(c, 0x6b6b51f4, 0x1c6c6162, 0x856530d8, 0xf262004e, 0x6c0695ed, 0x1b01a57b, 0x8208f4c1, 0xf50fc457)
    case 11 => Row(c, 0x65b0d9c6, 0x12b7e950, 0x8bbeb8ea, 0xfcb9887c, 0x62dd1ddf, 0x15da2d49, 0x8cd37cf3, 0xfbd44c65)
    case 12 => Row(c, 0x4db26158, 0x3ab551ce, 0xa3bc0074, 0xd4bb30e2, 0x4adfa541, 0x3dd895d7, 0xa4d1c46d, 0xd3d6f4fb)
    case 13 => Row(c, 0x4369e96a, 0x346ed9fc, 0xad678846, 0xda60b8d0, 0x44042d73, 0x33031de5, 0xaa0a4c5f, 0xdd0d7cc9)
    case 14 => Row(c, 0x5005713c, 0x270241aa, 0xbe0b1010, 0xc90c2086, 0x5768b525, 0x206f85b3, 0xb966d409, 0xce61e49f)
    case 15 => Row(c, 0x5edef90e, 0x29d9c998, 0xb0d09822, 0xc7d7a8b4, 0x59b33d17, 0x2eb40d81, 0xb7bd5c3b, 0xc0ba6cad)
    case 16 => Row(c, 0xedb88320, 0x9abfb3b6, 0x03b6e20c, 0x74b1d29a, 0xead54739, 0x9dd277af, 0x04db2615, 0x73dc1683)
    case 17 => Row(c, 0xe3630b12, 0x94643b84, 0x0d6d6a3e, 0x7a6a5aa8, 0xe40ecf0b, 0x9309ff9d, 0x0a00ae27, 0x7d079eb1)
    case 18 => Row(c, 0xf00f9344, 0x8708a3d2, 0x1e01f268, 0x6906c2fe, 0xf762575d, 0x806567cb, 0x196c3671, 0x6e6b06e7)
    case 19 => Row(c, 0xfed41b76, 0x89d32be0, 0x10da7a5a, 0x67dd4acc, 0xf9b9df6f, 0x8ebeeff9, 0x17b7be43, 0x60b08ed5)
    case 20 => Row(c, 0xd6d6a3e8, 0xa1d1937e, 0x38d8c2c4, 0x4fdff252, 0xd1bb67f1, 0xa6bc5767, 0x3fb506dd, 0x48b2364b)
    case 21 => Row(c, 0xd80d2bda, 0xaf0a1b4c, 0x36034af6, 0x41047a60, 0xdf60efc3, 0xa867df55, 0x316e8eef, 0x4669be79)
    case 22 => Row(c, 0xcb61b38c, 0xbc66831a, 0x256fd2a0, 0x5268e236, 0xcc0c7795, 0xbb0b4703, 0x220216b9, 0x5505262f)
    case 23 => Row(c, 0xc5ba3bbe, 0xb2bd0b28, 0x2bb45a92, 0x5cb36a04, 0xc2d7ffa7, 0xb5d0cf31, 0x2cd99e8b, 0x5bdeae1d)
    case 24 => Row(c, 0x9b64c2b0, 0xec63f226, 0x756aa39c, 0x026d930a, 0x9c0906a9, 0xeb0e363f, 0x72076785, 0x05005713)
    case 25 => Row(c, 0x95bf4a82, 0xe2b87a14, 0x7bb12bae, 0x0cb61b38, 0x92d28e9b, 0xe5d5be0d, 0x7cdcefb7, 0x0bdbdf21)
    case 26 => Row(c, 0x86d3d2d4, 0xf1d4e242, 0x68ddb3f8, 0x1fda836e, 0x81be16cd, 0xf6b9265b, 0x6fb077e1, 0x18b74777)
    case 27 => Row(c, 0x88085ae6, 0xff0f6a70, 0x66063bca, 0x11010b5c, 0x8f659eff, 0xf862ae69, 0x616bffd3, 0x166ccf45)
    case 28 => Row(c, 0xa00ae278, 0xd70dd2ee, 0x4e048354, 0x3903b3c2, 0xa7672661, 0xd06016f7, 0x4969474d, 0x3e6e77db)
    case 29 => Row(c, 0xaed16a4a, 0xd9d65adc, 0x40df0b66, 0x37d83bf0, 0xa9bcae53, 0xdebb9ec5, 0x47b2cf7f, 0x30b5ffe9)
    case 30 => Row(c, 0xbdbdf21c, 0xcabac28a, 0x53b39330, 0x24b4a3a6, 0xbad03605, 0xcdd70693, 0x54de5729, 0x23d967bf)
    case _ => Row(c, 0xb3667a2e, 0xc4614ab8, 0x5d681b02, 0x2a6f2b94, 0xb40bbe37, 0xc30c8ea1, 0x5a05df1b, 0x2d02ef8d)
  }

  /** One octet enters the register, by table. */
  function Updc32(octet: bv8, crc: bv32): bv32 {
    Xor(TableEntry(Low8(Xor(crc, Widen(octet)))), crc >> 8)
  }

  /** The register after the octets of a buffer, by table. */
  function TableRegister(r: bv32, buffer: seq<bv8>): bv32
    decreases |buffer|
  {
    if buffer == [] then r else TableRegister(Updc32(buffer[0], r), buffer[1..])
  }

  /** The loop over the buffer computes the bit-serial CRC. */
  method Crc32Buf(buffer: seq<bv8>) returns (crc: bv32)
    ensures crc == SerialCrc(buffer)
  {
    var oldcrc32 := ALL_ONES;
    var k := 0;
    var nLength := |buffer|;
    while nLength != 0
      invariant 0 <= k && nLength >= 0 && k + nLength == |buffer|
      invariant TableRegister(oldcrc32, buffer[k..]) == TableRegister(ALL_ONES, buffer)
    {
      hide Updc32;
      assert buffer[k..][0] == buffer[k] && buffer[k..][1..] == buffer[k + 1..];
      oldcrc32 := Updc32(buffer[k], oldcrc32);
      nLength, k := nLength - 1, k + 1;
    }
    TableIsSerial(ALL_ONES, buffer);
    return Complement(oldcrc32);
  }

  // ------------------------------------------------------ shift/xor steps

  /** One shift/xor operation. */
  function Step(r: bv32): bv32 {
    Serial(r, false)
  }

  function Steps(r: bv32, n: nat): bv32
    decreases n
  {
    if n == 0 then r else Steps(Step(r), n - 1)
  }

  /** The same operation on the bare word. */
  function ShiftStep(r: bv32): bv32 {
    if r & 1 == 1 then (r >> 1) ^ POLYNOMIAL else r >> 1
  }

  lemma ShiftStepIsStep(r: bv32)
    ensures ShiftStep(r) == Step(r)
  {
  }

  function Eight(r: bv32): bv32 {
    ShiftStep(ShiftStep(ShiftStep(ShiftStep(ShiftStep(ShiftStep(ShiftStep(ShiftStep(r))))))))
  }

  lemma FirstRow(i: bv8)
    requires i >> 3 == 0
    ensures TableEntry(i) == Eight(Widen(i))
  {
    if i == 0 {
    } else if i == 1 {
    } else if i == 2 {
    } else if i == 3 {
    } else if i == 4 {
    } else if i == 5 {
    } else if i == 6 {
    } else {
      assert i == 7;
    }
  }

  lemma Band0(i: bv8)
    requires i >> 5 == 0
    ensures TableEntry(i) == Eight(Widen(i))
  {
    if i >> 3 == 0 {
      FirstRow(i);
    } else if i >> 3 == 1 {
    } else if i >> 3 == 2 {
    } else {
      assert i >> 3 == 3;
    }
  }

  lemma Band1(i: bv8)
    requires i >> 5 == 1
    ensures TableEntry(i) == Eight(Widen(i))
  {
    if i >> 3 == 4 {
    } else if i >> 3 == 5 {
    } else if i >> 3 == 6 {
    } else {
      assert i >> 3 == 7;
    }
  }

  lemma Band2(i: bv8)
    requires i >> 5 == 2
    ensures TableEntry(i) == Eight(Widen(i))
  {
    if i >> 3 == 8 {
    } else if i >> 3 == 9 {
    } else if i >> 3 == 10 {
    } else {
      assert i >> 3 == 11;
    }
  }

  lemma Band3(i: bv8)
    requires i >> 5 == 3
    ensures TableEntry(i) == Eight(Widen(i))
  {
    if i >> 3 == 12 {
    } else if i >> 3 == 13 {
    } else if i >> 3 == 14 {
    } else {
      assert i >> 3 == 15;
    }
  }

  lemma Band4(i: bv8)
    requires i >> 5 == 4
    ensures TableEntry(i) == Eight(Widen(i))
  {
    if i >> 3 == 16 {
    } else if i >> 3 == 17 {
    } else if i >> 3 == 18 {
    } else {
      assert i >> 3 == 19;
    }
  }

  lemma Band5(i: bv8)
    requires i >> 5 == 5
    ensures TableEntry(i) == Eight(Widen(i))
  {
    if i >> 3 == 20 {
    } else if i >> 3 == 21 {
    } else if i >> 3 == 22 {
    } else {
      assert i >> 3 == 23;
    }
  }

  lemma Band6(i: bv8)
    requires i >> 5 == 6
    ensures TableEntry(i) == Eight(Widen(i))
  {
    if i >> 3 == 24 {
    } else if i >> 3 == 25 {
    } else if i >> 3 == 26 {
    } else {
      assert i >> 3 == 27;
    }
  }

  lemma Band7(i: bv8)
    requires i >> 5 == 7
    ensures TableEntry(i) == Eight(Widen(i))
  {
    if i >> 3 == 28 {
    } else if i >> 3 == 29 {
    } else if i >> 3 == 30 {
    } else {
      assert i >> 3 == 31;
    }
  }

  /** All 256 table entries are the results of eight shift/xor operations. */
  lemma TableIsEightSteps(i: bv8)
    ensures TableEntry(i) == Steps(Widen(i), 8)
  {
    hide TableEntry;
    var band := i >> 5;
    if band == 0 { Band0(i); }
    else if band == 1 { Band1(i); }
    else if band == 2 { Band2(i); }
    else if band == 3 { Band3(i); }
    else if band == 4 { Band4(i); }
    else if band == 5 { Band5(i); }
    else if band == 6 { Band6(i); }
    else { assert band == 7; Band7(i); }
    EightIsSteps(Widen(i));
  }

  lemma TwoSteps(r: bv32, n: nat)
    ensures Steps(r, n + 2) == Steps(ShiftStep(ShiftStep(r)), n)
  {
    hide ShiftStep, Step;
    ShiftStepIsStep(r);
    ShiftStepIsStep(Step(r));
    assert Steps(r, n + 2) == Steps(Step(r), n + 1) == Steps(Step(Step(r)), n);
  }

  lemma EightIsSteps(r: bv32)
    ensures Steps(r, 8) == Eight(r)
  {
    hide ShiftStep, Step;
    TwoSteps(r, 6);
    var r2 := ShiftStep(ShiftStep(r));
    TwoSteps(r2, 4);
    var r4 := ShiftStep(ShiftStep(r2));
    TwoSteps(r4, 2);
    TwoSteps(ShiftStep(ShiftStep(r4)), 0);
  }

  lemma XorComm(a: bv32, b: bv32)
    ensures Xor(a, b) == Xor(b, a)
    ensures Xor(a, a) == 0 && Xor(a, 0) == a
    ensures Xor(a, b) == 0 <==> a == b
  {
  }

  lemma XorAssoc(a: bv32, b: bv32, c: bv32)
    ensures Xor(Xor(a, b), c) == Xor(a, Xor(b, c))
  {
  }

  lemma XorMiddle(a: bv32, b: bv32, c: bv32, d: bv32)
    ensures Xor(Xor(a, b), Xor(c, d)) == Xor(Xor(a, c), Xor(b, d))
  {
    hide Xor;
    XorAssoc(a, b, Xor(c, d));
    XorAssoc(b, c, d);
    XorComm(b, c);
    XorAssoc(c, b, d);
    XorAssoc(a, c, Xor(b, d));
  }

  /** The register is linear in its contents and the bits that enter. */
  lemma SerialLinear(a: bv32, x: bool, b: bv32, y: bool)
    ensures Serial(Xor(a, b), x != y) == Xor(Serial(a, x), Serial(b, y))
  {
    hide Xor, Half, Odd;
    HalfXor(a, b);
    var p, q := Half(a), Half(b);
    XorAssoc(p, q, POLYNOMIAL);
    XorMiddle(p, POLYNOMIAL, q, 0);
    XorMiddle(p, POLYNOMIAL, q, POLYNOMIAL);
    XorComm(q, 0);
    XorComm(POLYNOMIAL, 0);
    XorComm(Xor(p, q), 0);
  }

  function XorBits(u: seq<bool>, v: seq<bool>): (d: seq<bool>)
    requires |u| == |v|
    ensures |d| == |u|
  {
    seq(|u|, i requires 0 <= i < |u| => u[i] != v[i])
  }

  lemma {:induction false} RegisterLinear(a: bv32, u: seq<bool>, b: bv32, v: seq<bool>)
    requires |u| == |v|
    ensures Xor(Register(a, u), Register(b, v)) == Register(Xor(a, b), XorBits(u, v))
    decreases |u|
  {
    hide Xor, Serial;
    if u != [] {
      SerialLinear(a, u[0], b, v[0]);
      RegisterLinear(Serial(a, u[0]), u[1..], Serial(b, v[0]), v[1..]);
      assert XorBits(u, v)[1..] == XorBits(u[1..], v[1..]);
    }
  }

  lemma {:induction false} RegisterConcat(r: bv32, u: seq<bool>, v: seq<bool>)
    ensures Register(r, u + v) == Register(Register(r, u), v)
    decreases |u|
  {
    hide Serial;
    if u == [] {
      assert u + v == v;
    } else {
      assert (u + v)[1..] == u[1..] + v;
      RegisterConcat(Serial(r, u[0]), u[1..], v);
    }
  }

  lemma {:induction false} StepsLinear(a: bv32, b: bv32, n: nat)
    ensures Steps(Xor(a, b), n) == Xor(Steps(a, n), Steps(b, n))
    decreases n
  {
    hide Xor, Serial;
    if n > 0 {
      SerialLinear(a, false, b, false);
      StepsLinear(Step(a), Step(b), n - 1);
    }
  }

  // ------------------------------------------------- a word at a time

  lemma TopBit(q: bv32)
    ensures q >> 31 == 0 ==> q & 0x8000_0000 == 0
  {
  }

  lemma StepOfWord(q: bv32)
    ensures Serial(q, Odd(q)) == Half(q)
  {
  }

  /** Feeding the bits of a word is exoring the word in and stepping. */
  lemma {:induction false} WordAtOnce(r: bv32, q: bv32, n: nat)
    ensures Steps(Xor(r, q), n) == Xor(Register(r, WordBits(q, n)), Down(q, n))
    decreases n
  {
    hide Xor, Serial, Half, Odd;
    if n > 0 {
      SerialLinear(r, Odd(q), q, Odd(q));
      StepOfWord(q);
      WordAtOnce(Serial(r, Odd(q)), Half(q), n - 1);
      assert WordBits(q, n)[1..] == WordBits(Half(q), n - 1);
    }
  }

  /** A register split into low and high parts, eight steps on. */
  lemma SplitRegister(r: bv32, q: bv32, lo: bv32, hi: bv32)
    requires Xor(lo, hi) == Xor(r, q) && Down(q, 8) == 0 && Register(0, WordBits(hi, 8)) == 0
    ensures Xor(Steps(lo, 8), Down(hi, 8)) == Register(r, WordBits(q, 8)) == Steps(Xor(r, q), 8)
  {
    hide Xor, Steps, Register, Down, WordBits;
    WordAtOnce(r, q, 8);
    XorComm(Register(r, WordBits(q, 8)), 0);
    StepsLinear(lo, hi, 8);
    WordAtOnce(0, hi, 8);
    XorComm(0, hi);
    XorComm(hi, 0);
    XorComm(0, Down(hi, 8));
    XorComm(Down(hi, 8), 0);
  }

  /** A byte through the table is its eight bits through the register. */
  lemma UpdateIsEightBits(o: bv8, r: bv32)
    ensures Updc32(o, r) == Register(r, WordBits(Widen(o), 8))
    ensures Updc32(o, r) == Steps(Xor(r, Widen(o)), 8)
  {
    hide Xor, TableEntry, Steps, Register, Down, WordBits, Low8, High, Widen;
    var x := Xor(r, Widen(o));
    LowAndHigh(x);
    NothingAbove(o);
    ZeroBits(High(x));
    HighUnchanged(o, r);
    SplitRegister(r, Widen(o), Widen(Low8(x)), High(x));
    TableIsEightSteps(Low8(x));
  }

  lemma LowAndHigh(x: bv32)
    ensures Xor(Widen(Low8(x)), High(x)) == x && High(x) & 0xff == 0
  {
  }

  lemma HighUnchanged(o: bv8, r: bv32)
    ensures Down(High(Xor(r, Widen(o))), 8) == r >> 8
  {
    hide Down, Xor, Widen, High;
    Down8(High(Xor(r, Widen(o))));
    HighShift(o, r);
  }

  lemma HighShift(o: bv8, r: bv32)
    ensures High(Xor(r, Widen(o))) >> 8 == r >> 8
  {
    BareHighShift(o, r);
  }

  lemma BareHighShift(o: bv8, r: bv32)
    ensures ((r ^ (o as bv32)) & 0xffffff00) >> 8 == r >> 8
  {
  }

  lemma NothingAbove(o: bv8)
    ensures Down(Widen(o), 8) == 0
  {
    hide Down;
    Down8(Widen(o));
    assert Widen(o) >> 8 == 0;
  }

  /** Eight zero bits leave a zero register zero. */
  lemma ZeroBits(q: bv32)
    requires q & 0xff == 0
    ensures Register(0, WordBits(q, 8)) == 0
  {
    hide Register;
    var q2, q4, q6 := q >> 2, q >> 4, q >> 6;
    assert WordBits(q, 8) == [false, false] + WordBits(q2, 6);
    assert WordBits(q2, 6) == [false, false] + WordBits(q4, 4);
    assert WordBits(q4, 4) == [false, false] + WordBits(q6, 2);
    assert WordBits(q6, 2) == [false, false];
    AllFalse(WordBits(q, 8));
  }

  lemma {:induction false} AllFalse(bits: seq<bool>)
    requires forall i | 0 <= i < |bits| :: !bits[i]
    ensures Register(0, bits) == 0
  {
    if bits != [] {
      AllFalse(bits[1..]);
    }
  }

  /** The table-driven register is the bit-serial register, for every buffer. */
  lemma {:induction false} TableIsSerial(r: bv32, buffer: seq<bv8>)
    ensures TableRegister(r, buffer) == Register(r, Bits(buffer))
    decreases |buffer|
  {
    hide Updc32, WordBits, Serial;
    if buffer != [] {
      var first := WordBits(Widen(buffer[0]), 8);
      UpdateIsEightBits(buffer[0], r);
      TableIsSerial(Updc32(buffer[0], r), buffer[1..]);
      RegisterConcat(r, first, Bits(buffer[1..]));
    }
  }

  // -------------------------------------------------------- detecting errors

  lemma SerialBack(x: bv32, bit: bool)
    requires Serial(x, bit) & 0x8000_0000 == 0
    ensures Serial(x, bit) == Half(x) && bit == Odd(x)
  {
  }

  lemma ShortIsLow(q: bv32, n: nat)
    requires n <= 31 && Down(q, n) == 0
    ensures q & 0x8000_0000 == 0
  {
    hide Down;
    DownAdd(q, n, 31 - n);
    DownZero(31 - n);
    Down31(q);
    TopBit(q);
  }

  /** Up to 32 bits bring the register to zero only if they are its own. */
  lemma {:induction false} ZeroWindow(x: bv32, d: seq<bool>)
    requires |d| <= 32 && Register(x, d) == 0
    ensures d == WordBits(x, |d|) && Down(x, |d|) == 0
    decreases |d|
  {
    hide Serial, Half, Odd;
    if d != [] {
      var y := Serial(x, d[0]);
      ZeroWindow(y, d[1..]);
      ShortIsLow(y, |d| - 1);
      SerialBack(x, d[0]);
      assert d == [d[0]] + d[1..];
    }
  }

  lemma {:induction false} WordBitsOfZero(n: nat)
    ensures forall i | 0 <= i < n :: !WordBits(0, n)[i]
    decreases n
  {
    if n > 0 {
      WordBitsOfZero(n - 1);
    }
  }

  lemma SerialZero(z: bv32)
    ensures Serial(z, false) == 0 ==> z == 0
  {
  }

  /** Zero bits never bring a nonzero register to zero. */
  lemma {:induction false} ZerosKeepDifference(z: bv32, bits: seq<bool>)
    requires forall i | 0 <= i < |bits| :: !bits[i]
    requires Register(z, bits) == 0
    ensures z == 0
    decreases |bits|
  {
    hide Serial;
    if bits != [] {
      ZerosKeepDifference(Serial(z, false), bits[1..]);
      SerialZero(z);
    }
  }

  lemma ComplementTwice(a: bv32)
    ensures Complement(Complement(a)) == a
  {
  }

  /** Two buffers of one length get the same CRC exactly when their difference,
      as bits, is taken to zero by the register started at zero. */
  lemma SameCrcIff(a: seq<bv8>, b: seq<bv8>)
    requires |a| == |b|
    ensures SerialCrc(a) == SerialCrc(b) <==> Register(0, XorBits(Bits(a), Bits(b))) == 0
  {
    hide Xor, Complement, Register, Bits, XorBits;
    var x, y := Register(ALL_ONES, Bits(a)), Register(ALL_ONES, Bits(b));
    RegisterLinear(ALL_ONES, Bits(a), ALL_ONES, Bits(b));
    XorComm(x, y);
    XorComm(ALL_ONES, ALL_ONES);
    ComplementTwice(x);
    ComplementTwice(y);
  }

  /** A bit difference confined to 32 consecutive bits is not taken to zero. */
  lemma BurstRemains(d: seq<bool>, p: nat)
    requires forall i | 0 <= i < |d| && !(p <= i < p + 32) :: !d[i]
    requires Register(0, d) == 0
    ensures forall i | 0 <= i < |d| :: !d[i]
  {
    hide Register, WordBits, Down;
    var n := |d|;
    var lo := if p < n then p else n;
    var hi := if p + 32 < n then p + 32 else n;
    assert d == d[..lo] + (d[lo..hi] + d[hi..]);
    RegisterConcat(0, d[..lo], d[lo..hi] + d[hi..]);
    RegisterConcat(0, d[lo..hi], d[hi..]);
    AllFalse(d[..lo]);
    ZerosKeepDifference(Register(0, d[lo..hi]), d[hi..]);
    ZeroWindow(0, d[lo..hi]);
    WordBitsOfZero(hi - lo);
    assert forall i | lo <= i < hi :: d[i] == d[lo..hi][i - lo];
  }

  lemma NoDifference(u: seq<bool>, v: seq<bool>)
    requires |u| == |v| && forall i | 0 <= i < |u| :: !XorBits(u, v)[i]
    ensures u == v
  {
    assert forall i | 0 <= i < |u| :: XorBits(u, v)[i] == (u[i] != v[i]);
  }

  /** Every error burst of up to 32 bits is detected: two buffers of one length
      that differ, and only within 32 consecutive bits, have different CRCs. */
  lemma BurstsDetected(a: seq<bv8>, b: seq<bv8>, p: nat)
    requires |a| == |b| && a != b
    requires forall i | 0 <= i < 8 * |a| && !(p <= i < p + 32) :: Bits(a)[i] == Bits(b)[i]
    ensures SerialCrc(a) != SerialCrc(b)
  {
    hide Bits, SerialCrc, Register;
    var d := XorBits(Bits(a), Bits(b));
    SameCrcIff(a, b);
    BitsDiffer(a, b);
    if Register(0, d) == 0 {
      BurstRemains(d, p);
      NoDifference(Bits(a), Bits(b));
    }
  }

  /** Different buffers of one length have different bits. */
  lemma {:induction false} BitsDiffer(a: seq<bv8>, b: seq<bv8>)
    requires |a| == |b| && a != b
    ensures Bits(a) != Bits(b)
    decreases |a|
  {
    hide WordBits;
    var x, y := WordBits(Widen(a[0]), 8), WordBits(Widen(b[0]), 8);
    assert Bits(a)[..8] == x && Bits(b)[..8] == y;
    assert Bits(a)[8..] == Bits(a[1..]) && Bits(b)[8..] == Bits(b[1..]);
    if a[0] != b[0] {
      ByteBitsDiffer(a[0], b[0]);
    } else {
      assert a == [a[0]] + a[1..] && b == [b[0]] + b[1..];
      BitsDiffer(a[1..], b[1..]);
    }
  }

  lemma ByteBitsDiffer(x: bv8, y: bv8)
    requires x != y
    ensures WordBits(Widen(x), 8) != WordBits(Widen(y), 8)
  {
    hide Xor, WordBits, Steps, Register, Down;
    var p, q := Widen(x), Widen(y);
    NothingAbove(x);
    NothingAbove(y);
    Widened(x, y);
    WordAtOnce(0, p, 8);
    WordAtOnce(0, q, 8);
    StepsInjective(p, q, 8);
    XorComm(0, p);
    XorComm(0, q);
    XorComm(p, 0);
    XorComm(q, 0);
  }

  lemma Widened(x: bv8, y: bv8)
    ensures Widen(x) == Widen(y) <==> x == y
  {
  }

  lemma StepInjective(a: bv32, b: bv32)
    ensures Step(a) == Step(b) ==> a == b
  {
  }

  /** Stepping the register loses nothing. */
  lemma {:induction false} StepsInjective(a: bv32, b: bv32, n: nat)
    requires a != b
    ensures Steps(a, n) != Steps(b, n)
    decreases n
  {
    hide Step;
    if n > 0 {
      StepInjective(a, b);
      StepsInjective(Step(a), Step(b), n - 1);
    }
  }

  // ------------------------------------------------------------ affinity

  function XorBytes(a: seq<bv8>, b: seq<bv8>): (c: seq<bv8>)
    requires |a| == |b|
    ensures |c| == |a|
  {
    seq(|a|, i requires 0 <= i < |a| => a[i] ^ b[i])
  }

  lemma XorWiden(x: bv8, y: bv8, r: bv32, s: bv32)
    ensures Xor(Xor(r, s), Widen(x ^ y)) == Xor(Xor(r, Widen(x)), Xor(s, Widen(y)))
  {
  }

  lemma {:induction false} TableLinear(r: bv32, a: seq<bv8>, s: bv32, b: seq<bv8>)
    requires |a| == |b|
    ensures TableRegister(Xor(r, s), XorBytes(a, b)) == Xor(TableRegister(r, a), TableRegister(s, b))
    decreases |a|
  {
    hide Updc32, Xor, Steps;
    if a != [] {
      UpdateLinear(a[0], r, b[0], s);
      assert XorBytes(a, b)[1..] == XorBytes(a[1..], b[1..]);
      TableLinear(Updc32(a[0], r), a[1..], Updc32(b[0], s), b[1..]);
    }
  }

  lemma UpdateLinear(x: bv8, r: bv32, y: bv8, s: bv32)
    ensures Updc32(x ^ y, Xor(r, s)) == Xor(Updc32(x, r), Updc32(y, s))
  {
    hide Updc32, Xor, Steps, Register, WordBits;
    UpdateIsEightBits(x, r);
    UpdateIsEightBits(y, s);
    UpdateIsEightBits(x ^ y, Xor(r, s));
    XorWiden(x, y, r, s);
    StepsLinear(Xor(r, Widen(x)), Xor(s, Widen(y)), 8);
  }

  lemma ComplementIsXor(x: bv32)
    ensures Complement(x) == Xor(x, ALL_ONES)
  {
  }

  lemma Complements(x: bv32, y: bv32, z: bv32)
    ensures Xor(Xor(Complement(x), Complement(y)), Complement(z)) == Complement(Xor(Xor(x, y), z))
    ensures Xor(Xor(ALL_ONES, ALL_ONES), ALL_ONES) == ALL_ONES
  {
    hide Xor, Complement;
    ComplementIsXor(x);
    ComplementIsXor(y);
    ComplementIsXor(z);
    ComplementIsXor(Xor(Xor(x, y), z));
    XorMiddle(x, ALL_ONES, y, ALL_ONES);
    XorComm(ALL_ONES, ALL_ONES);
    XorComm(Xor(x, y), 0);
    XorAssoc(Xor(x, y), z, ALL_ONES);
    XorComm(0, ALL_ONES);
    XorComm(ALL_ONES, 0);
  }

  /** The CRC is affine: the CRC of three buffers exored is their CRCs exored. */
  lemma CrcAffine(a: seq<bv8>, b: seq<bv8>, c: seq<bv8>)
    requires |a| == |b| == |c|
    ensures SerialCrc(XorBytes(XorBytes(a, b), c)) == Xor(Xor(SerialCrc(a), SerialCrc(b)), SerialCrc(c))
  {
    hide Xor, Complement, TableRegister, Register, Bits, XorBytes;
    TableIsSerial(ALL_ONES, a);
    TableIsSerial(ALL_ONES, b);
    TableIsSerial(ALL_ONES, c);
    TableIsSerial(ALL_ONES, XorBytes(XorBytes(a, b), c));
    TableLinear(ALL_ONES, a, ALL_ONES, b);
    TableLinear(Xor(ALL_ONES, ALL_ONES), XorBytes(a, b), ALL_ONES, c);
    Complements(TableRegister(ALL_ONES, a), TableRegister(ALL_ONES, b), TableRegister(ALL_ONES, c));
  }

  // ------------------------------------------------------------- residue

  /** A CRC as its four bytes, low byte first. */
  function CrcBytes(c: bv32): seq<bv8> {
    [Low8(c), Low8(Shr(c, 8)), Low8(Shr(c, 16)), Low8(Shr(c, 24))]
  }

  lemma {:induction false} WordBitsSplit(q: bv32, a: nat, b: nat)
    ensures WordBits(q, a + b) == WordBits(q, a) + WordBits(Down(q, a), b)
    decreases a
  {
    hide Half, Odd;
    if a > 0 {
      WordBitsSplit(Half(q), a - 1, b);
    }
  }

  /** The bits of a word's low byte are the word's low eight bits. */
  lemma LowByteBits(c: bv32)
    ensures WordBits(Widen(Low8(c)), 8) == WordBits(c, 8)
  {
    var p := Widen(Low8(c));
    assert p & 0xff == c & 0xff;
    SameLowBits(p, c, 0xff, 8);
  }

  lemma {:induction false} SameLowBits(p: bv32, q: bv32, m: bv32, n: nat)
    requires p & m == q & m && Ones(m, n)
    ensures WordBits(p, n) == WordBits(q, n)
    decreases n
  {
    hide Half, Odd;
    if n > 0 {
      OnesOdd(m, n);
      HalfLow(p, q, m);
      SameLowBits(Half(p), Half(q), Half(m), n - 1);
    }
  }

  lemma CrcBytesAreBits(c: bv32)
    ensures Bits(CrcBytes(c)) == WordBits(c, 32)
  {
    hide WordBits, Down, Low8, Shr, Bits;
    var c8, c16, c24 := Down(c, 8), Down(c, 16), Down(c, 24);
    RightIsDown(c, 8);
    RightIsDown(c, 16);
    RightIsDown(c, 24);
    DownAdd(c, 8, 8);
    DownAdd(c, 16, 8);
    LowByteBits(c);
    LowByteBits(c8);
    LowByteBits(c16);
    LowByteBits(c24);
    WordBitsSplit(c, 8, 24);
    WordBitsSplit(c8, 8, 16);
    WordBitsSplit(c16, 8, 8);
    BitsOfFour(Low8(c), Low8(c8), Low8(c16), Low8(c24));
  }

  lemma BitsOfFour(b0: bv8, b1: bv8, b2: bv8, b3: bv8)
    ensures Bits([b0, b1, b2, b3])
            == WordBits(Widen(b0), 8) + (WordBits(Widen(b1), 8) + (WordBits(Widen(b2), 8) + WordBits(Widen(b3), 8)))
  {
    hide WordBits, Bits;
    BitsCons(b0, [b1, b2, b3]);
    BitsCons(b1, [b2, b3]);
    BitsCons(b2, [b3]);
    BitsCons(b3, []);
    assert [b0] + [b1, b2, b3] == [b0, b1, b2, b3] && [b1] + [b2, b3] == [b1, b2, b3];
    assert [b2] + [b3] == [b2, b3] && [b3] + [] == [b3];
  }

  lemma BitsCons(b: bv8, rest: seq<bv8>)
    ensures Bits([b] + rest) == WordBits(Widen(b), 8) + Bits(rest)
    ensures rest == [] ==> Bits([b] + rest) == WordBits(Widen(b), 8)
  {
    hide WordBits;
    assert ([b] + rest)[1..] == rest;
  }

  const RESIDUE: bv32 := 0x2144DF1C

  lemma {:induction false} StepsAdd(r: bv32, m: nat, n: nat)
    ensures Steps(r, m + n) == Steps(Steps(r, m), n)
    decreases m
  {
    hide Step;
    if m > 0 {
      StepsAdd(Step(r), m - 1, n);
    }
  }

  lemma Steps32OfOnes()
    ensures Complement(Steps(ALL_ONES, 32)) == RESIDUE
  {
    hide Steps;
    StepsAdd(ALL_ONES, 8, 24);
    EightIsSteps(ALL_ONES);
    assert Eight(ALL_ONES) == 0x2dfd1072;
    StepsAdd(0x2dfd1072, 8, 16);
    EightIsSteps(0x2dfd1072);
    assert Eight(0x2dfd1072) == 0xbe26ed00;
    StepsAdd(0xbe26ed00, 8, 8);
    EightIsSteps(0xbe26ed00);
    assert Eight(0xbe26ed00) == 0x00be26ed;
    EightIsSteps(0x00be26ed);
  }

  lemma OnesFromComplement(r: bv32)
    ensures Xor(r, Complement(r)) == ALL_ONES
  {
  }

  lemma {:induction false} BitsConcat(a: seq<bv8>, b: seq<bv8>)
    ensures Bits(a + b) == Bits(a) + Bits(b)
  {
    hide WordBits;
    if a == [] {
      assert a + b == b;
    } else {
      assert (a + b)[1..] == a[1..] + b;
      BitsConcat(a[1..], b);
    }
  }

  /** A message followed by its own CRC, low byte first, always has the CRC
      0x2144DF1C: what a receiver checks for. */
  lemma CrcResidue(m: seq<bv8>)
    ensures SerialCrc(m + CrcBytes(SerialCrc(m))) == RESIDUE
  {
    hide Xor, Complement, Register, Bits, WordBits, Down, Steps, CrcBytes;
    var r := Register(ALL_ONES, Bits(m));
    var c := SerialCrc(m);
    BitsConcat(m, CrcBytes(c));
    CrcBytesAreBits(c);
    RegisterConcat(ALL_ONES, Bits(m), WordBits(c, 32));
    WordAtOnce(r, c, 32);
    Down31(c);
    XorComm(Register(r, WordBits(c, 32)), 0);
    OnesFromComplement(r);
    Steps32OfOnes();
  }

  // --------------------------------------------------------------- preset

  lemma TableConcat(r: bv32, a: seq<bv8>, b: seq<bv8>)
    ensures TableRegister(r, a + b) == TableRegister(TableRegister(r, a), b)
  {
    hide TableRegister, Register, Bits;
    TableIsSerial(r, a + b);
    TableIsSerial(r, a);
    TableIsSerial(TableRegister(r, a), b);
    BitsConcat(a, b);
    RegisterConcat(r, Bits(a), Bits(b));
  }

  const FOUR_ONES: seq<bv8> := [0xff, 0xff, 0xff, 0xff]
  const FOUR_ZEROS: seq<bv8> := [0, 0, 0, 0]

  lemma FourBytes()
    ensures CrcBytes(ALL_ONES) == FOUR_ONES && CrcBytes(0) == FOUR_ZEROS
  {
  }

  /** 32 one bits through a register at zero do what 32 zero bits do through one
      at all ones. */
  lemma OnesForPreset()
    ensures TableRegister(0, FOUR_ONES) == TableRegister(ALL_ONES, FOUR_ZEROS)
  {
    hide Xor, Register, Bits, WordBits, Down, Steps, CrcBytes, TableRegister;
    FourBytes();
    CrcBytesAreBits(ALL_ONES);
    CrcBytesAreBits(0);
    TableIsSerial(0, FOUR_ONES);
    TableIsSerial(ALL_ONES, FOUR_ZEROS);
    WordAtOnce(0, ALL_ONES, 32);
    WordAtOnce(ALL_ONES, 0, 32);
    Down31(ALL_ONES);
    Down31(0);
    XorComm(0, ALL_ONES);
    XorComm(ALL_ONES, 0);
    XorComm(Register(0, WordBits(ALL_ONES, 32)), 0);
    XorComm(Register(ALL_ONES, WordBits(0, 32)), 0);
  }

  /** Starting at all ones is inverting the first 32 bits. */
  lemma PresetOfFour(a: seq<bv8>)
    requires |a| == 4
    ensures TableRegister(ALL_ONES, a) == TableRegister(0, XorBytes(a, FOUR_ONES))
  {
    hide Xor, TableRegister;
    OnesForPreset();
    TableLinear(0, a, 0, FOUR_ONES);
    TableLinear(0, a, ALL_ONES, FOUR_ZEROS);
    XorComm(0, 0);
    XorComm(0, ALL_ONES);
    XorComm(ALL_ONES, 0);
    assert XorBytes(a, FOUR_ZEROS) == a by {
      forall i | 0 <= i < 4 ensures XorBytes(a, FOUR_ZEROS)[i] == a[i] {
        XorZeroByte(a[i]);
      }
    }
  }

  lemma XorZeroByte(x: bv8)
    ensures x ^ 0 == x
  {
  }

  /** The CRC as the standards define it: the remainder, complemented, of the
      message with its first 32 bits inverted, by plain division from zero. */
  lemma PresetInvertsFirst32(m: seq<bv8>)
    requires |m| >= 4
    ensures SerialCrc(m) == Complement(Register(0, Bits(XorBytes(m[..4], FOUR_ONES) + m[4..])))
  {
    hide TableRegister, Register, Bits, XorBytes;
    var inverted := XorBytes(m[..4], FOUR_ONES);
    assert m == m[..4] + m[4..];
    TableIsSerial(ALL_ONES, m);
    TableIsSerial(0, inverted + m[4..]);
    TableConcat(ALL_ONES, m[..4], m[4..]);
    TableConcat(0, inverted, m[4..]);
    PresetOfFour(m[..4]);
  }

  /** The empty buffer has the CRC 0. */
  lemma CrcOfNothing()
    ensures SerialCrc([]) == 0
  {
    assert Complement(ALL_ONES) == 0;
  }

  lemma Digit1()
    ensures Updc32(0x31, 0xffffffff) == 0x7c231048
  {
  }

  lemma Digit2()
    ensures Updc32(0x32, 0x7c231048) == 0xb0acbb32
  {
  }

  lemma Digit3()
    ensures Updc32(0x33, 0xb0acbb32) == 0x77b79c2d
  {
  }

  lemma Digit4()
    ensures Updc32(0x34, 0x77b79c2d) == 0x641c1f5c
  {
  }

  lemma Digit5()
    ensures Updc32(0x35, 0x641c1f5c) == 0x340ac5e3
  {
  }

  lemma Digit6()
    ensures Updc32(0x36, 0x340ac5e3) == 0xf68d2c9e
  {
  }

  lemma Digit7()
    ensures Updc32(0x37, 0xf68d2c9e) == 0xaffc9660
  {
  }

  lemma Digit8()
    ensures Updc32(0x38, 0xaffc9660) == 0x651f2550
  {
  }

  lemma Digit9()
    ensures Updc32(0x39, 0x651f2550) == 0x340bc6d9
  {
  }

  lemma ThreeUpdates(r: bv32, x: bv8, r1: bv32, y: bv8, r2: bv32, z: bv8, r3: bv32)
    requires Updc32(x, r) == r1 && Updc32(y, r1) == r2 && Updc32(z, r2) == r3
    ensures TableRegister(r, [x, y, z]) == r3
  {
    hide Updc32;
    assert [x, y, z][1..] == [y, z] && [y, z][1..] == [z] && [z][1..] == [];
    assert TableRegister(r2, [z]) == TableRegister(r3, []);
    assert TableRegister(r1, [y, z]) == TableRegister(r2, [z]);
  }

  /** The customary check value: the CRC of the digits 1 to 9. */
  lemma CheckValue()
    ensures SerialCrc([0x31, 0x32, 0x33, 0x34, 0x35, 0x36, 0x37, 0x38, 0x39]) == 0xCBF43926
  {
    hide Register, Bits, TableRegister, Updc32;
    var a, b, c: seq<bv8> := [0x31, 0x32, 0x33], [0x34, 0x35, 0x36], [0x37, 0x38, 0x39];
    var all: seq<bv8> := [0x31, 0x32, 0x33, 0x34, 0x35, 0x36, 0x37, 0x38, 0x39];
    assert all == a + (b + c);
    Digit1();
    Digit2();
    Digit3();
    Digit4();
    Digit5();
    Digit6();
    Digit7();
    Digit8();
    Digit9();
    ThreeUpdates(0xffffffff, 0x31, 0x7c231048, 0x32, 0xb0acbb32, 0x33, 0x77b79c2d);
    ThreeUpdates(0x77b79c2d, 0x34, 0x641c1f5c, 0x35, 0x340ac5e3, 0x36, 0xf68d2c9e);
    ThreeUpdates(0xf68d2c9e, 0x37, 0xaffc9660, 0x38, 0x651f2550, 0x39, 0x340bc6d9);
    TableConcat(ALL_ONES, a, b + c);
    TableConcat(0x77b79c2d, b, c);
    TableIsSerial(ALL_ONES, all);
  }
}
