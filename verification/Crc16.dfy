/**
  The table-driven checksum of crc.c against its definition bit by bit: the reflected CRC with polynomial 0xA001 and
  initial value 0.
 */
module Crc16 {

  // ----- the definition -----

  function Xor(x: bv16, y: bv16): bv16 {
    x ^ y
  }

  function Word(b: bv8): bv16 {
    b as bv16
  }

  /** One bit is shifted out; if it was set the polynomial is subtracted. */
  function Step(x: bv16): bv16 {
    if x & 1 == 1 then Xor(x >> 1, 0xA001) else x >> 1
  }

  function Eight(x: bv16): bv16 {
    Step(Step(Step(Step(Step(Step(Step(Step(x))))))))
  }

  /** The register after a message: each byte is added to its low end, and eight bits are shifted out. */
  function Bitwise(register: bv16, message: seq<bv8>): bv16 {
    if message == [] then register
    else Eight(Xor(Bitwise(register, message[..|message| - 1]), Word(message[|message| - 1])))
  }

  // ----- the table -----

  /** crc16_table, eight entries a row: its upper and its lower half */
  function Upper(r: nat): seq<bv16>
    requires r < 16
  {
    match r
    case 0 => [0x0000, 0xC0C1, 0xC181, 0x0140, 0xC301, 0x03C0, 0x0280, 0xC241]
    case 1 => [0xC601, 0x06C0, 0x0780, 0xC741, 0x0500, 0xC5C1, 0xC481, 0x0440]
    case 2 => [0xCC01, 0x0CC0, 0x0D80, 0xCD41, 0x0F00, 0xCFC1, 0xCE81, 0x0E40]
    case 3 => [0x0A00, 0xCAC1, 0xCB81, 0x0B40, 0xC901, 0x09C0, 0x0880, 0xC841]
    case 4 => [0xD801, 0x18C0, 0x1980, 0xD941, 0x1B00, 0xDBC1, 0xDA81, 0x1A40]
    case 5 => [0x1E00, 0xDEC1, 0xDF81, 0x1F40, 0xDD01, 0x1DC0, 0x1C80, 0xDC41]
    case 6 => [0x1400, 0xD4C1, 0xD581, 0x1540, 0xD701, 0x17C0, 0x1680, 0xD641]
    case 7 => [0xD201, 0x12C0, 0x1380, 0xD341, 0x1100, 0xD1C1, 0xD081, 0x1040]
    case 8 => [0xF001, 0x30C0, 0x3180, 0xF141, 0x3300, 0xF3C1, 0xF281, 0x3240]
    case 9 => [0x3600, 0xF6C1, 0xF781, 0x3740, 0xF501, 0x35C0, 0x3480, 0xF441]
    case 10 => [0x3C00, 0xFCC1, 0xFD81, 0x3D40, 0xFF01, 0x3FC0, 0x3E80, 0xFE41]
    case 11 => [0xFA01, 0x3AC0, 0x3B80, 0xFB41, 0x3900, 0xF9C1, 0xF881, 0x3840]
    case 12 => [0x2800, 0xE8C1, 0xE981, 0x2940, 0xEB01, 0x2BC0, 0x2A80, 0xEA41]
    case 13 => [0xEE01, 0x2EC0, 0x2F80, 0xEF41, 0x2D00, 0xEDC1, 0xEC81, 0x2C40]
    case 14 => [0xE401, 0x24C0, 0x2580, 0xE541, 0x2700, 0xE7C1, 0xE681, 0x2640]
    case _ => [0x2200, 0xE2C1, 0xE381, 0x2340, 0xE101, 0x21C0, 0x2080, 0xE041]
  }

  function Lower(r: nat): seq<bv16>
    requires r < 16
  {
    match r
    case 0 => [0xA001, 0x60C0, 0x6180, 0xA141, 0x6300, 0xA3C1, 0xA281, 0x6240]
    case 1 => [0x6600, 0xA6C1, 0xA781, 0x6740, 0xA501, 0x65C0, 0x6480, 0xA441]
    case 2 => [0x6C00, 0xACC1, 0xAD81, 0x6D40, 0xAF01, 0x6FC0, 0x6E80, 0xAE41]
    case 3 => [0xAA01, 0x6AC0, 0x6B80, 0xAB41, 0x6900, 0xA9C1, 0xA881, 0x6840]
    case 4 => [0x7800, 0xB8C1, 0xB981, 0x7940, 0xBB01, 0x7BC0, 0x7A80, 0xBA41]
    case 5 => [0xBE01, 0x7EC0, 0x7F80, 0xBF41, 0x7D00, 0xBDC1, 0xBC81, 0x7C40]
    case 6 => [0xB401, 0x74C0, 0x7580, 0xB541, 0x7700, 0xB7C1, 0xB681, 0x7640]
    case 7 => [0x7200, 0xB2C1, 0xB381, 0x7340, 0xB101, 0x71C0, 0x7080, 0xB041]
    case 8 => [0x5000, 0x90C1, 0x9181, 0x5140, 0x9301, 0x53C0, 0x5280, 0x9241]
    case 9 => [0x9601, 0x56C0, 0x5780, 0x9741, 0x5500, 0x95C1, 0x9481, 0x5440]
    case 10 => [0x9C01, 0x5CC0, 0x5D80, 0x9D41, 0x5F00, 0x9FC1, 0x9E81, 0x5E40]
    case 11 => [0x5A00, 0x9AC1, 0x9B81, 0x5B40, 0x9901, 0x59C0, 0x5880, 0x9841]
    case 12 => [0x8801, 0x48C0, 0x4980, 0x8941, 0x4B00, 0x8BC1, 0x8A81, 0x4A40]
    case 13 => [0x4E00, 0x8EC1, 0x8F81, 0x4F40, 0x8D01, 0x4DC0, 0x4C80, 0x8C41]
    case 14 => [0x4400, 0x84C1, 0x8581, 0x4540, 0x8701, 0x47C0, 0x4680, 0x8641]
    case _ => [0x8201, 0x42C0, 0x4380, 0x8341, 0x4100, 0x81C1, 0x8081, 0x4040]
  }

  function Row(r: nat): seq<bv16>
    requires r < 32
  {
    if r < 16 then Upper(r) else Lower(r - 16)
  }

  function Table(no: bv16): bv16
    requires no < 256
  {
    Row((no >> 3) as int)[(no & 7) as int]
  }

  function EightFrom(base: bv16): seq<bv16> {
    [Eight(base), Eight(base + 1), Eight(base + 2), Eight(base + 3),
     Eight(base + 4), Eight(base + 5), Eight(base + 6), Eight(base + 7)]
  }

  /** A step without a branch */
  lemma StepFlat(x: bv16)
    ensures Step(x) == (x >> 1) ^ (0xA001 & (0 - (x & 1)))
  {
  }

  lemma Flat(x: bv16)
    ensures Eight(x) ==
            var x1 := (x >> 1) ^ (0xA001 & (0 - (x & 1)));
            var x2 := (x1 >> 1) ^ (0xA001 & (0 - (x1 & 1)));
            var x3 := (x2 >> 1) ^ (0xA001 & (0 - (x2 & 1)));
            var x4 := (x3 >> 1) ^ (0xA001 & (0 - (x3 & 1)));
            var x5 := (x4 >> 1) ^ (0xA001 & (0 - (x4 & 1)));
            var x6 := (x5 >> 1) ^ (0xA001 & (0 - (x5 & 1)));
            var x7 := (x6 >> 1) ^ (0xA001 & (0 - (x6 & 1)));
            (x7 >> 1) ^ (0xA001 & (0 - (x7 & 1)))
  {
    hide Step;
    StepFlat(x);
    StepFlat(Step(x));
    StepFlat(Step(Step(x)));
    StepFlat(Step(Step(Step(x))));
    StepFlat(Step(Step(Step(Step(x)))));
    StepFlat(Step(Step(Step(Step(Step(x))))));
    StepFlat(Step(Step(Step(Step(Step(Step(x)))))));
    StepFlat(Step(Step(Step(Step(Step(Step(Step(x))))))));
  }

  lemma Rows0To7()
    ensures Row(0) == EightFrom(0)
    ensures Row(1) == EightFrom(8)
    ensures Row(2) == EightFrom(16)
    ensures Row(3) == EightFrom(24)
    ensures Row(4) == EightFrom(32)
    ensures Row(5) == EightFrom(40)
    ensures Row(6) == EightFrom(48)
    ensures Row(7) == EightFrom(56)
  {
    hide Eight;
    Flat(0); Flat(1); Flat(2); Flat(3); Flat(4); Flat(5); Flat(6); Flat(7);
    Flat(8); Flat(9); Flat(10); Flat(11); Flat(12); Flat(13); Flat(14); Flat(15);
    Flat(16); Flat(17); Flat(18); Flat(19); Flat(20); Flat(21); Flat(22); Flat(23);
    Flat(24); Flat(25); Flat(26); Flat(27); Flat(28); Flat(29); Flat(30); Flat(31);
    Flat(32); Flat(33); Flat(34); Flat(35); Flat(36); Flat(37); Flat(38); Flat(39);
    Flat(40); Flat(41); Flat(42); Flat(43); Flat(44); Flat(45); Flat(46); Flat(47);
    Flat(48); Flat(49); Flat(50); Flat(51); Flat(52); Flat(53); Flat(54); Flat(55);
    Flat(56); Flat(57); Flat(58); Flat(59); Flat(60); Flat(61); Flat(62); Flat(63);
  }

  lemma Rows8To15()
    ensures Row(8) == EightFrom(64)
    ensures Row(9) == EightFrom(72)
    ensures Row(10) == EightFrom(80)
    ensures Row(11) == EightFrom(88)
    ensures Row(12) == EightFrom(96)
    ensures Row(13) == EightFrom(104)
    ensures Row(14) == EightFrom(112)
    ensures Row(15) == EightFrom(120)
  {
    hide Eight;
    Flat(64); Flat(65); Flat(66); Flat(67); Flat(68); Flat(69); Flat(70); Flat(71);
    Flat(72); Flat(73); Flat(74); Flat(75); Flat(76); Flat(77); Flat(78); Flat(79);
    Flat(80); Flat(81); Flat(82); Flat(83); Flat(84); Flat(85); Flat(86); Flat(87);
    Flat(88); Flat(89); Flat(90); Flat(91); Flat(92); Flat(93); Flat(94); Flat(95);
    Flat(96); Flat(97); Flat(98); Flat(99); Flat(100); Flat(101); Flat(102); Flat(103);
    Flat(104); Flat(105); Flat(106); Flat(107); Flat(108); Flat(109); Flat(110); Flat(111);
    Flat(112); Flat(113); Flat(114); Flat(115); Flat(116); Flat(117); Flat(118); Flat(119);
    Flat(120); Flat(121); Flat(122); Flat(123); Flat(124); Flat(125); Flat(126); Flat(127);
  }

  lemma Rows16To23()
    ensures Row(16) == EightFrom(128)
    ensures Row(17) == EightFrom(136)
    ensures Row(18) == EightFrom(144)
    ensures Row(19) == EightFrom(152)
    ensures Row(20) == EightFrom(160)
    ensures Row(21) == EightFrom(168)
    ensures Row(22) == EightFrom(176)
    ensures Row(23) == EightFrom(184)
  {
    hide Eight;
    Flat(128); Flat(129); Flat(130); Flat(131); Flat(132); Flat(133); Flat(134); Flat(135);
    Flat(136); Flat(137); Flat(138); Flat(139); Flat(140); Flat(141); Flat(142); Flat(143);
    Flat(144); Flat(145); Flat(146); Flat(147); Flat(148); Flat(149); Flat(150); Flat(151);
    Flat(152); Flat(153); Flat(154); Flat(155); Flat(156); Flat(157); Flat(158); Flat(159);
    Flat(160); Flat(161); Flat(162); Flat(163); Flat(164); Flat(165); Flat(166); Flat(167);
    Flat(168); Flat(169); Flat(170); Flat(171); Flat(172); Flat(173); Flat(174); Flat(175);
    Flat(176); Flat(177); Flat(178); Flat(179); Flat(180); Flat(181); Flat(182); Flat(183);
    Flat(184); Flat(185); Flat(186); Flat(187); Flat(188); Flat(189); Flat(190); Flat(191);
  }

  lemma Rows24To31()
    ensures Row(24) == EightFrom(192)
    ensures Row(25) == EightFrom(200)
    ensures Row(26) == EightFrom(208)
    ensures Row(27) == EightFrom(216)
    ensures Row(28) == EightFrom(224)
    ensures Row(29) == EightFrom(232)
    ensures Row(30) == EightFrom(240)
    ensures Row(31) == EightFrom(248)
  {
    hide Eight;
    Flat(192); Flat(193); Flat(194); Flat(195); Flat(196); Flat(197); Flat(198); Flat(199);
    Flat(200); Flat(201); Flat(202); Flat(203); Flat(204); Flat(205); Flat(206); Flat(207);
    Flat(208); Flat(209); Flat(210); Flat(211); Flat(212); Flat(213); Flat(214); Flat(215);
    Flat(216); Flat(217); Flat(218); Flat(219); Flat(220); Flat(221); Flat(222); Flat(223);
    Flat(224); Flat(225); Flat(226); Flat(227); Flat(228); Flat(229); Flat(230); Flat(231);
    Flat(232); Flat(233); Flat(234); Flat(235); Flat(236); Flat(237); Flat(238); Flat(239);
    Flat(240); Flat(241); Flat(242); Flat(243); Flat(244); Flat(245); Flat(246); Flat(247);
    Flat(248); Flat(249); Flat(250); Flat(251); Flat(252); Flat(253); Flat(254); Flat(255);
  }

  lemma RowAt(r: bv16)
    requires r < 32
    ensures Row(r as int) == EightFrom(8 * r)
  {
    hide Row, EightFrom;
    if r < 8 {
      Rows0To7();
      assert r == 0 || r == 1 || r == 2 || r == 3 || r == 4 || r == 5 || r == 6 || r == 7;
    } else if r < 16 {
      Rows8To15();
      assert r == 8 || r == 9 || r == 10 || r == 11 || r == 12 || r == 13 || r == 14 || r == 15;
    } else if r < 24 {
      Rows16To23();
      assert r == 16 || r == 17 || r == 18 || r == 19 || r == 20 || r == 21 || r == 22 || r == 23;
    } else {
      Rows24To31();
      assert r == 24 || r == 25 || r == 26 || r == 27 || r == 28 || r == 29 || r == 30 || r == 31;
    }
  }

  /** Every entry of the table is its index with eight bits shifted out. */
  lemma Entry(no: bv16)
    requires no < 256
    ensures Table(no) == Eight(no)
  {
    hide Row, Eight;
    RowAt(no >> 3);
    var j := no & 7;
    assert j == 0 || j == 1 || j == 2 || j == 3 || j == 4 || j == 5 || j == 6 || j == 7;
    assert no == 8 * (no >> 3) + j;
  }

  // ----- shifting bits out is linear and loses nothing -----

  lemma XorAssoc(a: bv16, b: bv16, c: bv16)
    ensures Xor(Xor(a, b), c) == Xor(a, Xor(b, c))
  {
  }

  lemma XorCommute(a: bv16, b: bv16)
    ensures Xor(a, b) == Xor(b, a)
  {
  }

  lemma XorPull(a: bv16, b: bv16, p: bv16)
    ensures Xor(Xor(a, p), b) == Xor(Xor(a, b), p) == Xor(a, Xor(b, p))
  {
    hide Xor;
    XorAssoc(a, p, b);
    XorAssoc(a, b, p);
    XorCommute(b, p);
  }

  lemma XorTwice(a: bv16, p: bv16)
    ensures Xor(Xor(a, p), p) == a
  {
  }

  lemma XorCancel(a: bv16, b: bv16, p: bv16)
    ensures Xor(Xor(a, p), Xor(b, p)) == Xor(a, b)
  {
    hide Xor;
    XorPull(a, Xor(b, p), p);
    XorPull(a, b, p);
    XorTwice(Xor(a, b), p);
  }

  lemma XorRegroup(x: bv16, y: bv16, a: bv16, b: bv16)
    ensures Xor(Xor(x, y), Xor(a, b)) == Xor(Xor(x, a), Xor(y, b))
  {
    hide Xor;
    XorPull(Xor(x, y), a, b);
    XorPull(x, a, y);
    XorPull(Xor(x, a), y, b);
  }

  lemma XorZero(x: bv16, y: bv16)
    ensures Xor(x, y) == 0 <==> x == y
  {
  }

  lemma XorShift(x: bv16, y: bv16)
    ensures Xor(x, y) >> 1 == Xor(x >> 1, y >> 1)
  {
  }

  lemma XorBit(x: bv16, y: bv16)
    ensures (Xor(x, y) & 1 == 1) == ((x & 1 == 1) != (y & 1 == 1))
  {
  }

  lemma StepXor(x: bv16, y: bv16)
    ensures Step(Xor(x, y)) == Xor(Step(x), Step(y))
  {
    hide Xor;
    var a, b := x >> 1, y >> 1;
    XorBit(x, y);
    XorShift(x, y);
    XorCancel(a, b, 0xA001);
    XorPull(a, b, 0xA001);
  }

  lemma EightXor(x: bv16, y: bv16)
    ensures Eight(Xor(x, y)) == Xor(Eight(x), Eight(y))
  {
    hide Step, Xor;
    var x1, y1 := Step(x), Step(y);
    var x2, y2 := Step(x1), Step(y1);
    var x3, y3 := Step(x2), Step(y2);
    var x4, y4 := Step(x3), Step(y3);
    var x5, y5 := Step(x4), Step(y4);
    var x6, y6 := Step(x5), Step(y5);
    var x7, y7 := Step(x6), Step(y6);
    StepXor(x, y);
    StepXor(x1, y1);
    StepXor(x2, y2);
    StepXor(x3, y3);
    StepXor(x4, y4);
    StepXor(x5, y5);
    StepXor(x6, y6);
    StepXor(x7, y7);
  }

  lemma StepZero(x: bv16)
    ensures Step(x) == 0 <==> x == 0
  {
  }

  /** Only zero leaves nothing behind. */
  lemma EightZero(x: bv16)
    ensures Eight(x) == 0 <==> x == 0
  {
    hide Step;
    StepZero(x);
    StepZero(Step(x));
    StepZero(Step(Step(x)));
    StepZero(Step(Step(Step(x))));
    StepZero(Step(Step(Step(Step(x)))));
    StepZero(Step(Step(Step(Step(Step(x))))));
    StepZero(Step(Step(Step(Step(Step(Step(x)))))));
    StepZero(Step(Step(Step(Step(Step(Step(Step(x))))))));
  }

  /** A high byte is only shifted down. */
  lemma EightHigh(x: bv16)
    requires x & 0xFF == 0
    ensures Eight(x) == x >> 8
  {
  }

  lemma Bytes(x: bv16)
    ensures x == Xor(x & 0xFF00, x & 0xFF)
    ensures (x & 0xFF00) & 0xFF == 0
    ensures (x & 0xFF00) >> 8 == (x >> 8) & 0xFF
    ensures x & 0xFF < 256
  {
  }

  /** What the table computes: eight bits out of the low byte, the high byte moved down. */
  lemma TableStep(x: bv16)
    ensures Xor((x >> 8) & 0xFF, Table(x & 0xFF)) == Eight(x)
  {
    hide Eight, Table, Xor, Word;
    Bytes(x);
    EightXor(x & 0xFF00, x & 0xFF);
    EightHigh(x & 0xFF00);
    Entry(x & 0xFF);
  }

  /** A byte added to the register's low end leaves its high byte alone. */
  lemma LowEnd(register: bv16, b: bv8)
    ensures Xor(register & 0xFF, Word(b) & 0xFF) == Xor(register, Word(b)) & 0xFF
    ensures (register >> 8) & 0xFF == (Xor(register, Word(b)) >> 8) & 0xFF
  {
  }

  /** crc16_calc: len is a char, so no message is longer than 255 bytes. */
  method Crc16Calc(buf: array<bv8>, len: nat) returns (result: bv16)
    requires len < 256 && len <= buf.Length
    ensures result == Bitwise(0, buf[..len])
  {
    hide Eight, Table, Xor, Word;
    result := 0;
    for i := 0 to len
      invariant result == Bitwise(0, buf[..i])
    {
      LowEnd(result, buf[i]);
      var tableNo := Xor(result & 0xFF, Word(buf[i]) & 0xFF);
      TableStep(Xor(result, Word(buf[i])));
      LowByte(Xor(result, Word(buf[i])));
      result := Xor((result >> 8) & 0xFF, Table(tableNo));
      assert buf[..i + 1][..i] == buf[..i];
    }
  }

  lemma LowByte(x: bv16)
    ensures x & 0xFF < 256
  {
  }

  // ----- what the checksum is good for -----

  function Xored(a: seq<bv8>, b: seq<bv8>): (r: seq<bv8>)
    requires |a| == |b|
    ensures |r| == |a| && forall i | 0 <= i < |a| :: r[i] == a[i] ^ b[i]
  {
    seq(|a|, i requires 0 <= i < |a| => a[i] ^ b[i])
  }

  /** It is linear: the checksum of an exclusive or is the exclusive or of the checksums. */
  lemma {:induction false} Linear(r: bv16, a: seq<bv8>, s: bv16, b: seq<bv8>)
    requires |a| == |b|
    ensures Bitwise(Xor(r, s), Xored(a, b)) == Xor(Bitwise(r, a), Bitwise(s, b))
    decreases |a|
  {
    hide Eight, Xor, Word, Xored;
    if a != [] {
      var k := |a| - 1;
      var x, y := Bitwise(r, a[..k]), Bitwise(s, b[..k]);
      Linear(r, a[..k], s, b[..k]);
      XoredFront(a, b, k);
      Widen(a[k], b[k]);
      XorRegroup(x, y, Word(a[k]), Word(b[k]));
      EightXor(Xor(x, Word(a[k])), Xor(y, Word(b[k])));
    }
  }

  lemma XoredFront(a: seq<bv8>, b: seq<bv8>, k: nat)
    requires |a| == |b| == k + 1
    ensures Xored(a, b)[..k] == Xored(a[..k], b[..k]) && Xored(a, b)[k] == a[k] ^ b[k]
  {
  }

  lemma Widen(a: bv8, b: bv8)
    ensures Word(a ^ b) == Xor(Word(a), Word(b))
    ensures a != b ==> Word(a) != Word(b)
  {
  }

  /** Different registers stay different. */
  lemma EightApart(x: bv16, y: bv16)
    requires x != y
    ensures Eight(x) != Eight(y)
  {
    hide Eight, Xor, Word;
    EightXor(x, y);
    EightZero(Xor(x, y));
    XorZero(x, y);
    XorZero(Eight(x), Eight(y));
  }

  lemma XorApart(x: bv16, y: bv16, a: bv16)
    requires x != y
    ensures Xor(x, a) != Xor(y, a)
    ensures Xor(a, x) != Xor(a, y)
  {
  }

  /** Two messages that differ, and only inside two adjacent bytes, never share their checksum. */
  lemma {:induction false} BurstDetected(a: seq<bv8>, b: seq<bv8>, k: nat)
    requires |a| == |b| && k < |a| && a != b
    requires forall i | 0 <= i < |a| && i != k && i != k + 1 :: a[i] == b[i]
    ensures Bitwise(0, a) != Bitwise(0, b)
    decreases |a|
  {
    hide Eight, Xor, Word;
    var n := |a| - 1;
    var x, y := Bitwise(0, a[..n]), Bitwise(0, b[..n]);
    assert a == a[..n] + [a[n]] && b == b[..n] + [b[n]];
    Widen(a[n], b[n]);
    if n > k + 1 {
      BurstDetected(a[..n], b[..n], k);
      XorApart(x, y, Word(a[n]));
      EightApart(Xor(x, Word(a[n])), Xor(y, Word(b[n])));
    } else if n == k {
      assert a[..n] == b[..n];
      XorApart(Word(a[n]), Word(b[n]), x);
      EightApart(Xor(x, Word(a[n])), Xor(y, Word(b[n])));
    } else {
      assert a[..n][..k] == b[..n][..k];
      assert a[..n] == a[..n][..k] + [a[k]] && b[..n] == b[..n][..k] + [b[k]];
      TwoBytes(Bitwise(0, a[..n][..k]), a[k], a[n], b[k], b[n]);
    }
  }

  /** From one register two different pairs of bytes lead to different registers. */
  lemma TwoBytes(r: bv16, a0: bv8, a1: bv8, b0: bv8, b1: bv8)
    requires a0 != b0 || a1 != b1
    ensures Eight(Xor(Eight(Xor(r, Word(a0))), Word(a1))) != Eight(Xor(Eight(Xor(r, Word(b0))), Word(b1)))
  {
    hide Eight, Xor, Word;
    var x0, y0 := Xor(r, Word(a0)), Xor(r, Word(b0));
    var x1, y1 := Word(a1) << 8, Word(b1) << 8;
    Raised(a1);
    Raised(b1);
    EightHigh(x1);
    EightHigh(y1);
    EightXor(x0, x1);
    EightXor(y0, y1);
    Together(r, a0, a1, b0, b1);
    EightApart(Xor(x0, x1), Xor(y0, y1));
    EightApart(Xor(Eight(x0), Word(a1)), Xor(Eight(y0), Word(b1)));
  }

  lemma Raised(b: bv8)
    ensures (Word(b) << 8) & 0xFF == 0 && (Word(b) << 8) >> 8 == Word(b)
  {
  }

  /** Two bytes added at different ends of the register do not hide each other. */
  lemma Together(r: bv16, a0: bv8, a1: bv8, b0: bv8, b1: bv8)
    requires a0 != b0 || a1 != b1
    ensures Xor(Xor(r, Word(a0)), Word(a1) << 8) != Xor(Xor(r, Word(b0)), Word(b1) << 8)
  {
  }
}
