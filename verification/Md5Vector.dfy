/** The digest of "abc", from appendix A.5 of RFC 1321: the 64 operations on its one block worked out, and
    with them every constant, shift, byte order and padding rule on the way. */
module Md5Vector {
  import opened Common
  import opened Md5Spec

  const ABC: seq<Byte> := [Byte(0x61), Byte(0x62), Byte(0x63)]

  /** The words of the padded message. */
  const X: seq<Word> := [
    Word(0x80636261), Word(0), Word(0), Word(0), Word(0), Word(0), Word(0), Word(0),
    Word(0), Word(0), Word(0), Word(0), Word(0), Word(0), Word(0x18), Word(0)]

  // The initial registers in the order a, d, c, b, and then the register each operation writes.
  const R0 := Word(0x67452301)  const R1 := Word(0x10325476)  const R2 := Word(0x98badcfe)  const R3 := Word(0xefcdab89)
  const R4 := Word(0xd6d117b4)  const R5 := Word(0x344a8432)  const R6 := Word(0x2f6fbd72)  const R7 := Word(0x7ad956f2)
  const R8 := Word(0xc73741ef)  const R9 := Word(0x8bac3051)  const R10 := Word(0x207dc67b)  const R11 := Word(0x928d99f6)
  const R12 := Word(0x854b3712)  const R13 := Word(0x74e2f284)  const R14 := Word(0x3020401c)  const R15 := Word(0x5ed49596)
  const R16 := Word(0xdda9b9a6)  const R17 := Word(0xa1051895)  const R18 := Word(0xe396856b)  const R19 := Word(0x72aff2e0)
  const R20 := Word(0x3e9e9126)  const R21 := Word(0x4a1d804e)  const R22 := Word(0xe25e1652)  const R23 := Word(0xb5b204e4)
  const R24 := Word(0x59a8ffda)  const R25 := Word(0x6d002f1e)  const R26 := Word(0xabfc7920)  const R27 := Word(0x47092c07)
  const R28 := Word(0xb7f268cf)  const R29 := Word(0x09388eff)  const R30 := Word(0xfe1623b1)  const R31 := Word(0x786acb8f)
  const R32 := Word(0x790a77fb)  const R33 := Word(0x9f47e4f8)  const R34 := Word(0xa62884aa)  const R35 := Word(0x726342d3)
  const R36 := Word(0xb3707ebf)  const R37 := Word(0x60127b2e)  const R38 := Word(0x8d212ff5)  const R39 := Word(0x3b0875c7)
  const R40 := Word(0x21b117b9)  const R41 := Word(0x6e7429d5)  const R42 := Word(0x3575227e)  const R43 := Word(0x5a2f5ea5)
  const R44 := Word(0x11de1779)  const R45 := Word(0xfadcaa38)  const R46 := Word(0x31c465ca)  const R47 := Word(0x4c6124f4)
  const R48 := Word(0x7f2e507b)  const R49 := Word(0x99d9679d)  const R50 := Word(0x8fae6399)  const R51 := Word(0x7beb9700)
  const R52 := Word(0x7b201df8)  const R53 := Word(0xf4e8e96e)  const R54 := Word(0xb298cefd)  const R55 := Word(0x8bf025c4)
  const R56 := Word(0x06cc5e8a)  const R57 := Word(0x5b0d97aa)  const R58 := Word(0x7d632dd0)  const R59 := Word(0x3bfa2c27)
  const R60 := Word(0x7f81cc35)  const R61 := Word(0x094454ab)  const R62 := Word(0x4f9dbe3f)  const R63 := Word(0x7327d604)
  const R64 := Word(0x310ade8f)  const R65 := Word(0x624d8cb2)  const R66 := Word(0xe484b9d8)  const R67 := Word(0xc08226b3)

  /** One operation, its result worked out. */
  lemma To(n: nat, a: Word, b: Word, c: Word, d: Word, op: Op, x: Word, y: Word)
    requires n < 64 && Operations(INIT, X, n) == State(a, b, c, d)
    requires OpAt(n / 16, n % 16) == op && GoodOp(op) && X[op.k] == x
    requires Line(n / 16, a, b, c, d, x, op.s, Word(op.t)) == y
    ensures Operations(INIT, X, n + 1) == State(d, y, b, c)
  {
    hide Line, OpAt;
  }

  lemma Start()
    ensures Operations(INIT, X, 0) == State(R0, R3, R2, R1)
  {
  }

  lemma Lines4()
    ensures Line(0, R0, R3, R2, R1, Word(0x80636261), 7, Word(0xd76aa478)) == R4
    ensures Line(0, R1, R4, R3, R2, Word(0), 12, Word(0xe8c7b756)) == R5
    ensures Line(0, R2, R5, R4, R3, Word(0), 17, Word(0x242070db)) == R6
    ensures Line(0, R3, R6, R5, R4, Word(0), 22, Word(0xc1bdceee)) == R7
  {
  }

  lemma Steps4()
    ensures Operations(INIT, X, 4) == State(R4, R7, R6, R5)
  {
    Start();
    Lines4();
    hide Operations, Line;
    To(0, R0, R3, R2, R1, Op(0, 7, 0xd76aa478), Word(0x80636261), R4);
    To(1, R1, R4, R3, R2, Op(1, 12, 0xe8c7b756), Word(0), R5);
    To(2, R2, R5, R4, R3, Op(2, 17, 0x242070db), Word(0), R6);
    To(3, R3, R6, R5, R4, Op(3, 22, 0xc1bdceee), Word(0), R7);
  }

  lemma Lines8()
    ensures Line(0, R4, R7, R6, R5, Word(0), 7, Word(0xf57c0faf)) == R8
    ensures Line(0, R5, R8, R7, R6, Word(0), 12, Word(0x4787c62a)) == R9
    ensures Line(0, R6, R9, R8, R7, Word(0), 17, Word(0xa8304613)) == R10
    ensures Line(0, R7, R10, R9, R8, Word(0), 22, Word(0xfd469501)) == R11
  {
  }

  lemma Steps8()
    ensures Operations(INIT, X, 8) == State(R8, R11, R10, R9)
  {
    Steps4();
    Lines8();
    hide Operations, Line;
    To(4, R4, R7, R6, R5, Op(4, 7, 0xf57c0faf), Word(0), R8);
    To(5, R5, R8, R7, R6, Op(5, 12, 0x4787c62a), Word(0), R9);
    To(6, R6, R9, R8, R7, Op(6, 17, 0xa8304613), Word(0), R10);
    To(7, R7, R10, R9, R8, Op(7, 22, 0xfd469501), Word(0), R11);
  }

  lemma Lines12()
    ensures Line(0, R8, R11, R10, R9, Word(0), 7, Word(0x698098d8)) == R12
    ensures Line(0, R9, R12, R11, R10, Word(0), 12, Word(0x8b44f7af)) == R13
    ensures Line(0, R10, R13, R12, R11, Word(0), 17, Word(0xffff5bb1)) == R14
    ensures Line(0, R11, R14, R13, R12, Word(0), 22, Word(0x895cd7be)) == R15
  {
  }

  lemma Steps12()
    ensures Operations(INIT, X, 12) == State(R12, R15, R14, R13)
  {
    Steps8();
    Lines12();
    hide Operations, Line;
    To(8, R8, R11, R10, R9, Op(8, 7, 0x698098d8), Word(0), R12);
    To(9, R9, R12, R11, R10, Op(9, 12, 0x8b44f7af), Word(0), R13);
    To(10, R10, R13, R12, R11, Op(10, 17, 0xffff5bb1), Word(0), R14);
    To(11, R11, R14, R13, R12, Op(11, 22, 0x895cd7be), Word(0), R15);
  }

  lemma Lines16()
    ensures Line(0, R12, R15, R14, R13, Word(0), 7, Word(0x6b901122)) == R16
    ensures Line(0, R13, R16, R15, R14, Word(0), 12, Word(0xfd987193)) == R17
    ensures Line(0, R14, R17, R16, R15, Word(0x00000018), 17, Word(0xa679438e)) == R18
    ensures Line(0, R15, R18, R17, R16, Word(0), 22, Word(0x49b40821)) == R19
  {
  }

  lemma Steps16()
    ensures Operations(INIT, X, 16) == State(R16, R19, R18, R17)
  {
    Steps12();
    Lines16();
    hide Operations, Line;
    To(12, R12, R15, R14, R13, Op(12, 7, 0x6b901122), Word(0), R16);
    To(13, R13, R16, R15, R14, Op(13, 12, 0xfd987193), Word(0), R17);
    To(14, R14, R17, R16, R15, Op(14, 17, 0xa679438e), Word(0x00000018), R18);
    To(15, R15, R18, R17, R16, Op(15, 22, 0x49b40821), Word(0), R19);
  }

  lemma Lines20()
    ensures Line(1, R16, R19, R18, R17, Word(0), 5, Word(0xf61e2562)) == R20
    ensures Line(1, R17, R20, R19, R18, Word(0), 9, Word(0xc040b340)) == R21
    ensures Line(1, R18, R21, R20, R19, Word(0), 14, Word(0x265e5a51)) == R22
    ensures Line(1, R19, R22, R21, R20, Word(0x80636261), 20, Word(0xe9b6c7aa)) == R23
  {
  }

  lemma Steps20()
    ensures Operations(INIT, X, 20) == State(R20, R23, R22, R21)
  {
    Steps16();
    Lines20();
    hide Operations, Line;
    To(16, R16, R19, R18, R17, Op(1, 5, 0xf61e2562), Word(0), R20);
    To(17, R17, R20, R19, R18, Op(6, 9, 0xc040b340), Word(0), R21);
    To(18, R18, R21, R20, R19, Op(11, 14, 0x265e5a51), Word(0), R22);
    To(19, R19, R22, R21, R20, Op(0, 20, 0xe9b6c7aa), Word(0x80636261), R23);
  }

  lemma Lines24()
    ensures Line(1, R20, R23, R22, R21, Word(0), 5, Word(0xd62f105d)) == R24
    ensures Line(1, R21, R24, R23, R22, Word(0), 9, Word(0x02441453)) == R25
    ensures Line(1, R22, R25, R24, R23, Word(0), 14, Word(0xd8a1e681)) == R26
    ensures Line(1, R23, R26, R25, R24, Word(0), 20, Word(0xe7d3fbc8)) == R27
  {
  }

  lemma Steps24()
    ensures Operations(INIT, X, 24) == State(R24, R27, R26, R25)
  {
    Steps20();
    Lines24();
    hide Operations, Line;
    To(20, R20, R23, R22, R21, Op(5, 5, 0xd62f105d), Word(0), R24);
    To(21, R21, R24, R23, R22, Op(10, 9, 0x02441453), Word(0), R25);
    To(22, R22, R25, R24, R23, Op(15, 14, 0xd8a1e681), Word(0), R26);
    To(23, R23, R26, R25, R24, Op(4, 20, 0xe7d3fbc8), Word(0), R27);
  }

  lemma Lines28()
    ensures Line(1, R24, R27, R26, R25, Word(0), 5, Word(0x21e1cde6)) == R28
    ensures Line(1, R25, R28, R27, R26, Word(0x00000018), 9, Word(0xc33707d6)) == R29
    ensures Line(1, R26, R29, R28, R27, Word(0), 14, Word(0xf4d50d87)) == R30
    ensures Line(1, R27, R30, R29, R28, Word(0), 20, Word(0x455a14ed)) == R31
  {
  }

  lemma Steps28()
    ensures Operations(INIT, X, 28) == State(R28, R31, R30, R29)
  {
    Steps24();
    Lines28();
    hide Operations, Line;
    To(24, R24, R27, R26, R25, Op(9, 5, 0x21e1cde6), Word(0), R28);
    To(25, R25, R28, R27, R26, Op(14, 9, 0xc33707d6), Word(0x00000018), R29);
    To(26, R26, R29, R28, R27, Op(3, 14, 0xf4d50d87), Word(0), R30);
    To(27, R27, R30, R29, R28, Op(8, 20, 0x455a14ed), Word(0), R31);
  }

  lemma Lines32()
    ensures Line(1, R28, R31, R30, R29, Word(0), 5, Word(0xa9e3e905)) == R32
    ensures Line(1, R29, R32, R31, R30, Word(0), 9, Word(0xfcefa3f8)) == R33
    ensures Line(1, R30, R33, R32, R31, Word(0), 14, Word(0x676f02d9)) == R34
    ensures Line(1, R31, R34, R33, R32, Word(0), 20, Word(0x8d2a4c8a)) == R35
  {
  }

  lemma Steps32()
    ensures Operations(INIT, X, 32) == State(R32, R35, R34, R33)
  {
    Steps28();
    Lines32();
    hide Operations, Line;
    To(28, R28, R31, R30, R29, Op(13, 5, 0xa9e3e905), Word(0), R32);
    To(29, R29, R32, R31, R30, Op(2, 9, 0xfcefa3f8), Word(0), R33);
    To(30, R30, R33, R32, R31, Op(7, 14, 0x676f02d9), Word(0), R34);
    To(31, R31, R34, R33, R32, Op(12, 20, 0x8d2a4c8a), Word(0), R35);
  }

  lemma Lines36()
    ensures Line(2, R32, R35, R34, R33, Word(0), 4, Word(0xfffa3942)) == R36
    ensures Line(2, R33, R36, R35, R34, Word(0), 11, Word(0x8771f681)) == R37
    ensures Line(2, R34, R37, R36, R35, Word(0), 16, Word(0x6d9d6122)) == R38
    ensures Line(2, R35, R38, R37, R36, Word(0x00000018), 23, Word(0xfde5380c)) == R39
  {
  }

  lemma Steps36()
    ensures Operations(INIT, X, 36) == State(R36, R39, R38, R37)
  {
    Steps32();
    Lines36();
    hide Operations, Line;
    To(32, R32, R35, R34, R33, Op(5, 4, 0xfffa3942), Word(0), R36);
    To(33, R33, R36, R35, R34, Op(8, 11, 0x8771f681), Word(0), R37);
    To(34, R34, R37, R36, R35, Op(11, 16, 0x6d9d6122), Word(0), R38);
    To(35, R35, R38, R37, R36, Op(14, 23, 0xfde5380c), Word(0x00000018), R39);
  }

  lemma Lines40()
    ensures Line(2, R36, R39, R38, R37, Word(0), 4, Word(0xa4beea44)) == R40
    ensures Line(2, R37, R40, R39, R38, Word(0), 11, Word(0x4bdecfa9)) == R41
    ensures Line(2, R38, R41, R40, R39, Word(0), 16, Word(0xf6bb4b60)) == R42
    ensures Line(2, R39, R42, R41, R40, Word(0), 23, Word(0xbebfbc70)) == R43
  {
  }

  lemma Steps40()
    ensures Operations(INIT, X, 40) == State(R40, R43, R42, R41)
  {
    Steps36();
    Lines40();
    hide Operations, Line;
    To(36, R36, R39, R38, R37, Op(1, 4, 0xa4beea44), Word(0), R40);
    To(37, R37, R40, R39, R38, Op(4, 11, 0x4bdecfa9), Word(0), R41);
    To(38, R38, R41, R40, R39, Op(7, 16, 0xf6bb4b60), Word(0), R42);
    To(39, R39, R42, R41, R40, Op(10, 23, 0xbebfbc70), Word(0), R43);
  }

  lemma Lines44()
    ensures Line(2, R40, R43, R42, R41, Word(0), 4, Word(0x289b7ec6)) == R44
    ensures Line(2, R41, R44, R43, R42, Word(0x80636261), 11, Word(0xeaa127fa)) == R45
    ensures Line(2, R42, R45, R44, R43, Word(0), 16, Word(0xd4ef3085)) == R46
    ensures Line(2, R43, R46, R45, R44, Word(0), 23, Word(0x04881d05)) == R47
  {
  }

  lemma Steps44()
    ensures Operations(INIT, X, 44) == State(R44, R47, R46, R45)
  {
    Steps40();
    Lines44();
    hide Operations, Line;
    To(40, R40, R43, R42, R41, Op(13, 4, 0x289b7ec6), Word(0), R44);
    To(41, R41, R44, R43, R42, Op(0, 11, 0xeaa127fa), Word(0x80636261), R45);
    To(42, R42, R45, R44, R43, Op(3, 16, 0xd4ef3085), Word(0), R46);
    To(43, R43, R46, R45, R44, Op(6, 23, 0x04881d05), Word(0), R47);
  }

  lemma Lines48()
    ensures Line(2, R44, R47, R46, R45, Word(0), 4, Word(0xd9d4d039)) == R48
    ensures Line(2, R45, R48, R47, R46, Word(0), 11, Word(0xe6db99e5)) == R49
    ensures Line(2, R46, R49, R48, R47, Word(0), 16, Word(0x1fa27cf8)) == R50
    ensures Line(2, R47, R50, R49, R48, Word(0), 23, Word(0xc4ac5665)) == R51
  {
  }

  lemma Steps48()
    ensures Operations(INIT, X, 48) == State(R48, R51, R50, R49)
  {
    Steps44();
    Lines48();
    hide Operations, Line;
    To(44, R44, R47, R46, R45, Op(9, 4, 0xd9d4d039), Word(0), R48);
    To(45, R45, R48, R47, R46, Op(12, 11, 0xe6db99e5), Word(0), R49);
    To(46, R46, R49, R48, R47, Op(15, 16, 0x1fa27cf8), Word(0), R50);
    To(47, R47, R50, R49, R48, Op(2, 23, 0xc4ac5665), Word(0), R51);
  }

  lemma Lines52()
    ensures Line(3, R48, R51, R50, R49, Word(0x80636261), 6, Word(0xf4292244)) == R52
    ensures Line(3, R49, R52, R51, R50, Word(0), 10, Word(0x432aff97)) == R53
    ensures Line(3, R50, R53, R52, R51, Word(0x00000018), 15, Word(0xab9423a7)) == R54
    ensures Line(3, R51, R54, R53, R52, Word(0), 21, Word(0xfc93a039)) == R55
  {
  }

  lemma Steps52()
    ensures Operations(INIT, X, 52) == State(R52, R55, R54, R53)
  {
    Steps48();
    Lines52();
    hide Operations, Line;
    To(48, R48, R51, R50, R49, Op(0, 6, 0xf4292244), Word(0x80636261), R52);
    To(49, R49, R52, R51, R50, Op(7, 10, 0x432aff97), Word(0), R53);
    To(50, R50, R53, R52, R51, Op(14, 15, 0xab9423a7), Word(0x00000018), R54);
    To(51, R51, R54, R53, R52, Op(5, 21, 0xfc93a039), Word(0), R55);
  }

  lemma Lines56()
    ensures Line(3, R52, R55, R54, R53, Word(0), 6, Word(0x655b59c3)) == R56
    ensures Line(3, R53, R56, R55, R54, Word(0), 10, Word(0x8f0ccc92)) == R57
    ensures Line(3, R54, R57, R56, R55, Word(0), 15, Word(0xffeff47d)) == R58
    ensures Line(3, R55, R58, R57, R56, Word(0), 21, Word(0x85845dd1)) == R59
  {
  }

  lemma Steps56()
    ensures Operations(INIT, X, 56) == State(R56, R59, R58, R57)
  {
    Steps52();
    Lines56();
    hide Operations, Line;
    To(52, R52, R55, R54, R53, Op(12, 6, 0x655b59c3), Word(0), R56);
    To(53, R53, R56, R55, R54, Op(3, 10, 0x8f0ccc92), Word(0), R57);
    To(54, R54, R57, R56, R55, Op(10, 15, 0xffeff47d), Word(0), R58);
    To(55, R55, R58, R57, R56, Op(1, 21, 0x85845dd1), Word(0), R59);
  }

  lemma Lines60()
    ensures Line(3, R56, R59, R58, R57, Word(0), 6, Word(0x6fa87e4f)) == R60
    ensures Line(3, R57, R60, R59, R58, Word(0), 10, Word(0xfe2ce6e0)) == R61
    ensures Line(3, R58, R61, R60, R59, Word(0), 15, Word(0xa3014314)) == R62
    ensures Line(3, R59, R62, R61, R60, Word(0), 21, Word(0x4e0811a1)) == R63
  {
  }

  lemma Steps60()
    ensures Operations(INIT, X, 60) == State(R60, R63, R62, R61)
  {
    Steps56();
    Lines60();
    hide Operations, Line;
    To(56, R56, R59, R58, R57, Op(8, 6, 0x6fa87e4f), Word(0), R60);
    To(57, R57, R60, R59, R58, Op(15, 10, 0xfe2ce6e0), Word(0), R61);
    To(58, R58, R61, R60, R59, Op(6, 15, 0xa3014314), Word(0), R62);
    To(59, R59, R62, R61, R60, Op(13, 21, 0x4e0811a1), Word(0), R63);
  }

  lemma Lines64()
    ensures Line(3, R60, R63, R62, R61, Word(0), 6, Word(0xf7537e82)) == R64
    ensures Line(3, R61, R64, R63, R62, Word(0), 10, Word(0xbd3af235)) == R65
    ensures Line(3, R62, R65, R64, R63, Word(0), 15, Word(0x2ad7d2bb)) == R66
    ensures Line(3, R63, R66, R65, R64, Word(0), 21, Word(0xeb86d391)) == R67
  {
  }

  lemma Steps64()
    ensures Operations(INIT, X, 64) == State(R64, R67, R66, R65)
  {
    Steps60();
    Lines64();
    hide Operations, Line;
    To(60, R60, R63, R62, R61, Op(4, 6, 0xf7537e82), Word(0), R64);
    To(61, R61, R64, R63, R62, Op(11, 10, 0xbd3af235), Word(0), R65);
    To(62, R62, R65, R64, R63, Op(2, 15, 0x2ad7d2bb), Word(0), R66);
    To(63, R63, R66, R65, R64, Op(9, 21, 0xeb86d391), Word(0), R67);
  }

  lemma BitsLength()
    ensures ToWord(24) == Word(0x18) && ToWord(0) == Word(0)
    ensures WordBytes(Word(0x18)) == [Byte(0x18), Byte(0), Byte(0), Byte(0)]
    ensures WordBytes(Word(0)) == [Byte(0), Byte(0), Byte(0), Byte(0)]
  {
  }

  lemma BitsWords()
    ensures Joined(Byte(0x61), Byte(0x62), Byte(0x63), Byte(0x80)) == Word(0x80636261)
    ensures Joined(Byte(0x18), Byte(0), Byte(0), Byte(0)) == Word(0x18)
    ensures Joined(Byte(0), Byte(0), Byte(0), Byte(0)) == Word(0)
  {
  }

  lemma PairBytes(v: Word, w: Word)
    ensures Bytes([v, w]) == WordBytes(v) + WordBytes(w)
  {
    assert [v, w][..1] == [v] && [v][..0] == [];
  }

  lemma PaddedWords()
    ensures |Padded(ABC)| == 64 && Words(Padded(ABC)) == X
  {
    BitsLength();
    BitsWords();
    hide ToWord, WordBytes, Joined, Bytes;
    PairBytes(ToWord(24), ToWord(0));
    assert PadLength(3) == 53;
    var b := Padded(ABC);
    assert b == ABC + ([Byte(0x80)] + seq(52, _ => Byte(0))) + WordBytes(Word(0x18)) + WordBytes(Word(0));
    forall i | 0 <= i < 16 ensures Words(b)[i] == X[i] {
    }
  }

  lemma BitsDigest()
    ensures Add(Word(0x67452301), Word(0x310ade8f)) == Word(0x98500190)
    ensures Add(Word(0xefcdab89), Word(0xc08226b3)) == Word(0xb04fd23c)
    ensures Add(Word(0x98badcfe), Word(0xe484b9d8)) == Word(0x7d3f96d6)
    ensures Add(Word(0x10325476), Word(0x624d8cb2)) == Word(0x727fe128)
    ensures WordBytes(Word(0x98500190)) == [Byte(0x90), Byte(0x01), Byte(0x50), Byte(0x98)]
    ensures WordBytes(Word(0xb04fd23c)) == [Byte(0x3c), Byte(0xd2), Byte(0x4f), Byte(0xb0)]
    ensures WordBytes(Word(0x7d3f96d6)) == [Byte(0xd6), Byte(0x96), Byte(0x3f), Byte(0x7d)]
    ensures WordBytes(Word(0x727fe128)) == [Byte(0x28), Byte(0xe1), Byte(0x7f), Byte(0x72)]
  {
  }

  lemma FourBytes(a: Word, b: Word, c: Word, d: Word)
    ensures Bytes([a, b, c, d]) == WordBytes(a) + WordBytes(b) + WordBytes(c) + WordBytes(d)
  {
    hide WordBytes;
    PairBytes(a, b);
    assert [a, b, c, d][..3] == [a, b, c] && [a, b, c][..2] == [a, b];
  }

  /** MD5 ("abc") = 900150983cd24fb0d6963f7d28e17f72 */
  lemma DigestOfAbc()
    ensures Digest(ABC) == [Byte(0x90), Byte(0x01), Byte(0x50), Byte(0x98),
                            Byte(0x3c), Byte(0xd2), Byte(0x4f), Byte(0xb0),
                            Byte(0xd6), Byte(0x96), Byte(0x3f), Byte(0x7d),
                            Byte(0x28), Byte(0xe1), Byte(0x7f), Byte(0x72)]
  {
    PaddedWords();
    Steps64();
    BitsDigest();
    var b := Padded(ABC);
    hide Operations, Padded, WordBytes, Add, Bytes, Words;
    assert b[..0] == [] && b[0..] == b;
    assert Absorb(b) == Transform(INIT, b);
    FourBytes(Absorb(b).a, Absorb(b).b, Absorb(b).c, Absorb(b).d);
  }
}
