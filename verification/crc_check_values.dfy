/** Check values of the block checksums: each loop run, byte by byte, over the
    customary check input, compared with the published value of the checksum
    the code documents. */
module CrcCheckValues {
  import opened BoundedInts
  import opened Crc

  /** The customary check input, the ASCII digits "123456789". */
  const CHECK_INPUT: seq<uint8> := [0x31, 0x32, 0x33, 0x34, 0x35, 0x36, 0x37, 0x38, 0x39]
  /** Published check values of CRC-16/CCITT-FALSE and of CRC-32C for that input. */
  const CCITT_CHECK: bv16 := 0x29B1
  const CRC32C_CHECK: bv32 := 0xE3069283

  /** Byte 0 of the check input through the CRC-16 loop: the XOR and the
      eight register values of the inner loop. */
  lemma Crc16CheckByte0()
    ensures Crc16Over(0xffff, CHECK_INPUT, 0) == Crc16Over(0xc782, CHECK_INPUT, 1)
  {
    assert CHECK_INPUT[0] == 0x31;
    assert Crc16Over(0xffff, CHECK_INPUT, 0) == Crc16Over(0xc782, CHECK_INPUT, 1) by {
      assert 0xffff ^ ((0x31 as bv16) << 8) == 0xceff;
      assert Crc16Shift(0xceff) == 0x8ddf;
      assert Crc16Shift(0x8ddf) == 0xb9f;
      assert Crc16Shift(0xb9f) == 0x173e;
      assert Crc16Shift(0x173e) == 0x2e7c;
      assert Crc16Shift(0x2e7c) == 0x5cf8;
      assert Crc16Shift(0x5cf8) == 0xb9f0;
      assert Crc16Shift(0xb9f0) == 0x63c1;
      assert Crc16Shift(0x63c1) == 0xc782;
      assert Crc16Byte(0xffff, 0x31) == 0xc782;
    }
  }

  /** Byte 1 of the check input through the CRC-16 loop: the XOR and the
      eight register values of the inner loop. */
  lemma Crc16CheckByte1()
    ensures Crc16Over(0xc782, CHECK_INPUT, 1) == Crc16Over(0x3dba, CHECK_INPUT, 2)
  {
    assert CHECK_INPUT[1] == 0x32;
    assert Crc16Over(0xc782, CHECK_INPUT, 1) == Crc16Over(0x3dba, CHECK_INPUT, 2) by {
      assert 0xc782 ^ ((0x32 as bv16) << 8) == 0xf582;
      assert Crc16Shift(0xf582) == 0xfb25;
      assert Crc16Shift(0xfb25) == 0xe66b;
      assert Crc16Shift(0xe66b) == 0xdcf7;
      assert Crc16Shift(0xdcf7) == 0xa9cf;
      assert Crc16Shift(0xa9cf) == 0x43bf;
      assert Crc16Shift(0x43bf) == 0x877e;
      assert Crc16Shift(0x877e) == 0x1edd;
      assert Crc16Shift(0x1edd) == 0x3dba;
      assert Crc16Byte(0xc782, 0x32) == 0x3dba;
    }
  }

  /** Byte 2 of the check input through the CRC-16 loop: the XOR and the
      eight register values of the inner loop. */
  lemma Crc16CheckByte2()
    ensures Crc16Over(0x3dba, CHECK_INPUT, 2) == Crc16Over(0x5bce, CHECK_INPUT, 3)
  {
    assert CHECK_INPUT[2] == 0x33;
    assert Crc16Over(0x3dba, CHECK_INPUT, 2) == Crc16Over(0x5bce, CHECK_INPUT, 3) by {
      assert 0x3dba ^ ((0x33 as bv16) << 8) == 0xeba;
      assert Crc16Shift(0xeba) == 0x1d74;
      assert Crc16Shift(0x1d74) == 0x3ae8;
      assert Crc16Shift(0x3ae8) == 0x75d0;
      assert Crc16Shift(0x75d0) == 0xeba0;
      assert Crc16Shift(0xeba0) == 0xc761;
      assert Crc16Shift(0xc761) == 0x9ee3;
      assert Crc16Shift(0x9ee3) == 0x2de7;
      assert Crc16Shift(0x2de7) == 0x5bce;
      assert Crc16Byte(0x3dba, 0x33) == 0x5bce;
    }
  }

  /** Byte 3 of the check input through the CRC-16 loop: the XOR and the
      eight register values of the inner loop. */
  lemma Crc16CheckByte3()
    ensures Crc16Over(0x5bce, CHECK_INPUT, 3) == Crc16Over(0x5349, CHECK_INPUT, 4)
  {
    assert CHECK_INPUT[3] == 0x34;
    assert Crc16Over(0x5bce, CHECK_INPUT, 3) == Crc16Over(0x5349, CHECK_INPUT, 4) by {
      assert 0x5bce ^ ((0x34 as bv16) << 8) == 0x6fce;
      assert Crc16Shift(0x6fce) == 0xdf9c;
      assert Crc16Shift(0xdf9c) == 0xaf19;
      assert Crc16Shift(0xaf19) == 0x4e13;
      assert Crc16Shift(0x4e13) == 0x9c26;
      assert Crc16Shift(0x9c26) == 0x286d;
      assert Crc16Shift(0x286d) == 0x50da;
      assert Crc16Shift(0x50da) == 0xa1b4;
      assert Crc16Shift(0xa1b4) == 0x5349;
      assert Crc16Byte(0x5bce, 0x34) == 0x5349;
    }
  }

  /** Byte 4 of the check input through the CRC-16 loop: the XOR and the
      eight register values of the inner loop. */
  lemma Crc16CheckByte4()
    ensures Crc16Over(0x5349, CHECK_INPUT, 4) == Crc16Over(0x4560, CHECK_INPUT, 5)
  {
    assert CHECK_INPUT[4] == 0x35;
    assert Crc16Over(0x5349, CHECK_INPUT, 4) == Crc16Over(0x4560, CHECK_INPUT, 5) by {
      assert 0x5349 ^ ((0x35 as bv16) << 8) == 0x6649;
      assert Crc16Shift(0x6649) == 0xcc92;
      assert Crc16Shift(0xcc92) == 0x8905;
      assert Crc16Shift(0x8905) == 0x22b;
      assert Crc16Shift(0x22b) == 0x456;
      assert Crc16Shift(0x456) == 0x8ac;
      assert Crc16Shift(0x8ac) == 0x1158;
      assert Crc16Shift(0x1158) == 0x22b0;
      assert Crc16Shift(0x22b0) == 0x4560;
      assert Crc16Byte(0x5349, 0x35) == 0x4560;
    }
  }

  /** Byte 5 of the check input through the CRC-16 loop: the XOR and the
      eight register values of the inner loop. */
  lemma Crc16CheckByte5()
    ensures Crc16Over(0x4560, CHECK_INPUT, 5) == Crc16Over(0x2ef4, CHECK_INPUT, 6)
  {
    assert CHECK_INPUT[5] == 0x36;
    assert Crc16Over(0x4560, CHECK_INPUT, 5) == Crc16Over(0x2ef4, CHECK_INPUT, 6) by {
      assert 0x4560 ^ ((0x36 as bv16) << 8) == 0x7360;
      assert Crc16Shift(0x7360) == 0xe6c0;
      assert Crc16Shift(0xe6c0) == 0xdda1;
      assert Crc16Shift(0xdda1) == 0xab63;
      assert Crc16Shift(0xab63) == 0x46e7;
      assert Crc16Shift(0x46e7) == 0x8dce;
      assert Crc16Shift(0x8dce) == 0xbbd;
      assert Crc16Shift(0xbbd) == 0x177a;
      assert Crc16Shift(0x177a) == 0x2ef4;
      assert Crc16Byte(0x4560, 0x36) == 0x2ef4;
    }
  }

  /** Byte 6 of the check input through the CRC-16 loop: the XOR and the
      eight register values of the inner loop. */
  lemma Crc16CheckByte6()
    ensures Crc16Over(0x2ef4, CHECK_INPUT, 6) == Crc16Over(0x7718, CHECK_INPUT, 7)
  {
    assert CHECK_INPUT[6] == 0x37;
    assert Crc16Over(0x2ef4, CHECK_INPUT, 6) == Crc16Over(0x7718, CHECK_INPUT, 7) by {
      assert 0x2ef4 ^ ((0x37 as bv16) << 8) == 0x19f4;
      assert Crc16Shift(0x19f4) == 0x33e8;
      assert Crc16Shift(0x33e8) == 0x67d0;
      assert Crc16Shift(0x67d0) == 0xcfa0;
      assert Crc16Shift(0xcfa0) == 0x8f61;
      assert Crc16Shift(0x8f61) == 0xee3;
      assert Crc16Shift(0xee3) == 0x1dc6;
      assert Crc16Shift(0x1dc6) == 0x3b8c;
      assert Crc16Shift(0x3b8c) == 0x7718;
      assert Crc16Byte(0x2ef4, 0x37) == 0x7718;
    }
  }

  /** Byte 7 of the check input through the CRC-16 loop: the XOR and the
      eight register values of the inner loop. */
  lemma Crc16CheckByte7()
    ensures Crc16Over(0x7718, CHECK_INPUT, 7) == Crc16Over(0xa12b, CHECK_INPUT, 8)
  {
    assert CHECK_INPUT[7] == 0x38;
    assert Crc16Over(0x7718, CHECK_INPUT, 7) == Crc16Over(0xa12b, CHECK_INPUT, 8) by {
      assert 0x7718 ^ ((0x38 as bv16) << 8) == 0x4f18;
      assert Crc16Shift(0x4f18) == 0x9e30;
      assert Crc16Shift(0x9e30) == 0x2c41;
      assert Crc16Shift(0x2c41) == 0x5882;
      assert Crc16Shift(0x5882) == 0xb104;
      assert Crc16Shift(0xb104) == 0x7229;
      assert Crc16Shift(0x7229) == 0xe452;
      assert Crc16Shift(0xe452) == 0xd885;
      assert Crc16Shift(0xd885) == 0xa12b;
      assert Crc16Byte(0x7718, 0x38) == 0xa12b;
    }
  }

  /** Byte 8 of the check input through the CRC-16 loop: the XOR and the
      eight register values of the inner loop. */
  lemma Crc16CheckByte8()
    ensures Crc16Over(0xa12b, CHECK_INPUT, 8) == Crc16Over(0x29b1, CHECK_INPUT, 9)
  {
    assert CHECK_INPUT[8] == 0x39;
    assert Crc16Over(0xa12b, CHECK_INPUT, 8) == Crc16Over(0x29b1, CHECK_INPUT, 9) by {
      assert 0xa12b ^ ((0x39 as bv16) << 8) == 0x982b;
      assert Crc16Shift(0x982b) == 0x2077;
      assert Crc16Shift(0x2077) == 0x40ee;
      assert Crc16Shift(0x40ee) == 0x81dc;
      assert Crc16Shift(0x81dc) == 0x1399;
      assert Crc16Shift(0x1399) == 0x2732;
      assert Crc16Shift(0x2732) == 0x4e64;
      assert Crc16Shift(0x4e64) == 0x9cc8;
      assert Crc16Shift(0x9cc8) == 0x29b1;
      assert Crc16Byte(0xa12b, 0x39) == 0x29b1;
    }
  }

  /** The CRC-16 loop over the whole check input. */
  lemma Crc16CheckAll()
    ensures Crc16Over(0xffff, CHECK_INPUT, 0) == 0x29b1
  {
    Crc16CheckByte0();
    Crc16CheckByte1();
    Crc16CheckByte2();
    Crc16CheckByte3();
    Crc16CheckByte4();
    Crc16CheckByte5();
    Crc16CheckByte6();
    Crc16CheckByte7();
    Crc16CheckByte8();
    assert Crc16Over(0x29b1, CHECK_INPUT, 9) == 0x29b1;
  }

  /** Byte 0 of the check input through the CRC-32 loop as written: the XOR and the
      eight register values of the inner loop. */
  lemma Crc32AsWrittenCheckByte0()
    ensures Crc32Over(CASTAGNOLI_NORMAL, 0xffffffff, CHECK_INPUT, 0) == Crc32Over(CASTAGNOLI_NORMAL, 0x1bd9b1cf, CHECK_INPUT, 1)
  {
    assert CHECK_INPUT[0] == 0x31;
    assert Crc32Over(CASTAGNOLI_NORMAL, 0xffffffff, CHECK_INPUT, 0) == Crc32Over(CASTAGNOLI_NORMAL, 0x1bd9b1cf, CHECK_INPUT, 1) by {
      assert 0xffffffff ^ (0x31 as bv32) == 0xffffffce;
      assert Crc32Shift(CASTAGNOLI_NORMAL, 0xffffffce) == 0x7fffffe7;
      assert Crc32Shift(CASTAGNOLI_NORMAL, 0x7fffffe7) == 0x212390b2;
      assert Crc32Shift(CASTAGNOLI_NORMAL, 0x212390b2) == 0x1091c859;
      assert Crc32Shift(CASTAGNOLI_NORMAL, 0x1091c859) == 0x16948b6d;
      assert Crc32Shift(CASTAGNOLI_NORMAL, 0x16948b6d) == 0x15962af7;
      assert Crc32Shift(CASTAGNOLI_NORMAL, 0x15962af7) == 0x14177a3a;
      assert Crc32Shift(CASTAGNOLI_NORMAL, 0x14177a3a) == 0xa0bbd1d;
      assert Crc32Shift(CASTAGNOLI_NORMAL, 0xa0bbd1d) == 0x1bd9b1cf;
      assert Crc32Byte(CASTAGNOLI_NORMAL, 0xffffffff, 0x31) == 0x1bd9b1cf;
    }
  }

  /** Byte 1 of the check input through the CRC-32 loop as written: the XOR and the
      eight register values of the inner loop. */
  lemma Crc32AsWrittenCheckByte1()
    ensures Crc32Over(CASTAGNOLI_NORMAL, 0x1bd9b1cf, CHECK_INPUT, 1) == Crc32Over(CASTAGNOLI_NORMAL, 0x607cdf6, CHECK_INPUT, 2)
  {
    assert CHECK_INPUT[1] == 0x32;
    assert Crc32Over(CASTAGNOLI_NORMAL, 0x1bd9b1cf, CHECK_INPUT, 1) == Crc32Over(CASTAGNOLI_NORMAL, 0x607cdf6, CHECK_INPUT, 2) by {
      assert 0x1bd9b1cf ^ (0x32 as bv32) == 0x1bd9b1fd;
      assert Crc32Shift(CASTAGNOLI_NORMAL, 0x1bd9b1fd) == 0x1330b7bf;
      assert Crc32Shift(CASTAGNOLI_NORMAL, 0x1330b7bf) == 0x1744349e;
      assert Crc32Shift(CASTAGNOLI_NORMAL, 0x1744349e) == 0xba21a4f;
      assert Crc32Shift(CASTAGNOLI_NORMAL, 0xba21a4f) == 0x1b0d6266;
      assert Crc32Shift(CASTAGNOLI_NORMAL, 0x1b0d6266) == 0xd86b133;
      assert Crc32Shift(CASTAGNOLI_NORMAL, 0xd86b133) == 0x181f37d8;
      assert Crc32Shift(CASTAGNOLI_NORMAL, 0x181f37d8) == 0xc0f9bec;
      assert Crc32Shift(CASTAGNOLI_NORMAL, 0xc0f9bec) == 0x607cdf6;
      assert Crc32Byte(CASTAGNOLI_NORMAL, 0x1bd9b1cf, 0x32) == 0x607cdf6;
    }
  }

  /** Byte 2 of the check input through the CRC-32 loop as written: the XOR and the
      eight register values of the inner loop. */
  lemma Crc32AsWrittenCheckByte2()
    ensures Crc32Over(CASTAGNOLI_NORMAL, 0x607cdf6, CHECK_INPUT, 2) == Crc32Over(CASTAGNOLI_NORMAL, 0x11f2964f, CHECK_INPUT, 3)
  {
    assert CHECK_INPUT[2] == 0x33;
    assert Crc32Over(CASTAGNOLI_NORMAL, 0x607cdf6, CHECK_INPUT, 2) == Crc32Over(CASTAGNOLI_NORMAL, 0x11f2964f, CHECK_INPUT, 3) by {
      assert 0x607cdf6 ^ (0x33 as bv32) == 0x607cdc5;
      assert Crc32Shift(CASTAGNOLI_NORMAL, 0x607cdc5) == 0x1ddf89a3;
      assert Crc32Shift(CASTAGNOLI_NORMAL, 0x1ddf89a3) == 0x1033ab90;
      assert Crc32Shift(CASTAGNOLI_NORMAL, 0x1033ab90) == 0x819d5c8;
      assert Crc32Shift(CASTAGNOLI_NORMAL, 0x819d5c8) == 0x40ceae4;
      assert Crc32Shift(CASTAGNOLI_NORMAL, 0x40ceae4) == 0x2067572;
      assert Crc32Shift(CASTAGNOLI_NORMAL, 0x2067572) == 0x1033ab9;
      assert Crc32Shift(CASTAGNOLI_NORMAL, 0x1033ab9) == 0x1e5df21d;
      assert Crc32Shift(CASTAGNOLI_NORMAL, 0x1e5df21d) == 0x11f2964f;
      assert Crc32Byte(CASTAGNOLI_NORMAL, 0x607cdf6, 0x33) == 0x11f2964f;
    }
  }

  /** Byte 3 of the check input through the CRC-32 loop as written: the XOR and the
      eight register values of the inner loop. */
  lemma Crc32AsWrittenCheckByte3()
    ensures Crc32Over(CASTAGNOLI_NORMAL, 0x11f2964f, CHECK_INPUT, 3) == Crc32Over(CASTAGNOLI_NORMAL, 0x18aaf82d, CHECK_INPUT, 4)
  {
    assert CHECK_INPUT[3] == 0x34;
    assert Crc32Over(CASTAGNOLI_NORMAL, 0x11f2964f, CHECK_INPUT, 3) == Crc32Over(CASTAGNOLI_NORMAL, 0x18aaf82d, CHECK_INPUT, 4) by {
      assert 0x11f2964f ^ (0x34 as bv32) == 0x11f2967b;
      assert Crc32Shift(CASTAGNOLI_NORMAL, 0x11f2967b) == 0x1625247c;
      assert Crc32Shift(CASTAGNOLI_NORMAL, 0x1625247c) == 0xb12923e;
      assert Crc32Shift(CASTAGNOLI_NORMAL, 0xb12923e) == 0x589491f;
      assert Crc32Shift(CASTAGNOLI_NORMAL, 0x589491f) == 0x1c18cbce;
      assert Crc32Shift(CASTAGNOLI_NORMAL, 0x1c18cbce) == 0xe0c65e7;
      assert Crc32Shift(CASTAGNOLI_NORMAL, 0xe0c65e7) == 0x19da5db2;
      assert Crc32Shift(CASTAGNOLI_NORMAL, 0x19da5db2) == 0xced2ed9;
      assert Crc32Shift(CASTAGNOLI_NORMAL, 0xced2ed9) == 0x18aaf82d;
      assert Crc32Byte(CASTAGNOLI_NORMAL, 0x11f2964f, 0x34) == 0x18aaf82d;
    }
  }

  /** Byte 4 of the check input through the CRC-32 loop as written: the XOR and the
      eight register values of the inner loop. */
  lemma Crc32AsWrittenCheckByte4()
    ensures Crc32Over(CASTAGNOLI_NORMAL, 0x18aaf82d, CHECK_INPUT, 4) == Crc32Over(CASTAGNOLI_NORMAL, 0x1f56c0c, CHECK_INPUT, 5)
  {
    assert CHECK_INPUT[4] == 0x35;
    assert Crc32Over(CASTAGNOLI_NORMAL, 0x18aaf82d, CHECK_INPUT, 4) == Crc32Over(CASTAGNOLI_NORMAL, 0x1f56c0c, CHECK_INPUT, 5) by {
      assert 0x18aaf82d ^ (0x35 as bv32) == 0x18aaf818;
      assert Crc32Shift(CASTAGNOLI_NORMAL, 0x18aaf818) == 0xc557c0c;
      assert Crc32Shift(CASTAGNOLI_NORMAL, 0xc557c0c) == 0x62abe06;
      assert Crc32Shift(CASTAGNOLI_NORMAL, 0x62abe06) == 0x3155f03;
      assert Crc32Shift(CASTAGNOLI_NORMAL, 0x3155f03) == 0x1f56c0c0;
      assert Crc32Shift(CASTAGNOLI_NORMAL, 0x1f56c0c0) == 0xfab6060;
      assert Crc32Shift(CASTAGNOLI_NORMAL, 0xfab6060) == 0x7d5b030;
      assert Crc32Shift(CASTAGNOLI_NORMAL, 0x7d5b030) == 0x3ead818;
      assert Crc32Shift(CASTAGNOLI_NORMAL, 0x3ead818) == 0x1f56c0c;
      assert Crc32Byte(CASTAGNOLI_NORMAL, 0x18aaf82d, 0x35) == 0x1f56c0c;
    }
  }

  /** Byte 5 of the check input through the CRC-32 loop as written: the XOR and the
      eight register values of the inner loop. */
  lemma Crc32AsWrittenCheckByte5()
    ensures Crc32Over(CASTAGNOLI_NORMAL, 0x1f56c0c, CHECK_INPUT, 5) == Crc32Over(CASTAGNOLI_NORMAL, 0x357ea43, CHECK_INPUT, 6)
  {
    assert CHECK_INPUT[5] == 0x36;
    assert Crc32Over(CASTAGNOLI_NORMAL, 0x1f56c0c, CHECK_INPUT, 5) == Crc32Over(CASTAGNOLI_NORMAL, 0x357ea43, CHECK_INPUT, 6) by {
      assert 0x1f56c0c ^ (0x36 as bv32) == 0x1f56c3a;
      assert Crc32Shift(CASTAGNOLI_NORMAL, 0x1f56c3a) == 0xfab61d;
      assert Crc32Shift(CASTAGNOLI_NORMAL, 0xfab61d) == 0x1ea1344f;
      assert Crc32Shift(CASTAGNOLI_NORMAL, 0x1ea1344f) == 0x118cf566;
      assert Crc32Shift(CASTAGNOLI_NORMAL, 0x118cf566) == 0x8c67ab3;
      assert Crc32Shift(CASTAGNOLI_NORMAL, 0x8c67ab3) == 0x1abf5218;
      assert Crc32Shift(CASTAGNOLI_NORMAL, 0x1abf5218) == 0xd5fa90c;
      assert Crc32Shift(CASTAGNOLI_NORMAL, 0xd5fa90c) == 0x6afd486;
      assert Crc32Shift(CASTAGNOLI_NORMAL, 0x6afd486) == 0x357ea43;
      assert Crc32Byte(CASTAGNOLI_NORMAL, 0x1f56c0c, 0x36) == 0x357ea43;
    }
  }

  /** Byte 6 of the check input through the CRC-32 loop as written: the XOR and the
      eight register values of the inner loop. */
  lemma Crc32AsWrittenCheckByte6()
    ensures Crc32Over(CASTAGNOLI_NORMAL, 0x357ea43, CHECK_INPUT, 6) == Crc32Over(CASTAGNOLI_NORMAL, 0x6af69b4, CHECK_INPUT, 7)
  {
    assert CHECK_INPUT[6] == 0x37;
    assert Crc32Over(CASTAGNOLI_NORMAL, 0x357ea43, CHECK_INPUT, 6) == Crc32Over(CASTAGNOLI_NORMAL, 0x6af69b4, CHECK_INPUT, 7) by {
      assert 0x357ea43 ^ (0x37 as bv32) == 0x357ea74;
      assert Crc32Shift(CASTAGNOLI_NORMAL, 0x357ea74) == 0x1abf53a;
      assert Crc32Shift(CASTAGNOLI_NORMAL, 0x1abf53a) == 0xd5fa9d;
      assert Crc32Shift(CASTAGNOLI_NORMAL, 0xd5fa9d) == 0x1eb6920f;
      assert Crc32Shift(CASTAGNOLI_NORMAL, 0x1eb6920f) == 0x11872646;
      assert Crc32Shift(CASTAGNOLI_NORMAL, 0x11872646) == 0x8c39323;
      assert Crc32Shift(CASTAGNOLI_NORMAL, 0x8c39323) == 0x1abda6d0;
      assert Crc32Shift(CASTAGNOLI_NORMAL, 0x1abda6d0) == 0xd5ed368;
      assert Crc32Shift(CASTAGNOLI_NORMAL, 0xd5ed368) == 0x6af69b4;
      assert Crc32Byte(CASTAGNOLI_NORMAL, 0x357ea43, 0x37) == 0x6af69b4;
    }
  }

  /** Byte 7 of the check input through the CRC-32 loop as written: the XOR and the
      eight register values of the inner loop. */
  lemma Crc32AsWrittenCheckByte7()
    ensures Crc32Over(CASTAGNOLI_NORMAL, 0x6af69b4, CHECK_INPUT, 7) == Crc32Over(CASTAGNOLI_NORMAL, 0x1e2c2352, CHECK_INPUT, 8)
  {
    assert CHECK_INPUT[7] == 0x38;
    assert Crc32Over(CASTAGNOLI_NORMAL, 0x6af69b4, CHECK_INPUT, 7) == Crc32Over(CASTAGNOLI_NORMAL, 0x1e2c2352, CHECK_INPUT, 8) by {
      assert 0x6af69b4 ^ (0x38 as bv32) == 0x6af698c;
      assert Crc32Shift(CASTAGNOLI_NORMAL, 0x6af698c) == 0x357b4c6;
      assert Crc32Shift(CASTAGNOLI_NORMAL, 0x357b4c6) == 0x1abda63;
      assert Crc32Shift(CASTAGNOLI_NORMAL, 0x1abda63) == 0x1e098270;
      assert Crc32Shift(CASTAGNOLI_NORMAL, 0x1e098270) == 0xf04c138;
      assert Crc32Shift(CASTAGNOLI_NORMAL, 0xf04c138) == 0x782609c;
      assert Crc32Shift(CASTAGNOLI_NORMAL, 0x782609c) == 0x3c1304e;
      assert Crc32Shift(CASTAGNOLI_NORMAL, 0x3c1304e) == 0x1e09827;
      assert Crc32Shift(CASTAGNOLI_NORMAL, 0x1e09827) == 0x1e2c2352;
      assert Crc32Byte(CASTAGNOLI_NORMAL, 0x6af69b4, 0x38) == 0x1e2c2352;
    }
  }

  /** Byte 8 of the check input through the CRC-32 loop as written: the XOR and the
      eight register values of the inner loop. */
  lemma Crc32AsWrittenCheckByte8()
    ensures Crc32Over(CASTAGNOLI_NORMAL, 0x1e2c2352, CHECK_INPUT, 8) == Crc32Over(CASTAGNOLI_NORMAL, 0xd7be841, CHECK_INPUT, 9)
  {
    assert CHECK_INPUT[8] == 0x39;
    assert Crc32Over(CASTAGNOLI_NORMAL, 0x1e2c2352, CHECK_INPUT, 8) == Crc32Over(CASTAGNOLI_NORMAL, 0xd7be841, CHECK_INPUT, 9) by {
      assert 0x1e2c2352 ^ (0x39 as bv32) == 0x1e2c236b;
      assert Crc32Shift(CASTAGNOLI_NORMAL, 0x1e2c236b) == 0x11ca7ef4;
      assert Crc32Shift(CASTAGNOLI_NORMAL, 0x11ca7ef4) == 0x8e53f7a;
      assert Crc32Shift(CASTAGNOLI_NORMAL, 0x8e53f7a) == 0x4729fbd;
      assert Crc32Shift(CASTAGNOLI_NORMAL, 0x4729fbd) == 0x1ce5209f;
      assert Crc32Shift(CASTAGNOLI_NORMAL, 0x1ce5209f) == 0x10aeff0e;
      assert Crc32Shift(CASTAGNOLI_NORMAL, 0x10aeff0e) == 0x8577f87;
      assert Crc32Shift(CASTAGNOLI_NORMAL, 0x8577f87) == 0x1af7d082;
      assert Crc32Shift(CASTAGNOLI_NORMAL, 0x1af7d082) == 0xd7be841;
      assert Crc32Byte(CASTAGNOLI_NORMAL, 0x1e2c2352, 0x39) == 0xd7be841;
    }
  }

  /** The CRC-32 loop as written over the whole check input. */
  lemma Crc32AsWrittenCheckAll()
    ensures Crc32Over(CASTAGNOLI_NORMAL, 0xffffffff, CHECK_INPUT, 0) == 0xd7be841
  {
    Crc32AsWrittenCheckByte0();
    Crc32AsWrittenCheckByte1();
    Crc32AsWrittenCheckByte2();
    Crc32AsWrittenCheckByte3();
    Crc32AsWrittenCheckByte4();
    Crc32AsWrittenCheckByte5();
    Crc32AsWrittenCheckByte6();
    Crc32AsWrittenCheckByte7();
    Crc32AsWrittenCheckByte8();
    assert Crc32Over(CASTAGNOLI_NORMAL, 0xd7be841, CHECK_INPUT, 9) == 0xd7be841;
  }

  /** Byte 0 of the check input through the CRC-32C loop: the XOR and the
      eight register values of the inner loop. */
  lemma Crc32CCheckByte0()
    ensures Crc32Over(CASTAGNOLI_REFLECTED, 0xffffffff, CHECK_INPUT, 0) == Crc32Over(CASTAGNOLI_REFLECTED, 0x6f0a661c, CHECK_INPUT, 1)
  {
    assert CHECK_INPUT[0] == 0x31;
    assert Crc32Over(CASTAGNOLI_REFLECTED, 0xffffffff, CHECK_INPUT, 0) == Crc32Over(CASTAGNOLI_REFLECTED, 0x6f0a661c, CHECK_INPUT, 1) by {
      assert 0xffffffff ^ (0x31 as bv32) == 0xffffffce;
      assert Crc32Shift(CASTAGNOLI_REFLECTED, 0xffffffce) == 0x7fffffe7;
      assert Crc32Shift(CASTAGNOLI_REFLECTED, 0x7fffffe7) == 0xbd09c48b;
      assert Crc32Shift(CASTAGNOLI_REFLECTED, 0xbd09c48b) == 0xdc72d93d;
      assert Crc32Shift(CASTAGNOLI_REFLECTED, 0xdc72d93d) == 0xeccf57e6;
      assert Crc32Shift(CASTAGNOLI_REFLECTED, 0xeccf57e6) == 0x7667abf3;
      assert Crc32Shift(CASTAGNOLI_REFLECTED, 0x7667abf3) == 0xb9c5ee81;
      assert Crc32Shift(CASTAGNOLI_REFLECTED, 0xb9c5ee81) == 0xde14cc38;
      assert Crc32Shift(CASTAGNOLI_REFLECTED, 0xde14cc38) == 0x6f0a661c;
      assert Crc32Byte(CASTAGNOLI_REFLECTED, 0xffffffff, 0x31) == 0x6f0a661c;
    }
  }

  /** Byte 1 of the check input through the CRC-32C loop: the XOR and the
      eight register values of the inner loop. */
  lemma Crc32CCheckByte1()
    ensures Crc32Over(CASTAGNOLI_REFLECTED, 0x6f0a661c, CHECK_INPUT, 1) == Crc32Over(CASTAGNOLI_REFLECTED, 0x8caa3b9f, CHECK_INPUT, 2)
  {
    assert CHECK_INPUT[1] == 0x32;
    assert Crc32Over(CASTAGNOLI_REFLECTED, 0x6f0a661c, CHECK_INPUT, 1) == Crc32Over(CASTAGNOLI_REFLECTED, 0x8caa3b9f, CHECK_INPUT, 2) by {
      assert 0x6f0a661c ^ (0x32 as bv32) == 0x6f0a662e;
      assert Crc32Shift(CASTAGNOLI_REFLECTED, 0x6f0a662e) == 0x37853317;
      assert Crc32Shift(CASTAGNOLI_REFLECTED, 0x37853317) == 0x9934a2f3;
      assert Crc32Shift(CASTAGNOLI_REFLECTED, 0x9934a2f3) == 0xce6c6a01;
      assert Crc32Shift(CASTAGNOLI_REFLECTED, 0xce6c6a01) == 0xe5c00e78;
      assert Crc32Shift(CASTAGNOLI_REFLECTED, 0xe5c00e78) == 0x72e0073c;
      assert Crc32Shift(CASTAGNOLI_REFLECTED, 0x72e0073c) == 0x3970039e;
      assert Crc32Shift(CASTAGNOLI_REFLECTED, 0x3970039e) == 0x1cb801cf;
      assert Crc32Shift(CASTAGNOLI_REFLECTED, 0x1cb801cf) == 0x8caa3b9f;
      assert Crc32Byte(CASTAGNOLI_REFLECTED, 0x6f0a661c, 0x32) == 0x8caa3b9f;
    }
  }

  /** Byte 2 of the check input through the CRC-32C loop: the XOR and the
      eight register values of the inner loop. */
  lemma Crc32CCheckByte2()
    ensures Crc32Over(CASTAGNOLI_REFLECTED, 0x8caa3b9f, CHECK_INPUT, 2) == Crc32Over(CASTAGNOLI_REFLECTED, 0xef84d04d, CHECK_INPUT, 3)
  {
    assert CHECK_INPUT[2] == 0x33;
    assert Crc32Over(CASTAGNOLI_REFLECTED, 0x8caa3b9f, CHECK_INPUT, 2) == Crc32Over(CASTAGNOLI_REFLECTED, 0xef84d04d, CHECK_INPUT, 3) by {
      assert 0x8caa3b9f ^ (0x33 as bv32) == 0x8caa3bac;
      assert Crc32Shift(CASTAGNOLI_REFLECTED, 0x8caa3bac) == 0x46551dd6;
      assert Crc32Shift(CASTAGNOLI_REFLECTED, 0x46551dd6) == 0x232a8eeb;
      assert Crc32Shift(CASTAGNOLI_REFLECTED, 0x232a8eeb) == 0x93637c0d;
      assert Crc32Shift(CASTAGNOLI_REFLECTED, 0x93637c0d) == 0xcb47857e;
      assert Crc32Shift(CASTAGNOLI_REFLECTED, 0xcb47857e) == 0x65a3c2bf;
      assert Crc32Shift(CASTAGNOLI_REFLECTED, 0x65a3c2bf) == 0xb027da27;
      assert Crc32Shift(CASTAGNOLI_REFLECTED, 0xb027da27) == 0xdae5d66b;
      assert Crc32Shift(CASTAGNOLI_REFLECTED, 0xdae5d66b) == 0xef84d04d;
      assert Crc32Byte(CASTAGNOLI_REFLECTED, 0x8caa3b9f, 0x33) == 0xef84d04d;
    }
  }

  /** Byte 3 of the check input through the CRC-32C loop: the XOR and the
      eight register values of the inner loop. */
  lemma Crc32CCheckByte3()
    ensures Crc32Over(CASTAGNOLI_REFLECTED, 0xef84d04d, CHECK_INPUT, 3) == Crc32Over(CASTAGNOLI_REFLECTED, 0x9c50b11, CHECK_INPUT, 4)
  {
    assert CHECK_INPUT[3] == 0x34;
    assert Crc32Over(CASTAGNOLI_REFLECTED, 0xef84d04d, CHECK_INPUT, 3) == Crc32Over(CASTAGNOLI_REFLECTED, 0x9c50b11, CHECK_INPUT, 4) by {
      assert 0xef84d04d ^ (0x34 as bv32) == 0xef84d079;
      assert Crc32Shift(CASTAGNOLI_REFLECTED, 0xef84d079) == 0xf5345344;
      assert Crc32Shift(CASTAGNOLI_REFLECTED, 0xf5345344) == 0x7a9a29a2;
      assert Crc32Shift(CASTAGNOLI_REFLECTED, 0x7a9a29a2) == 0x3d4d14d1;
      assert Crc32Shift(CASTAGNOLI_REFLECTED, 0x3d4d14d1) == 0x9c50b110;
      assert Crc32Shift(CASTAGNOLI_REFLECTED, 0x9c50b110) == 0x4e285888;
      assert Crc32Shift(CASTAGNOLI_REFLECTED, 0x4e285888) == 0x27142c44;
      assert Crc32Shift(CASTAGNOLI_REFLECTED, 0x27142c44) == 0x138a1622;
      assert Crc32Shift(CASTAGNOLI_REFLECTED, 0x138a1622) == 0x9c50b11;
      assert Crc32Byte(CASTAGNOLI_REFLECTED, 0xef84d04d, 0x34) == 0x9c50b11;
    }
  }

  /** Byte 4 of the check input through the CRC-32C loop: the XOR and the
      eight register values of the inner loop. */
  lemma Crc32CCheckByte4()
    ensures Crc32Over(CASTAGNOLI_REFLECTED, 0x9c50b11, CHECK_INPUT, 4) == Crc32Over(CASTAGNOLI_REFLECTED, 0xe72edcca, CHECK_INPUT, 5)
  {
    assert CHECK_INPUT[4] == 0x35;
    assert Crc32Over(CASTAGNOLI_REFLECTED, 0x9c50b11, CHECK_INPUT, 4) == Crc32Over(CASTAGNOLI_REFLECTED, 0xe72edcca, CHECK_INPUT, 5) by {
      assert 0x9c50b11 ^ (0x35 as bv32) == 0x9c50b24;
      assert Crc32Shift(CASTAGNOLI_REFLECTED, 0x9c50b24) == 0x4e28592;
      assert Crc32Shift(CASTAGNOLI_REFLECTED, 0x4e28592) == 0x27142c9;
      assert Crc32Shift(CASTAGNOLI_REFLECTED, 0x27142c9) == 0x83ce9a1c;
      assert Crc32Shift(CASTAGNOLI_REFLECTED, 0x83ce9a1c) == 0x41e74d0e;
      assert Crc32Shift(CASTAGNOLI_REFLECTED, 0x41e74d0e) == 0x20f3a687;
      assert Crc32Shift(CASTAGNOLI_REFLECTED, 0x20f3a687) == 0x928fe83b;
      assert Crc32Shift(CASTAGNOLI_REFLECTED, 0x928fe83b) == 0xcbb1cf65;
      assert Crc32Shift(CASTAGNOLI_REFLECTED, 0xcbb1cf65) == 0xe72edcca;
      assert Crc32Byte(CASTAGNOLI_REFLECTED, 0x9c50b11, 0x35) == 0xe72edcca;
    }
  }

  /** Byte 5 of the check input through the CRC-32C loop: the XOR and the
      eight register values of the inner loop. */
  lemma Crc32CCheckByte5()
    ensures Crc32Over(CASTAGNOLI_REFLECTED, 0xe72edcca, CHECK_INPUT, 5) == Crc32Over(CASTAGNOLI_REFLECTED, 0xbeca8e79, CHECK_INPUT, 6)
  {
    assert CHECK_INPUT[5] == 0x36;
    assert Crc32Over(CASTAGNOLI_REFLECTED, 0xe72edcca, CHECK_INPUT, 5) == Crc32Over(CASTAGNOLI_REFLECTED, 0xbeca8e79, CHECK_INPUT, 6) by {
      assert 0xe72edcca ^ (0x36 as bv32) == 0xe72edcfc;
      assert Crc32Shift(CASTAGNOLI_REFLECTED, 0xe72edcfc) == 0x73976e7e;
      assert Crc32Shift(CASTAGNOLI_REFLECTED, 0x73976e7e) == 0x39cbb73f;
      assert Crc32Shift(CASTAGNOLI_REFLECTED, 0x39cbb73f) == 0x9e13e0e7;
      assert Crc32Shift(CASTAGNOLI_REFLECTED, 0x9e13e0e7) == 0xcdffcb0b;
      assert Crc32Shift(CASTAGNOLI_REFLECTED, 0xcdffcb0b) == 0xe409defd;
      assert Crc32Shift(CASTAGNOLI_REFLECTED, 0xe409defd) == 0xf0f2d406;
      assert Crc32Shift(CASTAGNOLI_REFLECTED, 0xf0f2d406) == 0x78796a03;
      assert Crc32Shift(CASTAGNOLI_REFLECTED, 0x78796a03) == 0xbeca8e79;
      assert Crc32Byte(CASTAGNOLI_REFLECTED, 0xe72edcca, 0x36) == 0xbeca8e79;
    }
  }

  /** Byte 6 of the check input through the CRC-32C loop: the XOR and the
      eight register values of the inner loop. */
  lemma Crc32CCheckByte6()
    ensures Crc32Over(CASTAGNOLI_REFLECTED, 0xbeca8e79, CHECK_INPUT, 6) == Crc32Over(CASTAGNOLI_REFLECTED, 0xedbd6815, CHECK_INPUT, 7)
  {
    assert CHECK_INPUT[6] == 0x37;
    assert Crc32Over(CASTAGNOLI_REFLECTED, 0xbeca8e79, CHECK_INPUT, 6) == Crc32Over(CASTAGNOLI_REFLECTED, 0xedbd6815, CHECK_INPUT, 7) by {
      assert 0xbeca8e79 ^ (0x37 as bv32) == 0xbeca8e4e;
      assert Crc32Shift(CASTAGNOLI_REFLECTED, 0xbeca8e4e) == 0x5f654727;
      assert Crc32Shift(CASTAGNOLI_REFLECTED, 0x5f654727) == 0xad4498eb;
      assert Crc32Shift(CASTAGNOLI_REFLECTED, 0xad4498eb) == 0xd454770d;
      assert Crc32Shift(CASTAGNOLI_REFLECTED, 0xd454770d) == 0xe8dc00fe;
      assert Crc32Shift(CASTAGNOLI_REFLECTED, 0xe8dc00fe) == 0x746e007f;
      assert Crc32Shift(CASTAGNOLI_REFLECTED, 0x746e007f) == 0xb8c13b47;
      assert Crc32Shift(CASTAGNOLI_REFLECTED, 0xb8c13b47) == 0xde96a6db;
      assert Crc32Shift(CASTAGNOLI_REFLECTED, 0xde96a6db) == 0xedbd6815;
      assert Crc32Byte(CASTAGNOLI_REFLECTED, 0xbeca8e79, 0x37) == 0xedbd6815;
    }
  }

  /** Byte 7 of the check input through the CRC-32C loop: the XOR and the
      eight register values of the inner loop. */
  lemma Crc32CCheckByte7()
    ensures Crc32Over(CASTAGNOLI_REFLECTED, 0xedbd6815, CHECK_INPUT, 7) == Crc32Over(CASTAGNOLI_REFLECTED, 0x9f787f65, CHECK_INPUT, 8)
  {
    assert CHECK_INPUT[7] == 0x38;
    assert Crc32Over(CASTAGNOLI_REFLECTED, 0xedbd6815, CHECK_INPUT, 7) == Crc32Over(CASTAGNOLI_REFLECTED, 0x9f787f65, CHECK_INPUT, 8) by {
      assert 0xedbd6815 ^ (0x38 as bv32) == 0xedbd682d;
      assert Crc32Shift(CASTAGNOLI_REFLECTED, 0xedbd682d) == 0xf4288f6e;
      assert Crc32Shift(CASTAGNOLI_REFLECTED, 0xf4288f6e) == 0x7a1447b7;
      assert Crc32Shift(CASTAGNOLI_REFLECTED, 0x7a1447b7) == 0xbffc18a3;
      assert Crc32Shift(CASTAGNOLI_REFLECTED, 0xbffc18a3) == 0xdd083729;
      assert Crc32Shift(CASTAGNOLI_REFLECTED, 0xdd083729) == 0xec7220ec;
      assert Crc32Shift(CASTAGNOLI_REFLECTED, 0xec7220ec) == 0x76391076;
      assert Crc32Shift(CASTAGNOLI_REFLECTED, 0x76391076) == 0x3b1c883b;
      assert Crc32Shift(CASTAGNOLI_REFLECTED, 0x3b1c883b) == 0x9f787f65;
      assert Crc32Byte(CASTAGNOLI_REFLECTED, 0xedbd6815, 0x38) == 0x9f787f65;
    }
  }

  /** Byte 8 of the check input through the CRC-32C loop: the XOR and the
      eight register values of the inner loop. */
  lemma Crc32CCheckByte8()
    ensures Crc32Over(CASTAGNOLI_REFLECTED, 0x9f787f65, CHECK_INPUT, 8) == Crc32Over(CASTAGNOLI_REFLECTED, 0x1cf96d7c, CHECK_INPUT, 9)
  {
    assert CHECK_INPUT[8] == 0x39;
    assert Crc32Over(CASTAGNOLI_REFLECTED, 0x9f787f65, CHECK_INPUT, 8) == Crc32Over(CASTAGNOLI_REFLECTED, 0x1cf96d7c, CHECK_INPUT, 9) by {
      assert 0x9f787f65 ^ (0x39 as bv32) == 0x9f787f5c;
      assert Crc32Shift(CASTAGNOLI_REFLECTED, 0x9f787f5c) == 0x4fbc3fae;
      assert Crc32Shift(CASTAGNOLI_REFLECTED, 0x4fbc3fae) == 0x27de1fd7;
      assert Crc32Shift(CASTAGNOLI_REFLECTED, 0x27de1fd7) == 0x91193493;
      assert Crc32Shift(CASTAGNOLI_REFLECTED, 0x91193493) == 0xca7aa131;
      assert Crc32Shift(CASTAGNOLI_REFLECTED, 0xca7aa131) == 0xe7cb6be0;
      assert Crc32Shift(CASTAGNOLI_REFLECTED, 0xe7cb6be0) == 0x73e5b5f0;
      assert Crc32Shift(CASTAGNOLI_REFLECTED, 0x73e5b5f0) == 0x39f2daf8;
      assert Crc32Shift(CASTAGNOLI_REFLECTED, 0x39f2daf8) == 0x1cf96d7c;
      assert Crc32Byte(CASTAGNOLI_REFLECTED, 0x9f787f65, 0x39) == 0x1cf96d7c;
    }
  }

  /** The CRC-32C loop over the whole check input. */
  lemma Crc32CCheckAll()
    ensures Crc32Over(CASTAGNOLI_REFLECTED, 0xffffffff, CHECK_INPUT, 0) == 0x1cf96d7c
  {
    Crc32CCheckByte0();
    Crc32CCheckByte1();
    Crc32CCheckByte2();
    Crc32CCheckByte3();
    Crc32CCheckByte4();
    Crc32CCheckByte5();
    Crc32CCheckByte6();
    Crc32CCheckByte7();
    Crc32CCheckByte8();
    assert Crc32Over(CASTAGNOLI_REFLECTED, 0x1cf96d7c, CHECK_INPUT, 9) == 0x1cf96d7c;
  }

  /** The CRC-16 is CRC-16/CCITT-FALSE, as its documentation says: it yields
      that checksum's published check value. */
  lemma CalculateCRC16CheckValue()
    ensures CalculateCRC16(CHECK_INPUT) == CCITT_CHECK
  {
    Crc16CheckAll();
  }

  /** The CRC-32 as written is not CRC-32C: on the check input it yields
      0xF28417BE instead of 0xE3069283. */
  lemma CalculateCRC32AsWrittenIsNotCastagnoli()
    ensures CalculateCRC32AsWritten(CHECK_INPUT) == 0xF284_17BE
    ensures CalculateCRC32AsWritten(CHECK_INPUT) != CRC32C_CHECK
  {
    Crc32AsWrittenCheckAll();
  }

  /** The corrected CRC-32 yields the published CRC-32C check value. */
  lemma CalculateCRC32CheckValue()
    ensures CalculateCRC32(CHECK_INPUT) == CRC32C_CHECK
  {
    Crc32CCheckAll();
  }
}
