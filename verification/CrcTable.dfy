/**
 The read-only 256-entry lookup table of the CRC-8, one function for each run of sixteen entries.
 `Table(i)` is entry `i`.
 */
module CrcTable {
  import opened Bytes

  function Row0(j: Byte): Byte {
    match j
    case 0x0 => 0x00 case 0x1 => 0x9b case 0x2 => 0xad case 0x3 => 0x36
    case 0x4 => 0xc1 case 0x5 => 0x5a case 0x6 => 0x6c case 0x7 => 0xf7
    case 0x8 => 0x19 case 0x9 => 0x82 case 0xa => 0xb4 case 0xb => 0x2f
    case 0xc => 0xd8 case 0xd => 0x43 case 0xe => 0x75 case _ => 0xee
  }

  function Row1(j: Byte): Byte {
    match j
    case 0x0 => 0x32 case 0x1 => 0xa9 case 0x2 => 0x9f case 0x3 => 0x04
    case 0x4 => 0xf3 case 0x5 => 0x68 case 0x6 => 0x5e case 0x7 => 0xc5
    case 0x8 => 0x2b case 0x9 => 0xb0 case 0xa => 0x86 case 0xb => 0x1d
    case 0xc => 0xea case 0xd => 0x71 case 0xe => 0x47 case _ => 0xdc
  }

  function Row2(j: Byte): Byte {
    match j
    case 0x0 => 0x64 case 0x1 => 0xff case 0x2 => 0xc9 case 0x3 => 0x52
    case 0x4 => 0xa5 case 0x5 => 0x3e case 0x6 => 0x08 case 0x7 => 0x93
    case 0x8 => 0x7d case 0x9 => 0xe6 case 0xa => 0xd0 case 0xb => 0x4b
    case 0xc => 0xbc case 0xd => 0x27 case 0xe => 0x11 case _ => 0x8a
  }

  function Row3(j: Byte): Byte {
    match j
    case 0x0 => 0x56 case 0x1 => 0xcd case 0x2 => 0xfb case 0x3 => 0x60
    case 0x4 => 0x97 case 0x5 => 0x0c case 0x6 => 0x3a case 0x7 => 0xa1
    case 0x8 => 0x4f case 0x9 => 0xd4 case 0xa => 0xe2 case 0xb => 0x79
    case 0xc => 0x8e case 0xd => 0x15 case 0xe => 0x23 case _ => 0xb8
  }

  function Row4(j: Byte): Byte {
    match j
    case 0x0 => 0xc8 case 0x1 => 0x53 case 0x2 => 0x65 case 0x3 => 0xfe
    case 0x4 => 0x09 case 0x5 => 0x92 case 0x6 => 0xa4 case 0x7 => 0x3f
    case 0x8 => 0xd1 case 0x9 => 0x4a case 0xa => 0x7c case 0xb => 0xe7
    case 0xc => 0x10 case 0xd => 0x8b case 0xe => 0xbd case _ => 0x26
  }

  function Row5(j: Byte): Byte {
    match j
    case 0x0 => 0xfa case 0x1 => 0x61 case 0x2 => 0x57 case 0x3 => 0xcc
    case 0x4 => 0x3b case 0x5 => 0xa0 case 0x6 => 0x96 case 0x7 => 0x0d
    case 0x8 => 0xe3 case 0x9 => 0x78 case 0xa => 0x4e case 0xb => 0xd5
    case 0xc => 0x22 case 0xd => 0xb9 case 0xe => 0x8f case _ => 0x14
  }

  function Row6(j: Byte): Byte {
    match j
    case 0x0 => 0xac case 0x1 => 0x37 case 0x2 => 0x01 case 0x3 => 0x9a
    case 0x4 => 0x6d case 0x5 => 0xf6 case 0x6 => 0xc0 case 0x7 => 0x5b
    case 0x8 => 0xb5 case 0x9 => 0x2e case 0xa => 0x18 case 0xb => 0x83
    case 0xc => 0x74 case 0xd => 0xef case 0xe => 0xd9 case _ => 0x42
  }

  function Row7(j: Byte): Byte {
    match j
    case 0x0 => 0x9e case 0x1 => 0x05 case 0x2 => 0x33 case 0x3 => 0xa8
    case 0x4 => 0x5f case 0x5 => 0xc4 case 0x6 => 0xf2 case 0x7 => 0x69
    case 0x8 => 0x87 case 0x9 => 0x1c case 0xa => 0x2a case 0xb => 0xb1
    case 0xc => 0x46 case 0xd => 0xdd case 0xe => 0xeb case _ => 0x70
  }

  function Row8(j: Byte): Byte {
    match j
    case 0x0 => 0x0b case 0x1 => 0x90 case 0x2 => 0xa6 case 0x3 => 0x3d
    case 0x4 => 0xca case 0x5 => 0x51 case 0x6 => 0x67 case 0x7 => 0xfc
    case 0x8 => 0x12 case 0x9 => 0x89 case 0xa => 0xbf case 0xb => 0x24
    case 0xc => 0xd3 case 0xd => 0x48 case 0xe => 0x7e case _ => 0xe5
  }

  function Row9(j: Byte): Byte {
    match j
    case 0x0 => 0x39 case 0x1 => 0xa2 case 0x2 => 0x94 case 0x3 => 0x0f
    case 0x4 => 0xf8 case 0x5 => 0x63 case 0x6 => 0x55 case 0x7 => 0xce
    case 0x8 => 0x20 case 0x9 => 0xbb case 0xa => 0x8d case 0xb => 0x16
    case 0xc => 0xe1 case 0xd => 0x7a case 0xe => 0x4c case _ => 0xd7
  }

  function RowA(j: Byte): Byte {
    match j
    case 0x0 => 0x6f case 0x1 => 0xf4 case 0x2 => 0xc2 case 0x3 => 0x59
    case 0x4 => 0xae case 0x5 => 0x35 case 0x6 => 0x03 case 0x7 => 0x98
    case 0x8 => 0x76 case 0x9 => 0xed case 0xa => 0xdb case 0xb => 0x40
    case 0xc => 0xb7 case 0xd => 0x2c case 0xe => 0x1a case _ => 0x81
  }

  function RowB(j: Byte): Byte {
    match j
    case 0x0 => 0x5d case 0x1 => 0xc6 case 0x2 => 0xf0 case 0x3 => 0x6b
    case 0x4 => 0x9c case 0x5 => 0x07 case 0x6 => 0x31 case 0x7 => 0xaa
    case 0x8 => 0x44 case 0x9 => 0xdf case 0xa => 0xe9 case 0xb => 0x72
    case 0xc => 0x85 case 0xd => 0x1e case 0xe => 0x28 case _ => 0xb3
  }

  function RowC(j: Byte): Byte {
    match j
    case 0x0 => 0xc3 case 0x1 => 0x58 case 0x2 => 0x6e case 0x3 => 0xf5
    case 0x4 => 0x02 case 0x5 => 0x99 case 0x6 => 0xaf case 0x7 => 0x34
    case 0x8 => 0xda case 0x9 => 0x41 case 0xa => 0x77 case 0xb => 0xec
    case 0xc => 0x1b case 0xd => 0x80 case 0xe => 0xb6 case _ => 0x2d
  }

  function RowD(j: Byte): Byte {
    match j
    case 0x0 => 0xf1 case 0x1 => 0x6a case 0x2 => 0x5c case 0x3 => 0xc7
    case 0x4 => 0x30 case 0x5 => 0xab case 0x6 => 0x9d case 0x7 => 0x06
    case 0x8 => 0xe8 case 0x9 => 0x73 case 0xa => 0x45 case 0xb => 0xde
    case 0xc => 0x29 case 0xd => 0xb2 case 0xe => 0x84 case _ => 0x1f
  }

  function RowE(j: Byte): Byte {
    match j
    case 0x0 => 0xa7 case 0x1 => 0x3c case 0x2 => 0x0a case 0x3 => 0x91
    case 0x4 => 0x66 case 0x5 => 0xfd case 0x6 => 0xcb case 0x7 => 0x50
    case 0x8 => 0xbe case 0x9 => 0x25 case 0xa => 0x13 case 0xb => 0x88
    case 0xc => 0x7f case 0xd => 0xe4 case 0xe => 0xd2 case _ => 0x49
  }

  function RowF(j: Byte): Byte {
    match j
    case 0x0 => 0x95 case 0x1 => 0x0e case 0x2 => 0x38 case 0x3 => 0xa3
    case 0x4 => 0x54 case 0x5 => 0xcf case 0x6 => 0xf9 case 0x7 => 0x62
    case 0x8 => 0x8c case 0x9 => 0x17 case 0xa => 0x21 case 0xb => 0xba
    case 0xc => 0x4d case 0xd => 0xd6 case 0xe => 0xe0 case _ => 0x7b
  }

  function Table(i: Byte): Byte {
    var j := i & 0x0f;
    match i >> 4
    case 0x0 => Row0(j) case 0x1 => Row1(j) case 0x2 => Row2(j) case 0x3 => Row3(j)
    case 0x4 => Row4(j) case 0x5 => Row5(j) case 0x6 => Row6(j) case 0x7 => Row7(j)
    case 0x8 => Row8(j) case 0x9 => Row9(j) case 0xa => RowA(j) case 0xb => RowB(j)
    case 0xc => RowC(j) case 0xd => RowD(j) case 0xe => RowE(j) case _ => RowF(j)
  }
}
