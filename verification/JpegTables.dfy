/** The standard tables that both programs carry (Tables K.3 to K.6 of ITU-T T.81): the counts and the
    values that go into the file, and the codes that the encoder looks up. */
module JpegTables {

  import opened Bytes
  import opened JpegBits
  import opened JpegHuffman
  import opened JpegEncode
  import opened JpegRoundTrip

  /** The symbols that the encoder uses for coefficients of at most ten bits. */
  predicate AcSymbol(y: nat) {
    y == 0x00 || y == 0xF0 || (y < 256 && 1 <= y % 16 <= 10)
  }

  // ----- luminance, DC -----

  /** `std_dc_luminance_nrcodes`, without the unused first entry. */
  const Y_DC_BITS: seq<byte> := [0, 1, 5, 1, 1, 1, 1, 1, 1, 0, 0, 0, 0, 0, 0, 0]

  /** `std_dc_luminance_values`. */
  function YDcValue(k: nat): byte {
    match k
    case 0 => 0x00 case 1 => 0x01 case 2 => 0x02 case 3 => 0x03 case 4 => 0x04 case 5 => 0x05
    case 6 => 0x06 case 7 => 0x07 case 8 => 0x08 case 9 => 0x09 case 10 => 0x0A case 11 => 0x0B
    case _ => 0
  }

  /** `YDC_HT`. */
  function YDcEntry(y: nat): Entry {
    match y
    case 0x00 => Entry(0x0000, 2) case 0x01 => Entry(0x0002, 3) case 0x02 => Entry(0x0003, 3) case 0x03 => Entry(0x0004, 3)
    case 0x04 => Entry(0x0005, 3) case 0x05 => Entry(0x0006, 3) case 0x06 => Entry(0x000E, 4) case 0x07 => Entry(0x001E, 5)
    case 0x08 => Entry(0x003E, 6) case 0x09 => Entry(0x007E, 7) case 0x0A => Entry(0x00FE, 8) case 0x0B => Entry(0x01FE, 9)
    case _ => Entry(0, 0)
  }

  predicate YDcFound(y: nat) {
    var e := YDcEntry(y);
    1 <= e.len <= 16 &&
    var k := e.code - YDcFirst(e.len - 1) + YDcPtr(e.len - 1);
    YDcPtr(e.len - 1) <= k < YDcPtr(e.len) && YDcValue(k) == y
  }

  function YDcFirst(i: nat): int {
    match i
    case 0 => 0 case 1 => 0 case 2 => 2 case 3 => 14 case 4 => 30 case 5 => 62 case 6 => 126 case 7 => 254
    case 8 => 510 case 9 => 1022 case 10 => 2044 case 11 => 4088 case 12 => 8176 case 13 => 16352 case 14 => 32704 case 15 => 65408
    case _ => 0
  }

  function YDcPtr(i: nat): nat {
    match i
    case 0 => 0 case 1 => 0 case 2 => 1 case 3 => 6 case 4 => 7 case 5 => 8 case 6 => 9 case 7 => 10
    case 8 => 11 case 9 => 12 case 10 => 12 case 11 => 12 case 12 => 12 case 13 => 12 case 14 => 12 case 15 => 12
    case _ => 12
  }

  // ----- chrominance, DC -----

  /** `std_dc_chrominance_nrcodes`, without the unused first entry. */
  const UV_DC_BITS: seq<byte> := [0, 3, 1, 1, 1, 1, 1, 1, 1, 1, 1, 0, 0, 0, 0, 0]

  /** `std_dc_chrominance_values`. */
  function UvDcValue(k: nat): byte {
    match k
    case 0 => 0x00 case 1 => 0x01 case 2 => 0x02 case 3 => 0x03 case 4 => 0x04 case 5 => 0x05
    case 6 => 0x06 case 7 => 0x07 case 8 => 0x08 case 9 => 0x09 case 10 => 0x0A case 11 => 0x0B
    case _ => 0
  }

  /** `UVDC_HT`. */
  function UvDcEntry(y: nat): Entry {
    match y
    case 0x00 => Entry(0x0000, 2) case 0x01 => Entry(0x0001, 2) case 0x02 => Entry(0x0002, 2) case 0x03 => Entry(0x0006, 3)
    case 0x04 => Entry(0x000E, 4) case 0x05 => Entry(0x001E, 5) case 0x06 => Entry(0x003E, 6) case 0x07 => Entry(0x007E, 7)
    case 0x08 => Entry(0x00FE, 8) case 0x09 => Entry(0x01FE, 9) case 0x0A => Entry(0x03FE, 10) case 0x0B => Entry(0x07FE, 11)
    case _ => Entry(0, 0)
  }

  predicate UvDcFound(y: nat) {
    var e := UvDcEntry(y);
    1 <= e.len <= 16 &&
    var k := e.code - UvDcFirst(e.len - 1) + UvDcPtr(e.len - 1);
    UvDcPtr(e.len - 1) <= k < UvDcPtr(e.len) && UvDcValue(k) == y
  }

  function UvDcFirst(i: nat): int {
    match i
    case 0 => 0 case 1 => 0 case 2 => 6 case 3 => 14 case 4 => 30 case 5 => 62 case 6 => 126 case 7 => 254
    case 8 => 510 case 9 => 1022 case 10 => 2046 case 11 => 4094 case 12 => 8188 case 13 => 16376 case 14 => 32752 case 15 => 65504
    case _ => 0
  }

  function UvDcPtr(i: nat): nat {
    match i
    case 0 => 0 case 1 => 0 case 2 => 3 case 3 => 4 case 4 => 5 case 5 => 6 case 6 => 7 case 7 => 8
    case 8 => 9 case 9 => 10 case 10 => 11 case 11 => 12 case 12 => 12 case 13 => 12 case 14 => 12 case 15 => 12
    case _ => 12
  }

  // ----- luminance, AC -----

  /** `std_ac_luminance_nrcodes`, without the unused first entry. */
  const Y_AC_BITS: seq<byte> := [0, 2, 1, 3, 3, 2, 4, 3, 5, 5, 4, 4, 0, 0, 1, 125]

  /** `std_ac_luminance_values`. */
  function YAcValue(k: nat): byte {
    match k / 16
    case 0 => (match k % 16
      case 0 => 0x01 case 1 => 0x02 case 2 => 0x03 case 3 => 0x00 case 4 => 0x04 case 5 => 0x11 case 6 => 0x05 case 7 => 0x12
      case 8 => 0x21 case 9 => 0x31 case 10 => 0x41 case 11 => 0x06 case 12 => 0x13 case 13 => 0x51 case 14 => 0x61 case 15 => 0x07
      case _ => 0)
    case 1 => (match k % 16
      case 0 => 0x22 case 1 => 0x71 case 2 => 0x14 case 3 => 0x32 case 4 => 0x81 case 5 => 0x91 case 6 => 0xA1 case 7 => 0x08
      case 8 => 0x23 case 9 => 0x42 case 10 => 0xB1 case 11 => 0xC1 case 12 => 0x15 case 13 => 0x52 case 14 => 0xD1 case 15 => 0xF0
      case _ => 0)
    case 2 => (match k % 16
      case 0 => 0x24 case 1 => 0x33 case 2 => 0x62 case 3 => 0x72 case 4 => 0x82 case 5 => 0x09 case 6 => 0x0A case 7 => 0x16
      case 8 => 0x17 case 9 => 0x18 case 10 => 0x19 case 11 => 0x1A case 12 => 0x25 case 13 => 0x26 case 14 => 0x27 case 15 => 0x28
      case _ => 0)
    case 3 => (match k % 16
      case 0 => 0x29 case 1 => 0x2A case 2 => 0x34 case 3 => 0x35 case 4 => 0x36 case 5 => 0x37 case 6 => 0x38 case 7 => 0x39
      case 8 => 0x3A case 9 => 0x43 case 10 => 0x44 case 11 => 0x45 case 12 => 0x46 case 13 => 0x47 case 14 => 0x48 case 15 => 0x49
      case _ => 0)
    case 4 => (match k % 16
      case 0 => 0x4A case 1 => 0x53 case 2 => 0x54 case 3 => 0x55 case 4 => 0x56 case 5 => 0x57 case 6 => 0x58 case 7 => 0x59
      case 8 => 0x5A case 9 => 0x63 case 10 => 0x64 case 11 => 0x65 case 12 => 0x66 case 13 => 0x67 case 14 => 0x68 case 15 => 0x69
      case _ => 0)
    case 5 => (match k % 16
      case 0 => 0x6A case 1 => 0x73 case 2 => 0x74 case 3 => 0x75 case 4 => 0x76 case 5 => 0x77 case 6 => 0x78 case 7 => 0x79
      case 8 => 0x7A case 9 => 0x83 case 10 => 0x84 case 11 => 0x85 case 12 => 0x86 case 13 => 0x87 case 14 => 0x88 case 15 => 0x89
      case _ => 0)
    case 6 => (match k % 16
      case 0 => 0x8A case 1 => 0x92 case 2 => 0x93 case 3 => 0x94 case 4 => 0x95 case 5 => 0x96 case 6 => 0x97 case 7 => 0x98
      case 8 => 0x99 case 9 => 0x9A case 10 => 0xA2 case 11 => 0xA3 case 12 => 0xA4 case 13 => 0xA5 case 14 => 0xA6 case 15 => 0xA7
      case _ => 0)
    case 7 => (match k % 16
      case 0 => 0xA8 case 1 => 0xA9 case 2 => 0xAA case 3 => 0xB2 case 4 => 0xB3 case 5 => 0xB4 case 6 => 0xB5 case 7 => 0xB6
      case 8 => 0xB7 case 9 => 0xB8 case 10 => 0xB9 case 11 => 0xBA case 12 => 0xC2 case 13 => 0xC3 case 14 => 0xC4 case 15 => 0xC5
      case _ => 0)
    case 8 => (match k % 16
      case 0 => 0xC6 case 1 => 0xC7 case 2 => 0xC8 case 3 => 0xC9 case 4 => 0xCA case 5 => 0xD2 case 6 => 0xD3 case 7 => 0xD4
      case 8 => 0xD5 case 9 => 0xD6 case 10 => 0xD7 case 11 => 0xD8 case 12 => 0xD9 case 13 => 0xDA case 14 => 0xE1 case 15 => 0xE2
      case _ => 0)
    case 9 => (match k % 16
      case 0 => 0xE3 case 1 => 0xE4 case 2 => 0xE5 case 3 => 0xE6 case 4 => 0xE7 case 5 => 0xE8 case 6 => 0xE9 case 7 => 0xEA
      case 8 => 0xF1 case 9 => 0xF2 case 10 => 0xF3 case 11 => 0xF4 case 12 => 0xF5 case 13 => 0xF6 case 14 => 0xF7 case 15 => 0xF8
      case _ => 0)
    case 10 => (match k % 16
      case 0 => 0xF9 case 1 => 0xFA case _ => 0)
    case _ => 0
  }

  /** `YAC_HT`. */
  function YAcEntry(y: nat): Entry {
    match y / 16
    case 0 => (match y % 16
      case 0 => Entry(0x000A, 4) case 1 => Entry(0x0000, 2) case 2 => Entry(0x0001, 2) case 3 => Entry(0x0004, 3) case 4 => Entry(0x000B, 4)
      case 5 => Entry(0x001A, 5) case 6 => Entry(0x0078, 7) case 7 => Entry(0x00F8, 8) case 8 => Entry(0x03F6, 10) case 9 => Entry(0xFF82, 16)
      case 10 => Entry(0xFF83, 16) case _ => Entry(0, 0))
    case 1 => (match y % 16
      case 1 => Entry(0x000C, 4) case 2 => Entry(0x001B, 5) case 3 => Entry(0x0079, 7) case 4 => Entry(0x01F6, 9) case 5 => Entry(0x07F6, 11)
      case 6 => Entry(0xFF84, 16) case 7 => Entry(0xFF85, 16) case 8 => Entry(0xFF86, 16) case 9 => Entry(0xFF87, 16) case 10 => Entry(0xFF88, 16)
      case _ => Entry(0, 0))
    case 2 => (match y % 16
      case 1 => Entry(0x001C, 5) case 2 => Entry(0x00F9, 8) case 3 => Entry(0x03F7, 10) case 4 => Entry(0x0FF4, 12) case 5 => Entry(0xFF89, 16)
      case 6 => Entry(0xFF8A, 16) case 7 => Entry(0xFF8B, 16) case 8 => Entry(0xFF8C, 16) case 9 => Entry(0xFF8D, 16) case 10 => Entry(0xFF8E, 16)
      case _ => Entry(0, 0))
    case 3 => (match y % 16
      case 1 => Entry(0x003A, 6) case 2 => Entry(0x01F7, 9) case 3 => Entry(0x0FF5, 12) case 4 => Entry(0xFF8F, 16) case 5 => Entry(0xFF90, 16)
      case 6 => Entry(0xFF91, 16) case 7 => Entry(0xFF92, 16) case 8 => Entry(0xFF93, 16) case 9 => Entry(0xFF94, 16) case 10 => Entry(0xFF95, 16)
      case _ => Entry(0, 0))
    case 4 => (match y % 16
      case 1 => Entry(0x003B, 6) case 2 => Entry(0x03F8, 10) case 3 => Entry(0xFF96, 16) case 4 => Entry(0xFF97, 16) case 5 => Entry(0xFF98, 16)
      case 6 => Entry(0xFF99, 16) case 7 => Entry(0xFF9A, 16) case 8 => Entry(0xFF9B, 16) case 9 => Entry(0xFF9C, 16) case 10 => Entry(0xFF9D, 16)
      case _ => Entry(0, 0))
    case 5 => (match y % 16
      case 1 => Entry(0x007A, 7) case 2 => Entry(0x07F7, 11) case 3 => Entry(0xFF9E, 16) case 4 => Entry(0xFF9F, 16) case 5 => Entry(0xFFA0, 16)
      case 6 => Entry(0xFFA1, 16) case 7 => Entry(0xFFA2, 16) case 8 => Entry(0xFFA3, 16) case 9 => Entry(0xFFA4, 16) case 10 => Entry(0xFFA5, 16)
      case _ => Entry(0, 0))
    case 6 => (match y % 16
      case 1 => Entry(0x007B, 7) case 2 => Entry(0x0FF6, 12) case 3 => Entry(0xFFA6, 16) case 4 => Entry(0xFFA7, 16) case 5 => Entry(0xFFA8, 16)
      case 6 => Entry(0xFFA9, 16) case 7 => Entry(0xFFAA, 16) case 8 => Entry(0xFFAB, 16) case 9 => Entry(0xFFAC, 16) case 10 => Entry(0xFFAD, 16)
      case _ => Entry(0, 0))
    case 7 => (match y % 16
      case 1 => Entry(0x00FA, 8) case 2 => Entry(0x0FF7, 12) case 3 => Entry(0xFFAE, 16) case 4 => Entry(0xFFAF, 16) case 5 => Entry(0xFFB0, 16)
      case 6 => Entry(0xFFB1, 16) case 7 => Entry(0xFFB2, 16) case 8 => Entry(0xFFB3, 16) case 9 => Entry(0xFFB4, 16) case 10 => Entry(0xFFB5, 16)
      case _ => Entry(0, 0))
    case 8 => (match y % 16
      case 1 => Entry(0x01F8, 9) case 2 => Entry(0x7FC0, 15) case 3 => Entry(0xFFB6, 16) case 4 => Entry(0xFFB7, 16) case 5 => Entry(0xFFB8, 16)
      case 6 => Entry(0xFFB9, 16) case 7 => Entry(0xFFBA, 16) case 8 => Entry(0xFFBB, 16) case 9 => Entry(0xFFBC, 16) case 10 => Entry(0xFFBD, 16)
      case _ => Entry(0, 0))
    case 9 => (match y % 16
      case 1 => Entry(0x01F9, 9) case 2 => Entry(0xFFBE, 16) case 3 => Entry(0xFFBF, 16) case 4 => Entry(0xFFC0, 16) case 5 => Entry(0xFFC1, 16)
      case 6 => Entry(0xFFC2, 16) case 7 => Entry(0xFFC3, 16) case 8 => Entry(0xFFC4, 16) case 9 => Entry(0xFFC5, 16) case 10 => Entry(0xFFC6, 16)
      case _ => Entry(0, 0))
    case 10 => (match y % 16
      case 1 => Entry(0x01FA, 9) case 2 => Entry(0xFFC7, 16) case 3 => Entry(0xFFC8, 16) case 4 => Entry(0xFFC9, 16) case 5 => Entry(0xFFCA, 16)
      case 6 => Entry(0xFFCB, 16) case 7 => Entry(0xFFCC, 16) case 8 => Entry(0xFFCD, 16) case 9 => Entry(0xFFCE, 16) case 10 => Entry(0xFFCF, 16)
      case _ => Entry(0, 0))
    case 11 => (match y % 16
      case 1 => Entry(0x03F9, 10) case 2 => Entry(0xFFD0, 16) case 3 => Entry(0xFFD1, 16) case 4 => Entry(0xFFD2, 16) case 5 => Entry(0xFFD3, 16)
      case 6 => Entry(0xFFD4, 16) case 7 => Entry(0xFFD5, 16) case 8 => Entry(0xFFD6, 16) case 9 => Entry(0xFFD7, 16) case 10 => Entry(0xFFD8, 16)
      case _ => Entry(0, 0))
    case 12 => (match y % 16
      case 1 => Entry(0x03FA, 10) case 2 => Entry(0xFFD9, 16) case 3 => Entry(0xFFDA, 16) case 4 => Entry(0xFFDB, 16) case 5 => Entry(0xFFDC, 16)
      case 6 => Entry(0xFFDD, 16) case 7 => Entry(0xFFDE, 16) case 8 => Entry(0xFFDF, 16) case 9 => Entry(0xFFE0, 16) case 10 => Entry(0xFFE1, 16)
      case _ => Entry(0, 0))
    case 13 => (match y % 16
      case 1 => Entry(0x07F8, 11) case 2 => Entry(0xFFE2, 16) case 3 => Entry(0xFFE3, 16) case 4 => Entry(0xFFE4, 16) case 5 => Entry(0xFFE5, 16)
      case 6 => Entry(0xFFE6, 16) case 7 => Entry(0xFFE7, 16) case 8 => Entry(0xFFE8, 16) case 9 => Entry(0xFFE9, 16) case 10 => Entry(0xFFEA, 16)
      case _ => Entry(0, 0))
    case 14 => (match y % 16
      case 1 => Entry(0xFFEB, 16) case 2 => Entry(0xFFEC, 16) case 3 => Entry(0xFFED, 16) case 4 => Entry(0xFFEE, 16) case 5 => Entry(0xFFEF, 16)
      case 6 => Entry(0xFFF0, 16) case 7 => Entry(0xFFF1, 16) case 8 => Entry(0xFFF2, 16) case 9 => Entry(0xFFF3, 16) case 10 => Entry(0xFFF4, 16)
      case _ => Entry(0, 0))
    case 15 => (match y % 16
      case 0 => Entry(0x07F9, 11) case 1 => Entry(0xFFF5, 16) case 2 => Entry(0xFFF6, 16) case 3 => Entry(0xFFF7, 16) case 4 => Entry(0xFFF8, 16)
      case 5 => Entry(0xFFF9, 16) case 6 => Entry(0xFFFA, 16) case 7 => Entry(0xFFFB, 16) case 8 => Entry(0xFFFC, 16) case 9 => Entry(0xFFFD, 16)
      case 10 => Entry(0xFFFE, 16) case _ => Entry(0, 0))
    case _ => Entry(0, 0)
  }

  predicate YAcFound(y: nat) {
    var e := YAcEntry(y);
    1 <= e.len <= 16 &&
    var k := e.code - YAcFirst(e.len - 1) + YAcPtr(e.len - 1);
    YAcPtr(e.len - 1) <= k < YAcPtr(e.len) && YAcValue(k) == y
  }

  function YAcFirst(i: nat): int {
    match i
    case 0 => 0 case 1 => 0 case 2 => 4 case 3 => 10 case 4 => 26 case 5 => 58 case 6 => 120 case 7 => 248
    case 8 => 502 case 9 => 1014 case 10 => 2038 case 11 => 4084 case 12 => 8176 case 13 => 16352 case 14 => 32704 case 15 => 65410
    case _ => 0
  }

  function YAcPtr(i: nat): nat {
    match i
    case 0 => 0 case 1 => 0 case 2 => 2 case 3 => 3 case 4 => 6 case 5 => 9 case 6 => 11 case 7 => 15
    case 8 => 18 case 9 => 23 case 10 => 28 case 11 => 32 case 12 => 36 case 13 => 36 case 14 => 36 case 15 => 37
    case _ => 162
  }

  // ----- chrominance, AC -----

  /** `std_ac_chrominance_nrcodes`, without the unused first entry. */
  const UV_AC_BITS: seq<byte> := [0, 2, 1, 2, 4, 4, 3, 4, 7, 5, 4, 4, 0, 1, 2, 119]

  /** `std_ac_chrominance_values`. */
  function UvAcValue(k: nat): byte {
    match k / 16
    case 0 => (match k % 16
      case 0 => 0x00 case 1 => 0x01 case 2 => 0x02 case 3 => 0x03 case 4 => 0x11 case 5 => 0x04 case 6 => 0x05 case 7 => 0x21
      case 8 => 0x31 case 9 => 0x06 case 10 => 0x12 case 11 => 0x41 case 12 => 0x51 case 13 => 0x07 case 14 => 0x61 case 15 => 0x71
      case _ => 0)
    case 1 => (match k % 16
      case 0 => 0x13 case 1 => 0x22 case 2 => 0x32 case 3 => 0x81 case 4 => 0x08 case 5 => 0x14 case 6 => 0x42 case 7 => 0x91
      case 8 => 0xA1 case 9 => 0xB1 case 10 => 0xC1 case 11 => 0x09 case 12 => 0x23 case 13 => 0x33 case 14 => 0x52 case 15 => 0xF0
      case _ => 0)
    case 2 => (match k % 16
      case 0 => 0x15 case 1 => 0x62 case 2 => 0x72 case 3 => 0xD1 case 4 => 0x0A case 5 => 0x16 case 6 => 0x24 case 7 => 0x34
      case 8 => 0xE1 case 9 => 0x25 case 10 => 0xF1 case 11 => 0x17 case 12 => 0x18 case 13 => 0x19 case 14 => 0x1A case 15 => 0x26
      case _ => 0)
    case 3 => (match k % 16
      case 0 => 0x27 case 1 => 0x28 case 2 => 0x29 case 3 => 0x2A case 4 => 0x35 case 5 => 0x36 case 6 => 0x37 case 7 => 0x38
      case 8 => 0x39 case 9 => 0x3A case 10 => 0x43 case 11 => 0x44 case 12 => 0x45 case 13 => 0x46 case 14 => 0x47 case 15 => 0x48
      case _ => 0)
    case 4 => (match k % 16
      case 0 => 0x49 case 1 => 0x4A case 2 => 0x53 case 3 => 0x54 case 4 => 0x55 case 5 => 0x56 case 6 => 0x57 case 7 => 0x58
      case 8 => 0x59 case 9 => 0x5A case 10 => 0x63 case 11 => 0x64 case 12 => 0x65 case 13 => 0x66 case 14 => 0x67 case 15 => 0x68
      case _ => 0)
    case 5 => (match k % 16
      case 0 => 0x69 case 1 => 0x6A case 2 => 0x73 case 3 => 0x74 case 4 => 0x75 case 5 => 0x76 case 6 => 0x77 case 7 => 0x78
      case 8 => 0x79 case 9 => 0x7A case 10 => 0x82 case 11 => 0x83 case 12 => 0x84 case 13 => 0x85 case 14 => 0x86 case 15 => 0x87
      case _ => 0)
    case 6 => (match k % 16
      case 0 => 0x88 case 1 => 0x89 case 2 => 0x8A case 3 => 0x92 case 4 => 0x93 case 5 => 0x94 case 6 => 0x95 case 7 => 0x96
      case 8 => 0x97 case 9 => 0x98 case 10 => 0x99 case 11 => 0x9A case 12 => 0xA2 case 13 => 0xA3 case 14 => 0xA4 case 15 => 0xA5
      case _ => 0)
    case 7 => (match k % 16
      case 0 => 0xA6 case 1 => 0xA7 case 2 => 0xA8 case 3 => 0xA9 case 4 => 0xAA case 5 => 0xB2 case 6 => 0xB3 case 7 => 0xB4
      case 8 => 0xB5 case 9 => 0xB6 case 10 => 0xB7 case 11 => 0xB8 case 12 => 0xB9 case 13 => 0xBA case 14 => 0xC2 case 15 => 0xC3
      case _ => 0)
    case 8 => (match k % 16
      case 0 => 0xC4 case 1 => 0xC5 case 2 => 0xC6 case 3 => 0xC7 case 4 => 0xC8 case 5 => 0xC9 case 6 => 0xCA case 7 => 0xD2
      case 8 => 0xD3 case 9 => 0xD4 case 10 => 0xD5 case 11 => 0xD6 case 12 => 0xD7 case 13 => 0xD8 case 14 => 0xD9 case 15 => 0xDA
      case _ => 0)
    case 9 => (match k % 16
      case 0 => 0xE2 case 1 => 0xE3 case 2 => 0xE4 case 3 => 0xE5 case 4 => 0xE6 case 5 => 0xE7 case 6 => 0xE8 case 7 => 0xE9
      case 8 => 0xEA case 9 => 0xF2 case 10 => 0xF3 case 11 => 0xF4 case 12 => 0xF5 case 13 => 0xF6 case 14 => 0xF7 case 15 => 0xF8
      case _ => 0)
    case 10 => (match k % 16
      case 0 => 0xF9 case 1 => 0xFA case _ => 0)
    case _ => 0
  }

  /** `UVAC_HT`. */
  function UvAcEntry(y: nat): Entry {
    match y / 16
    case 0 => (match y % 16
      case 0 => Entry(0x0000, 2) case 1 => Entry(0x0001, 2) case 2 => Entry(0x0004, 3) case 3 => Entry(0x000A, 4) case 4 => Entry(0x0018, 5)
      case 5 => Entry(0x0019, 5) case 6 => Entry(0x0038, 6) case 7 => Entry(0x0078, 7) case 8 => Entry(0x01F4, 9) case 9 => Entry(0x03F6, 10)
      case 10 => Entry(0x0FF4, 12) case _ => Entry(0, 0))
    case 1 => (match y % 16
      case 1 => Entry(0x000B, 4) case 2 => Entry(0x0039, 6) case 3 => Entry(0x00F6, 8) case 4 => Entry(0x01F5, 9) case 5 => Entry(0x07F6, 11)
      case 6 => Entry(0x0FF5, 12) case 7 => Entry(0xFF88, 16) case 8 => Entry(0xFF89, 16) case 9 => Entry(0xFF8A, 16) case 10 => Entry(0xFF8B, 16)
      case _ => Entry(0, 0))
    case 2 => (match y % 16
      case 1 => Entry(0x001A, 5) case 2 => Entry(0x00F7, 8) case 3 => Entry(0x03F7, 10) case 4 => Entry(0x0FF6, 12) case 5 => Entry(0x7FC2, 15)
      case 6 => Entry(0xFF8C, 16) case 7 => Entry(0xFF8D, 16) case 8 => Entry(0xFF8E, 16) case 9 => Entry(0xFF8F, 16) case 10 => Entry(0xFF90, 16)
      case _ => Entry(0, 0))
    case 3 => (match y % 16
      case 1 => Entry(0x001B, 5) case 2 => Entry(0x00F8, 8) case 3 => Entry(0x03F8, 10) case 4 => Entry(0x0FF7, 12) case 5 => Entry(0xFF91, 16)
      case 6 => Entry(0xFF92, 16) case 7 => Entry(0xFF93, 16) case 8 => Entry(0xFF94, 16) case 9 => Entry(0xFF95, 16) case 10 => Entry(0xFF96, 16)
      case _ => Entry(0, 0))
    case 4 => (match y % 16
      case 1 => Entry(0x003A, 6) case 2 => Entry(0x01F6, 9) case 3 => Entry(0xFF97, 16) case 4 => Entry(0xFF98, 16) case 5 => Entry(0xFF99, 16)
      case 6 => Entry(0xFF9A, 16) case 7 => Entry(0xFF9B, 16) case 8 => Entry(0xFF9C, 16) case 9 => Entry(0xFF9D, 16) case 10 => Entry(0xFF9E, 16)
      case _ => Entry(0, 0))
    case 5 => (match y % 16
      case 1 => Entry(0x003B, 6) case 2 => Entry(0x03F9, 10) case 3 => Entry(0xFF9F, 16) case 4 => Entry(0xFFA0, 16) case 5 => Entry(0xFFA1, 16)
      case 6 => Entry(0xFFA2, 16) case 7 => Entry(0xFFA3, 16) case 8 => Entry(0xFFA4, 16) case 9 => Entry(0xFFA5, 16) case 10 => Entry(0xFFA6, 16)
      case _ => Entry(0, 0))
    case 6 => (match y % 16
      case 1 => Entry(0x0079, 7) case 2 => Entry(0x07F7, 11) case 3 => Entry(0xFFA7, 16) case 4 => Entry(0xFFA8, 16) case 5 => Entry(0xFFA9, 16)
      case 6 => Entry(0xFFAA, 16) case 7 => Entry(0xFFAB, 16) case 8 => Entry(0xFFAC, 16) case 9 => Entry(0xFFAD, 16) case 10 => Entry(0xFFAE, 16)
      case _ => Entry(0, 0))
    case 7 => (match y % 16
      case 1 => Entry(0x007A, 7) case 2 => Entry(0x07F8, 11) case 3 => Entry(0xFFAF, 16) case 4 => Entry(0xFFB0, 16) case 5 => Entry(0xFFB1, 16)
      case 6 => Entry(0xFFB2, 16) case 7 => Entry(0xFFB3, 16) case 8 => Entry(0xFFB4, 16) case 9 => Entry(0xFFB5, 16) case 10 => Entry(0xFFB6, 16)
      case _ => Entry(0, 0))
    case 8 => (match y % 16
      case 1 => Entry(0x00F9, 8) case 2 => Entry(0xFFB7, 16) case 3 => Entry(0xFFB8, 16) case 4 => Entry(0xFFB9, 16) case 5 => Entry(0xFFBA, 16)
      case 6 => Entry(0xFFBB, 16) case 7 => Entry(0xFFBC, 16) case 8 => Entry(0xFFBD, 16) case 9 => Entry(0xFFBE, 16) case 10 => Entry(0xFFBF, 16)
      case _ => Entry(0, 0))
    case 9 => (match y % 16
      case 1 => Entry(0x01F7, 9) case 2 => Entry(0xFFC0, 16) case 3 => Entry(0xFFC1, 16) case 4 => Entry(0xFFC2, 16) case 5 => Entry(0xFFC3, 16)
      case 6 => Entry(0xFFC4, 16) case 7 => Entry(0xFFC5, 16) case 8 => Entry(0xFFC6, 16) case 9 => Entry(0xFFC7, 16) case 10 => Entry(0xFFC8, 16)
      case _ => Entry(0, 0))
    case 10 => (match y % 16
      case 1 => Entry(0x01F8, 9) case 2 => Entry(0xFFC9, 16) case 3 => Entry(0xFFCA, 16) case 4 => Entry(0xFFCB, 16) case 5 => Entry(0xFFCC, 16)
      case 6 => Entry(0xFFCD, 16) case 7 => Entry(0xFFCE, 16) case 8 => Entry(0xFFCF, 16) case 9 => Entry(0xFFD0, 16) case 10 => Entry(0xFFD1, 16)
      case _ => Entry(0, 0))
    case 11 => (match y % 16
      case 1 => Entry(0x01F9, 9) case 2 => Entry(0xFFD2, 16) case 3 => Entry(0xFFD3, 16) case 4 => Entry(0xFFD4, 16) case 5 => Entry(0xFFD5, 16)
      case 6 => Entry(0xFFD6, 16) case 7 => Entry(0xFFD7, 16) case 8 => Entry(0xFFD8, 16) case 9 => Entry(0xFFD9, 16) case 10 => Entry(0xFFDA, 16)
      case _ => Entry(0, 0))
    case 12 => (match y % 16
      case 1 => Entry(0x01FA, 9) case 2 => Entry(0xFFDB, 16) case 3 => Entry(0xFFDC, 16) case 4 => Entry(0xFFDD, 16) case 5 => Entry(0xFFDE, 16)
      case 6 => Entry(0xFFDF, 16) case 7 => Entry(0xFFE0, 16) case 8 => Entry(0xFFE1, 16) case 9 => Entry(0xFFE2, 16) case 10 => Entry(0xFFE3, 16)
      case _ => Entry(0, 0))
    case 13 => (match y % 16
      case 1 => Entry(0x07F9, 11) case 2 => Entry(0xFFE4, 16) case 3 => Entry(0xFFE5, 16) case 4 => Entry(0xFFE6, 16) case 5 => Entry(0xFFE7, 16)
      case 6 => Entry(0xFFE8, 16) case 7 => Entry(0xFFE9, 16) case 8 => Entry(0xFFEA, 16) case 9 => Entry(0xFFEB, 16) case 10 => Entry(0xFFEC, 16)
      case _ => Entry(0, 0))
    case 14 => (match y % 16
      case 1 => Entry(0x3FE0, 14) case 2 => Entry(0xFFED, 16) case 3 => Entry(0xFFEE, 16) case 4 => Entry(0xFFEF, 16) case 5 => Entry(0xFFF0, 16)
      case 6 => Entry(0xFFF1, 16) case 7 => Entry(0xFFF2, 16) case 8 => Entry(0xFFF3, 16) case 9 => Entry(0xFFF4, 16) case 10 => Entry(0xFFF5, 16)
      case _ => Entry(0, 0))
    case 15 => (match y % 16
      case 0 => Entry(0x03FA, 10) case 1 => Entry(0x7FC3, 15) case 2 => Entry(0xFFF6, 16) case 3 => Entry(0xFFF7, 16) case 4 => Entry(0xFFF8, 16)
      case 5 => Entry(0xFFF9, 16) case 6 => Entry(0xFFFA, 16) case 7 => Entry(0xFFFB, 16) case 8 => Entry(0xFFFC, 16) case 9 => Entry(0xFFFD, 16)
      case 10 => Entry(0xFFFE, 16) case _ => Entry(0, 0))
    case _ => Entry(0, 0)
  }

  predicate UvAcFound(y: nat) {
    var e := UvAcEntry(y);
    1 <= e.len <= 16 &&
    var k := e.code - UvAcFirst(e.len - 1) + UvAcPtr(e.len - 1);
    UvAcPtr(e.len - 1) <= k < UvAcPtr(e.len) && UvAcValue(k) == y
  }

  function UvAcFirst(i: nat): int {
    match i
    case 0 => 0 case 1 => 0 case 2 => 4 case 3 => 10 case 4 => 24 case 5 => 56 case 6 => 120 case 7 => 246
    case 8 => 500 case 9 => 1014 case 10 => 2038 case 11 => 4084 case 12 => 8176 case 13 => 16352 case 14 => 32706 case 15 => 65416
    case _ => 0
  }

  function UvAcPtr(i: nat): nat {
    match i
    case 0 => 0 case 1 => 0 case 2 => 2 case 3 => 3 case 4 => 5 case 5 => 9 case 6 => 13 case 7 => 16
    case 8 => 20 case 9 => 27 case 10 => 32 case 11 => 36 case 12 => 40 case 13 => 40 case 14 => 41 case 15 => 43
    case _ => 162
  }

  lemma FirstZero(bits: seq<byte>)
    requires Counts(bits)
    ensures First(bits, 0) == 0 && Ptr(bits, 0) == 0
  {
  }

  lemma YAcRows()
    ensures Counts(Y_AC_BITS)
    ensures First(Y_AC_BITS, 0) == 0 && Ptr(Y_AC_BITS, 0) == 0 && First(Y_AC_BITS, 1) == 0 && Ptr(Y_AC_BITS, 1) == 0 && First(Y_AC_BITS, 2) == 4 && Ptr(Y_AC_BITS, 2) == 2 && First(Y_AC_BITS, 3) == 10 && Ptr(Y_AC_BITS, 3) == 3
    ensures First(Y_AC_BITS, 4) == 26 && Ptr(Y_AC_BITS, 4) == 6 && First(Y_AC_BITS, 5) == 58 && Ptr(Y_AC_BITS, 5) == 9 && First(Y_AC_BITS, 6) == 120 && Ptr(Y_AC_BITS, 6) == 11 && First(Y_AC_BITS, 7) == 248 && Ptr(Y_AC_BITS, 7) == 15
    ensures First(Y_AC_BITS, 8) == 502 && Ptr(Y_AC_BITS, 8) == 18 && First(Y_AC_BITS, 9) == 1014 && Ptr(Y_AC_BITS, 9) == 23 && First(Y_AC_BITS, 10) == 2038 && Ptr(Y_AC_BITS, 10) == 28 && First(Y_AC_BITS, 11) == 4084 && Ptr(Y_AC_BITS, 11) == 32
    ensures First(Y_AC_BITS, 12) == 8176 && Ptr(Y_AC_BITS, 12) == 36 && First(Y_AC_BITS, 13) == 16352 && Ptr(Y_AC_BITS, 13) == 36 && First(Y_AC_BITS, 14) == 32704 && Ptr(Y_AC_BITS, 14) == 36 && First(Y_AC_BITS, 15) == 65410 && Ptr(Y_AC_BITS, 15) == 37
    ensures First(Y_AC_BITS, 16) == 131070 && Ptr(Y_AC_BITS, 16) == 162
  {
    hide First, Ptr;
    FirstZero(Y_AC_BITS);
    Step(Y_AC_BITS, 0); Step(Y_AC_BITS, 1); Step(Y_AC_BITS, 2); Step(Y_AC_BITS, 3);
    Step(Y_AC_BITS, 4); Step(Y_AC_BITS, 5); Step(Y_AC_BITS, 6); Step(Y_AC_BITS, 7);
    Step(Y_AC_BITS, 8); Step(Y_AC_BITS, 9); Step(Y_AC_BITS, 10); Step(Y_AC_BITS, 11);
    Step(Y_AC_BITS, 12); Step(Y_AC_BITS, 13); Step(Y_AC_BITS, 14); Step(Y_AC_BITS, 15);
  }

  /** Every symbol of the first four runs has its value in the table; the runs are too many for one proof. */
  lemma YAcRuns03(y: nat)
    requires AcSymbol(y) && y / 16 < 4
    ensures YAcFound(y)
  {
  }

  lemma YAcRuns47(y: nat)
    requires AcSymbol(y) && 4 <= y / 16 < 8
    ensures YAcFound(y)
  {
  }

  lemma YAcRuns8B(y: nat)
    requires AcSymbol(y) && 8 <= y / 16 < 12
    ensures YAcFound(y)
  {
  }

  lemma YAcRunsCF(y: nat)
    requires AcSymbol(y) && 12 <= y / 16 < 16
    ensures YAcFound(y)
  {
  }

  lemma YAcAll(y: nat)
    requires AcSymbol(y)
    ensures YAcFound(y)
  {
    hide YAcFound;
    if y < 0x40 {
      YAcRuns03(y);
    } else if y < 0x80 {
      YAcRuns47(y);
    } else if y < 0xC0 {
      YAcRuns8B(y);
    } else {
      YAcRunsCF(y);
    }
  }

  lemma YAcAgree(i: nat)
    requires i < 16
    ensures First(Y_AC_BITS, i) == YAcFirst(i) && Ptr(Y_AC_BITS, i) == YAcPtr(i) && Ptr(Y_AC_BITS, i + 1) == YAcPtr(i + 1) <= 162
  {
    hide First, Ptr;
    YAcRows();
  }

  /** The value `y` stands where the encoder's code for it says. */
  lemma YAcPlace(y: nat) returns (i: nat, k: nat)
    requires AcSymbol(y)
    ensures i < 16 && k < 162 && YAcValue(k) == y && Ptr(Y_AC_BITS, i) <= k < Ptr(Y_AC_BITS, i + 1)
    ensures YAcEntry(y).len == i + 1 && YAcEntry(y).code == First(Y_AC_BITS, i) + k - Ptr(Y_AC_BITS, i)
  {
    hide First, Ptr, YAcValue, YAcEntry, YAcFirst, YAcPtr;
    YAcAll(y);
    i := YAcEntry(y).len - 1;
    YAcAgree(i);
    k := YAcEntry(y).code - YAcFirst(i) + YAcPtr(i);
  }

  lemma UvAcRows()
    ensures Counts(UV_AC_BITS)
    ensures First(UV_AC_BITS, 0) == 0 && Ptr(UV_AC_BITS, 0) == 0 && First(UV_AC_BITS, 1) == 0 && Ptr(UV_AC_BITS, 1) == 0 && First(UV_AC_BITS, 2) == 4 && Ptr(UV_AC_BITS, 2) == 2 && First(UV_AC_BITS, 3) == 10 && Ptr(UV_AC_BITS, 3) == 3
    ensures First(UV_AC_BITS, 4) == 24 && Ptr(UV_AC_BITS, 4) == 5 && First(UV_AC_BITS, 5) == 56 && Ptr(UV_AC_BITS, 5) == 9 && First(UV_AC_BITS, 6) == 120 && Ptr(UV_AC_BITS, 6) == 13 && First(UV_AC_BITS, 7) == 246 && Ptr(UV_AC_BITS, 7) == 16
    ensures First(UV_AC_BITS, 8) == 500 && Ptr(UV_AC_BITS, 8) == 20 && First(UV_AC_BITS, 9) == 1014 && Ptr(UV_AC_BITS, 9) == 27 && First(UV_AC_BITS, 10) == 2038 && Ptr(UV_AC_BITS, 10) == 32 && First(UV_AC_BITS, 11) == 4084 && Ptr(UV_AC_BITS, 11) == 36
    ensures First(UV_AC_BITS, 12) == 8176 && Ptr(UV_AC_BITS, 12) == 40 && First(UV_AC_BITS, 13) == 16352 && Ptr(UV_AC_BITS, 13) == 40 && First(UV_AC_BITS, 14) == 32706 && Ptr(UV_AC_BITS, 14) == 41 && First(UV_AC_BITS, 15) == 65416 && Ptr(UV_AC_BITS, 15) == 43
    ensures First(UV_AC_BITS, 16) == 131070 && Ptr(UV_AC_BITS, 16) == 162
  {
    hide First, Ptr;
    FirstZero(UV_AC_BITS);
    Step(UV_AC_BITS, 0); Step(UV_AC_BITS, 1); Step(UV_AC_BITS, 2); Step(UV_AC_BITS, 3);
    Step(UV_AC_BITS, 4); Step(UV_AC_BITS, 5); Step(UV_AC_BITS, 6); Step(UV_AC_BITS, 7);
    Step(UV_AC_BITS, 8); Step(UV_AC_BITS, 9); Step(UV_AC_BITS, 10); Step(UV_AC_BITS, 11);
    Step(UV_AC_BITS, 12); Step(UV_AC_BITS, 13); Step(UV_AC_BITS, 14); Step(UV_AC_BITS, 15);
  }

  /** Every symbol of the first four runs has its value in the table; the runs are too many for one proof. */
  lemma UvAcRuns03(y: nat)
    requires AcSymbol(y) && y / 16 < 4
    ensures UvAcFound(y)
  {
  }

  lemma UvAcRuns47(y: nat)
    requires AcSymbol(y) && 4 <= y / 16 < 8
    ensures UvAcFound(y)
  {
  }

  lemma UvAcRuns8B(y: nat)
    requires AcSymbol(y) && 8 <= y / 16 < 12
    ensures UvAcFound(y)
  {
  }

  lemma UvAcRunsCF(y: nat)
    requires AcSymbol(y) && 12 <= y / 16 < 16
    ensures UvAcFound(y)
  {
  }

  lemma UvAcAll(y: nat)
    requires AcSymbol(y)
    ensures UvAcFound(y)
  {
    hide UvAcFound;
    if y < 0x40 {
      UvAcRuns03(y);
    } else if y < 0x80 {
      UvAcRuns47(y);
    } else if y < 0xC0 {
      UvAcRuns8B(y);
    } else {
      UvAcRunsCF(y);
    }
  }

  lemma UvAcAgree(i: nat)
    requires i < 16
    ensures First(UV_AC_BITS, i) == UvAcFirst(i) && Ptr(UV_AC_BITS, i) == UvAcPtr(i) && Ptr(UV_AC_BITS, i + 1) == UvAcPtr(i + 1) <= 162
  {
    hide First, Ptr;
    UvAcRows();
  }

  /** The value `y` stands where the encoder's code for it says. */
  lemma UvAcPlace(y: nat) returns (i: nat, k: nat)
    requires AcSymbol(y)
    ensures i < 16 && k < 162 && UvAcValue(k) == y && Ptr(UV_AC_BITS, i) <= k < Ptr(UV_AC_BITS, i + 1)
    ensures UvAcEntry(y).len == i + 1 && UvAcEntry(y).code == First(UV_AC_BITS, i) + k - Ptr(UV_AC_BITS, i)
  {
    hide First, Ptr, UvAcValue, UvAcEntry, UvAcFirst, UvAcPtr;
    UvAcAll(y);
    i := UvAcEntry(y).len - 1;
    UvAcAgree(i);
    k := UvAcEntry(y).code - UvAcFirst(i) + UvAcPtr(i);
  }

  lemma YDcRows()
    ensures Counts(Y_DC_BITS)
    ensures First(Y_DC_BITS, 0) == 0 && Ptr(Y_DC_BITS, 0) == 0 && First(Y_DC_BITS, 1) == 0 && Ptr(Y_DC_BITS, 1) == 0 && First(Y_DC_BITS, 2) == 2 && Ptr(Y_DC_BITS, 2) == 1 && First(Y_DC_BITS, 3) == 14 && Ptr(Y_DC_BITS, 3) == 6
    ensures First(Y_DC_BITS, 4) == 30 && Ptr(Y_DC_BITS, 4) == 7 && First(Y_DC_BITS, 5) == 62 && Ptr(Y_DC_BITS, 5) == 8 && First(Y_DC_BITS, 6) == 126 && Ptr(Y_DC_BITS, 6) == 9 && First(Y_DC_BITS, 7) == 254 && Ptr(Y_DC_BITS, 7) == 10
    ensures First(Y_DC_BITS, 8) == 510 && Ptr(Y_DC_BITS, 8) == 11 && First(Y_DC_BITS, 9) == 1022 && Ptr(Y_DC_BITS, 9) == 12 && First(Y_DC_BITS, 10) == 2044 && Ptr(Y_DC_BITS, 10) == 12 && First(Y_DC_BITS, 11) == 4088 && Ptr(Y_DC_BITS, 11) == 12
    ensures First(Y_DC_BITS, 12) == 8176 && Ptr(Y_DC_BITS, 12) == 12 && First(Y_DC_BITS, 13) == 16352 && Ptr(Y_DC_BITS, 13) == 12 && First(Y_DC_BITS, 14) == 32704 && Ptr(Y_DC_BITS, 14) == 12 && First(Y_DC_BITS, 15) == 65408 && Ptr(Y_DC_BITS, 15) == 12
    ensures First(Y_DC_BITS, 16) == 130816 && Ptr(Y_DC_BITS, 16) == 12
  {
    hide First, Ptr;
    FirstZero(Y_DC_BITS);
    Step(Y_DC_BITS, 0); Step(Y_DC_BITS, 1); Step(Y_DC_BITS, 2); Step(Y_DC_BITS, 3);
    Step(Y_DC_BITS, 4); Step(Y_DC_BITS, 5); Step(Y_DC_BITS, 6); Step(Y_DC_BITS, 7);
    Step(Y_DC_BITS, 8); Step(Y_DC_BITS, 9); Step(Y_DC_BITS, 10); Step(Y_DC_BITS, 11);
    Step(Y_DC_BITS, 12); Step(Y_DC_BITS, 13); Step(Y_DC_BITS, 14); Step(Y_DC_BITS, 15);
  }

  lemma YDcAll(y: nat)
    requires y < 12
    ensures YDcFound(y)
  {
  }

  lemma YDcAgree(i: nat)
    requires i < 16
    ensures First(Y_DC_BITS, i) == YDcFirst(i) && Ptr(Y_DC_BITS, i) == YDcPtr(i) && Ptr(Y_DC_BITS, i + 1) == YDcPtr(i + 1) <= 12
  {
    hide First, Ptr;
    YDcRows();
  }

  /** The value `y` stands where the encoder's code for it says. */
  lemma YDcPlace(y: nat) returns (i: nat, k: nat)
    requires y < 12
    ensures i < 16 && k < 12 && YDcValue(k) == y && Ptr(Y_DC_BITS, i) <= k < Ptr(Y_DC_BITS, i + 1)
    ensures YDcEntry(y).len == i + 1 && YDcEntry(y).code == First(Y_DC_BITS, i) + k - Ptr(Y_DC_BITS, i)
  {
    hide First, Ptr, YDcValue, YDcEntry, YDcFirst, YDcPtr;
    YDcAll(y);
    i := YDcEntry(y).len - 1;
    YDcAgree(i);
    k := YDcEntry(y).code - YDcFirst(i) + YDcPtr(i);
  }

  lemma UvDcRows()
    ensures Counts(UV_DC_BITS)
    ensures First(UV_DC_BITS, 0) == 0 && Ptr(UV_DC_BITS, 0) == 0 && First(UV_DC_BITS, 1) == 0 && Ptr(UV_DC_BITS, 1) == 0 && First(UV_DC_BITS, 2) == 6 && Ptr(UV_DC_BITS, 2) == 3 && First(UV_DC_BITS, 3) == 14 && Ptr(UV_DC_BITS, 3) == 4
    ensures First(UV_DC_BITS, 4) == 30 && Ptr(UV_DC_BITS, 4) == 5 && First(UV_DC_BITS, 5) == 62 && Ptr(UV_DC_BITS, 5) == 6 && First(UV_DC_BITS, 6) == 126 && Ptr(UV_DC_BITS, 6) == 7 && First(UV_DC_BITS, 7) == 254 && Ptr(UV_DC_BITS, 7) == 8
    ensures First(UV_DC_BITS, 8) == 510 && Ptr(UV_DC_BITS, 8) == 9 && First(UV_DC_BITS, 9) == 1022 && Ptr(UV_DC_BITS, 9) == 10 && First(UV_DC_BITS, 10) == 2046 && Ptr(UV_DC_BITS, 10) == 11 && First(UV_DC_BITS, 11) == 4094 && Ptr(UV_DC_BITS, 11) == 12
    ensures First(UV_DC_BITS, 12) == 8188 && Ptr(UV_DC_BITS, 12) == 12 && First(UV_DC_BITS, 13) == 16376 && Ptr(UV_DC_BITS, 13) == 12 && First(UV_DC_BITS, 14) == 32752 && Ptr(UV_DC_BITS, 14) == 12 && First(UV_DC_BITS, 15) == 65504 && Ptr(UV_DC_BITS, 15) == 12
    ensures First(UV_DC_BITS, 16) == 131008 && Ptr(UV_DC_BITS, 16) == 12
  {
    hide First, Ptr;
    FirstZero(UV_DC_BITS);
    Step(UV_DC_BITS, 0); Step(UV_DC_BITS, 1); Step(UV_DC_BITS, 2); Step(UV_DC_BITS, 3);
    Step(UV_DC_BITS, 4); Step(UV_DC_BITS, 5); Step(UV_DC_BITS, 6); Step(UV_DC_BITS, 7);
    Step(UV_DC_BITS, 8); Step(UV_DC_BITS, 9); Step(UV_DC_BITS, 10); Step(UV_DC_BITS, 11);
    Step(UV_DC_BITS, 12); Step(UV_DC_BITS, 13); Step(UV_DC_BITS, 14); Step(UV_DC_BITS, 15);
  }

  lemma UvDcAll(y: nat)
    requires y < 12
    ensures UvDcFound(y)
  {
  }

  lemma UvDcAgree(i: nat)
    requires i < 16
    ensures First(UV_DC_BITS, i) == UvDcFirst(i) && Ptr(UV_DC_BITS, i) == UvDcPtr(i) && Ptr(UV_DC_BITS, i + 1) == UvDcPtr(i + 1) <= 12
  {
    hide First, Ptr;
    UvDcRows();
  }

  /** The value `y` stands where the encoder's code for it says. */
  lemma UvDcPlace(y: nat) returns (i: nat, k: nat)
    requires y < 12
    ensures i < 16 && k < 12 && UvDcValue(k) == y && Ptr(UV_DC_BITS, i) <= k < Ptr(UV_DC_BITS, i + 1)
    ensures UvDcEntry(y).len == i + 1 && UvDcEntry(y).code == First(UV_DC_BITS, i) + k - Ptr(UV_DC_BITS, i)
  {
    hide First, Ptr, UvDcValue, UvDcEntry, UvDcFirst, UvDcPtr;
    UvDcAll(y);
    i := UvDcEntry(y).len - 1;
    UvDcAgree(i);
    k := UvDcEntry(y).code - UvDcFirst(i) + UvDcPtr(i);
  }

  // ----- the four tables -----

  datatype Standard = LumaDc | ChromaDc | LumaAc | ChromaAc

  function Bits(t: Standard): (bits: seq<byte>)
    ensures Counts(bits)
  {
    match t
    case LumaDc => Y_DC_BITS
    case ChromaDc => UV_DC_BITS
    case LumaAc => Y_AC_BITS
    case ChromaAc => UV_AC_BITS
  }

  function Values(t: Standard): seq<byte> {
    match t
    case LumaDc => seq(12, k requires 0 <= k => YDcValue(k))
    case ChromaDc => seq(12, k requires 0 <= k => UvDcValue(k))
    case LumaAc => seq(162, k requires 0 <= k => YAcValue(k))
    case ChromaAc => seq(162, k requires 0 <= k => UvAcValue(k))
  }

  function Entries(t: Standard): seq<Entry> {
    match t
    case LumaDc => seq(12, y requires 0 <= y => YDcEntry(y))
    case ChromaDc => seq(12, y requires 0 <= y => UvDcEntry(y))
    case LumaAc => seq(256, y requires 0 <= y => YAcEntry(y))
    case ChromaAc => seq(256, y requires 0 <= y => UvAcEntry(y))
  }

  predicate Uses(t: Standard, y: nat) {
    match t
    case LumaDc => y < 12
    case ChromaDc => y < 12
    case LumaAc => AcSymbol(y)
    case ChromaAc => AcSymbol(y)
  }

  /** The counts fit, fill the values, and leave out the code of sixteen ones. */
  lemma StandardFits(t: Standard)
    ensures Fits(Bits(t)) && NoOnes(Bits(t)) && Ptr(Bits(t), 16) == |Values(t)|
  {
    hide First, Ptr, Pow2;
    Pow2Values();
    match t
    case LumaDc => YDcRows();
    case ChromaDc => UvDcRows();
    case LumaAc => YAcRows();
    case ChromaAc => UvAcRows();
  }

  lemma StandardPlace(t: Standard, y: nat) returns (i: nat, k: nat)
    requires Uses(t, y)
    ensures y < |Entries(t)| && k < |Values(t)| && i < 16 && Values(t)[k] == y
    ensures Ptr(Bits(t), i) <= k < Ptr(Bits(t), i + 1)
    ensures Entries(t)[y].len == i + 1 && Entries(t)[y].code == First(Bits(t), i) + k - Ptr(Bits(t), i)
  {
    hide First, Ptr, YDcEntry, UvDcEntry, YAcEntry, UvAcEntry, YDcValue, UvDcValue, YAcValue, UvAcValue;
    match t
    case LumaDc => i, k := YDcPlace(y);
    case ChromaDc => i, k := UvDcPlace(y);
    case LumaAc => i, k := YAcPlace(y);
    case ChromaAc => i, k := UvAcPlace(y);
  }

  /** The encoder's codes are the canonical codes of the table in the file. */
  lemma StandardCoded(t: Standard, y: nat)
    requires Uses(t, y) && Fits(Bits(t))
    ensures Coded(Entries(t), Bits(t), Values(t), y)
  {
    hide First, Ptr, Row, Fits, Entries, Values, Bits;
    var i, k := StandardPlace(t, y);
    FirstStep(Bits(t));
    PtrMonotone(Bits(t), i + 1, 16);
    StandardFits(t);
    CodeOf(Bits(t), k);
    RowIsUnique(Bits(t), k, i);
    RowFits(Bits(t), i);
    assert Code(Bits(t), k) == Symbol(Entries(t), y);
  }

  lemma RowIsUnique(bits: seq<byte>, k: nat, i: nat)
    requires Counts(bits) && i < 16 && Ptr(bits, i) <= k < Ptr(bits, i + 1) <= Ptr(bits, 16)
    ensures Row(bits, k) == i
  {
    hide Ptr;
    var r := Row(bits, k);
    if r < i { PtrMonotone(bits, r + 1, i); }
    if i < r { PtrMonotone(bits, i + 1, r); }
  }
}
