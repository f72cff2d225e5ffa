/** The two tables that bring every keyboard to one numbering, the 8042's first scan code set. */
module ScanCodes {
  import opened Common

  const SET2_CODES: nat := 132

  // Indexed by the second set's code, sixteen to a row.
  const SET2_TO_SET1: seq<seq<byte>> := [
    [0xFF, 0x43, 0x41, 0x3F, 0x3D, 0x3B, 0x3C, 0x58, 0x64, 0x44, 0x42, 0x40, 0x3E, 0x0F, 0x29, 0x59],
    [0x65, 0x38, 0x2A, 0x70, 0x1D, 0x10, 0x02, 0x5A, 0x66, 0x71, 0x2C, 0x1F, 0x1E, 0x11, 0x03, 0x5B],
    [0x67, 0x2E, 0x2D, 0x20, 0x12, 0x05, 0x04, 0x5C, 0x68, 0x39, 0x2F, 0x21, 0x14, 0x13, 0x06, 0x5D],
    [0x69, 0x31, 0x30, 0x23, 0x22, 0x15, 0x07, 0x5E, 0x6A, 0x72, 0x32, 0x24, 0x16, 0x08, 0x09, 0x5F],
    [0x6B, 0x33, 0x25, 0x17, 0x18, 0x0B, 0x0A, 0x60, 0x6C, 0x34, 0x35, 0x26, 0x27, 0x19, 0x0C, 0x61],
    [0x6D, 0x73, 0x28, 0x74, 0x1A, 0x0D, 0x62, 0x6E, 0x3A, 0x36, 0x1C, 0x1B, 0x75, 0x2B, 0x63, 0x76],
    [0x55, 0x56, 0x77, 0x78, 0x79, 0x7A, 0x0E, 0x7B, 0x7C, 0x4F, 0x7D, 0x4B, 0x47, 0x7E, 0x7F, 0x6F],
    [0x52, 0x53, 0x50, 0x4C, 0x4D, 0x48, 0x01, 0x45, 0x57, 0x4E, 0x51, 0x4A, 0x37, 0x49, 0x46, 0x54],
    [0x80, 0x81, 0x82, 0x41]
  ]

  const HID_FIRST_USAGE: byte := 4
  const HID_USAGES: nat := 0x50

  // Indexed by how far a HID usage lies past the first key's, likewise.
  const HID_TO_SET1: seq<seq<byte>> := [
    [0x1E, 0x30, 0x2E, 0x20, 0x12, 0x21, 0x22, 0x23, 0x17, 0x24, 0x25, 0x26, 0x32, 0x31, 0x18, 0x19],
    [0x10, 0x13, 0x1F, 0x14, 0x16, 0x2F, 0x11, 0x2D, 0x15, 0x2C, 0x02, 0x03, 0x04, 0x05, 0x06, 0x07],
    [0x08, 0x09, 0x0A, 0x0B, 0x1C, 0x01, 0x0E, 0x0F, 0x39, 0x0C, 0x0D, 0x1A, 0x1B, 0x2B, 0x2B, 0x27],
    [0x28, 0x29, 0x33, 0x34, 0x35, 0x3A, 0x3B, 0x3C, 0x3D, 0x3E, 0x3F, 0x40, 0x41, 0x42, 0x43, 0x44],
    [0x57, 0x58, 0x00, 0x46, 0x00, 0x52, 0x47, 0x49, 0x53, 0x4F, 0x51, 0x4D, 0x4B, 0x50, 0x48, 0x45]
  ]

  // A code past the table stands for itself.
  function TranslateSet2(code: byte): byte {
    if code < SET2_CODES then SET2_TO_SET1[code / 16][code % 16] else code
  }

  // A usage past the table, or before it, has no name.
  function HidToScancode(usage: byte): byte {
    var index := (usage - HID_FIRST_USAGE) % 256;
    if index < HID_USAGES then HID_TO_SET1[index / 16][index % 16] else 0
  }

  // What a keyboard in the second set sends for A to P, for Q to 6, and for 7 to 0: in the order of the HID usages.
  const A_TO_P: seq<byte> := [
    0x1C, 0x32, 0x21, 0x23, 0x24, 0x2B, 0x34, 0x33, 0x43, 0x3B, 0x42, 0x4B, 0x3A, 0x31, 0x44, 0x4D]
  const Q_TO_6: seq<byte> := [
    0x15, 0x2D, 0x1B, 0x2C, 0x3C, 0x2A, 0x1D, 0x22, 0x35, 0x1A, 0x16, 0x1E, 0x26, 0x25, 0x2E, 0x36]
  const SEVEN_TO_0: seq<byte> := [0x3D, 0x3E, 0x46, 0x45]

  function Set2CodeOf(i: nat): byte
    requires i < 36
  {
    if i < 16 then A_TO_P[i] else if i < 32 then Q_TO_6[i - 16] else SEVEN_TO_0[i - 32]
  }

  lemma Place(row: nat, i: nat)
    requires row < 5 && i < 16
    ensures (row * 16 + i) / 16 == row && (row * 16 + i) % 16 == i
    ensures (4 + row * 16 + i - HID_FIRST_USAGE) % 256 == row * 16 + i
  {
  }

  lemma UsageAt(usage: byte, row: nat, i: nat)
    requires row < 5 && i < 16 && usage == 4 + row * 16 + i
    ensures HidToScancode(usage) == HID_TO_SET1[row][i]
  {
    Place(row, i);
  }

  lemma FirstRowAgrees(i: nat)
    requires i < 16
    ensures TranslateSet2(A_TO_P[i]) == HID_TO_SET1[0][i]
  {
  }

  lemma SecondRowAgrees(i: nat)
    requires i < 16
    ensures TranslateSet2(Q_TO_6[i]) == HID_TO_SET1[1][i] && (i >= 10 ==> HID_TO_SET1[1][i] == i - 8)
  {
  }

  lemma ThirdRowAgrees(i: nat)
    requires i < 4
    ensures TranslateSet2(SEVEN_TO_0[i]) == HID_TO_SET1[2][i] == 8 + i
  {
  }

  /** A letter or digit key means the same whichever kind of keyboard it is on; the ten digits count up from 2. */
  lemma KeyboardsAgree(i: nat)
    requires i < 36
    ensures HidToScancode(4 + i) == TranslateSet2(Set2CodeOf(i))
    ensures i >= 26 ==> HidToScancode(4 + i) == i - 24
  {
    if i < 16 {
      UsageAt(4 + i, 0, i);
      FirstRowAgrees(i);
    } else if i < 32 {
      UsageAt(4 + i, 1, i - 16);
      SecondRowAgrees(i - 16);
    } else {
      UsageAt(4 + i, 2, i - 32);
      ThirdRowAgrees(i - 32);
    }
  }

  lemma RowShares(row: nat, i: nat)
    requires row < 8 && i < 16
    ensures SET2_TO_SET1[row][i] == row * 16 + i <==> (row == 3 && i == 1) || (row == 6 && i == 15)
  {
  }

  /** Two codes below 128 mean the same key in both sets, and no others. */
  lemma SharedCodes(code: byte)
    requires code < 128
    ensures TranslateSet2(code) == code <==> code == 0x31 || code == 0x6F
  {
    RowShares(code / 16, code % 16);
  }
}
