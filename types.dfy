/** Constants, records and string helpers of the VE.Direct decoder (src/sensors/vedirect.h). */
module VEDirectTypes {

  /** One byte of the serial stream, read as a C `char`. */
  type Byte = c: char | c as int < 0x100

  /** The source's `byte` (uint8_t) and `uint32_t`. */
  type uint8 = x: int | 0 <= x < 0x100
  type uint32 = x: int | 0 <= x < 0x1_0000_0000

  const NUL: Byte := '\0'
  const TAB: Byte := '\t'
  const NEWLINE: Byte := '\n'
  const CR: Byte := '\r'

  /** Buffer sizes in bytes, terminating NUL included (VEDIRECT_BUF_LABEL_SIZE, VEDIRECT_BUF_VALUE_SIZE). */
  const LABEL_SIZE: nat := 9
  const VALUE_SIZE: nat := 33

  /** Number of entries of the field registry (VEDIRECT_TOTAL_LABELS). */
  const TOTAL_LABELS: nat := 51

  /** The label that closes a block. */
  const CHECKSUM_LABEL: seq<Byte> := "Checksum"

  /** The raw value a device sends for "no data". */
  const NO_DATA: seq<Byte> := "---"

  /** Receive states VEDIRECT_RX_STATE_UNKNOWN, _LABEL, _VALUE, _RECORDCOMPLETE (byte codes 0..3). */
  datatype RxState = Unknown | Label | Value | RecordComplete

  /** Entry states VEDIRECT_VALUE_STATE_UNDEFINED (-1, stored as byte 255), _DATA_DIRTY (0), _DATA_VALID (1). */
  datatype Status = Undefined | DataDirty | DataValid

  /**
   * What `valueConfirmed` holds after a commit. The floating-point paths of the
   * source (`atof(raw) * factor / 1000` printed with "%.3f", `atof(raw) + 273.15`
   * printed with "%.2f") are kept symbolic as Scaled and Kelvin.
   */
  datatype Confirmed =
    | Text(text: seq<Byte>)
    | Scaled(raw: seq<Byte>, factor: int)
    | Kelvin(raw: seq<Byte>)

  /** One registry entry (struct VEDirectFieldEntry); `name` is its `label` field (a reserved word in Dafny), and strings are held without their NUL terminator. */
  datatype FieldEntry = FieldEntry(
    name: string,
    unitTransformFactor: int,
    metaUnit: string,
    valuePending: seq<Byte>,
    valueConfirmed: Confirmed,
    lastUpdate: uint32,
    status: Status)

  datatype Option<T> = None | Some(value: T)

  /** A zero-filled buffer of n bytes. */
  function Zeros(n: nat): (z: seq<Byte>)
    ensures |z| == n
    ensures forall k :: 0 <= k < n ==> z[k] == NUL
  {
    seq(n, _ => NUL)
  }

  /** The C string held in a buffer: the bytes before the first NUL, or all of them if there is none. */
  function CStr(buf: seq<Byte>): (s: seq<Byte>)
    ensures |s| <= |buf| && s == buf[..|s|]
    ensures NUL !in s
    ensures |s| < |buf| ==> buf[|s|] == NUL
  {
    if buf == [] || buf[0] == NUL then [] else [buf[0]] + CStr(buf[1..])
  }

  /** `text` followed by NUL bytes up to `size` bytes: what a zeroed buffer holds after `text` is stored in it. */
  function Padded(text: seq<Byte>, size: nat): (buf: seq<Byte>)
    requires |text| <= size
  {
    text + Zeros(size - |text|)
  }

  lemma {:induction false} PaddedCStr(text: seq<Byte>, size: nat)
    requires |text| < size && NUL !in text
    ensures CStr(Padded(text, size)) == text
  {
    var buf := Padded(text, size);
    if text == [] {
      assert buf[0] == NUL;
    } else {
      assert buf[0] == text[0] != NUL;
      assert text[0] in text;
      assert buf[1..] == Padded(text[1..], size - 1);
      PaddedCStr(text[1..], size - 1);
    }
  }

  /** Storing one more byte at the end of the text of a zero-padded buffer. */
  lemma PaddedStore(text: seq<Byte>, c: Byte, size: nat)
    requires |text| < size
    ensures Padded(text, size)[|text| := c] == Padded(text + [c], size)
  {
    var a := Padded(text, size)[|text| := c];
    var b := Padded(text + [c], size);
    assert |a| == |b|;
    forall j | 0 <= j < |a| ensures a[j] == b[j] {
      if j < |text| {
        assert a[j] == text[j];
        assert b[j] == (text + [c])[j];
      } else if j > |text| {
        assert a[j] == NUL;
        assert b[j] == Zeros(size - |text| - 1)[j - |text| - 1];
      }
    }
  }

  /** Sum of the byte values of s, without wrap-around. */
  function ByteSum(s: seq<Byte>): nat
  {
    if s == [] then 0 else s[0] as int + ByteSum(s[1..])
  }

  lemma {:induction false} ByteSumAppend(a: seq<Byte>, b: seq<Byte>)
    ensures ByteSum(a + b) == ByteSum(a) + ByteSum(b)
  {
    if a != [] {
      assert (a + b)[0] == a[0] && (a + b)[1..] == a[1..] + b;
      ByteSumAppend(a[1..], b);
      calc {
        ByteSum(a + b);
        a[0] as int + ByteSum(a[1..] + b);
        a[0] as int + ByteSum(a[1..]) + ByteSum(b);
      }
    } else {
      assert a + b == b;
    }
  }

  /** strncmp(s, p, |p|) == 0 for a NUL-free p: s begins with p. */
  predicate StartsWith(s: seq<Byte>, p: seq<Byte>)
  {
    |p| <= |s| && s[..|p|] == p
  }
}
