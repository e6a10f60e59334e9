/**
 * The byte-at-a-time receive state machine and running checksum of the
 * VE.Direct text protocol (the body of the receive loop in
 * VEDirectInput::enable, src/sensors/vedirect.cpp).
 */
module Receiver {
  import opened VEDirectTypes

  /**
   * The decoder's transient receive state: receiveState, the contents of the
   * fieldLabel and fieldValue buffers, rxBufIndex and checksum.
   */
  datatype Rx = Rx(state: RxState, labelBuf: seq<Byte>, valueBuf: seq<Byte>, index: nat, checksum: uint8)

  /** Buffers have their declared sizes and the write index points inside the buffer being filled. */
  predicate WellFormed(s: Rx)
  {
    && |s.labelBuf| == LABEL_SIZE
    && |s.valueBuf| == VALUE_SIZE
    && s.index < VALUE_SIZE
    && (s.state == Label ==> s.index < LABEL_SIZE)
  }

  /** Both buffers keep a terminating NUL in their last byte. */
  predicate Terminated(s: Rx)
    requires WellFormed(s)
  {
    s.labelBuf[LABEL_SIZE - 1] == NUL && s.valueBuf[VALUE_SIZE - 1] == NUL
  }

  /** The label and value as C strings. */
  function LabelText(s: Rx): seq<Byte> { CStr(s.labelBuf) }
  function ValueText(s: Rx): seq<Byte> { CStr(s.valueBuf) }

  /** Reading the first value byte of a "Checksum" record: the check byte. */
  predicate AtCheckByte(s: Rx)
  {
    s.state == Value && s.index == 0 && LabelText(s) == CHECKSUM_LABEL
  }

  /**
   * Synchronised at the start of a record: reading a label into a cleared
   * buffer from position 0.
   */
  predicate AtRecordStart(s: Rx)
  {
    WellFormed(s) && s.state == Label && s.index == 0 && s.labelBuf == Zeros(LABEL_SIZE)
  }

  /**
   * One byte of the receive loop. The byte is first added to the checksum
   * modulo 256; then
   *  - LABEL: TAB switches to VALUE with a cleared value buffer, any other byte is stored;
   *  - VALUE: NEWLINE completes the record, any other byte (CR included) is stored;
   *  - UNKNOWN, and any other state (the `default` arm): NEWLINE switches to
   *    LABEL with a cleared label buffer, any other byte is ignored.
   * A byte that would fill the last byte of a buffer (its terminator) is not
   * stored: the record is dropped and the machine waits in UNKNOWN for the next
   * NEWLINE.
   * The check byte, the first value byte of a "Checksum" record, is stored
   * whatever it is, NEWLINE included; `asWritten` selects the source's test
   * instead, which ends the value at any NEWLINE.
   */
  function Step(s: Rx, c: Byte, asWritten: bool := false): (t: Rx)
    requires WellFormed(s)
    ensures WellFormed(t)
  {
    var sum := (s.checksum + c as int) % 0x100;
    match s.state
    case Label =>
      if c != TAB then
        if s.index < LABEL_SIZE - 1 then
          s.(labelBuf := s.labelBuf[s.index := c], index := s.index + 1, checksum := sum)
        else
          s.(state := Unknown, checksum := sum)
      else
        s.(state := Value, valueBuf := Zeros(VALUE_SIZE), index := 0, checksum := sum)
    case Value =>
      if c != NEWLINE || (!asWritten && AtCheckByte(s)) then
        if s.index < VALUE_SIZE - 1 then
          s.(valueBuf := s.valueBuf[s.index := c], index := s.index + 1, checksum := sum)
        else
          s.(state := Unknown, checksum := sum)
      else
        s.(state := RecordComplete, checksum := sum)
    case _ =>
      if c == NEWLINE then
        s.(state := Label, labelBuf := Zeros(LABEL_SIZE), index := 0, checksum := sum)
      else
        s.(checksum := sum)
  }

  /**
   * The receive loop of one callback: consume bytes of `input` from position
   * `from` on while there are any and the state is not RECORDCOMPLETE. Returns
   * the new state and the position reached; bytes are left unread only once a
   * record is complete.
   */
  function Drain(s: Rx, input: seq<Byte>, from: nat, asWritten: bool := false): (r: (Rx, nat))
    requires WellFormed(s) && from <= |input|
    ensures WellFormed(r.0) && from <= r.1 <= |input|
    ensures r.1 < |input| ==> r.0.state == RecordComplete
    decreases |input| - from
  {
    if from == |input| || s.state == RecordComplete then (s, from)
    else Drain(Step(s, input[from], asWritten), input, from + 1, asWritten)
  }

  /** The wire form of one record: label, TAB, value, NEWLINE. */
  function Record(name: seq<Byte>, val: seq<Byte>): seq<Byte>
  {
    name + [TAB] + val + [NEWLINE]
  }

  /**
   * The values a record of label `name` carries up to its NEWLINE: a
   * "Checksum" record carries its check byte, which may be any byte, and no
   * NEWLINE after it; any other record carries no NEWLINE at all.
   */
  predicate ValueReadable(name: seq<Byte>, val: seq<Byte>)
  {
    if name == CHECKSUM_LABEL then val != [] && NEWLINE !in val[1..] else NEWLINE !in val
  }

  // ---------------------------------------------------------------------------
  // Transitions, state by state

  /** In UNKNOWN only NEWLINE has an effect besides the checksum; it starts a record. */
  lemma UnknownAwaitsNewline(s: Rx, c: Byte)
    requires WellFormed(s) && s.state == Unknown
    ensures c != NEWLINE ==> Step(s, c) == s.(checksum := (s.checksum + c as int) % 0x100)
    ensures c == NEWLINE ==> AtRecordStart(Step(s, c))
  {
  }

  /** In LABEL, TAB opens the value with a cleared buffer; any other byte is appended at the index. */
  lemma LabelAppendsUntilTab(s: Rx, c: Byte)
    requires WellFormed(s) && s.state == Label
    ensures c == TAB ==> var t := Step(s, c);
      t.state == Value && t.valueBuf == Zeros(VALUE_SIZE) && t.index == 0 && t.labelBuf == s.labelBuf
    ensures c != TAB && s.index < LABEL_SIZE - 1 ==> var t := Step(s, c);
      t.state == Label && t.labelBuf == s.labelBuf[s.index := c] && t.index == s.index + 1
  {
  }

  /**
   * In VALUE, NEWLINE completes the record without being stored; any other
   * byte, CR included, is appended, and so is the check byte of a "Checksum"
   * record even when it is NEWLINE.
   */
  lemma ValueAppendsUntilNewline(s: Rx, c: Byte)
    requires WellFormed(s) && s.state == Value
    ensures c == NEWLINE && !AtCheckByte(s) ==> var t := Step(s, c);
      t.state == RecordComplete && t.labelBuf == s.labelBuf && t.valueBuf == s.valueBuf && t.index == s.index
    ensures (c != NEWLINE || AtCheckByte(s)) && s.index < VALUE_SIZE - 1 ==> var t := Step(s, c);
      t.state == Value && t.valueBuf == s.valueBuf[s.index := c] && t.index == s.index + 1
  {
  }

  /** The byte after which a buffer would lose its terminator drops the record instead of being stored. */
  lemma FullBufferDropsRecord(s: Rx, c: Byte)
    requires WellFormed(s)
    requires (s.state == Label && c != TAB && s.index == LABEL_SIZE - 1)
          || (s.state == Value && c != NEWLINE && s.index == VALUE_SIZE - 1)
    ensures Step(s, c).state == Unknown
    ensures Step(s, c).labelBuf == s.labelBuf && Step(s, c).valueBuf == s.valueBuf
  {
  }

  /** No byte is ever stored in the last byte of a buffer: the terminators survive every step. */
  lemma StepKeepsTerminators(s: Rx, c: Byte)
    requires WellFormed(s) && Terminated(s)
    ensures Terminated(Step(s, c))
  {
  }

  lemma {:induction false} DrainKeepsTerminators(s: Rx, input: seq<Byte>, from: nat)
    requires WellFormed(s) && Terminated(s) && from <= |input|
    ensures Terminated(Drain(s, input, from).0)
    decreases |input| - from
  {
    if from < |input| && s.state != RecordComplete {
      StepKeepsTerminators(s, input[from]);
      DrainKeepsTerminators(Step(s, input[from]), input, from + 1);
    }
  }

  /** With the terminators in place, the label and value read as C strings lie inside their buffers. */
  lemma TextsFit(s: Rx)
    requires WellFormed(s) && Terminated(s)
    ensures |LabelText(s)| < LABEL_SIZE && |ValueText(s)| < VALUE_SIZE
  {
  }

  // ---------------------------------------------------------------------------
  // The running checksum and the one-record-per-callback property

  lemma ModAdd(a: int, b: int)
    ensures ((a % 0x100) + b) % 0x100 == (a + b) % 0x100
  {
    var q := a / 0x100;
    assert a == 0x100 * q + a % 0x100;
    assert a + b == (a % 0x100 + b) + 0x100 * q;
  }

  /** The checksum after adding the bytes of `bytes`, modulo 256. */
  function AddSum(sum: uint8, bytes: seq<Byte>): uint8
  {
    (sum + ByteSum(bytes)) % 0x100
  }

  lemma AddSumStep(sum: uint8, bytes: seq<Byte>)
    requires bytes != []
    ensures AddSum((sum + bytes[0] as int) % 0x100, bytes[1..]) == AddSum(sum, bytes)
  {
    ModAdd(sum + bytes[0] as int, ByteSum(bytes[1..]));
  }

  lemma AddSumAppend(sum: uint8, a: seq<Byte>, b: seq<Byte>)
    ensures AddSum(AddSum(sum, a), b) == AddSum(sum, a + b)
  {
    ByteSumAppend(a, b);
    ModAdd(sum + ByteSum(a), ByteSum(b));
  }

  /** One byte more at the end of the bytes summed. */
  lemma AddSumSnoc(sum: uint8, input: seq<Byte>, i: nat, j: nat)
    requires i <= j < |input|
    ensures (AddSum(sum, input[i..j]) + input[j] as int) % 0x100 == AddSum(sum, input[i..j + 1])
  {
    assert input[i..j + 1] == input[i..j] + [input[j]];
    AddSumAppend(sum, input[i..j], [input[j]]);
    assert ByteSum([input[j]]) == input[j] as int;
  }

  /** After a callback's loop, the checksum has grown by the sum of exactly the bytes consumed, modulo 256. */
  lemma {:induction false} DrainChecksum(s: Rx, input: seq<Byte>, from: nat, asWritten: bool := false)
    requires WellFormed(s) && from <= |input|
    ensures var r := Drain(s, input, from, asWritten);
      r.0.checksum == AddSum(s.checksum, input[from..r.1])
    decreases |input| - from
  {
    var r := Drain(s, input, from, asWritten);
    if from == |input| || s.state == RecordComplete {
      assert input[from..from] == [];
    } else {
      var t := Step(s, input[from], asWritten);
      DrainChecksum(t, input, from + 1, asWritten);
      assert input[from..r.1][0] == input[from] && input[from..r.1][1..] == input[from + 1..r.1];
      AddSumStep(s.checksum, input[from..r.1]);
    }
  }

  /**
   * The loop stops at the first completed record: on any shorter prefix of what
   * it consumed it runs to the end without completing one, so a callback hands
   * on at most one record.
   */
  lemma {:induction false} DrainStopsAtFirstRecord(s: Rx, input: seq<Byte>, from: nat, k: nat)
    requires WellFormed(s) && from <= |input| && from <= k < Drain(s, input, from).1
    ensures Drain(s, input[..k], from) == (Drain(s, input[..k], from).0, k)
    ensures Drain(s, input[..k], from).0.state != RecordComplete
    decreases k - from
  {
    if k > from {
      var t := Step(s, input[from]);
      assert input[..k][from] == input[from];
      DrainStopsAtFirstRecord(t, input, from + 1, k);
    }
  }

  /** Bytes ahead of the read position are never looked at: draining `a + b` past `a` is draining `b`. */
  lemma {:induction false} DrainShift(t: Rx, a: seq<Byte>, b: seq<Byte>, i: nat)
    requires WellFormed(t) && i <= |b|
    ensures Drain(t, a + b, |a| + i) == (Drain(t, b, i).0, |a| + Drain(t, b, i).1)
    decreases |b| - i
  {
    if i < |b| && t.state != RecordComplete {
      assert (a + b)[|a| + i] == b[i];
      DrainShift(Step(t, b[i]), a, b, i + 1);
    }
  }

  /**
   * The loop carries over between callbacks: when the bytes `a` complete no
   * record, the loop reads all of them, and draining `a + b` in one go ends
   * where draining `b` from the state `a` left ends, whatever the cut.
   */
  lemma {:induction false} DrainSplit(s: Rx, a: seq<Byte>, b: seq<Byte>, i: nat)
    requires WellFormed(s) && i <= |a| && Drain(s, a, i).0.state != RecordComplete
    ensures Drain(s, a, i).1 == |a|
    ensures var t := Drain(s, a, i).0;
      Drain(s, a + b, i) == (Drain(t, b, 0).0, |a| + Drain(t, b, 0).1)
    decreases |a| - i
  {
    if i == |a| {
      DrainShift(s, a, b, 0);
    } else {
      assert (a + b)[i] == a[i];
      DrainSplit(Step(s, a[i]), a, b, i + 1);
    }
  }

  // ---------------------------------------------------------------------------
  // Decoding a well-formed record

  /** A label byte other than TAB is stored at the index while it leaves the terminator in place. */
  lemma LabelStore(s: Rx, input: seq<Byte>, start: nat, i: nat, asWritten: bool)
    requires WellFormed(s) && s.state == Label
    requires start <= i < |input| && i - start < LABEL_SIZE - 1 && input[i] != TAB
    requires s.index == i - start && s.labelBuf == Padded(input[start..i], LABEL_SIZE)
    ensures var t := s.(labelBuf := Padded(input[start..i + 1], LABEL_SIZE), index := i + 1 - start,
                        checksum := (s.checksum + input[i] as int) % 0x100);
      WellFormed(t) && Drain(s, input, i, asWritten) == Drain(t, input, i + 1, asWritten)
  {
    assert input[start..i + 1] == input[start..i] + [input[i]];
    PaddedStore(input[start..i], input[i], LABEL_SIZE);
  }

  /** A value byte other than NEWLINE is stored at the index while it leaves the terminator in place. */
  lemma ValueStore(s: Rx, input: seq<Byte>, start: nat, i: nat)
    requires WellFormed(s) && s.state == Value
    requires start <= i < |input| && i - start < VALUE_SIZE - 1
    requires input[i] != NEWLINE || (i == start && LabelText(s) == CHECKSUM_LABEL)
    requires s.index == i - start && s.valueBuf == Padded(input[start..i], VALUE_SIZE)
    ensures var t := s.(valueBuf := Padded(input[start..i + 1], VALUE_SIZE), index := i + 1 - start,
                        checksum := (s.checksum + input[i] as int) % 0x100);
      WellFormed(t) && Drain(s, input, i) == Drain(t, input, i + 1)
  {
    assert input[start..i + 1] == input[start..i] + [input[i]];
    PaddedStore(input[start..i], input[i], VALUE_SIZE);
  }

  /** The label bytes input[start..end], none a TAB, are stored one after another while they fit. */
  lemma {:induction false} DrainLabelBytes(s: Rx, input: seq<Byte>, start: nat, i: nat, end: nat, asWritten: bool)
    requires WellFormed(s) && s.state == Label
    requires start <= i <= end <= |input| && end - start < LABEL_SIZE
    requires forall j :: start <= j < end ==> input[j] != TAB
    requires s.index == i - start && s.labelBuf == Padded(input[start..i], LABEL_SIZE)
    ensures var t := s.(labelBuf := Padded(input[start..end], LABEL_SIZE), index := end - start,
                        checksum := AddSum(s.checksum, input[i..end]));
      WellFormed(t) && Drain(s, input, i, asWritten) == Drain(t, input, end, asWritten)
    decreases end - i
  {
    if i < end {
      assert input[i] != TAB;
      LabelStore(s, input, start, i, asWritten);
      var t := s.(labelBuf := Padded(input[start..i + 1], LABEL_SIZE), index := i + 1 - start,
                  checksum := (s.checksum + input[i] as int) % 0x100);
      DrainLabelBytes(t, input, start, i + 1, end, asWritten);
      assert AddSum(t.checksum, input[i + 1..end]) == AddSum(s.checksum, input[i..end]) by {
        assert input[i..end][0] == input[i] && input[i..end][1..] == input[i + 1..end];
        AddSumStep(s.checksum, input[i..end]);
      }
    } else {
      assert input[i..end] == [];
      assert AddSum(s.checksum, input[i..end]) == s.checksum;
      assert s.(labelBuf := Padded(input[start..end], LABEL_SIZE), index := end - start,
                checksum := AddSum(s.checksum, input[i..end])) == s;
    }
  }

  /**
   * The value bytes input[start..end], none a NEWLINE except possibly the
   * check byte of a "Checksum" record, are stored one after another while they fit.
   */
  lemma {:induction false} DrainValueBytes(s: Rx, input: seq<Byte>, start: nat, i: nat, end: nat)
    requires WellFormed(s) && s.state == Value
    requires start <= i <= end <= |input| && end - start < VALUE_SIZE
    requires forall j :: start <= j < end ==> input[j] != NEWLINE || (j == start && LabelText(s) == CHECKSUM_LABEL)
    requires s.index == i - start && s.valueBuf == Padded(input[start..i], VALUE_SIZE)
    ensures var t := s.(valueBuf := Padded(input[start..end], VALUE_SIZE), index := end - start,
                        checksum := AddSum(s.checksum, input[i..end]));
      WellFormed(t) && Drain(s, input, i) == Drain(t, input, end)
    decreases end - i
  {
    if i < end {
      ValueStore(s, input, start, i);
      var t := s.(valueBuf := Padded(input[start..i + 1], VALUE_SIZE), index := i + 1 - start,
                  checksum := (s.checksum + input[i] as int) % 0x100);
      DrainValueBytes(t, input, start, i + 1, end);
      assert AddSum(t.checksum, input[i + 1..end]) == AddSum(s.checksum, input[i..end]) by {
        assert input[i..end][0] == input[i] && input[i..end][1..] == input[i + 1..end];
        AddSumStep(s.checksum, input[i..end]);
      }
    } else {
      assert input[i..end] == [];
      assert AddSum(s.checksum, input[i..end]) == s.checksum;
      assert s.(valueBuf := Padded(input[start..end], VALUE_SIZE), index := end - start,
                checksum := AddSum(s.checksum, input[i..end])) == s;
    }
  }

  /** Where the parts of a record sit in an input that begins with its wire form. */
  lemma RecordLayout(input: seq<Byte>, name: seq<Byte>, val: seq<Byte>)
    requires StartsWith(input, Record(name, val))
    ensures var n, m := |name|, |val|;
      && |Record(name, val)| == n + m + 2 <= |input|
      && input[0..n] == name
      && input[n] == TAB
      && input[n + 1..n + 1 + m] == val
      && input[n + 1 + m] == NEWLINE
      && input[0..n + m + 2] == Record(name, val)
      && (forall j :: 0 <= j < n ==> input[j] == name[j])
      && (forall j :: n < j < n + 1 + m ==> input[j] == val[j - n - 1])
  {
    var r := Record(name, val);
    assert input[..|r|] == r;
    assert forall j :: 0 <= j < |r| ==> input[j] == r[j] by {
      forall j | 0 <= j < |r| ensures input[j] == r[j] {
        assert input[..|r|][j] == input[j];
      }
    }
    assert input[0..|name|] == r[0..|name|];
    assert input[|name| + 1..|name| + 1 + |val|] == r[|name| + 1..|name| + 1 + |val|];
  }

  /** From the start of a record, a label of n bytes that fits and its TAB lead to VALUE with the label stored. */
  lemma LabelPhase(s: Rx, input: seq<Byte>, n: nat, asWritten: bool)
    requires AtRecordStart(s)
    requires n < LABEL_SIZE && n < |input| && input[n] == TAB
    requires forall j :: 0 <= j < n ==> input[j] != TAB
    ensures var t := Rx(Value, Padded(input[0..n], LABEL_SIZE), Zeros(VALUE_SIZE), 0, AddSum(s.checksum, input[0..n + 1]));
      WellFormed(t) && Drain(s, input, 0, asWritten) == Drain(t, input, n + 1, asWritten)
  {
    assert Zeros(LABEL_SIZE) == Padded(input[0..0], LABEL_SIZE);
    DrainLabelBytes(s, input, 0, 0, n, asWritten);
    var t1 := s.(labelBuf := Padded(input[0..n], LABEL_SIZE), index := n, checksum := AddSum(s.checksum, input[0..n]));
    AddSumSnoc(s.checksum, input, 0, n);
    assert Step(t1, input[n]) == Rx(Value, Padded(input[0..n], LABEL_SIZE), Zeros(VALUE_SIZE), 0, AddSum(s.checksum, input[0..n + 1]));
  }

  /**
   * In VALUE from a cleared buffer, a value of m bytes that fits and its
   * NEWLINE complete the record with the value stored; a "Checksum" record
   * needs at least its check byte.
   */
  lemma ValuePhase(t: Rx, input: seq<Byte>, p: nat, m: nat)
    requires WellFormed(t) && t.state == Value && t.index == 0 && t.valueBuf == Zeros(VALUE_SIZE)
    requires m < VALUE_SIZE && p + m < |input| && input[p + m] == NEWLINE
    requires forall j :: p <= j < p + m ==> input[j] != NEWLINE || (j == p && LabelText(t) == CHECKSUM_LABEL)
    requires m > 0 || LabelText(t) != CHECKSUM_LABEL
    ensures Drain(t, input, p)
         == (t.(state := RecordComplete, valueBuf := Padded(input[p..p + m], VALUE_SIZE), index := m,
                checksum := AddSum(t.checksum, input[p..p + m + 1])), p + m + 1)
  {
    assert Zeros(VALUE_SIZE) == Padded(input[p..p], VALUE_SIZE);
    DrainValueBytes(t, input, p, p, p + m);
    var t1 := t.(valueBuf := Padded(input[p..p + m], VALUE_SIZE), index := m, checksum := AddSum(t.checksum, input[p..p + m]));
    AddSumSnoc(t.checksum, input, p, p + m);
    assert Step(t1, input[p + m]) == t1.(state := RecordComplete, checksum := AddSum(t.checksum, input[p..p + m + 1]));
  }

  /** A label of n bytes, its TAB, a value of m bytes and its NEWLINE at the head of the input complete one record. */
  lemma RecordAt(s: Rx, input: seq<Byte>, n: nat, m: nat)
    requires AtRecordStart(s)
    requires n < LABEL_SIZE && m < VALUE_SIZE && n + 1 + m < |input|
    requires input[n] == TAB && input[n + 1 + m] == NEWLINE
    requires forall j :: 0 <= j < n ==> input[j] != TAB
    requires forall j :: n < j < n + 1 + m ==>
      input[j] != NEWLINE || (j == n + 1 && CStr(Padded(input[0..n], LABEL_SIZE)) == CHECKSUM_LABEL)
    requires m > 0 || CStr(Padded(input[0..n], LABEL_SIZE)) != CHECKSUM_LABEL
    ensures var r := Drain(s, input, 0);
      && r.1 == n + m + 2
      && r.0.state == RecordComplete
      && r.0.labelBuf == Padded(input[0..n], LABEL_SIZE)
      && r.0.valueBuf == Padded(input[n + 1..n + 1 + m], VALUE_SIZE)
  {
    LabelPhase(s, input, n, false);
    var t := Rx(Value, Padded(input[0..n], LABEL_SIZE), Zeros(VALUE_SIZE), 0, AddSum(s.checksum, input[0..n + 1]));
    ValuePhase(t, input, n + 1, m);
  }

  /** Where the TAB and the NEWLINE of a record at the head of the input lie, and what lies between them. */
  lemma RecordShape(input: seq<Byte>, name: seq<Byte>, val: seq<Byte>)
    requires StartsWith(input, Record(name, val))
    requires TAB !in name && ValueReadable(name, val)
    ensures var n, m := |name|, |val|;
      && n + 1 + m < |input| && input[n] == TAB && input[n + 1 + m] == NEWLINE
      && input[0..n] == name && input[n + 1..n + 1 + m] == val
      && |Record(name, val)| == n + m + 2
      && input[0..n + m + 2] == Record(name, val)
      && (forall j :: 0 <= j < n ==> input[j] != TAB)
      && (forall j :: n < j < n + 1 + m ==> input[j] != NEWLINE || (j == n + 1 && name == CHECKSUM_LABEL))
  {
    var n, m := |name|, |val|;
    RecordLayout(input, name, val);
    assert forall j :: 0 <= j < n ==> name[j] in name;
    if name == CHECKSUM_LABEL {
      assert forall k :: 1 <= k < m ==> val[k] == val[1..][k - 1] && val[1..][k - 1] in val[1..];
    } else {
      assert forall k :: 0 <= k < m ==> val[k] in val;
    }
  }

  /**
   * Round trip: from the start of a record, the wire form of a label and value
   * that fit their buffers is consumed up to and including its NEWLINE, and
   * leaves exactly that label, and that value when it holds no NUL, as the
   * completed record, with the checksum grown by the sum of the record's bytes.
   * The check byte of a "Checksum" record may be any byte.
   */
  lemma RecordDecodes(s: Rx, input: seq<Byte>, name: seq<Byte>, val: seq<Byte>)
    requires AtRecordStart(s) && StartsWith(input, Record(name, val))
    requires |name| < LABEL_SIZE && TAB !in name && NUL !in name
    requires |val| < VALUE_SIZE && ValueReadable(name, val)
    ensures var r := Drain(s, input, 0);
      && r.1 == |Record(name, val)|
      && r.0.state == RecordComplete
      && LabelText(r.0) == name
      && (NUL !in val ==> ValueText(r.0) == val)
      && r.0.checksum == AddSum(s.checksum, Record(name, val))
  {
    var n, m := |name|, |val|;
    PaddedCStr(name, LABEL_SIZE);
    RecordShape(input, name, val);
    RecordAt(s, input, n, m);
    DrainChecksum(s, input, 0);
    if NUL !in val {
      PaddedCStr(val, VALUE_SIZE);
    }
  }

  // ---------------------------------------------------------------------------
  // Resynchronisation after an over-long record

  /** In UNKNOWN, bytes up to the next NEWLINE only feed the checksum; the NEWLINE starts a record. */
  lemma {:induction false} UnknownSkipsLine(s: Rx, input: seq<Byte>, i: nat, nl: nat)
    requires WellFormed(s) && s.state == Unknown
    requires i <= nl < |input| && input[nl] == NEWLINE
    requires forall j :: i <= j < nl ==> input[j] != NEWLINE
    ensures var t := Rx(Label, Zeros(LABEL_SIZE), s.valueBuf, 0, AddSum(s.checksum, input[i..nl + 1]));
      AtRecordStart(t) && Drain(s, input, i) == Drain(t, input, nl + 1)
    decreases nl - i
  {
    var s1 := s.(checksum := (s.checksum + input[i] as int) % 0x100);
    assert AddSum(s1.checksum, input[i + 1..nl + 1]) == AddSum(s.checksum, input[i..nl + 1]) by {
      assert input[i..nl + 1][0] == input[i] && input[i..nl + 1][1..] == input[i + 1..nl + 1];
      AddSumStep(s.checksum, input[i..nl + 1]);
    }
    if i < nl {
      assert Step(s, input[i]) == s1;
      UnknownSkipsLine(s1, input, i + 1, nl);
    } else {
      assert input[i + 1..nl + 1] == [];
      assert Step(s, input[i]) == Rx(Label, Zeros(LABEL_SIZE), s.valueBuf, 0, AddSum(s.checksum, input[i..nl + 1]));
    }
  }

  /** In LABEL with a full buffer, a byte other than TAB drops the record. */
  lemma LabelOverflowStep(s: Rx, input: seq<Byte>, i: nat)
    requires WellFormed(s) && s.state == Label && s.index == LABEL_SIZE - 1
    requires i < |input| && input[i] != TAB
    ensures Drain(s, input, i) == Drain(s.(state := Unknown, checksum := (s.checksum + input[i] as int) % 0x100), input, i + 1)
  {
  }

  /** A label of more than LABEL_SIZE - 1 bytes starting at `start` drops the record at its LABEL_SIZE-th byte. */
  lemma LabelOverflowPhase(s: Rx, input: seq<Byte>, start: nat)
    requires WellFormed(s) && s.state == Label && s.index == 0 && s.labelBuf == Zeros(LABEL_SIZE)
    requires start + LABEL_SIZE <= |input|
    requires forall j :: start <= j < start + LABEL_SIZE ==> input[j] != TAB
    ensures var t := s.(state := Unknown, labelBuf := Padded(input[start..start + LABEL_SIZE - 1], LABEL_SIZE),
                        index := LABEL_SIZE - 1, checksum := AddSum(s.checksum, input[start..start + LABEL_SIZE]));
      WellFormed(t) && Drain(s, input, start) == Drain(t, input, start + LABEL_SIZE)
  {
    var h := start + LABEL_SIZE - 1;
    assert Zeros(LABEL_SIZE) == Padded(input[start..start], LABEL_SIZE);
    DrainLabelBytes(s, input, start, start, h, false);
    var t1 := s.(labelBuf := Padded(input[start..h], LABEL_SIZE), index := LABEL_SIZE - 1, checksum := AddSum(s.checksum, input[start..h]));
    LabelOverflowStep(t1, input, h);
    AddSumSnoc(s.checksum, input, start, h);
  }

  /** A label of n > LABEL_SIZE - 1 bytes at the head of the input is dropped up to the next NEWLINE, at nl. */
  lemma OverlongLabelAt(s: Rx, input: seq<Byte>, n: nat, nl: nat)
    requires AtRecordStart(s)
    requires LABEL_SIZE <= n <= nl < |input| && input[nl] == NEWLINE
    requires forall j :: 0 <= j < n ==> input[j] != TAB
    requires forall j :: LABEL_SIZE <= j < nl ==> input[j] != NEWLINE
    ensures var t := Rx(Label, Zeros(LABEL_SIZE), s.valueBuf, 0, AddSum(s.checksum, input[0..nl + 1]));
      AtRecordStart(t) && Drain(s, input, 0) == Drain(t, input, nl + 1)
  {
    LabelOverflowPhase(s, input, 0);
    var t := s.(state := Unknown, labelBuf := Padded(input[0..LABEL_SIZE - 1], LABEL_SIZE), index := LABEL_SIZE - 1,
                checksum := AddSum(s.checksum, input[0..LABEL_SIZE]));
    UnknownSkipsLine(t, input, LABEL_SIZE, nl);
    assert AddSum(t.checksum, input[LABEL_SIZE..nl + 1]) == AddSum(s.checksum, input[0..nl + 1]) by {
      AddSumAppend(s.checksum, input[0..LABEL_SIZE], input[LABEL_SIZE..nl + 1]);
      assert input[0..LABEL_SIZE] + input[LABEL_SIZE..nl + 1] == input[0..nl + 1];
    }
  }

  /**
   * Recovery: a record whose label does not fit the label buffer is dropped
   * whole; right after its NEWLINE the machine is back at the start of a
   * record, with every byte of it counted in the checksum.
   */
  lemma OverlongLabelSkipsRecord(s: Rx, input: seq<Byte>, name: seq<Byte>, val: seq<Byte>)
    requires AtRecordStart(s) && StartsWith(input, Record(name, val))
    requires |name| >= LABEL_SIZE && TAB !in name && NEWLINE !in name
    requires NEWLINE !in val
    ensures var t := Rx(Label, Zeros(LABEL_SIZE), s.valueBuf, 0, AddSum(s.checksum, Record(name, val)));
      AtRecordStart(t) && Drain(s, input, 0) == Drain(t, input, |Record(name, val)|)
  {
    var n, m := |name|, |val|;
    assert && n + 1 + m < |input| && input[n + 1 + m] == NEWLINE
           && |Record(name, val)| == n + m + 2
           && input[0..n + m + 2] == Record(name, val)
           && (forall j :: 0 <= j < n ==> input[j] != TAB)
           && (forall j :: LABEL_SIZE <= j < n + 1 + m ==> input[j] != NEWLINE) by {
      RecordLayout(input, name, val);
      assert forall j :: 0 <= j < n ==> name[j] in name;
      assert forall k :: 0 <= k < m ==> val[k] in val;
    }
    OverlongLabelAt(s, input, n, n + 1 + m);
  }

  /** In VALUE with a full buffer, a byte other than NEWLINE drops the record. */
  lemma ValueOverflowStep(s: Rx, input: seq<Byte>, i: nat)
    requires WellFormed(s) && s.state == Value && s.index == VALUE_SIZE - 1
    requires i < |input| && input[i] != NEWLINE
    ensures Drain(s, input, i) == Drain(s.(state := Unknown, checksum := (s.checksum + input[i] as int) % 0x100), input, i + 1)
  {
  }

  /** A value of more than VALUE_SIZE - 1 bytes starting at `p` drops the record at its VALUE_SIZE-th byte. */
  lemma ValueOverflowPhase(t: Rx, input: seq<Byte>, p: nat)
    requires WellFormed(t) && t.state == Value && t.index == 0 && t.valueBuf == Zeros(VALUE_SIZE)
    requires p + VALUE_SIZE <= |input|
    requires forall j :: p <= j < p + VALUE_SIZE ==> input[j] != NEWLINE
    ensures var u := t.(state := Unknown, valueBuf := Padded(input[p..p + VALUE_SIZE - 1], VALUE_SIZE),
                        index := VALUE_SIZE - 1, checksum := AddSum(t.checksum, input[p..p + VALUE_SIZE]));
      WellFormed(u) && Drain(t, input, p) == Drain(u, input, p + VALUE_SIZE)
  {
    var h := p + VALUE_SIZE - 1;
    assert Zeros(VALUE_SIZE) == Padded(input[p..p], VALUE_SIZE);
    DrainValueBytes(t, input, p, p, h);
    var t1 := t.(valueBuf := Padded(input[p..h], VALUE_SIZE), index := VALUE_SIZE - 1, checksum := AddSum(t.checksum, input[p..h]));
    ValueOverflowStep(t1, input, h);
    AddSumSnoc(t.checksum, input, p, h);
  }

  /**
   * A label of n bytes that fits, its TAB and a value of VALUE_SIZE bytes or
   * more at the head of the input are dropped up to the next NEWLINE, at nl.
   */
  lemma OverlongValueAt(s: Rx, input: seq<Byte>, n: nat, nl: nat)
    requires AtRecordStart(s)
    requires n < LABEL_SIZE && n + 1 + VALUE_SIZE <= nl < |input| && input[n] == TAB && input[nl] == NEWLINE
    requires forall j :: 0 <= j < n ==> input[j] != TAB
    requires forall j :: n + 1 <= j < nl ==> input[j] != NEWLINE
    ensures var t := Rx(Label, Zeros(LABEL_SIZE), Padded(input[n + 1..n + VALUE_SIZE], VALUE_SIZE), 0,
                        AddSum(s.checksum, input[0..nl + 1]));
      AtRecordStart(t) && Drain(s, input, 0) == Drain(t, input, nl + 1)
  {
    var p := n + 1;
    LabelPhase(s, input, n, false);
    var t0 := Rx(Value, Padded(input[0..n], LABEL_SIZE), Zeros(VALUE_SIZE), 0, AddSum(s.checksum, input[0..p]));
    ValueOverflowPhase(t0, input, p);
    var u := t0.(state := Unknown, valueBuf := Padded(input[p..p + VALUE_SIZE - 1], VALUE_SIZE),
                 index := VALUE_SIZE - 1, checksum := AddSum(t0.checksum, input[p..p + VALUE_SIZE]));
    UnknownSkipsLine(u, input, p + VALUE_SIZE, nl);
    assert AddSum(u.checksum, input[p + VALUE_SIZE..nl + 1]) == AddSum(s.checksum, input[0..nl + 1]) by {
      AddSumAppend(s.checksum, input[0..p], input[p..p + VALUE_SIZE]);
      assert input[0..p] + input[p..p + VALUE_SIZE] == input[0..p + VALUE_SIZE];
      AddSumAppend(s.checksum, input[0..p + VALUE_SIZE], input[p + VALUE_SIZE..nl + 1]);
      assert input[0..p + VALUE_SIZE] + input[p + VALUE_SIZE..nl + 1] == input[0..nl + 1];
    }
  }

  /**
   * Recovery: a record whose label fits but whose value does not fit the
   * value buffer (VALUE_SIZE bytes or more) is dropped whole; right after its
   * NEWLINE the machine is back at the start of a record, with every byte of
   * it counted in the checksum and the first VALUE_SIZE - 1 value bytes left
   * in the value buffer.
   */
  lemma OverlongValueSkipsRecord(s: Rx, input: seq<Byte>, name: seq<Byte>, val: seq<Byte>)
    requires AtRecordStart(s) && StartsWith(input, Record(name, val))
    requires |name| < LABEL_SIZE && TAB !in name
    requires |val| >= VALUE_SIZE && NEWLINE !in val
    ensures var t := Rx(Label, Zeros(LABEL_SIZE), Padded(val[..VALUE_SIZE - 1], VALUE_SIZE), 0,
                        AddSum(s.checksum, Record(name, val)));
      AtRecordStart(t) && Drain(s, input, 0) == Drain(t, input, |Record(name, val)|)
  {
    var n, m := |name|, |val|;
    assert && n + 1 + m < |input| && input[n] == TAB && input[n + 1 + m] == NEWLINE
           && |Record(name, val)| == n + m + 2
           && input[0..n + m + 2] == Record(name, val)
           && input[n + 1..n + VALUE_SIZE] == val[..VALUE_SIZE - 1]
           && (forall j :: 0 <= j < n ==> input[j] != TAB)
           && (forall j :: n + 1 <= j < n + 1 + m ==> input[j] != NEWLINE) by {
      RecordLayout(input, name, val);
      assert forall j :: 0 <= j < n ==> name[j] in name;
      assert forall k :: 0 <= k < m ==> val[k] in val;
      assert input[n + 1..n + VALUE_SIZE] == input[n + 1..n + 1 + m][..VALUE_SIZE - 1];
    }
    OverlongValueAt(s, input, n, n + 1 + m);
  }

  // ---------------------------------------------------------------------------
  // The stores as written

  /**
   * The stores of the receive loop as written, `fieldLabel[rxBufIndex++] = c`
   * and `fieldValue[rxBufIndex++] = c`, have no bound and a byte-wide index:
   * the buffer positions written by n consecutive stores starting at `index`.
   */
  function StorePositionsAsWritten(index: uint8, n: nat): (ps: seq<nat>)
    ensures |ps| == n
    decreases n
  {
    if n == 0 then [] else [index as nat] + StorePositionsAsWritten((index + 1) % 0x100, n - 1)
  }

  /** As written, the k-th store goes to position (index + k) mod 256. */
  lemma {:induction false} StorePositionsWrap(index: uint8, n: nat)
    ensures forall k :: 0 <= k < n ==> StorePositionsAsWritten(index, n)[k] == (index + k) % 0x100
    decreases n
  {
    if n > 0 {
      StorePositionsWrap((index + 1) % 0x100, n - 1);
      forall k | 0 < k < n
        ensures StorePositionsAsWritten(index, n)[k] == (index + k) % 0x100
      {
        ModAdd(index + 1, k - 1);
      }
    }
  }

  /**
   * As written, the label is stored from position 0 without a bound: a label
   * of LABEL_SIZE bytes already puts its last byte in the cell of the
   * terminating NUL, and every byte after that lands at position 9, 10, ...,
   * past the end of the 9-byte fieldLabel.
   */
  lemma LabelOverrunAsWritten(n: nat)
    requires LABEL_SIZE <= n <= 0x100
    ensures StorePositionsAsWritten(0, n)[LABEL_SIZE - 1] == LABEL_SIZE - 1
    // byte k is stored at position k, which for k >= LABEL_SIZE is past the buffer
    ensures forall k :: LABEL_SIZE <= k < n ==> StorePositionsAsWritten(0, n)[k] == k
  {
    StorePositionsWrap(0, n);
  }

  /**
   * As written, the value is stored from position 0 without a bound: a value
   * of VALUE_SIZE bytes puts its last byte in the cell of the terminating NUL,
   * and every byte after that lands past the end of the 33-byte fieldValue.
   */
  lemma ValueOverrunAsWritten(n: nat)
    requires VALUE_SIZE <= n <= 0x100
    ensures StorePositionsAsWritten(0, n)[VALUE_SIZE - 1] == VALUE_SIZE - 1
    // byte k is stored at position k, which for k >= VALUE_SIZE is past the buffer
    ensures forall k :: VALUE_SIZE <= k < n ==> StorePositionsAsWritten(0, n)[k] == k
  {
    StorePositionsWrap(0, n);
  }

  // ---------------------------------------------------------------------------
  // The check byte as written

  /**
   * As written, the value of a "Checksum" record ends at the first NEWLINE,
   * even when that NEWLINE is the check byte itself. The record then completes
   * one byte early: the block's own closing NEWLINE is left unread, and the
   * checksum processField sees lacks it.
   */
  lemma CheckByteNewlineCutsRecordAsWritten(s: Rx, input: seq<Byte>)
    requires AtRecordStart(s) && StartsWith(input, Record(CHECKSUM_LABEL, [NEWLINE]))
    ensures var r := Drain(s, input, 0, true);
      && r.1 == |CHECKSUM_LABEL| + 2 == |Record(CHECKSUM_LABEL, [NEWLINE])| - 1
      && r.0.state == RecordComplete
      && LabelText(r.0) == CHECKSUM_LABEL
      && r.0.checksum == AddSum(s.checksum, input[..r.1])
      && input[r.1] == NEWLINE
  {
    var n := |CHECKSUM_LABEL|;
    RecordLayout(input, CHECKSUM_LABEL, [NEWLINE]);
    assert input[0..n] == CHECKSUM_LABEL;
    assert forall j :: 0 <= j < n ==> input[j] != TAB by {
      assert forall j :: 0 <= j < n ==> input[j] == CHECKSUM_LABEL[j];
    }
    LabelPhase(s, input, n, true);
    var t := Rx(Value, Padded(input[0..n], LABEL_SIZE), Zeros(VALUE_SIZE), 0, AddSum(s.checksum, input[0..n + 1]));
    AddSumSnoc(s.checksum, input, 0, n + 1);
    assert input[n + 1] == NEWLINE;
    var t2 := Step(t, input[n + 1], true);
    assert t2 == t.(state := RecordComplete, checksum := AddSum(s.checksum, input[0..n + 2]));
    assert Drain(s, input, 0, true) == (t2, n + 2);
    PaddedCStr(CHECKSUM_LABEL, LABEL_SIZE);
    assert input[..n + 2] == input[0..n + 2];
  }

  /**
   * The example: with a running checksum of 176 before the record, the block
   * ending in a NEWLINE check byte sums to 0 modulo 256, yet as written the
   * checksum processField sees is 246, so the valid block is not committed.
   */
  lemma CheckByteNewlineFailsBlockAsWritten(s: Rx, input: seq<Byte>)
    requires AtRecordStart(s) && StartsWith(input, Record(CHECKSUM_LABEL, [NEWLINE])) && s.checksum == 176
    ensures AddSum(s.checksum, Record(CHECKSUM_LABEL, [NEWLINE])) == 0
    ensures Drain(s, input, 0, true).0.checksum == 246
  {
    CheckByteNewlineCutsRecordAsWritten(s, input);
    var rec := Record(CHECKSUM_LABEL, [NEWLINE]);
    assert input[..10] == rec[..10];
    CheckByteNewlineSums();
  }

  /** The byte sums behind the example above, built up from the label's. */
  lemma CheckByteNewlineSums()
    ensures ByteSum(Record(CHECKSUM_LABEL, [NEWLINE])[..10]) == 838
    ensures ByteSum(Record(CHECKSUM_LABEL, [NEWLINE])) == 848
  {
    var head := CHECKSUM_LABEL + [TAB];
    assert ByteSum(CHECKSUM_LABEL) == 819;
    assert [TAB][1..] == [] && [NEWLINE][1..] == [];
    assert ByteSum([TAB]) == 9 && ByteSum([NEWLINE]) == 10;
    ByteSumAppend(CHECKSUM_LABEL, [TAB]);
    ByteSumAppend(head, [NEWLINE]);
    ByteSumAppend(head + [NEWLINE], [NEWLINE]);
    assert Record(CHECKSUM_LABEL, [NEWLINE]) == head + [NEWLINE] + [NEWLINE];
    assert Record(CHECKSUM_LABEL, [NEWLINE])[..10] == head + [NEWLINE];
  }
}
