/**
 * The VEDirectInput object (src/sensors/vedirect.h, src/sensors/vedirect.cpp):
 * its receive buffers, index, checksum and receive state, its field registry
 * and its transform mode, with the methods that update them in place. Each
 * method is proved against the functions of the Receiver, Registry, Commit
 * and Decoder modules.
 */
module VEDirect {
  import opened VEDirectTypes
  import opened Registry
  import opened Receiver
  import opened Commit
  import Decoder

  class VEDirectInput {
    /** Receive buffers for the label and the value of the current record. */
    const fieldLabel: array<Byte>
    const fieldValue: array<Byte>
    /** Index into the buffer being filled. */
    var rxBufIndex: nat
    /** Running checksum of the bytes received since the last "Checksum" record. */
    var checksum: uint8
    var receiveState: RxState
    /** The field registry (VEDirectData). */
    const data: array<FieldEntry>
    /** mode_signalKUnitTransform: 0 publishes raw text, anything else applies the unit transforms. */
    var modeSignalKUnitTransform: uint8

    /** The receive machine's state as a value. */
    ghost function RxView(): Rx
      reads this, fieldLabel, fieldValue
    {
      Receiver.Rx(receiveState, fieldLabel[..], fieldValue[..], rxBufIndex, checksum)
    }

    /**
     * The object invariant: the buffers and the registry have their declared
     * sizes, the index stays inside the buffer being filled, both buffers keep
     * their terminating NUL and every text of the registry fits its buffer.
     */
    ghost predicate Valid()
      reads this, fieldLabel, fieldValue, data
    {
      && fieldLabel.Length == LABEL_SIZE
      && fieldValue.Length == VALUE_SIZE
      && data.Length == TOTAL_LABELS
      && fieldLabel != fieldValue
      && WellFormed(RxView())
      && Terminated(RxView())
      && Decoder.TextsBounded(data[..])
    }

    /**
     * The constructor: receive state UNKNOWN, index and checksum 0, a cleared
     * label buffer and the registry filled with its 51 descriptors.
     */
    constructor (mode: uint8 := 1)
      ensures Valid()
      ensures RxView().state == Unknown && RxView().labelBuf == Zeros(LABEL_SIZE) && RxView().index == 0 && RxView().checksum == 0
      ensures data[..] == Table() && modeSignalKUnitTransform == mode
    {
      fieldLabel := new Byte[LABEL_SIZE](_ => NUL);
      fieldValue := new Byte[VALUE_SIZE](_ => NUL);
      data := new FieldEntry[TOTAL_LABELS](i requires 0 <= i < TOTAL_LABELS => Table()[i]);
      modeSignalKUnitTransform := mode;
      receiveState := Unknown;
      rxBufIndex := 0;
      checksum := 0;
      new;
      assert data[..] == Table();
      ClearLabelBuffer();
    }

    /** setSignalKUnitTransform: only the mode changes. */
    method SetSignalKUnitTransform(mode: uint8)
      requires Valid()
      modifies this
      ensures Valid() && RxView() == old(RxView())
      ensures modeSignalKUnitTransform == mode
    {
      modeSignalKUnitTransform := mode;
    }

    /** clearLabelBuffer: zero the label buffer and reset the index; nothing else changes. */
    method ClearLabelBuffer()
      requires fieldLabel.Length == LABEL_SIZE && fieldValue.Length == VALUE_SIZE
      requires data.Length == TOTAL_LABELS && fieldLabel != fieldValue
      requires fieldValue[VALUE_SIZE - 1] == NUL && Decoder.TextsBounded(data[..])
      modifies this, fieldLabel
      ensures Valid()
      ensures RxView() == old(RxView()).(labelBuf := Zeros(LABEL_SIZE), index := 0)
      ensures modeSignalKUnitTransform == old(modeSignalKUnitTransform)
    {
      var ii := 0;
      while ii < LABEL_SIZE
        invariant 0 <= ii <= LABEL_SIZE
        invariant forall k :: 0 <= k < ii ==> fieldLabel[k] == NUL
        modifies fieldLabel
      {
        fieldLabel[ii] := NUL;
        ii := ii + 1;
      }
      rxBufIndex := 0;
      assert fieldLabel[..] == Zeros(LABEL_SIZE);
    }

    /** clearValueBuffer: zero the value buffer and reset the index; nothing else changes. */
    method ClearValueBuffer()
      requires fieldLabel.Length == LABEL_SIZE && fieldValue.Length == VALUE_SIZE
      requires data.Length == TOTAL_LABELS && fieldLabel != fieldValue
      requires fieldLabel[LABEL_SIZE - 1] == NUL && Decoder.TextsBounded(data[..])
      modifies this, fieldValue
      ensures Valid()
      ensures RxView() == old(RxView()).(valueBuf := Zeros(VALUE_SIZE), index := 0)
      ensures modeSignalKUnitTransform == old(modeSignalKUnitTransform)
    {
      var ii := 0;
      while ii < VALUE_SIZE
        invariant 0 <= ii <= VALUE_SIZE
        invariant forall k :: 0 <= k < ii ==> fieldValue[k] == NUL
        modifies fieldValue
      {
        fieldValue[ii] := NUL;
        ii := ii + 1;
      }
      rxBufIndex := 0;
      assert fieldValue[..] == Zeros(VALUE_SIZE);
    }

    /**
     * getVEDirectIndex: scan the registry for the first entry whose label
     * equals `key`; None where the source returns -1.
     */
    method GetVEDirectIndex(key: seq<Byte>) returns (r: Option<nat>)
      requires Valid()
      ensures r == IndexOf(data[..], key)
      ensures r.Some? ==> r.value < TOTAL_LABELS && data[r.value].name == key
      ensures r.None? <==> forall j :: 0 <= j < TOTAL_LABELS ==> data[j].name != key
    {
      var ii := 0;
      while ii < TOTAL_LABELS
        invariant 0 <= ii <= TOTAL_LABELS
        invariant forall j :: 0 <= j < ii ==> data[j].name != key
      {
        if data[ii].name == key {
          assert data[..][ii].name == key;
          return Some(ii);
        }
        ii := ii + 1;
      }
      return None;
    }

    /**
     * commit: every DIRTY entry becomes VALID and publishes its pending value
     * through its unit transform policy.
     */
    method Commit()
      requires Valid()
      modifies data
      ensures Valid()
      ensures data[..] == CommitAll(old(data[..]), modeSignalKUnitTransform)
    {
      for ii := 0 to TOTAL_LABELS
        invariant forall j :: 0 <= j < ii ==> data[j] == CommitEntry(old(data[j]), modeSignalKUnitTransform)
        invariant forall j :: ii <= j < TOTAL_LABELS ==> data[j] == old(data[j])
      {
        if data[ii].status == DataDirty {
          var e := data[ii].(status := DataValid);
          if modeSignalKUnitTransform == 0 {
            e := e.(valueConfirmed := Text(e.valuePending));
          } else if e.valuePending != NO_DATA {
            var factor := e.unitTransformFactor;
            if factor > 0 {
              e := e.(valueConfirmed := Scaled(e.valuePending, factor));
            } else if factor == 0 {
              e := e.(valueConfirmed := Text(e.valuePending));
            } else if factor == -1 {
              if StartsWith(e.valuePending, "ON") {
                e := e.(valueConfirmed := Text("1"));
              } else if StartsWith(e.valuePending, "OFF") {
                e := e.(valueConfirmed := Text("0"));
              } else {
                e := e.(valueConfirmed := Text(InvalidMarker(e.valuePending)));
              }
            } else if factor == -273 {
              e := e.(valueConfirmed := Kelvin(e.valuePending));
            } else {
              e := e.(valueConfirmed := Text(e.valuePending));
            }
          }
          data[ii] := e;
        }
      }
    }

    /**
     * processField on the completed record in the buffers, at time `now`:
     * a "Checksum" record commits when the checksum is 0 and restarts it;
     * any other label stores its value as pending in its entry.
     */
    method ProcessField(now: uint32)
      requires Valid()
      modifies this, data
      ensures Valid()
      ensures var (es, cs) := Decoder.ProcessField(old(data[..]), old(checksum), LabelText(old(RxView())),
                                                   ValueText(old(RxView())), now, modeSignalKUnitTransform);
        data[..] == es && RxView() == old(RxView()).(checksum := cs)
      ensures modeSignalKUnitTransform == old(modeSignalKUnitTransform)
    {
      var fieldName := CStr(fieldLabel[..]);
      if fieldName == CHECKSUM_LABEL {
        if checksum == 0 {
          Commit();
        }
        checksum := 0;
        return;
      }
      var index := GetVEDirectIndex(fieldName);
      match index
      case Some(i) =>
        data[i] := data[i].(status := DataDirty, lastUpdate := now, valuePending := CStr(fieldValue[..]));
      case None =>
    }

    /**
     * One pass of the receive loop: add the byte to the checksum and advance
     * the state machine, storing the byte in the buffer being filled. The
     * check byte of a "Checksum" record is stored even when it is NEWLINE.
     */
    method ReceiveByte(c: Byte)
      requires Valid()
      modifies this, fieldLabel, fieldValue
      ensures Valid() && RxView() == Step(old(RxView()), c)
      ensures modeSignalKUnitTransform == old(modeSignalKUnitTransform)
    {
      checksum := (checksum + c as int) % 0x100;
      match receiveState
      case Label =>
        if c != TAB {
          if rxBufIndex < LABEL_SIZE - 1 {
            fieldLabel[rxBufIndex] := c;
            rxBufIndex := rxBufIndex + 1;
          } else {
            receiveState := Unknown;
          }
        } else {
          receiveState := Value;
          ClearValueBuffer();
        }
      case Value =>
        if c != NEWLINE || (rxBufIndex == 0 && CStr(fieldLabel[..]) == CHECKSUM_LABEL) {
          if rxBufIndex < VALUE_SIZE - 1 {
            fieldValue[rxBufIndex] := c;
            rxBufIndex := rxBufIndex + 1;
          } else {
            receiveState := Unknown;
          }
        } else {
          receiveState := RecordComplete;
        }
      case _ =>
        if c == NEWLINE {
          receiveState := Label;
          ClearLabelBuffer();
        }
    }

    /**
     * The onAvailable callback over the bytes `input` the stream has ready:
     * read until a record completes or the bytes run out, then process a
     * completed record and go back to LABEL. Returns how many bytes it read.
     */
    method OnAvailable(input: seq<Byte>, now: uint32) returns (consumed: nat)
      requires Valid()
      modifies this, fieldLabel, fieldValue, data
      ensures Valid()
      ensures var d := Decoder.DecoderState(old(RxView()), old(data[..]), old(modeSignalKUnitTransform));
        Decoder.OnAvailable(d, input, now) == (Decoder.DecoderState(RxView(), data[..], modeSignalKUnitTransform), consumed)
    {
      consumed := 0;
      while consumed < |input| && receiveState != RecordComplete
        invariant Valid() && consumed <= |input|
        invariant Drain(RxView(), input, consumed) == Drain(old(RxView()), input, 0)
        invariant data[..] == old(data[..])
        invariant modeSignalKUnitTransform == old(modeSignalKUnitTransform)
        decreases |input| - consumed
      {
        ReceiveByte(input[consumed]);
        consumed := consumed + 1;
      }
      if receiveState == RecordComplete {
        ProcessField(now);
        receiveState := Label;
        ClearLabelBuffer();
      }
    }
  }
}
