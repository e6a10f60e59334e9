/**
 * One callback of the decoder as a function of its state: the receive loop,
 * then, for a completed record, processField and the reset to LABEL
 * (VEDirectInput::enable and VEDirectInput::processField, src/sensors/vedirect.cpp).
 */
module Decoder {
  import opened VEDirectTypes
  import opened Registry
  import opened Commit
  import opened Receiver

  /**
   * processField on the registry `entries` and the running checksum, for a
   * completed record with label `name` and value `value`, at time `now`.
   * Returns the new registry and the new checksum.
   */
  function ProcessField(entries: seq<FieldEntry>, checksum: uint8, name: seq<Byte>, value: seq<Byte>,
                        now: uint32, mode: uint8): (r: (seq<FieldEntry>, uint8))
    ensures |r.0| == |entries|
    ensures name == CHECKSUM_LABEL ==> r.1 == 0
    ensures name != CHECKSUM_LABEL ==> r.1 == checksum
    ensures name != CHECKSUM_LABEL ==> forall j :: 0 <= j < |entries| ==> r.0[j].valueConfirmed == entries[j].valueConfirmed
  {
    if name == CHECKSUM_LABEL then
      if checksum == 0 then (CommitAll(entries, mode), 0) else (entries, 0)
    else
      match IndexOf(entries, name)
      case None => (entries, checksum)
      case Some(i) => (entries[i := entries[i].(status := DataDirty, lastUpdate := now, valuePending := value)], checksum)
  }

  /**
   * A "Checksum" record ends the block: the registry is committed when the
   * running checksum is 0 and left alone otherwise, and the checksum restarts
   * from 0 either way.
   */
  lemma ChecksumRecordGatesCommit(entries: seq<FieldEntry>, checksum: uint8, value: seq<Byte>, now: uint32, mode: uint8)
    ensures var r := ProcessField(entries, checksum, CHECKSUM_LABEL, value, now, mode);
      && r.1 == 0
      && (checksum == 0 ==> r.0 == CommitAll(entries, mode))
      && (checksum != 0 ==> r.0 == entries)
  {
  }

  /**
   * A record whose label first appears in the registry at position i marks
   * that entry DIRTY with the value and the time; every other entry, the
   * entry's confirmed value and the checksum stay as they were.
   */
  lemma RecognisedLabelMarksItsEntry(entries: seq<FieldEntry>, checksum: uint8, name: seq<Byte>, value: seq<Byte>,
                                     now: uint32, mode: uint8, i: nat)
    requires name != CHECKSUM_LABEL
    requires i < |entries| && entries[i].name == name
    requires forall k :: 0 <= k < i ==> entries[k].name != name
    ensures var r := ProcessField(entries, checksum, name, value, now, mode);
      && r.1 == checksum
      && r.0[i] == entries[i].(status := DataDirty, lastUpdate := now, valuePending := value)
      && (forall j :: 0 <= j < |entries| && j != i ==> r.0[j] == entries[j])
  {
    assert IndexOf(entries, name) == Some(i);
  }

  /** A record whose label is not in the registry changes nothing. */
  lemma UnknownLabelIgnored(entries: seq<FieldEntry>, checksum: uint8, name: seq<Byte>, value: seq<Byte>,
                            now: uint32, mode: uint8)
    requires name != CHECKSUM_LABEL
    requires forall k :: 0 <= k < |entries| ==> entries[k].name != name
    ensures ProcessField(entries, checksum, name, value, now, mode) == (entries, checksum)
  {
  }

  /**
   * A failed checksum does not discard the block's pending values: they stay
   * DIRTY and the next block that passes its checksum publishes them.
   */
  lemma FailedBlockPublishedByNextBlock(entries: seq<FieldEntry>, i: nat, bad: uint8, value: seq<Byte>,
                                        now: uint32, mode: uint8)
    requires i < |entries| && entries[i].status == DataDirty && bad != 0
    ensures var r1 := ProcessField(entries, bad, CHECKSUM_LABEL, value, now, mode);
      var r2 := ProcessField(r1.0, 0, CHECKSUM_LABEL, value, now, mode);
      && r1.0[i] == entries[i]
      && r2.0[i].status == DataValid
      && (mode == 0 ==> r2.0[i].valueConfirmed == Text(entries[i].valuePending))
  {
    ChecksumRecordGatesCommit(entries, bad, value, now, mode);
    ChecksumRecordGatesCommit(entries, 0, value, now, mode);
  }

  // ---------------------------------------------------------------------------
  // One callback

  /** The decoder's state: the receive machine, the registry and the transform mode. */
  datatype DecoderState = DecoderState(rx: Rx, entries: seq<FieldEntry>, mode: uint8)

  /**
   * What a callback does after its loop, given the state `t` the loop left:
   * a completed record is processed and the machine goes back to LABEL with a
   * cleared label buffer; otherwise the registry waits and the machine stays
   * where the loop left it.
   */
  function ProcessIfComplete(entries: seq<FieldEntry>, mode: uint8, t: Rx, now: uint32): (r: DecoderState)
    requires WellFormed(t)
    ensures WellFormed(r.rx) && r.rx.state != RecordComplete
    ensures r.mode == mode && |r.entries| == |entries|
    ensures t.state == RecordComplete ==> AtRecordStart(r.rx)
    ensures t.state != RecordComplete ==> r == DecoderState(t, entries, mode)
  {
    if t.state == RecordComplete then
      var (es, cs) := ProcessField(entries, t.checksum, LabelText(t), ValueText(t), now, mode);
      DecoderState(Rx(Label, Zeros(LABEL_SIZE), t.valueBuf, 0, cs), es, mode)
    else
      DecoderState(t, entries, mode)
  }

  /**
   * One onAvailable callback over the bytes `input` available to it: drain
   * until a record completes or the input runs out, then process a completed
   * record, even one that ends on the last byte available.
   * Returns the new state and the number of bytes read.
   */
  function OnAvailable(d: DecoderState, input: seq<Byte>, now: uint32): (r: (DecoderState, nat))
    requires WellFormed(d.rx)
    ensures WellFormed(r.0.rx) && r.1 == Drain(d.rx, input, 0).1 <= |input|
    ensures r.0.rx.state != RecordComplete
    ensures r.0.mode == d.mode && |r.0.entries| == |d.entries|
    ensures Drain(d.rx, input, 0).0.state == RecordComplete ==> AtRecordStart(r.0.rx)
    ensures Drain(d.rx, input, 0).0.state != RecordComplete ==> r == (d.(rx := Drain(d.rx, input, 0).0), |input|)
  {
    var (t, n) := Drain(d.rx, input, 0);
    (ProcessIfComplete(d.entries, d.mode, t, now), n)
  }

  /**
   * A callback hands on at most one record: bytes are left unread only after
   * a completed record, which leaves the machine at the start of the next, and
   * no record completes before the last byte read.
   */
  lemma OneRecordPerCallback(d: DecoderState, input: seq<Byte>, now: uint32)
    requires WellFormed(d.rx) && d.rx.state != RecordComplete
    ensures var r := OnAvailable(d, input, now);
      r.1 < |input| ==> AtRecordStart(r.0.rx)
    ensures var r := OnAvailable(d, input, now);
      forall k :: 0 <= k < r.1 ==> Drain(d.rx, input[..k], 0).0.state != RecordComplete
  {
    var n := Drain(d.rx, input, 0).1;
    forall k | 0 <= k < n ensures Drain(d.rx, input[..k], 0).0.state != RecordComplete {
      DrainStopsAtFirstRecord(d.rx, input, 0, k);
    }
  }

  /** A callback is the drain of its loop followed by the processing of whatever the drain stopped on. */
  lemma CallbackDrainsThenProcesses(d: DecoderState, input: seq<Byte>, now: uint32)
    requires WellFormed(d.rx)
    ensures OnAvailable(d, input, now) == (ProcessIfComplete(d.entries, d.mode, Drain(d.rx, input, 0).0, now), Drain(d.rx, input, 0).1)
  {
  }

  /**
   * When the bytes `a` complete no record, a callback on `a + b` processes
   * what draining `b` stops on, starting from the receiver `a` left behind ...
   */
  lemma JoinedCallbackState(d: DecoderState, a: seq<Byte>, b: seq<Byte>, now: uint32)
    requires WellFormed(d.rx) && Drain(d.rx, a, 0).0.state != RecordComplete
    ensures OnAvailable(d, a + b, now).0 == ProcessIfComplete(d.entries, d.mode, Drain(Drain(d.rx, a, 0).0, b, 0).0, now)
  {
    DrainSplit(d.rx, a, b, 0);
  }

  /** ... and reads all of `a` and then as much of `b` as that drain reads. */
  lemma JoinedCallbackCount(d: DecoderState, a: seq<Byte>, b: seq<Byte>, now: uint32)
    requires WellFormed(d.rx) && Drain(d.rx, a, 0).0.state != RecordComplete
    ensures OnAvailable(d, a + b, now).1 == |a| + Drain(Drain(d.rx, a, 0).0, b, 0).1
  {
    DrainSplit(d.rx, a, b, 0);
  }

  /**
   * A token cut off between callbacks carries on unchanged: when the bytes
   * `a` of one callback complete no record (that callback then keeps the
   * receiver where its loop ended and reads all of `a`, by the contract of
   * `OnAvailable`), the callback on `b` that follows it ends in the state a
   * single callback on `a + b` reaches. Only the second callback's time
   * matters, since only it can process a record.
   */
  lemma SplitCallbackSameState(d: DecoderState, a: seq<Byte>, b: seq<Byte>, now1: uint32, now2: uint32)
    requires WellFormed(d.rx) && Drain(d.rx, a, 0).0.state != RecordComplete
    ensures OnAvailable(OnAvailable(d, a, now1).0, b, now2).0 == OnAvailable(d, a + b, now2).0
  {
    JoinedCallbackState(d, a, b, now2);
    CallbackDrainsThenProcesses(OnAvailable(d, a, now1).0, b, now2);
  }

  // The instance of the contract of `OnAvailable` that the count below needs.
  lemma NoRecordKeepsReceiver(d: DecoderState, a: seq<Byte>, now: uint32)
    requires WellFormed(d.rx) && Drain(d.rx, a, 0).0.state != RecordComplete
    ensures OnAvailable(d, a, now).0.rx == Drain(d.rx, a, 0).0
  {
  }

  // The step from the three facts below to the count of the two callbacks,
  // kept apart so that the solver meets it without the callbacks' definitions.
  lemma CountsAdd(d: DecoderState, a: seq<Byte>, b: seq<Byte>, now1: uint32, now2: uint32)
    requires WellFormed(d.rx) && Drain(d.rx, a, 0).0.state != RecordComplete
    requires OnAvailable(d, a + b, now2).1 == |a| + Drain(Drain(d.rx, a, 0).0, b, 0).1
    requires OnAvailable(OnAvailable(d, a, now1).0, b, now2).1 == Drain(OnAvailable(d, a, now1).0.rx, b, 0).1
    requires OnAvailable(d, a, now1).0.rx == Drain(d.rx, a, 0).0
    ensures OnAvailable(d, a + b, now2).1 == |a| + OnAvailable(OnAvailable(d, a, now1).0, b, now2).1
  {
  }

  /** ... and the two callbacks read as many bytes between them as the single one. */
  lemma SplitCallbackSameCount(d: DecoderState, a: seq<Byte>, b: seq<Byte>, now1: uint32, now2: uint32)
    requires WellFormed(d.rx) && Drain(d.rx, a, 0).0.state != RecordComplete
    ensures OnAvailable(d, a + b, now2).1 == |a| + OnAvailable(OnAvailable(d, a, now1).0, b, now2).1
  {
    JoinedCallbackCount(d, a, b, now2);
    NoRecordKeepsReceiver(d, a, now1);
    CountsAdd(d, a, b, now1, now2);
  }

  /**
   * Delivery in chunks: cutting the bytes a callback reads at any point
   * before the last of them, and delivering the two parts in two callbacks,
   * reaches the same state as delivering them in one.
   */
  lemma RecordSplitAnywhere(d: DecoderState, input: seq<Byte>, cut: nat, now1: uint32, now2: uint32)
    requires WellFormed(d.rx) && d.rx.state != RecordComplete
    requires cut < OnAvailable(d, input, now2).1
    ensures var r1 := OnAvailable(d, input[..cut], now1);
      var r2 := OnAvailable(r1.0, input[cut..], now2);
      r1.1 == cut && r2.0 == OnAvailable(d, input, now2).0 && OnAvailable(d, input, now2).1 == cut + r2.1
  {
    DrainStopsAtFirstRecord(d.rx, input, 0, cut);
    assert input[..cut] + input[cut..] == input;
    SplitCallbackSameState(d, input[..cut], input[cut..], now1, now2);
    SplitCallbackSameCount(d, input[..cut], input[cut..], now1, now2);
  }

  /**
   * End to end for a data record: from the start of a record, a callback whose
   * input begins with the wire form of a recognised label and a value that fit
   * their buffers reads exactly that record, marks the label's entry DIRTY with
   * the value and the time, and adds the record's bytes to the checksum.
   */
  lemma DataRecordUpdatesEntry(d: DecoderState, input: seq<Byte>, now: uint32, name: seq<Byte>, val: seq<Byte>, i: nat)
    requires AtRecordStart(d.rx) && StartsWith(input, Record(name, val))
    requires |name| < LABEL_SIZE && TAB !in name && NUL !in name && name != CHECKSUM_LABEL
    requires |val| < VALUE_SIZE && NEWLINE !in val && NUL !in val
    requires i < |d.entries| && d.entries[i].name == name
    requires forall k :: 0 <= k < i ==> d.entries[k].name != name
    ensures var r := OnAvailable(d, input, now);
      && r.1 == |Record(name, val)|
      && AtRecordStart(r.0.rx)
      && r.0.rx.checksum == AddSum(d.rx.checksum, Record(name, val))
      && r.0.entries[i] == d.entries[i].(status := DataDirty, lastUpdate := now, valuePending := val)
      && (forall j :: 0 <= j < |d.entries| && j != i ==> r.0.entries[j] == d.entries[j])
  {
    RecordDecodes(d.rx, input, name, val);
    RecognisedLabelMarksItsEntry(d.entries, Drain(d.rx, input, 0).0.checksum, name, val, now, d.mode, i);
  }

  /**
   * End to end for the closing record: from the start of a record, a callback
   * whose input begins with the "Checksum" record commits the registry exactly
   * when the block's bytes, this record's included, sum to 0 modulo 256, and
   * leaves the registry as it was otherwise; the checksum restarts from 0.
   * The check byte, the first byte of the value, may be any of the 256 bytes.
   */
  lemma ChecksumRecordCommitsValidBlock(d: DecoderState, input: seq<Byte>, now: uint32, val: seq<Byte>)
    requires AtRecordStart(d.rx) && StartsWith(input, Record(CHECKSUM_LABEL, val))
    requires |val| < VALUE_SIZE && val != [] && NEWLINE !in val[1..]
    ensures var r := OnAvailable(d, input, now);
      && r.1 == |Record(CHECKSUM_LABEL, val)|
      && AtRecordStart(r.0.rx)
      && r.0.rx.checksum == 0
      && (AddSum(d.rx.checksum, Record(CHECKSUM_LABEL, val)) == 0 ==> r.0.entries == CommitAll(d.entries, d.mode))
      && (AddSum(d.rx.checksum, Record(CHECKSUM_LABEL, val)) != 0 ==> r.0.entries == d.entries)
  {
    assert NUL !in CHECKSUM_LABEL && TAB !in CHECKSUM_LABEL;
    assert ValueReadable(CHECKSUM_LABEL, val);
    RecordDecodes(d.rx, input, CHECKSUM_LABEL, val);
  }

  /**
   * A whole block of one data record and its "Checksum" record, read in two
   * callbacks from the start of a record: when the block's bytes sum to 0
   * modulo 256 the record's entry is published through its policy and
   * becomes VALID; otherwise the registry is left as the first callback left
   * it, the entry still DIRTY with its old confirmed value.
   */
  lemma BlockCommitsOnlyWhenChecksumValid(d: DecoderState, in1: seq<Byte>, in2: seq<Byte>, now1: uint32, now2: uint32,
                                          name: seq<Byte>, val: seq<Byte>, cv: seq<Byte>, i: nat)
    requires AtRecordStart(d.rx) && StartsWith(in1, Record(name, val)) && StartsWith(in2, Record(CHECKSUM_LABEL, cv))
    requires |name| < LABEL_SIZE && TAB !in name && NUL !in name && name != CHECKSUM_LABEL
    requires |val| < VALUE_SIZE && NEWLINE !in val && NUL !in val
    requires |cv| < VALUE_SIZE && cv != [] && NEWLINE !in cv[1..]
    requires i < |d.entries| && d.entries[i].name == name
    requires forall k :: 0 <= k < i ==> d.entries[k].name != name
    ensures var r1 := OnAvailable(d, in1, now1).0;
      var r2 := OnAvailable(r1, in2, now2).0;
      var dirty := d.entries[i].(status := DataDirty, lastUpdate := now1, valuePending := val);
      && AtRecordStart(r2.rx) && r2.rx.checksum == 0
      && (AddSum(d.rx.checksum, Record(name, val) + Record(CHECKSUM_LABEL, cv)) == 0 ==>
            r2.entries[i] == CommitEntry(dirty, d.mode) && r2.entries[i].status == DataValid)
      && (AddSum(d.rx.checksum, Record(name, val) + Record(CHECKSUM_LABEL, cv)) != 0 ==>
            r2.entries == r1.entries && r2.entries[i] == dirty)
  {
    DataRecordUpdatesEntry(d, in1, now1, name, val, i);
    var r1 := OnAvailable(d, in1, now1).0;
    ChecksumRecordCommitsValidBlock(r1, in2, now2, cv);
    AddSumAppend(d.rx.checksum, Record(name, val), Record(CHECKSUM_LABEL, cv));
  }

  // ---------------------------------------------------------------------------
  // A whole block of records

  /** One record as a label and a value. */
  type Rec = (seq<Byte>, seq<Byte>)

  /** A data record that fits: a label of at most 8 bytes other than "Checksum" and a value of at most 32, neither holding a byte that would cut it short. */
  predicate DataRecord(rec: Rec)
  {
    && |rec.0| < LABEL_SIZE && TAB !in rec.0 && NUL !in rec.0 && rec.0 != CHECKSUM_LABEL
    && |rec.1| < VALUE_SIZE && NEWLINE !in rec.1 && NUL !in rec.1
  }

  /** The wire form of a run of records, one after the other. */
  function Wire(recs: seq<Rec>): seq<Byte>
  {
    if recs == [] then [] else Wire(recs[..|recs| - 1]) + Record(recs[|recs| - 1].0, recs[|recs| - 1].1)
  }

  /** One callback per record, each given exactly the bytes of its record, all at time `now`. */
  function Feed(d: DecoderState, recs: seq<Rec>, now: uint32): (r: DecoderState)
    requires WellFormed(d.rx)
    ensures WellFormed(r.rx) && r.mode == d.mode && |r.entries| == |d.entries|
    decreases |recs|
  {
    if recs == [] then d
    else
      var last := recs[|recs| - 1];
      OnAvailable(Feed(d, recs[..|recs| - 1], now), Record(last.0, last.1), now).0
  }

  lemma FeedLast(d: DecoderState, recs: seq<Rec>, now: uint32)
    requires WellFormed(d.rx) && recs != []
    ensures Feed(d, recs, now)
         == OnAvailable(Feed(d, recs[..|recs| - 1], now), Record(recs[|recs| - 1].0, recs[|recs| - 1].1), now).0
  {
  }

  /** Registries whose labels agree position by position give the same lookup. */
  lemma {:induction false} SameNamesSameIndex(a: seq<FieldEntry>, b: seq<FieldEntry>, key: seq<Byte>)
    requires |a| == |b| && forall j :: 0 <= j < |a| ==> a[j].name == b[j].name
    ensures IndexOf(a, key) == IndexOf(b, key)
  {
    if a != [] {
      SameNamesSameIndex(a[1..], b[1..], key);
    }
  }

  /** A callback on exactly the bytes of a data record, from the start of a record, applies processField to it. */
  lemma DataRecordCallback(d: DecoderState, rec: Rec, now: uint32)
    requires AtRecordStart(d.rx) && DataRecord(rec)
    ensures var r := OnAvailable(d, Record(rec.0, rec.1), now);
      && r.1 == |Record(rec.0, rec.1)|
      && AtRecordStart(r.0.rx)
      && r.0.rx.checksum == AddSum(d.rx.checksum, Record(rec.0, rec.1))
      && r.0.entries == ProcessField(d.entries, 0, rec.0, rec.1, now, d.mode).0
  {
    var input := Record(rec.0, rec.1);
    assert StartsWith(input, input);
    RecordDecodes(d.rx, input, rec.0, rec.1);
  }

  /** What processField does to the registry for a data record: it marks the label's first entry and nothing else. */
  lemma DataRecordEffect(entries: seq<FieldEntry>, name: seq<Byte>, val: seq<Byte>, now: uint32, mode: uint8)
    requires name != CHECKSUM_LABEL
    ensures var r := ProcessField(entries, 0, name, val, now, mode).0;
      && (forall j :: 0 <= j < |entries| ==>
            r[j].name == entries[j].name && r[j].valueConfirmed == entries[j].valueConfirmed)
      && (IndexOf(entries, name).Some? ==>
            r[IndexOf(entries, name).value].status == DataDirty && r[IndexOf(entries, name).value].valuePending == val)
      && (forall j :: 0 <= j < |entries| && entries[j].name != name ==> r[j] == entries[j])
      && (forall j :: 0 <= j < |entries| && IndexOf(entries, name) != Some(j) ==> r[j] == entries[j])
      && (forall j :: 0 <= j < |entries| ==>
            r[j] == entries[j].(status := r[j].status, lastUpdate := r[j].lastUpdate, valuePending := r[j].valuePending))
  {
  }

  /** Only statuses, timestamps and pending values differ between `orig` and `es`: no label, factor or confirmed value does. */
  predicate SameShape(orig: seq<FieldEntry>, es: seq<FieldEntry>)
  {
    && |es| == |orig|
    && (forall j :: 0 <= j < |orig| ==> es[j].name == orig[j].name && es[j].valueConfirmed == orig[j].valueConfirmed)
    && (forall j :: 0 <= j < |orig| ==>
          es[j] == orig[j].(status := es[j].status, lastUpdate := es[j].lastUpdate, valuePending := es[j].valuePending))
  }

  /** Every record whose label `orig` holds has left its entry DIRTY, holding the value of the last record with that label. */
  predicate MarkedDirty(orig: seq<FieldEntry>, es: seq<FieldEntry>, recs: seq<Rec>)
    requires |es| == |orig|
  {
    && (forall k :: 0 <= k < |recs| && IndexOf(orig, recs[k].0).Some? ==>
          es[IndexOf(orig, recs[k].0).value].status == DataDirty)
    && (forall k :: 0 <= k < |recs| && IndexOf(orig, recs[k].0).Some?
                    && (forall k' :: k < k' < |recs| ==> recs[k'].0 != recs[k].0) ==>
          es[IndexOf(orig, recs[k].0).value].valuePending == recs[k].1)
  }

  /** Entries whose label no record carries, and more generally entries no record's label finds, are unchanged. */
  predicate MarkedUntouched(orig: seq<FieldEntry>, es: seq<FieldEntry>, recs: seq<Rec>)
    requires |es| == |orig|
  {
    && (forall j :: 0 <= j < |orig| && (forall k :: 0 <= k < |recs| ==> recs[k].0 != orig[j].name) ==>
          es[j] == orig[j])
    && (forall j :: 0 <= j < |orig| && (forall k :: 0 <= k < |recs| ==> IndexOf(orig, recs[k].0) != Some(j)) ==>
          es[j] == orig[j])
  }

  /** What a run of data records `recs` leaves in the registry `orig`. */
  predicate Marked(orig: seq<FieldEntry>, es: seq<FieldEntry>, recs: seq<Rec>)
  {
    SameShape(orig, es) && MarkedDirty(orig, es, recs) && MarkedUntouched(orig, es, recs)
  }

  lemma ShapeStep(orig: seq<FieldEntry>, es: seq<FieldEntry>, name: seq<Byte>, val: seq<Byte>, now: uint32, mode: uint8)
    requires name != CHECKSUM_LABEL && SameShape(orig, es)
    ensures SameShape(orig, ProcessField(es, 0, name, val, now, mode).0)
  {
    var rs := ProcessField(es, 0, name, val, now, mode).0;
    DataRecordEffect(es, name, val, now, mode);
    forall j | 0 <= j < |orig|
      ensures rs[j] == orig[j].(status := rs[j].status, lastUpdate := rs[j].lastUpdate, valuePending := rs[j].valuePending)
    {
      assert es[j] == orig[j].(status := es[j].status, lastUpdate := es[j].lastUpdate, valuePending := es[j].valuePending);
    }
  }

  lemma DirtyStep(orig: seq<FieldEntry>, es: seq<FieldEntry>, recs: seq<Rec>, now: uint32, mode: uint8)
    requires recs != [] && recs[|recs| - 1].0 != CHECKSUM_LABEL
    requires |es| == |orig| && forall j :: 0 <= j < |orig| ==> es[j].name == orig[j].name
    requires MarkedDirty(orig, es, recs[..|recs| - 1])
    ensures |ProcessField(es, 0, recs[|recs| - 1].0, recs[|recs| - 1].1, now, mode).0| == |orig|
    ensures MarkedDirty(orig, ProcessField(es, 0, recs[|recs| - 1].0, recs[|recs| - 1].1, now, mode).0, recs)
  {
    var n := |recs| - 1;
    var pre := recs[..n];
    var last := recs[n];
    assert forall k :: 0 <= k < n ==> pre[k] == recs[k];
    var rs := ProcessField(es, 0, last.0, last.1, now, mode).0;
    DataRecordEffect(es, last.0, last.1, now, mode);
    forall k | 0 <= k < |recs| && IndexOf(orig, recs[k].0).Some?
      ensures rs[IndexOf(orig, recs[k].0).value].status == DataDirty
      ensures (forall k' :: k < k' < |recs| ==> recs[k'].0 != recs[k].0) ==>
              rs[IndexOf(orig, recs[k].0).value].valuePending == recs[k].1
    {
      SameNamesSameIndex(es, orig, recs[k].0);
      var i := IndexOf(orig, recs[k].0).value;
      assert es[i].name == recs[k].0;
      if recs[k].0 != last.0 {
        assert rs[i] == es[i];
        assert k < n && pre[k] == recs[k];
        if forall k' :: k < k' < |recs| ==> recs[k'].0 != recs[k].0 {
          assert forall k' :: k < k' < n ==> pre[k'].0 != pre[k].0;
        }
      } else {
        assert IndexOf(es, last.0) == Some(i);
        if k < n {
          assert recs[n].0 == recs[k].0;
        }
      }
    }
  }

  lemma UntouchedStep(orig: seq<FieldEntry>, es: seq<FieldEntry>, recs: seq<Rec>, now: uint32, mode: uint8)
    requires recs != [] && recs[|recs| - 1].0 != CHECKSUM_LABEL
    requires |es| == |orig| && forall j :: 0 <= j < |orig| ==> es[j].name == orig[j].name
    requires MarkedUntouched(orig, es, recs[..|recs| - 1])
    ensures |ProcessField(es, 0, recs[|recs| - 1].0, recs[|recs| - 1].1, now, mode).0| == |orig|
    ensures MarkedUntouched(orig, ProcessField(es, 0, recs[|recs| - 1].0, recs[|recs| - 1].1, now, mode).0, recs)
  {
    var n := |recs| - 1;
    var pre := recs[..n];
    var last := recs[n];
    assert forall k :: 0 <= k < n ==> pre[k] == recs[k];
    var rs := ProcessField(es, 0, last.0, last.1, now, mode).0;
    DataRecordEffect(es, last.0, last.1, now, mode);
    SameNamesSameIndex(es, orig, last.0);
    forall j | 0 <= j < |orig| && (forall k :: 0 <= k < |recs| ==> IndexOf(orig, recs[k].0) != Some(j))
      ensures rs[j] == orig[j]
    {
      assert forall k :: 0 <= k < n ==> IndexOf(orig, pre[k].0) != Some(j);
      assert IndexOf(es, last.0) != Some(j);
    }
    forall j | 0 <= j < |orig| && (forall k :: 0 <= k < |recs| ==> recs[k].0 != orig[j].name)
      ensures rs[j] == orig[j]
    {
      assert forall k :: 0 <= k < n ==> pre[k].0 != orig[j].name;
    }
  }

  /** processField on one more data record extends what the run before it left. */
  lemma MarkedStep(orig: seq<FieldEntry>, es: seq<FieldEntry>, recs: seq<Rec>, now: uint32, mode: uint8)
    requires recs != [] && recs[|recs| - 1].0 != CHECKSUM_LABEL
    requires Marked(orig, es, recs[..|recs| - 1])
    ensures Marked(orig, ProcessField(es, 0, recs[|recs| - 1].0, recs[|recs| - 1].1, now, mode).0, recs)
  {
    var last := recs[|recs| - 1];
    ShapeStep(orig, es, last.0, last.1, now, mode);
    DirtyStep(orig, es, recs, now, mode);
    UntouchedStep(orig, es, recs, now, mode);
  }

  /**
   * Feeding a run of data records, one callback each, from the start of a
   * record: the machine ends at the start of a record, the checksum has
   * grown by the bytes of all of them, and the registry is as `Marked`
   * describes.
   */
  lemma {:induction false} DataRecordsMarkEntries(d: DecoderState, recs: seq<Rec>, now: uint32)
    requires AtRecordStart(d.rx)
    requires forall k :: 0 <= k < |recs| ==> DataRecord(recs[k])
    ensures var r := Feed(d, recs, now);
      && AtRecordStart(r.rx)
      && r.rx.checksum == AddSum(d.rx.checksum, Wire(recs))
      && Marked(d.entries, r.entries, recs)
    decreases |recs|
  {
    if recs == [] {
      assert AddSum(d.rx.checksum, Wire(recs)) == d.rx.checksum;
    } else {
      var n := |recs| - 1;
      var pre := recs[..n];
      var last := recs[n];
      assert forall k :: 0 <= k < n ==> pre[k] == recs[k];
      DataRecordsMarkEntries(d, pre, now);
      var mid := Feed(d, pre, now);
      DataRecordCallback(mid, last, now);
      FeedLast(d, recs, now);
      assert Wire(recs) == Wire(pre) + Record(last.0, last.1);
      AddSumAppend(d.rx.checksum, Wire(pre), Record(last.0, last.1));
      MarkedStep(d.entries, mid.entries, recs, now, d.mode);
    }
  }

  /**
   * A block of any number of data records closed by its "Checksum" record,
   * one callback per record, from the start of a record. When all the
   * block's bytes sum to 0 modulo 256 the registry the data records left is
   * committed, and every entry a record of the block named is VALID; when
   * they do not, nothing is committed and no confirmed value has changed.
   * The checksum restarts from 0 either way.
   */
  lemma BlockCommitsEveryField(d: DecoderState, recs: seq<Rec>, cv: seq<Byte>, now: uint32)
    requires AtRecordStart(d.rx)
    requires forall k :: 0 <= k < |recs| ==> DataRecord(recs[k])
    requires |cv| < VALUE_SIZE && cv != [] && NEWLINE !in cv[1..]
    ensures var block := recs + [(CHECKSUM_LABEL, cv)];
      var mid := Feed(d, recs, now);
      var r := Feed(d, block, now);
      && AtRecordStart(r.rx) && r.rx.checksum == 0
      && (AddSum(d.rx.checksum, Wire(block)) == 0 ==>
            && r.entries == CommitAll(mid.entries, d.mode)
            && forall k :: 0 <= k < |recs| && IndexOf(d.entries, recs[k].0).Some? ==>
                 r.entries[IndexOf(d.entries, recs[k].0).value].status == DataValid)
      && (AddSum(d.rx.checksum, Wire(block)) != 0 ==>
            && r.entries == mid.entries
            && forall j :: 0 <= j < |d.entries| ==> r.entries[j].valueConfirmed == d.entries[j].valueConfirmed)
  {
    var block := recs + [(CHECKSUM_LABEL, cv)];
    assert block[..|block| - 1] == recs;
    DataRecordsMarkEntries(d, recs, now);
    var mid := Feed(d, recs, now);
    var closing := Record(CHECKSUM_LABEL, cv);
    assert StartsWith(closing, closing);
    ChecksumRecordCommitsValidBlock(mid, closing, now, cv);
    AddSumAppend(d.rx.checksum, Wire(recs), closing);
    assert Wire(block) == Wire(recs) + closing;
  }

  /** The last of the records after `k`, `k` included, that carries the label of record `k`. */
  lemma {:induction false} LastWithLabel(recs: seq<Rec>, k: nat) returns (kk: nat)
    requires k < |recs|
    ensures k <= kk < |recs| && recs[kk].0 == recs[k].0
    ensures forall k' :: kk < k' < |recs| ==> recs[k'].0 != recs[kk].0
    decreases |recs| - k
  {
    if forall k' :: k < k' < |recs| ==> recs[k'].0 != recs[k].0 {
      kk := k;
    } else {
      var k2 :| k < k2 < |recs| && recs[k2].0 == recs[k].0;
      kk := LastWithLabel(recs, k2);
    }
  }

  /**
   * An entry marked DIRTY again with the pending value and factor it was
   * committed with, on top of what that commit confirmed, commits to the
   * same confirmed value: "---" keeps it, anything else recomputes it.
   */
  lemma RecommitEntry(e1: FieldEntry, e2: FieldEntry, mode: uint8)
    requires e1.status == DataDirty && e2.status == DataDirty
    requires e2.valuePending == e1.valuePending && e2.unitTransformFactor == e1.unitTransformFactor
    requires e2.valueConfirmed == CommitEntry(e1, mode).valueConfirmed
    ensures CommitEntry(e2, mode).valueConfirmed == CommitEntry(e1, mode).valueConfirmed
    ensures CommitEntry(e2, mode).status == CommitEntry(e1, mode).status == DataValid
  {
  }

  /**
   * Committing what a run of data records leaves, then marking the same
   * records again and committing again, confirms the same value and status in
   * every entry: an entry a record found is DIRTY again with the same pending
   * value and factor, and every other entry is untouched both times.
   */
  lemma RecommitSameConfirmed(orig: seq<FieldEntry>, mid1: seq<FieldEntry>, mid2: seq<FieldEntry>, recs: seq<Rec>, mode: uint8)
    requires Marked(orig, mid1, recs) && Marked(CommitAll(mid1, mode), mid2, recs)
    ensures var r1 := CommitAll(mid1, mode);
      var r2 := CommitAll(mid2, mode);
      |r2| == |r1| == |orig|
      && forall j :: 0 <= j < |orig| ==>
           r2[j].valueConfirmed == r1[j].valueConfirmed && r2[j].status == r1[j].status
  {
    var r1 := CommitAll(mid1, mode);
    var r2 := CommitAll(mid2, mode);
    forall j | 0 <= j < |orig|
      ensures r2[j].valueConfirmed == r1[j].valueConfirmed && r2[j].status == r1[j].status
    {
      if k :| 0 <= k < |recs| && IndexOf(orig, recs[k].0) == Some(j) {
        var kk := LastWithLabel(recs, k);
        SameNamesSameIndex(r1, orig, recs[kk].0);
        assert mid1[j].status == DataDirty && mid1[j].valuePending == recs[kk].1;
        assert mid2[j].status == DataDirty && mid2[j].valuePending == recs[kk].1;
        assert mid2[j].unitTransformFactor == r1[j].unitTransformFactor == mid1[j].unitTransformFactor;
        RecommitEntry(mid1[j], mid2[j], mode);
      } else {
        forall k | 0 <= k < |recs| ensures IndexOf(r1, recs[k].0) != Some(j) {
          SameNamesSameIndex(r1, orig, recs[k].0);
        }
        assert mid1[j] == orig[j] && mid2[j] == r1[j];
      }
    }
  }

  /**
   * Feeding the same valid block twice, from the start of a record with the
   * checksum at 0, leaves every confirmed value and status as the first block
   * left it: publishing a block is idempotent.
   */
  lemma SameBlockTwiceSameConfirmed(d: DecoderState, recs: seq<Rec>, cv: seq<Byte>, now: uint32)
    requires AtRecordStart(d.rx) && d.rx.checksum == 0
    requires forall k :: 0 <= k < |recs| ==> DataRecord(recs[k])
    requires |cv| < VALUE_SIZE && cv != [] && NEWLINE !in cv[1..]
    requires AddSum(0, Wire(recs + [(CHECKSUM_LABEL, cv)])) == 0
    ensures var block := recs + [(CHECKSUM_LABEL, cv)];
      var r1 := Feed(d, block, now);
      var r2 := Feed(r1, block, now);
      forall j :: 0 <= j < |d.entries| ==>
        r2.entries[j].valueConfirmed == r1.entries[j].valueConfirmed && r2.entries[j].status == r1.entries[j].status
  {
    var block := recs + [(CHECKSUM_LABEL, cv)];
    var r1 := Feed(d, block, now);
    BlockCommitsEveryField(d, recs, cv, now);
    BlockCommitsEveryField(r1, recs, cv, now);
    DataRecordsMarkEntries(d, recs, now);
    DataRecordsMarkEntries(r1, recs, now);
    RecommitSameConfirmed(d.entries, Feed(d, recs, now).entries, Feed(r1, recs, now).entries, recs, d.mode);
  }

  /** Every text the registry holds fits its 33-byte buffer with the terminating NUL. */
  predicate TextsBounded(entries: seq<FieldEntry>)
  {
    forall j :: 0 <= j < |entries| ==>
      |entries[j].valuePending| < VALUE_SIZE
      && (entries[j].valueConfirmed.Text? ==> |entries[j].valueConfirmed.text| < VALUE_SIZE)
  }

  /**
   * With the bounded stores of the receive machine, a callback keeps both
   * buffers NUL-terminated and every pending and confirmed text within its
   * 33-byte buffer: the strcmp, strncpy and the diagnostic text never run
   * past a buffer.
   */
  lemma CallbackKeepsTextsBounded(d: DecoderState, input: seq<Byte>, now: uint32)
    requires WellFormed(d.rx) && Terminated(d.rx) && TextsBounded(d.entries)
    ensures var r := OnAvailable(d, input, now).0;
      Terminated(r.rx) && TextsBounded(r.entries)
  {
    var (t, n) := Drain(d.rx, input, 0);
    DrainKeepsTerminators(d.rx, input, 0);
    if t.state == RecordComplete {
      TextsFit(t);
      var name := LabelText(t);
      if name == CHECKSUM_LABEL {
        if t.checksum == 0 {
          CommitKeepsTextsBounded(d.entries, d.mode);
        }
      }
    }
  }

  /** A commit keeps every text of the registry within its buffer. */
  lemma CommitKeepsTextsBounded(entries: seq<FieldEntry>, mode: uint8)
    requires TextsBounded(entries)
    ensures TextsBounded(CommitAll(entries, mode))
  {
    var es := CommitAll(entries, mode);
    forall j | 0 <= j < |es|
      ensures |es[j].valuePending| < VALUE_SIZE
      ensures es[j].valueConfirmed.Text? ==> |es[j].valueConfirmed.text| < VALUE_SIZE
    {
      ConfirmedTextFits(entries[j], mode);
    }
  }
}
