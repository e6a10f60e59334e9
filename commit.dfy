/**
 * The commit pipeline of VEDirectInput (commit, src/sensors/vedirect.cpp):
 * every DIRTY entry becomes VALID and its pending raw value is published into
 * valueConfirmed through the entry's unit transform policy.
 */
module Commit {
  import opened VEDirectTypes

  const INVALID_OPEN: seq<Byte> := "invalid: -"
  const INVALID_CLOSE: seq<Byte> := "-"

  /** The diagnostic text `sprintf(valueConfirmed, "invalid: -%s-", valuePending)` produces, as written: unbounded. */
  function InvalidMarkerAsWritten(pending: seq<Byte>): seq<Byte>
  {
    INVALID_OPEN + pending + INVALID_CLOSE
  }

  /**
   * As written, the diagnostic text overruns the 33-byte valueConfirmed buffer
   * (text plus terminating NUL) as soon as the pending value has 22 bytes,
   * although the value buffer admits pending values of up to 32.
   */
  lemma InvalidMarkerOverflowsAsWritten(pending: seq<Byte>)
    requires 22 <= |pending| < VALUE_SIZE
    ensures |InvalidMarkerAsWritten(pending)| + 1 > VALUE_SIZE
    ensures |InvalidMarkerAsWritten(pending)| + 1 - VALUE_SIZE == |pending| - 21
  {
  }

  /**
   * The diagnostic text cut to what valueConfirmed can hold with its
   * terminator, as snprintf with the buffer size would leave it.
   */
  function InvalidMarker(pending: seq<Byte>): (r: seq<Byte>)
    ensures |r| < VALUE_SIZE
    ensures StartsWith(InvalidMarkerAsWritten(pending), r)
    ensures |InvalidMarkerAsWritten(pending)| < VALUE_SIZE ==> r == InvalidMarkerAsWritten(pending)
    ensures |InvalidMarkerAsWritten(pending)| >= VALUE_SIZE ==> |r| == VALUE_SIZE - 1
  {
    var full := InvalidMarkerAsWritten(pending);
    if |full| < VALUE_SIZE then full else full[..VALUE_SIZE - 1]
  }

  /**
   * The unit transform policy of one entry, applied to a pending value other
   * than "---" in transform mode:
   *  - factor > 0: the reading scaled by factor / 1000 (kept symbolic);
   *  - factor 0: the literal text;
   *  - factor -1: "1" for a value beginning with "ON", else "0" for one
   *    beginning with "OFF", else the diagnostic text;
   *  - factor -273: degrees Celsius to Kelvin (kept symbolic);
   *  - any other factor: the literal text.
   */
  function Convert(factor: int, pending: seq<Byte>): (c: Confirmed)
    ensures c.Scaled? <==> factor > 0
    ensures c.Kelvin? <==> factor == -273
    ensures c.Scaled? ==> c.raw == pending && c.factor == factor
    ensures c.Kelvin? ==> c.raw == pending
    ensures c.Text? && factor != -1 ==> c.text == pending
    ensures c.Text? && factor == -1 ==> c.text in {"1", "0", InvalidMarker(pending)}
  {
    if factor > 0 then Scaled(pending, factor)
    else if factor == 0 then Text(pending)
    else if factor == -1 then
      if StartsWith(pending, "ON") then Text("1")
      else if StartsWith(pending, "OFF") then Text("0")
      else Text(InvalidMarker(pending))
    else if factor == -273 then Kelvin(pending)
    else Text(pending)
  }

  /** The body of commit's loop for one entry, under mode_signalKUnitTransform `mode`. */
  function CommitEntry(e: FieldEntry, mode: uint8): (r: FieldEntry)
    ensures e.status != DataDirty ==> r == e
    ensures e.status == DataDirty ==> r.status == DataValid
    ensures r == e.(status := r.status, valueConfirmed := r.valueConfirmed)
  {
    if e.status != DataDirty then e
    else
      var valid := e.(status := DataValid);
      if mode == 0 then valid.(valueConfirmed := Text(e.valuePending))
      else if e.valuePending == NO_DATA then valid
      else valid.(valueConfirmed := Convert(e.unitTransformFactor, e.valuePending))
  }

  /** commit: the loop over all entries of the registry. */
  function CommitAll(entries: seq<FieldEntry>, mode: uint8): (r: seq<FieldEntry>)
    ensures |r| == |entries|
    ensures forall i :: 0 <= i < |r| ==> r[i].status != DataDirty
    ensures forall i :: 0 <= i < |r| && entries[i].status != DataDirty ==> r[i] == entries[i]
    ensures forall i :: 0 <= i < |r| && entries[i].status == DataDirty ==> r[i].status == DataValid
    ensures forall i :: 0 <= i < |r| ==>
      r[i] == entries[i].(status := r[i].status, valueConfirmed := r[i].valueConfirmed)
  {
    seq(|entries|, i requires 0 <= i < |entries| => CommitEntry(entries[i], mode))
  }

  // ---------------------------------------------------------------------------
  // Properties of the policies

  /** In literal mode every dirty entry publishes its pending text unchanged, "---" included. */
  lemma LiteralModeCopiesPending(e: FieldEntry)
    requires e.status == DataDirty
    ensures CommitEntry(e, 0).valueConfirmed == Text(e.valuePending)
  {
  }

  /** In transform mode "---" means no data: the entry becomes VALID and keeps its confirmed value. */
  lemma NoDataKeepsConfirmed(e: FieldEntry, mode: uint8)
    requires e.status == DataDirty && mode != 0 && e.valuePending == NO_DATA
    ensures CommitEntry(e, mode) == e.(status := DataValid)
  {
  }

  /** In transform mode any other pending value goes through the entry's policy. */
  lemma TransformModeConverts(e: FieldEntry, mode: uint8)
    requires e.status == DataDirty && mode != 0 && e.valuePending != NO_DATA
    ensures CommitEntry(e, mode).valueConfirmed == Convert(e.unitTransformFactor, e.valuePending)
  {
  }

  /**
   * The ON/OFF policy compares only the first two or three bytes (strncmp):
   * any value beginning with "ON" reads as 1 and any beginning with "OFF" as 0;
   * every other value, the empty one included, gives the diagnostic text.
   */
  lemma BinaryStatePolicy(pending: seq<Byte>)
    ensures StartsWith(pending, "ON") ==> Convert(-1, pending) == Text("1")
    ensures !StartsWith(pending, "ON") && StartsWith(pending, "OFF") ==> Convert(-1, pending) == Text("0")
    ensures !StartsWith(pending, "ON") && !StartsWith(pending, "OFF") ==>
      Convert(-1, pending) == Text(InvalidMarker(pending)) && Convert(-1, pending) != Text("1") && Convert(-1, pending) != Text("0")
  {
    if !StartsWith(pending, "ON") && !StartsWith(pending, "OFF") {
      var m := InvalidMarker(pending);
      assert |m| >= 2 && m[0] == 'i' by {
        assert InvalidMarkerAsWritten(pending)[..2] == "in";
      }
    }
  }

  /** Every text a commit publishes fits valueConfirmed with its terminator, given a pending value that fits its own buffer. */
  lemma ConfirmedTextFits(e: FieldEntry, mode: uint8)
    requires |e.valuePending| < VALUE_SIZE
    requires e.valueConfirmed.Text? ==> |e.valueConfirmed.text| < VALUE_SIZE
    ensures CommitEntry(e, mode).valueConfirmed.Text? ==> |CommitEntry(e, mode).valueConfirmed.text| < VALUE_SIZE
  {
  }

  /**
   * A carriage return is kept in the value, so a device that ends its lines
   * with CR LF sends "no data" as "---\r", which is not skipped: it reaches
   * the policy, and a scaled entry confirms the unparseable "---\r".
   */
  lemma CarriageReturnDefeatsNoData(e: FieldEntry, mode: uint8)
    requires e.status == DataDirty && mode != 0 && e.valuePending == NO_DATA + [CR]
    ensures CommitEntry(e, mode).valueConfirmed == Convert(e.unitTransformFactor, NO_DATA + [CR])
    ensures e.unitTransformFactor > 0 ==> CommitEntry(e, mode).valueConfirmed == Scaled(NO_DATA + [CR], e.unitTransformFactor)
  {
    assert e.valuePending != NO_DATA by {
      assert |e.valuePending| != |NO_DATA|;
    }
  }

  // ---------------------------------------------------------------------------
  // Properties of the whole commit

  /** A second commit right after the first changes nothing: no entry is left DIRTY. */
  lemma {:induction false} CommitIdempotent(entries: seq<FieldEntry>, mode: uint8)
    ensures CommitAll(CommitAll(entries, mode), mode) == CommitAll(entries, mode)
  {
    var once := CommitAll(entries, mode);
    var twice := CommitAll(once, mode);
    forall i | 0 <= i < |once| ensures twice[i] == once[i] {
      assert once[i].status != DataDirty;
    }
  }

  /** The registry itself (labels, factors, units), the pending values and the timestamps survive a commit. */
  lemma CommitKeepsRegistry(entries: seq<FieldEntry>, mode: uint8)
    ensures var r := CommitAll(entries, mode);
      forall i :: 0 <= i < |r| ==>
        && r[i].name == entries[i].name
        && r[i].unitTransformFactor == entries[i].unitTransformFactor
        && r[i].metaUnit == entries[i].metaUnit
        && r[i].valuePending == entries[i].valuePending
        && r[i].lastUpdate == entries[i].lastUpdate
  {
  }
}
