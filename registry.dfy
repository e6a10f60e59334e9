/**
 * The field registry filled by the VEDirectInput constructor (src/sensors/vedirect.cpp)
 * and the label lookup getVEDirectIndex.
 */
module Registry {
  import opened VEDirectTypes

  /**
   * The 51 registry descriptors in constructor order: label, unit transform factor,
   * SignalK unit. A positive factor scales the raw reading by factor/1000, 0 keeps
   * the literal text, -1 maps ON/OFF to 1/0, -273 converts degrees Celsius to Kelvin.
   */
  const DESCRIPTORS: seq<(string, int, string)> := [
      ("V", 1, "V"),
      ("VS", 1, "V"),
      ("VM", 1, "V"),
      ("DM", 1, "ratio"),
      ("VPV", 1, "V"),
      ("PPV", 1, "A"),
      ("I", 1, "A"),
      ("IL", 1, "A"),
      ("LOAD", -1, "state"),
      ("T", -273, "K"),
      ("P", 1000, "W"),
      ("CE", 3600, "C"),
      ("SOC", 1, "ratio"),
      ("TTG", 60000, "s"),
      ("Alarm", -1, "state"),
      ("Relay", -1, "state"),
      ("AR", 0, ""),
      ("H1", 3600, "C"),
      ("H2", 3600, "C"),
      ("H3", 3600, "C"),
      ("H4", 1000, "count"),
      ("H5", 1000, "count"),
      ("H6", 3600, "C"),
      ("H7", 1, "V"),
      ("H8", 1, "V"),
      ("H9", 1000, "s"),
      ("H10", 1000, "count"),
      ("H11", 1000, "count"),
      ("H12", 1000, "count"),
      ("H13", 1000, "count"),
      ("H14", 1000, "count"),
      ("H15", 1, "V"),
      ("H16", 1, "V"),
      ("H17", 36000, "J"),
      ("H18", 36000, "J"),
      ("H19", 36000, "J"),
      ("H20", 36000, "J"),
      ("H21", 1000, "W"),
      ("H22", 36000, "J"),
      ("H23", 1000, "W"),
      ("ERR", 0, ""),
      ("CS", 0, ""),
      ("BMV", 0, ""),
      ("FW", 0, ""),
      ("PID", 0, ""),
      ("SER#", 0, ""),
      ("HSDS", 0, ""),
      ("MODE", 0, ""),
      ("AC_OUT_V", 100, "V"),
      ("AC_OUT_I", 100, "V"),
      ("WARN", 1000, "")
  ]

  /** A freshly constructed entry: empty values, timestamp 0, status UNDEFINED. */
  function Entry(name: string, factor: int, metaUnit: string): FieldEntry
  {
    FieldEntry(name, factor, metaUnit, [], Text([]), 0, Undefined)
  }

  /** The registry as the constructor leaves it. */
  function Table(): (t: seq<FieldEntry>)
    ensures |t| == TOTAL_LABELS
    ensures forall i :: 0 <= i < |t| ==>
      t[i].status == Undefined && t[i].valuePending == [] && t[i].valueConfirmed == Text([]) && t[i].lastUpdate == 0
  {
    seq(|DESCRIPTORS|, i requires 0 <= i < |DESCRIPTORS| => Entry(DESCRIPTORS[i].0, DESCRIPTORS[i].1, DESCRIPTORS[i].2))
  }

  /**
   * getVEDirectIndex with the not-found case made explicit: the position of the
   * first entry whose label equals `key` (strcmp), or None.
   */
  function IndexOf(entries: seq<FieldEntry>, key: seq<Byte>): (r: Option<nat>)
    ensures r.Some? ==> r.value < |entries| && entries[r.value].name == key
    ensures r.Some? ==> forall j :: 0 <= j < r.value ==> entries[j].name != key
    ensures r.None? <==> forall j :: 0 <= j < |entries| ==> entries[j].name != key
  {
    if entries == [] then None
    else if entries[0].name == key then Some(0)
    else match IndexOf(entries[1..], key)
      case None => None
      case Some(i) => Some(i + 1)
  }

  /**
   * getVEDirectIndex as written: its `return -1` passes through the `byte`
   * return type and arrives as 255.
   */
  function IndexAsWritten(entries: seq<FieldEntry>, key: seq<Byte>): (r: uint8)
    requires |entries| < 0x100
  {
    match IndexOf(entries, key)
    case Some(i) => i
    case None => -1 % 0x100
  }

  /** processField's guard `index >= 0` on a `byte` index, as written. */
  predicate GuardAsWritten(index: uint8)
  {
    index >= 0
  }

  /**
   * As written, a label that is not in the registry passes the guard with
   * index 255, past the end of the 51-entry array that processField then writes.
   */
  lemma UnknownLabelPassesGuardAsWritten(key: seq<Byte>)
    requires forall j :: 0 <= j < |Table()| ==> Table()[j].name != key
    ensures IndexAsWritten(Table(), key) == 255
    ensures GuardAsWritten(IndexAsWritten(Table(), key))
    ensures IndexAsWritten(Table(), key) >= |Table()|
  {
  }

  /** The corrected lookup: a found index is always inside the registry, and a label missing from it gives None. */
  lemma IndexOfInRegistry(key: seq<Byte>)
    ensures IndexOf(Table(), key).Some? ==> IndexOf(Table(), key).value < TOTAL_LABELS
    ensures IndexOf(Table(), key).None? <==> forall j :: 0 <= j < TOTAL_LABELS ==> Table()[j].name != key
  {
  }
}
