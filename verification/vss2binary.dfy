/**
  The binary exporter: every node of the tree becomes one record of twelve
  fields handed to the native writer, the nodes visited depth first, a node
  before its children. The writer is modelled as the sequence of records it
  receives; the number of children in each record is what lets a reader
  rebuild the tree from the flat sequence.
 */
module Vss2Binary {
  import opened Wrappers
  import opened Constants
  import opened VssTree
  import opened AllowedFraming

  /** The arguments of one call to the native writer, in the writer's order (the output file name aside). */
  datatype Record = Record(
    name: string,
    nodeType: string,
    uuid: string,
    description: string,
    dataType: string,
    min: string,
    max: string,
    unit: string,
    allowed: string,
    defaultValue: string,
    validate: string,
    children: nat)

  /** What stops the export at a node. */
  datatype ExportError =
      /** A sensor, actuator or attribute without a data type: reading the data type's value raises. */
    | MissingDataType(node: string)
      /** An allowed value too long for its two-digit length prefix. */
    | AllowedTooLong(node: string, element: string)

  /** The node types whose records carry a data type. */
  predicate CarriesDataType(t: Constant) {
    t == SENSOR || t == ACTUATOR || t == ATTRIBUTE
  }

  /**
    The record `export_node` builds for one node. Every field starts empty;
    the data type is read only for sensors, actuators and attributes; the
    unit only when the node has one; the identifier only when identifiers
    are generated; the validation field is always empty. Deprecation,
    comment and aggregate are read but not part of the record.
   */
  function RecordFor(n: Node, generateUuid: bool): (r: Result<Record, ExportError>)
    ensures r.Err? <==> (CarriesDataType(n.nodeType) && n.dataType.None?) || !Encodable(n.allowed)
    ensures CarriesDataType(n.nodeType) && n.dataType.None? ==> r == Err(MissingDataType(n.name))
    ensures r.Ok? ==> && r.value.name == n.name
                      && r.value.nodeType == n.nodeType.value
                      && r.value.description == n.description
                      && r.value.children == |n.children|
    ensures r.Ok? ==> DecodeAllowed(r.value.allowed) == Some(n.allowed)
  {
    if CarriesDataType(n.nodeType) && n.dataType.None? then Err(MissingDataType(n.name))
    else
      var dataType := if CarriesDataType(n.nodeType) then n.dataType.value.value else "";
      match AllowedString(n.allowed)
      case Err(e) => Err(AllowedTooLong(n.name, e))
      case Ok(allowed) =>
        AllowedRoundTrip(n.allowed);
        Ok(Record(
          name := n.name,
          nodeType := n.nodeType.value,
          uuid := if generateUuid then n.uuid else "",
          description := n.description,
          dataType := dataType,
          min := if n.min != "" then n.min else "",
          max := if n.max != "" then n.max else "",
          unit := if n.unit.Some? then n.unit.value.value else "",
          allowed := allowed,
          defaultValue := if n.defaultValue != "" then n.defaultValue else "",
          validate := "",
          children := |n.children|))
  }

  /**
    The data-type field holds the node's data type exactly for sensors,
    actuators and attributes, and is empty for every other node type.
   */
  lemma DataTypeField(n: Node, generateUuid: bool)
    requires RecordFor(n, generateUuid).Ok?
    ensures CarriesDataType(n.nodeType) ==>
              n.dataType.Some? && RecordFor(n, generateUuid).value.dataType == n.dataType.value.value
    ensures !CarriesDataType(n.nodeType) ==> RecordFor(n, generateUuid).value.dataType == ""
  {
  }

  /** With data types that have a non-empty token, the field is non-empty exactly for the three node types. */
  lemma DataTypePresent(n: Node, generateUuid: bool)
    requires RecordFor(n, generateUuid).Ok?
    requires n.dataType.Some? ==> n.dataType.value.value != ""
    ensures RecordFor(n, generateUuid).value.dataType != "" <==> CarriesDataType(n.nodeType)
  {
  }

  /**
    The optional fields: bounds and default are the node's own texts
    (empty when unset), the unit is the unit's token and empty without a
    unit, the identifier is empty unless identifiers are generated, and the
    validation field is empty.
   */
  lemma OptionalFields(n: Node, generateUuid: bool)
    requires RecordFor(n, generateUuid).Ok?
    ensures var rec := RecordFor(n, generateUuid).value;
            && rec.min == n.min && rec.max == n.max && rec.defaultValue == n.defaultValue
            && (n.unit.None? ==> rec.unit == "")
            && (n.unit.Some? ==> rec.unit == n.unit.value.value)
            && (!generateUuid ==> rec.uuid == "")
            && (generateUuid ==> rec.uuid == n.uuid)
            && rec.validate == ""
  {
  }

  /** Deprecation, comment and aggregate make no difference to the record. */
  lemma IgnoredFields(n: Node, generateUuid: bool, deprecation: string, comment: string, aggregate: Option<string>)
    ensures RecordFor(n.(deprecation := deprecation, comment := comment, aggregate := aggregate), generateUuid)
         == RecordFor(n, generateUuid)
  {
  }

  /** Switching identifier generation changes the identifier field and nothing else. */
  lemma UuidOnly(n: Node)
    ensures RecordFor(n, true).Ok? <==> RecordFor(n, false).Ok?
    ensures RecordFor(n, true).Ok? ==> RecordFor(n, false).value == RecordFor(n, true).value.(uuid := "")
    ensures RecordFor(n, true).Err? ==> RecordFor(n, false) == RecordFor(n, true)
  {
  }

  // ---------------------------------------------------------------------
  // The depth-first walk
  // ---------------------------------------------------------------------

  /** The records handed to the writer, in order, and the error that stopped the walk, if one did. */
  datatype Output = Output(records: seq<Record>, failure: Option<ExportError>)

  /**
    `export_node`: the node's record, then each child's subtree in order.
    A failure stops the walk; the records written before it stay written.
   */
  function ExportNode(n: Node, generateUuid: bool): (r: Output)
    ensures |r.records| <= Size(n)
    ensures r.failure.None? ==> |r.records| == Size(n)
    ensures |r.records| > 0 <==> RecordFor(n, generateUuid).Ok?
    ensures |r.records| > 0 ==> r.records[0] == RecordFor(n, generateUuid).value
    decreases n, 1
  {
    match RecordFor(n, generateUuid)
    case Err(e) => Output([], Some(e))
    case Ok(rec) =>
      var rest := ExportChildren(n.children, generateUuid);
      Output([rec] + rest.records, rest.failure)
  }

  /** The `for child in node.children` loop of `export_node`. */
  function ExportChildren(ts: seq<Node>, generateUuid: bool): (r: Output)
    ensures |r.records| <= SizeForest(ts)
    ensures r.failure.None? ==> |r.records| == SizeForest(ts)
    decreases ts, 0
  {
    if |ts| == 0 then Output([], None)
    else
      var first := ExportNode(ts[0], generateUuid);
      if first.failure.Some? then first
      else
        var rest := ExportChildren(ts[1..], generateUuid);
        Output(first.records + rest.records, rest.failure)
  }

  /**
    Reference behaviour: write the records of a flat list of nodes one by
    one, stopping at the first node whose record cannot be built.
   */
  function Emit(ns: seq<Node>, generateUuid: bool): (r: Output)
    ensures |r.records| <= |ns|
  {
    if |ns| == 0 then Output([], None)
    else
      match RecordFor(ns[0], generateUuid)
      case Err(e) => Output([], Some(e))
      case Ok(rec) =>
        var rest := Emit(ns[1..], generateUuid);
        Output([rec] + rest.records, rest.failure)
  }

  /**
    What the flat writer produces: the records of a prefix of the list,
    all of it when every record can be built, otherwise up to the first
    node whose record cannot be built, whose error is reported.
   */
  lemma {:induction false} EmitPrefix(ns: seq<Node>, generateUuid: bool)
    ensures var out := Emit(ns, generateUuid);
            && (forall i :: 0 <= i < |out.records| ==> RecordFor(ns[i], generateUuid) == Ok(out.records[i]))
            && (out.failure.None? <==> |out.records| == |ns|)
            && (out.failure.Some? ==> RecordFor(ns[|out.records|], generateUuid) == Err(out.failure.value))
  {
    if |ns| > 0 && RecordFor(ns[0], generateUuid).Ok? {
      var rest := Emit(ns[1..], generateUuid);
      EmitPrefix(ns[1..], generateUuid);
      assert forall i :: 0 < i <= |rest.records| ==> ns[i] == ns[1..][i - 1];
    }
  }

  /** Writing two lists one after the other: the second is written only if the first completes. */
  lemma {:induction false} EmitConcat(a: seq<Node>, b: seq<Node>, generateUuid: bool)
    ensures Emit(a + b, generateUuid)
         == (var first := Emit(a, generateUuid);
             if first.failure.Some? then first
             else var rest := Emit(b, generateUuid); Output(first.records + rest.records, rest.failure))
  {
    if |a| == 0 {
      assert a + b == b;
    } else {
      assert (a + b)[0] == a[0];
      assert (a + b)[1..] == a[1..] + b;
      var head := RecordFor(a[0], generateUuid);
      if head.Ok? {
        EmitConcat(a[1..], b, generateUuid);
        var first, rest := Emit(a[1..], generateUuid), Emit(b, generateUuid);
        if first.failure.None? {
          assert [head.value] + (first.records + rest.records) == ([head.value] + first.records) + rest.records;
        }
      }
    }
  }

  /** The walk writes exactly the records of the tree's pre-order listing, stopping where that listing would. */
  lemma {:induction false} ExportIsPreOrder(n: Node, generateUuid: bool)
    ensures ExportNode(n, generateUuid) == Emit(PreOrder(n), generateUuid)
    decreases n, 1
  {
    var ns := PreOrder(n);
    assert ns[0] == n;
    assert ns[1..] == PreOrderForest(n.children);
    ExportChildrenIsPreOrder(n.children, generateUuid);
  }

  lemma {:induction false} ExportChildrenIsPreOrder(ts: seq<Node>, generateUuid: bool)
    ensures ExportChildren(ts, generateUuid) == Emit(PreOrderForest(ts), generateUuid)
    decreases ts, 0
  {
    if |ts| > 0 {
      ExportIsPreOrder(ts[0], generateUuid);
      ExportChildrenIsPreOrder(ts[1..], generateUuid);
      EmitConcat(PreOrder(ts[0]), PreOrderForest(ts[1..]), generateUuid);
    }
  }

  /**
    A complete export writes one record per node, in pre-order, the root's
    first; each record counts its node's children. An incomplete one
    writes the records of the nodes before the first failing node.
   */
  lemma ExportRecords(n: Node, generateUuid: bool)
    ensures var out := ExportNode(n, generateUuid);
            && |out.records| <= Size(n)
            && (out.failure.None? <==> |out.records| == Size(n))
            && (forall i :: 0 <= i < |out.records| ==>
                  && RecordFor(PreOrder(n)[i], generateUuid) == Ok(out.records[i])
                  && out.records[i].children == |PreOrder(n)[i].children|)
            && (out.failure.Some? ==> RecordFor(PreOrder(n)[|out.records|], generateUuid) == Err(out.failure.value))
            && (out.failure.None? ==> out.records[0] == RecordFor(n, generateUuid).value)
  {
    ExportIsPreOrder(n, generateUuid);
    EmitPrefix(PreOrder(n), generateUuid);
  }

  // ---------------------------------------------------------------------
  // Rebuilding the tree from the records
  // ---------------------------------------------------------------------

  /** Every node of the subtree has a record. */
  predicate Exportable(n: Node, generateUuid: bool)
    decreases n
  {
    && RecordFor(n, generateUuid).Ok?
    && forall i :: 0 <= i < |n.children| ==> Exportable(n.children[i], generateUuid)
  }

  /** The walk completes exactly on subtrees where every node has a record. */
  lemma {:induction false} ExportCompletes(n: Node, generateUuid: bool)
    ensures ExportNode(n, generateUuid).failure.None? <==> Exportable(n, generateUuid)
    decreases n, 1
  {
    ExportChildrenComplete(n.children, generateUuid);
  }

  lemma {:induction false} ExportChildrenComplete(ts: seq<Node>, generateUuid: bool)
    ensures ExportChildren(ts, generateUuid).failure.None? <==> forall i :: 0 <= i < |ts| ==> Exportable(ts[i], generateUuid)
    decreases ts, 0
  {
    if |ts| > 0 {
      ExportCompletes(ts[0], generateUuid);
      ExportChildrenComplete(ts[1..], generateUuid);
      assert forall i :: 0 < i < |ts| ==> ts[i] == ts[1..][i - 1];
    }
  }

  /** A node as a reader sees it: its record and its subtrees. */
  datatype Tree = Tree(record: Record, subtrees: seq<Tree>)

  /** The tree of records the reader should rebuild for an exportable subtree. */
  function Mirror(n: Node, generateUuid: bool): (r: Tree)
    requires Exportable(n, generateUuid)
    ensures r.record == RecordFor(n, generateUuid).value
    ensures |r.subtrees| == |n.children|
    decreases n, 1
  {
    Tree(RecordFor(n, generateUuid).value, MirrorForest(n.children, generateUuid))
  }

  function MirrorForest(ts: seq<Node>, generateUuid: bool): (r: seq<Tree>)
    requires forall i :: 0 <= i < |ts| ==> Exportable(ts[i], generateUuid)
    ensures |r| == |ts|
    decreases ts, 0
  {
    if |ts| == 0 then [] else [Mirror(ts[0], generateUuid)] + MirrorForest(ts[1..], generateUuid)
  }

  /** Reads one subtree off the front of a record sequence: a record, then as many subtrees as it counts. */
  function DecodeTree(rs: seq<Record>): (r: Option<(Tree, seq<Record>)>)
    ensures r.Some? ==> |r.value.1| < |rs|
    decreases |rs|, 0
  {
    if |rs| == 0 then None
    else
      match DecodeForest(rs[1..], rs[0].children)
      case None => None
      case Some((kids, rest)) => Some((Tree(rs[0], kids), rest))
  }

  /** Reads `k` subtrees off the front of a record sequence. */
  function DecodeForest(rs: seq<Record>, k: nat): (r: Option<(seq<Tree>, seq<Record>)>)
    ensures r.Some? ==> |r.value.0| == k && |r.value.1| <= |rs|
    decreases |rs|, 1, k
  {
    if k == 0 then Some(([], rs))
    else
      match DecodeTree(rs)
      case None => None
      case Some((t, rest)) =>
        match DecodeForest(rest, k - 1)
        case None => None
        case Some((ts, rest2)) => Some(([t] + ts, rest2))
  }

  /** Reading `k` subtrees off `first + others + tail` is reading one off `first`, then `k - 1` off `others`. */
  lemma DecodeForestStep(first: seq<Record>, others: seq<Record>, tail: seq<Record>, k: nat, t: Tree, ts: seq<Tree>)
    requires k > 0
    requires DecodeTree(first + (others + tail)) == Some((t, others + tail))
    requires DecodeForest(others + tail, k - 1) == Some((ts, tail))
    ensures DecodeForest((first + others) + tail, k) == Some(([t] + ts, tail))
  {
    assert (first + others) + tail == first + (others + tail);
  }

  /**
    The records of a complete export read back as the tree they came from,
    whatever follows them.
   */
  lemma {:induction false} RebuildTree(n: Node, generateUuid: bool, tail: seq<Record>)
    requires Exportable(n, generateUuid)
    ensures DecodeTree(ExportNode(n, generateUuid).records + tail) == Some((Mirror(n, generateUuid), tail))
    decreases n, 1
  {
    var rec := RecordFor(n, generateUuid).value;
    var kids := ExportChildren(n.children, generateUuid).records;
    assert ExportNode(n, generateUuid).records == [rec] + kids;
    RebuildForest(n.children, generateUuid, tail);
    DecodeTreeStep(rec, kids, tail, MirrorForest(n.children, generateUuid));
  }

  /** Reading a subtree is reading its record, then the subtrees it counts. */
  lemma DecodeTreeStep(rec: Record, kids: seq<Record>, tail: seq<Record>, ts: seq<Tree>)
    requires DecodeForest(kids + tail, rec.children) == Some((ts, tail))
    ensures DecodeTree(([rec] + kids) + tail) == Some((Tree(rec, ts), tail))
  {
    assert (([rec] + kids) + tail)[1..] == kids + tail;
  }

  lemma {:induction false} RebuildForest(ts: seq<Node>, generateUuid: bool, tail: seq<Record>)
    requires forall i :: 0 <= i < |ts| ==> Exportable(ts[i], generateUuid)
    ensures DecodeForest(ExportChildren(ts, generateUuid).records + tail, |ts|)
         == Some((MirrorForest(ts, generateUuid), tail))
    decreases ts, 0
  {
    if |ts| > 0 {
      ForestSplit(ts, generateUuid);
      var first := ExportNode(ts[0], generateUuid).records;
      var others := ExportChildren(ts[1..], generateUuid).records;
      RebuildTree(ts[0], generateUuid, others + tail);
      RebuildForest(ts[1..], generateUuid, tail);
      DecodeForestStep(first, others, tail, |ts|, Mirror(ts[0], generateUuid), MirrorForest(ts[1..], generateUuid));
    } else {
      assert ExportChildren(ts, generateUuid).records + tail == tail;
    }
  }

  /** An exportable forest splits into its first subtree and the rest, for the walk and for its mirror alike. */
  lemma ForestSplit(ts: seq<Node>, generateUuid: bool)
    requires |ts| > 0 && forall i :: 0 <= i < |ts| ==> Exportable(ts[i], generateUuid)
    ensures forall i :: 0 <= i < |ts[1..]| ==> Exportable(ts[1..][i], generateUuid)
    ensures ExportChildren(ts, generateUuid).records
         == ExportNode(ts[0], generateUuid).records + ExportChildren(ts[1..], generateUuid).records
    ensures MirrorForest(ts, generateUuid) == [Mirror(ts[0], generateUuid)] + MirrorForest(ts[1..], generateUuid)
  {
    ExportCompletes(ts[0], generateUuid);
    assert forall i :: 0 <= i < |ts[1..]| ==> ts[1..][i] == ts[i + 1];
  }

  /** The whole record sequence of a complete export is exactly one tree. */
  lemma RebuildExport(n: Node, generateUuid: bool)
    requires Exportable(n, generateUuid)
    ensures DecodeTree(ExportNode(n, generateUuid).records) == Some((Mirror(n, generateUuid), []))
  {
    RebuildTree(n, generateUuid, []);
    assert ExportNode(n, generateUuid).records + [] == ExportNode(n, generateUuid).records;
  }

  // ---------------------------------------------------------------------
  // A two-node tree
  // ---------------------------------------------------------------------

  /** A unit constant whose token is "km/h". */
  const KilometerPerHour := Constant("kilometer per hour", "km/h", None, Some("velocity"))

  const Speed := Node("Speed", SENSOR, "Vehicle speed.", Some(Plain("float")), Some(KilometerPerHour),
                      "", "", "", [], "", "", None, "", [])

  const Vehicle := Node("Vehicle", BRANCH, "High-level vehicle data.", None, None,
                        "", "", "", [], "", "", None, "", [Speed])

  /**
    A branch with one sensor child gives two records, the branch's first
    counting one child, the sensor's carrying its data type and the unit's
    token and counting none.
   */
  lemma VehicleSpeedExample()
    ensures ExportNode(Vehicle, false) == Output([
              Record("Vehicle", "branch", "", "High-level vehicle data.", "", "", "", "", "", "", "", 1),
              Record("Speed", "sensor", "", "Vehicle speed.", "float", "", "", "km/h", "", "", "", 0)], None)
  {
    var speedRecord := Record("Speed", "sensor", "", "Vehicle speed.", "float", "", "", "km/h", "", "", "", 0);
    assert RecordFor(Speed, false) == Ok(speedRecord);
    assert ExportNode(Speed, false) == Output([speedRecord], None);
    assert ExportChildren([Speed], false) == Output([speedRecord] + [], None);
  }
}
