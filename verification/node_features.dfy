/**
 * Node-level feature encoding of the e-graph language (rejoice/lib.py):
 * every graph node becomes a fixed-width row
 *   [is_eclass, is_enode, is_scalar, scalar_val, onehot(operator kind)...]
 * and a row decodes back to a small record describing the node.
 */
module NodeFeatures {
  import opened Wrappers
  import opened SeqOps

  /** An operator kind of the language, identified by its class name. */
  datatype OpKind = OpKind(name: string)

  /** The identifier of an eclass, the key of the e-graph's class dictionary. */
  type ClassId = string

  /** An enode: an integer leaf, or an operator applied to child eclasses. */
  datatype Node = Scalar(n: int) | Op(kind: OpKind, children: seq<ClassId>)

  /** The language's `all_operators()`, in declaration order. */
  type Vocabulary = seq<OpKind>

  type Row = seq<real>

  datatype EncodeError =
    | UnknownOperator(kind: OpKind)   // "Failed to encode node"
    | MissingChild(id: ClassId)       // KeyError in `eclass_to_ind`
    | EmptyStack                      // `torch.stack` of an empty list

  const IsEClass: nat := 0
  const IsENode: nat := 1
  const IsScalar: nat := 2
  const ScalarVal: nat := 3
  /** Position of the first operator one-hot slot. */
  const OpBase: nat := 4

  const HeaderNames: seq<string> := ["is_eclass", "is_enode", "is_scalar", "scalar_val"]

  function NumNodeFeatures(ops: Vocabulary): nat
  {
    OpBase + |ops|
  }

  /** The column labels: the four header features, then one per operator kind. */
  function FeatureNames(ops: Vocabulary): (names: seq<string>)
    ensures |names| == NumNodeFeatures(ops)
    ensures forall i :: 0 <= i < OpBase ==> names[i] == HeaderNames[i]
    ensures forall i :: 0 <= i < |ops| ==> names[OpBase + i] == ops[i].name
  {
    HeaderNames + seq(|ops|, i requires 0 <= i < |ops| => ops[i].name)
  }

  /** Index of the first vocabulary entry of kind `k`: the order in which `isinstance` is tried. */
  function FirstIndexOf(ops: Vocabulary, k: OpKind): (r: Option<nat>)
    ensures r.None? <==> k !in ops
    ensures r.Some? ==> r.value < |ops| && ops[r.value] == k
    ensures r.Some? ==> forall j :: 0 <= j < r.value ==> ops[j] != k
  {
    if |ops| == 0 then None
    else if ops[0] == k then Some(0)
    else match FirstIndexOf(ops[1..], k)
      case None => None
      case Some(i) => Some(i + 1)
  }

  /** An eclass row: `is_eclass` set and nothing else, whatever the class id or analysis data. */
  function EncodeEClass(ops: Vocabulary): (v: Row)
    ensures |v| == NumNodeFeatures(ops)
    ensures v[IsEClass] == 1.0
    ensures forall i :: 0 <= i < |v| && i != IsEClass ==> v[i] == 0.0
  {
    Zeros(NumNodeFeatures(ops))[IsEClass := 1.0]
  }

  /** The row a well-encoded operator node carries: `is_enode` and exactly the one-hot slot `4 + i`. */
  predicate OperatorRow(ops: Vocabulary, v: Row, i: nat)
  {
    && |v| == NumNodeFeatures(ops)
    && i < |ops|
    && forall j :: 0 <= j < |v| ==> v[j] == (if j == IsENode || j == OpBase + i then 1.0 else 0.0)
  }

  /**
   * `encode_node`: a scalar sets `is_scalar` and `scalar_val` only (not
   * `is_enode`); an operator node sets `is_enode` and the slot of the first
   * vocabulary entry of its kind, and fails when its kind is not in the vocabulary.
   */
  function EncodeNode(ops: Vocabulary, n: Node): (r: Result<Row, EncodeError>)
    ensures r.Err? <==> n.Op? && n.kind !in ops
    ensures r.Err? ==> r.error == UnknownOperator(n.kind)
    ensures r.Ok? ==> |r.value| == NumNodeFeatures(ops)
  {
    var zero := Zeros(NumNodeFeatures(ops));
    match n
    case Scalar(x) => Ok(zero[IsScalar := 1.0][ScalarVal := x as real])
    case Op(k, _) =>
      match FirstIndexOf(ops, k)
      case None => Err(UnknownOperator(k))
      case Some(i) => Ok(zero[IsENode := 1.0][OpBase + i := 1.0])
  }

  /** A scalar leaf's row sets `is_scalar` and `scalar_val` and nothing else, not even `is_enode`. */
  lemma EncodeScalar(ops: Vocabulary, x: int)
    ensures EncodeNode(ops, Scalar(x)).Ok?
    ensures var v := EncodeNode(ops, Scalar(x)).value;
      && v[IsScalar] == 1.0
      && v[ScalarVal] == x as real
      && forall j :: 0 <= j < |v| && j != IsScalar && j != ScalarVal ==> v[j] == 0.0
  {
  }

  /** An operator row is the `OperatorRow` of the first vocabulary entry of the operator's kind. */
  lemma EncodeOperator(ops: Vocabulary, n: Node) returns (i: nat)
    requires n.Op? && n.kind in ops
    ensures i < |ops| && ops[i] == n.kind && forall j :: 0 <= j < i ==> ops[j] != n.kind
    ensures EncodeNode(ops, n).Ok? && OperatorRow(ops, EncodeNode(ops, n).value, i)
  {
    i := FirstIndexOf(ops, n.kind).value;
  }

  /** Exactly one operator slot of an operator row is set. */
  lemma OperatorRowOneHot(ops: Vocabulary, v: Row, i: nat, j: nat)
    requires OperatorRow(ops, v, i)
    requires j < |ops|
    ensures v[OpBase + j] == (if j == i then 1.0 else 0.0)
  {
  }

  /** The column label of the slot an operator node sets is its operator's name. */
  lemma EncodedSlotName(ops: Vocabulary, n: Node, j: nat)
    requires n.Op? && EncodeNode(ops, n).Ok?
    requires OpBase <= j < NumNodeFeatures(ops) && EncodeNode(ops, n).value[j] == 1.0
    ensures FeatureNames(ops)[j] == n.kind.name
  {
    var v := EncodeNode(ops, n).value;
    var i := EncodeOperator(ops, n);
    OperatorRowOneHot(ops, v, i, j - OpBase);
  }

  /** The dictionary `decode_node` returns: "type", "is_scalar", "value" and, for enodes, "op". */
  datatype Decoded = Decoded(kind: string, isScalar: bool, value: real, op: Option<string>)

  datatype DecodeError =
    | RowTooShort                       // indexing `node[3]` past the end
    | NoOperatorSlots                   // `argmax` of an empty tensor
    | OperatorOutOfRange(index: nat)    // `all_ops[ind]` past the vocabulary

  /** `torch.argmax`: the first position holding the largest value. */
  function Argmax(s: seq<real>): (i: nat)
    requires |s| > 0
    ensures i < |s|
    ensures forall j :: 0 <= j < |s| ==> s[j] <= s[i]
    ensures forall j :: 0 <= j < i ==> s[j] < s[i]
  {
    if |s| == 1 then 0
    else
      var k := Argmax(s[..|s| - 1]);
      if s[|s| - 1] > s[k] then |s| - 1 else k
  }

  /** `decode_node` on an arbitrary row, with the exceptions it can raise. */
  function DecodeNode(ops: Vocabulary, v: Row): Result<Decoded, DecodeError>
  {
    if |v| < OpBase then Err(RowTooShort)
    else
      var d := Decoded(if v[IsEClass] == 1.0 then "eclass" else "enode", v[IsScalar] != 0.0, v[ScalarVal], None);
      if v[IsENode] != 1.0 then Ok(d)
      else if |v| == OpBase then Err(NoOperatorSlots)
      else
        var i := Argmax(v[OpBase..]);
        if i < |ops| then Ok(d.(op := Some(ops[i].name))) else Err(OperatorOutOfRange(i))
  }

  /**
   * `decode_node` fails only on a row too short to hold the header, or on an
   * enode row whose operator slots are missing or whose hot slot lies past
   * the vocabulary; it reports an operator exactly for rows with `is_enode` set.
   * This gathers `DecodeNode`'s own branch conditions into one statement for
   * callers; the round trip with `EncodeNode` is the property with content.
   */
  lemma DecodeNodeOutcome(ops: Vocabulary, v: Row)
    ensures DecodeNode(ops, v).Err? <==>
      |v| < OpBase || (v[IsENode] == 1.0 && (|v| == OpBase || Argmax(v[OpBase..]) >= |ops|))
    ensures DecodeNode(ops, v).Ok? ==> (DecodeNode(ops, v).value.op.Some? <==> v[IsENode] == 1.0)
  {
  }

  /** The operator a decoded row reports is the column label of its largest operator slot. */
  lemma DecodedOpIsFeatureName(ops: Vocabulary, v: Row)
    requires DecodeNode(ops, v).Ok? && DecodeNode(ops, v).value.op.Some?
    ensures |v| > OpBase && OpBase + Argmax(v[OpBase..]) < NumNodeFeatures(ops)
    ensures DecodeNode(ops, v).value.op.value == FeatureNames(ops)[OpBase + Argmax(v[OpBase..])]
  {
  }

  /**
   * What decoding an encoded node reports. A scalar leaf is typed "enode"
   * because its `is_eclass` slot is 0, yet it carries no "op" entry because
   * `encode_node` leaves its `is_enode` slot 0.
   */
  function Classification(n: Node): Decoded
  {
    match n
    case Scalar(x) => Decoded("enode", true, x as real, None)
    case Op(k, _) => Decoded("enode", false, 0.0, Some(k.name))
  }

  /** Decoding an eclass row yields type "eclass" and nothing else. */
  lemma DecodeEncodedEClass(ops: Vocabulary)
    ensures DecodeNode(ops, EncodeEClass(ops)) == Ok(Decoded("eclass", false, 0.0, None))
  {
  }

  /** `torch.argmax` of a one-hot segment is the hot position. */
  lemma ArgmaxOneHot(s: seq<real>, i: nat)
    requires i < |s|
    requires forall j :: 0 <= j < |s| ==> s[j] == (if j == i then 1.0 else 0.0)
    ensures Argmax(s) == i
  {
  }

  /** Round trip: every node `encode_node` accepts decodes to its classification. */
  lemma DecodeEncodedNode(ops: Vocabulary, n: Node)
    requires EncodeNode(ops, n).Ok?
    ensures DecodeNode(ops, EncodeNode(ops, n).value) == Ok(Classification(n))
  {
    var v := EncodeNode(ops, n).value;
    if n.Scalar? {
      EncodeScalar(ops, n.n);
    } else {
      var i := EncodeOperator(ops, n);
      var seg := v[OpBase..];
      forall j | 0 <= j < |seg|
        ensures seg[j] == (if j == i then 1.0 else 0.0)
      {
        OperatorRowOneHot(ops, v, i, j);
      }
      ArgmaxOneHot(seg, i);
    }
  }
}
