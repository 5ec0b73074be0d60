/** Identifiers, references and node records of the address space, with the numeric
    identifiers of the OPC UA standard that the server treats specially. */
module OpcTypes {

  datatype Option<+T> = None | Some(value: T)

  /** A numeric node identifier: the only kind the server creates. */
  datatype NodeId = NodeId(ns: nat, num: nat)

  /** The limits of 32-bit numbers. */
  const INT32 := 0x8000_0000
  const UINT32 := 0x1_0000_0000

  const NULL_ID := NodeId(0, 0)
  const OPC_NAMESPACE := 0
  const SERVER_NAMESPACE := 1

  const ORGANIZES := NodeId(0, 35)
  const HAS_MODELLING_RULE := NodeId(0, 37)
  const HAS_TYPE_DEFINITION := NodeId(0, 40)
  const HAS_SUBTYPE := NodeId(0, 45)
  const HAS_PROPERTY := NodeId(0, 46)
  const HAS_COMPONENT := NodeId(0, 47)
  const PROPERTY_TYPE := NodeId(0, 68)
  const RULE_MANDATORY := NodeId(0, 78)
  const RULE_EXPOSES_ITS_ARRAY := NodeId(0, 83)
  const RULE_OPTIONAL_PLACEHOLDER := NodeId(0, 11508)
  const RULE_MANDATORY_PLACEHOLDER := NodeId(0, 11510)

  datatype NodeKind =
    | ReferenceType | View | Object | ObjectType
    | Variable | VariableType | Method | DataType

  /** The NodeClass attribute; it is unspecified until the kind-specific constructor sets it. */
  datatype NodeClass = Unspecified | Class(kind: NodeKind)

  /** A browse name; its text may be a null string. */
  datatype QName = QName(ns: nat, name: Option<string>)

  /** A typed, directed reference held by a node. */
  datatype Ref = Ref(refType: NodeId, inverse: bool, target: NodeId)

  /** The reference that the target of `r` holds back to `source` when the two are paired. */
  function Flip(r: Ref, source: NodeId): Ref {
    Ref(r.refType, !r.inverse, source)
  }

  predicate IsAggregate(refType: NodeId) {
    refType == HAS_PROPERTY || refType == HAS_COMPONENT
  }

  /** A forward HasProperty or HasComponent reference: the only kind that cloning descends. */
  predicate Descends(r: Ref) {
    IsAggregate(r.refType) && !r.inverse
  }

  /** Two browse names are the same for the duplicate test when both texts exist and agree. */
  predicate SameBrowseName(a: QName, b: QName) {
    a.ns == b.ns && a.name.Some? && a.name == b.name
  }

  datatype NodeRec = NodeRec(kind: NodeKind, nodeClass: NodeClass, browse: QName, refs: seq<Ref>)

  /** The nodes of an address space by identifier. */
  type Graph = map<NodeId, NodeRec>

  /** A predicate whose body stands under a quantifier over seals is sealed: only proofs that mention
      `Unsealed` look inside. */
  datatype Seal = Seal

  predicate Unsealed(k: Seal) {
    true
  }

  lemma Regrouped<T>(a: seq<T>, b: seq<T>, c: seq<T>)
    ensures a + (b + c) == (a + b) + c
  {
  }

  lemma SameTail<T>(a: seq<T>, b: seq<T>, c: seq<T>)
    ensures a + b == a + c <==> b == c
  {
    assert (a + b)[|a|..] == b && (a + c)[|a|..] == c;
  }

  /** The elements that are kept, in their order. */
  function Filter<T(!new)>(s: seq<T>, keep: T -> bool): (out: seq<T>)
    ensures forall x :: x in out <==> x in s && keep(x)
  {
    if s == [] then [] else (if keep(s[0]) then [s[0]] else []) + Filter(s[1..], keep)
  }
}
