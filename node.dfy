/**
 * `Node`: the data behind one entry of the server tree (a server, a
 * database, a key), with its equality and its sort order. The order is by id,
 * then database, then key, reversed when the receiving node sorts descending.
 */
module Nodes {
  import opened Common

  datatype NodeType = Root | Server | DataBase | Container | String | Hash | List | Set | SortedSet

  datatype OrderType = Ascend | Descend

  /** The fields of a node; `key` and `displayText` may be null. */
  datatype Node = Node(
    id: int,
    db: int,
    key: Option<string>,
    displayText: Option<string>,
    nodeType: NodeType,
    order: OrderType)

  /** An `object` argument: a node, some other object, or null. */
  datatype Obj = NodeObj(node: Node) | OtherObj | NullObj

  /** The five-argument constructor: the order defaults to ascending. */
  function NewNode(id: int, db: int, key: Option<string>, displayText: Option<string>, nodeType: NodeType): (n: Node)
    ensures n.order == Ascend
    ensures n.id == id && n.db == db && n.key == key && n.displayText == displayText && n.nodeType == nodeType
  {
    Node(id, db, key, displayText, nodeType, Ascend)
  }

  /** `Int32.CompareTo`: the sign of the difference. */
  function CompareInt(a: int, b: int): (r: int)
    ensures r == 0 <==> a == b
    ensures r == 1 <==> a > b
    ensures r == -1 <==> a < b
  {
    if a < b then -1 else if a > b then 1 else 0
  }

  /** Ordinal comparison of two strings, character by character; a proper prefix sorts first. */
  function CompareOrdinal(s: string, t: string): (r: int)
    ensures -1 <= r <= 1
    ensures r == 0 <==> s == t
  {
    if |s| == 0 && |t| == 0 then 0
    else if |s| == 0 then -1
    else if |t| == 0 then 1
    else if s[0] < t[0] then -1
    else if s[0] > t[0] then 1
    else
      var r := CompareOrdinal(s[1..], t[1..]);
      assert r == 0 ==> s == [s[0]] + s[1..] == [t[0]] + t[1..] == t;
      r
  }

  /** Swapping the strings negates the comparison. */
  lemma {:induction false} CompareOrdinalAntisymmetric(s: string, t: string)
    ensures CompareOrdinal(t, s) == -CompareOrdinal(s, t)
    decreases |s|
  {
    if |s| > 0 && |t| > 0 && s[0] == t[0] {
      CompareOrdinalAntisymmetric(s[1..], t[1..]);
    }
  }

  /** The ordinal order is transitive. */
  lemma {:induction false} CompareOrdinalTransitive(s: string, t: string, u: string)
    requires CompareOrdinal(s, t) < 0 && CompareOrdinal(t, u) < 0
    ensures CompareOrdinal(s, u) < 0
    decreases |s|
  {
    if |s| > 0 && |t| > 0 && |u| > 0 && s[0] == t[0] && t[0] == u[0] {
      CompareOrdinalTransitive(s[1..], t[1..], u[1..]);
    }
  }

  /**
   * `String.CompareTo`, taken as ordinal: every string sorts after null, and a
   * null receiver is a null dereference (`None`).
   */
  function CompareKey(key: Option<string>, other: Option<string>): (r: Option<int>)
    ensures r.None? <==> key.None?
    ensures key.Some? && other.None? ==> r == Some(1)
    ensures key.Some? && other.Some? ==> r == Some(CompareOrdinal(key.value, other.value))
  {
    if key.None? then None
    else if other.None? then Some(1)
    else Some(CompareOrdinal(key.value, other.value))
  }

  /** `Equals(object)`: a node with every field equal; never null or another kind of object. */
  function Equals(n: Node, obj: Obj): (r: bool)
    ensures r <==> obj == NodeObj(n)
  {
    match obj
    case NodeObj(m) =>
      n.id == m.id && n.db == m.db && n.key == m.key && n.displayText == m.displayText
      && n.nodeType == m.nodeType && n.order == m.order
    case _ => false
  }

  /** The ascending comparison: by id, then database, then key. */
  function CompareAscending(n: Node, other: Node): (r: Option<int>)
  {
    var byId := CompareInt(n.id, other.id);
    if byId != 0 then Some(byId)
    else
      var byDb := CompareInt(n.db, other.db);
      if byDb != 0 then Some(byDb)
      else CompareKey(n.key, other.key)
  }

  /**
   * `CompareTo(Node)`: a null node sorts before an ascending receiver and
   * after a descending one; otherwise the ascending comparison, negated when
   * the receiver sorts descending. `None` is a null receiver key reached by
   * the comparison.
   */
  function CompareTo(n: Node, other: Option<Node>): (r: Option<int>)
    ensures other.None? ==> r == Some(if n.order == Ascend then 1 else -1)
    ensures other.Some? && n.order == Ascend ==> r == CompareAscending(n, other.value)
    ensures other.Some? && n.order == Descend && CompareAscending(n, other.value).Some? ==>
      r == Some(-CompareAscending(n, other.value).value)
    ensures other.Some? && CompareAscending(n, other.value).None? ==> r.None?
  {
    if other.None? then
      if n.order == Ascend then Some(1) else Some(-1)
    else
      var result := CompareAscending(n, other.value);
      if result.None? then None
      else if n.order == Ascend then result
      else Some(result.value * -1)
  }

  /** `CompareTo(object)`: null and non-node arguments compare equal. */
  function CompareToObject(n: Node, obj: Obj): (r: Option<int>)
    ensures obj.NodeObj? ==> r == CompareTo(n, Some(obj.node))
    ensures !obj.NodeObj? ==> r == Some(0)
  {
    match obj
    case NodeObj(m) => CompareTo(n, Some(m))
    case _ => Some(0)
  }

  // ---------------------------------------------------------------- properties of the order

  /**
   * The comparison is zero exactly for nodes with the same id, database and
   * key; the display text and the node type play no part.
   */
  lemma CompareZeroIffSameKey(n: Node, m: Node)
    requires n.key.Some?
    ensures CompareTo(n, Some(m)).Some?
    ensures CompareTo(n, Some(m)) == Some(0) <==> n.id == m.id && n.db == m.db && n.key == m.key
  {
  }

  /** A node with a key compares equal to itself, and to any node it `Equals`. */
  lemma CompareSelf(n: Node, obj: Obj)
    requires n.key.Some? && Equals(n, obj)
    ensures CompareToObject(n, obj) == Some(0)
  {
  }

  /**
   * Between two nodes with keys and the same order, swapping them negates the
   * comparison.
   */
  lemma CompareToAntisymmetric(n: Node, m: Node)
    requires n.key.Some? && m.key.Some? && n.order == m.order
    ensures CompareTo(n, Some(m)).Some? && CompareTo(m, Some(n)).Some?
    ensures CompareTo(m, Some(n)).value == -CompareTo(n, Some(m)).value
  {
    CompareOrdinalAntisymmetric(n.key.value, m.key.value);
  }

  /**
   * Only the receiver's order counts: an ascending node and a descending one
   * each find the other on the same side.
   */
  lemma MixedOrdersAgree(n: Node, m: Node)
    requires n.key.Some? && m.key.Some? && n.order == Ascend && m.order == Descend
    ensures CompareTo(n, Some(m)) == CompareTo(m, Some(n))
  {
    CompareOrdinalAntisymmetric(n.key.value, m.key.value);
  }

  /** Among ascending nodes with keys, "sorts before" is transitive. */
  lemma CompareToTransitive(a: Node, b: Node, c: Node)
    requires a.key.Some? && b.key.Some? && c.key.Some?
    requires a.order == Ascend && b.order == Ascend
    requires CompareTo(a, Some(b)) == Some(-1) && CompareTo(b, Some(c)) == Some(-1)
    ensures CompareTo(a, Some(c)) == Some(-1)
  {
    if a.id == b.id && b.id == c.id && a.db == b.db && b.db == c.db {
      CompareOrdinalTransitive(a.key.value, b.key.value, c.key.value);
    }
  }
}
