/** Slab records: the order payload, the node record of one 96-byte slot, and
    the link readers and writers of the red-black tree (NIL reads as a black,
    childless node; writes to NIL do nothing).

    A slab is a sequence of node records indexed by slot number, which is the
    byte offset in the program divided by the node size. */
module Nodes {
  const NIL: int := 0xFFFF_FFFF
  const NODE_TOTAL_BYTES: int := 96
  const MAX_NODES: int := 100
  const MAX_NODES_EXPANDED: int := 10_000

  datatype Color = Black | Red

  /** The payload of a resting order. Orders compare by orderId alone. */
  datatype Order = Order(
    orderId: nat,
    orderSeq: nat,
    priceTicks: nat,
    sizeLots: nat,
    expiresAtSlot: nat,
    trader: int,
    lastValidSlot: nat,
    side: nat,
    orderType: nat,
    flags: nat,
    subIndex: nat)

  const ZeroOrder: Order := Order(0, 0, 0, 0, 0, 0, 0, 0, 0, 0, 0)

  /** One slot. While the slot is on the free list, left holds the next free
      slot: both fields sit at byte offset 0. */
  datatype Node = Node(left: int, right: int, parent: int, color: Color, value: Order)

  const ZeroNode: Node := Node(0, 0, 0, Black, ZeroOrder)

  /** i is a link that can be followed or is NIL. */
  predicate Link(m: seq<Node>, i: int) {
    i == NIL || 0 <= i < |m|
  }

  function GetLeft(m: seq<Node>, i: int): int
    requires Link(m, i)
  {
    if i == NIL then NIL else m[i].left
  }

  function GetRight(m: seq<Node>, i: int): int
    requires Link(m, i)
  {
    if i == NIL then NIL else m[i].right
  }

  function GetParent(m: seq<Node>, i: int): int
    requires Link(m, i)
  {
    if i == NIL then NIL else m[i].parent
  }

  function GetColor(m: seq<Node>, i: int): Color
    requires Link(m, i)
  {
    if i == NIL then Black else m[i].color
  }

  function SetLeft(m: seq<Node>, i: int, x: int): seq<Node>
    requires Link(m, i)
  {
    if i == NIL then m else m[i := m[i].(left := x)]
  }

  function SetRight(m: seq<Node>, i: int, x: int): seq<Node>
    requires Link(m, i)
  {
    if i == NIL then m else m[i := m[i].(right := x)]
  }

  function SetParent(m: seq<Node>, i: int, x: int): seq<Node>
    requires Link(m, i)
  {
    if i == NIL then m else m[i := m[i].(parent := x)]
  }

  function SetColor(m: seq<Node>, i: int, c: Color): seq<Node>
    requires Link(m, i)
  {
    if i == NIL then m else m[i := m[i].(color := c)]
  }

  /** No slot is listed twice. */
  ghost predicate NoDup(s: seq<int>) {
    forall i, j :: 0 <= i < j < |s| ==> s[i] != s[j]
  }

  /** m' is m with writes confined to the slots of S, and with every payload
      still in its own slot. */
  ghost predicate Confined(m: seq<Node>, m': seq<Node>, S: set<int>) {
    && |m'| == |m|
    && (forall s :: 0 <= s < |m| ==> m'[s].value == m[s].value)
    && (forall s :: 0 <= s < |m| && s !in S ==> m'[s] == m[s])
  }

  lemma ConfinedTrans(m0: seq<Node>, m1: seq<Node>, m2: seq<Node>, S: set<int>)
    requires Confined(m0, m1, S) && Confined(m1, m2, S)
    ensures Confined(m0, m2, S)
  {
    forall s | 0 <= s < |m0| && s !in S
      ensures m2[s] == m0[s]
    {
      assert m1[s] == m0[s];
    }
  }

  lemma ConfinedGrow(m: seq<Node>, m': seq<Node>, S: set<int>, S': set<int>)
    requires Confined(m, m', S) && S <= S'
    ensures Confined(m, m', S')
  {
  }
}
