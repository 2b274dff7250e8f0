/** The free list: a linked list of slots threaded through the slab, in the
    field that the tree uses for the left child. */
module FreeLists {
  import opened Nodes
  import opened Trees

  /** The link after position i of the list. */
  ghost function LinkAfter(list: seq<int>, i: int): int
    requires 0 <= i < |list|
  {
    if i + 1 < |list| then list[i + 1] else NIL
  }

  ghost function Head(list: seq<int>): int {
    if list == [] then NIL else list[0]
  }

  /** From head, the slab holds the free list: every slot in it is scrubbed but
      for its link, and no slot occurs twice. */
  ghost predicate FreeRep(m: seq<Node>, head: int, list: seq<int>) {
    && |m| <= NIL && head == Head(list) && NoDup(list)
    && (forall i :: 0 <= i < |list| ==>
          0 <= list[i] < |m| && m[list[i]] == ZeroNode.(left := LinkAfter(list, i)))
  }

  lemma FreeFrame(m: seq<Node>, m': seq<Node>, head: int, list: seq<int>)
    requires FreeRep(m, head, list) && |m'| == |m|
    requires forall s :: s in list && 0 <= s < |m| ==> m'[s] == m[s]
    ensures FreeRep(m', head, list)
  {
  }

  function Added(m: seq<Node>, head: int, index: int): seq<Node>
    requires 0 <= index < |m|
  {
    if head == index then m else m[index := ZeroNode.(left := head)]
  }

  lemma AddRep(m: seq<Node>, head: int, list: seq<int>, index: int)
    requires FreeRep(m, head, list) && 0 <= index < |m| && index !in list
    ensures FreeRep(Added(m, head, index), index, [index] + list)
    ensures head != index
  {
    var m', list' := Added(m, head, index), [index] + list;
    assert head != index && m' == m[index := ZeroNode.(left := head)];
    hide Added;
    forall i | 0 <= i < |list'|
      ensures 0 <= list'[i] < |m| && m'[list'[i]] == ZeroNode.(left := LinkAfter(list', i))
    {
      if i == 0 {
        assert LinkAfter(list', 0) == head;
      } else {
        assert list'[i] == list[i - 1] && LinkAfter(list', i) == LinkAfter(list, i - 1);
        assert list[i - 1] in list;
      }
    }
    assert NoDup(list');
  }

  /** The guard against freeing the head twice covers exactly the head: freeing
      any other free slot again ties the list into a cycle. */
  lemma DoubleFreeExact(m: seq<Node>, head: int, list: seq<int>, index: int)
    requires FreeRep(m, head, list) && 0 <= index < |m|
    ensures (exists list' :: FreeRep(Added(m, head, index), index, list')) <==> index == head || index !in list
  {
    if index == head {
      assert FreeRep(Added(m, head, index), index, list);
    } else if index !in list {
      AddRep(m, head, list, index);
    } else {
      var k :| 0 <= k < |list| && list[k] == index;
      forall list'
        ensures !FreeRep(Added(m, head, index), index, list')
      {
        if FreeRep(Added(m, head, index), index, list') {
          AddedFollows(m, head, list, index, k, list', k);
        }
      }
    }
  }

  /** A list read off after the bad free retraces the old one up to index. */
  lemma {:induction false} AddedFollows(m: seq<Node>, head: int, list: seq<int>, index: int, k: int,
                                        list': seq<int>, j: nat)
    requires FreeRep(m, head, list) && 0 <= k < |list| && list[k] == index && index != head
    requires 0 <= index < |m| && FreeRep(Added(m, head, index), index, list')
    requires j <= k
    ensures j + 1 < |list'| && list'[j + 1] == list[j]
  {
    var m' := Added(m, head, index);
    if j == 0 {
      assert m'[list'[0]].left == LinkAfter(list', 0);
    } else {
      AddedFollows(m, head, list, index, k, list', j - 1);
      assert list[j - 1] != index;
      assert m'[list'[j]] == m[list[j - 1]];
      assert LinkAfter(list', j) == LinkAfter(list, j - 1) == list[j];
    }
  }

  class FreeList {
    const data: array<Node>
    var headIndex: int

    constructor (data: array<Node>, headIndex: int)
      ensures this.data == data && this.headIndex == headIndex
    {
      this.data := data;
      this.headIndex := headIndex;
    }

    /** Free a slot, scrubbing it whole; freeing the head again does nothing. */
    method Add(index: int, ghost list: seq<int>) returns (ghost list': seq<int>)
      requires FreeRep(data[..], headIndex, list) && 0 <= index < data.Length
      requires index == headIndex || index !in list
      modifies this, data
      ensures FreeRep(data[..], headIndex, list')
      ensures list' == if index == old(headIndex) then list else [index] + list
      ensures data[..] == Added(old(data[..]), old(headIndex), index)
    {
      if headIndex == index {
        return list;
      }
      AddRep(data[..], headIndex, list, index);
      data[index] := ZeroNode.(left := headIndex);
      headIndex := index;
      list' := [index] + list;
    }

    /** Take the head slot, or NIL when the list is empty. The slot comes back
        all zero. */
    method Remove(ghost list: seq<int>) returns (index: int, ghost list': seq<int>)
      requires FreeRep(data[..], headIndex, list)
      modifies this, data
      ensures FreeRep(data[..], headIndex, list')
      ensures list == [] ==> index == NIL && list' == [] && data[..] == old(data[..])
      ensures list != [] ==> index == list[0] && list' == list[1..]
      ensures list != [] ==> 0 <= index < data.Length && data[..] == old(data[..])[index := ZeroNode]
    {
      if headIndex == NIL {
        return NIL, list;
      }
      index := headIndex;
      ghost var m := data[..];
      assert m[list[0]] == ZeroNode.(left := LinkAfter(list, 0));
      headIndex := data[index].left;
      data[index] := data[index].(left := 0);
      list' := list[1..];
      forall i | 0 <= i < |list'|
        ensures 0 <= list'[i] < data.Length && data[list'[i]] == ZeroNode.(left := LinkAfter(list', i))
      {
        assert list'[i] == list[i + 1] && LinkAfter(list', i) == LinkAfter(list, i + 1);
        assert m[list[i + 1]] == ZeroNode.(left := LinkAfter(list, i + 1));
      }
    }
  }
}
