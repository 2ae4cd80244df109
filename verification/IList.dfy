/** The singly linked object list of the server, and the timer objects kept in it. */
module IList {
  import opened Arith

  type Dword = x: int | 0 <= x < W32

  /** A uint16_t holding n. */
  function Mod16(n: nat): nat {
    n % 0x1_0000
  }

  function Inc16(n: nat): nat {
    (n + 1) % 0x1_0000
  }

  function Dec16(n: nat): nat {
    (n + 0xFFFF) % 0x1_0000
  }

  lemma Step16(n: nat)
    ensures Inc16(Mod16(n)) == Mod16(n + 1) && Dec16(Mod16(n + 1)) == Mod16(n)
    ensures Mod16(0) == 0
  {
  }

  /** One timer object; its first member links it into the list. */
  class Node {
    var pNext: Node?
    var tick: Dword
    const saveTick: Dword
    const reload: bool
    var destroy: bool
    ghost const id: nat    // how many timers were created before this one

    constructor (tick: Dword, reload: bool, ghost id: nat)
      ensures this.tick == saveTick == tick && this.reload == reload && !destroy && this.id == id
    {
      pNext := null;
      this.tick, this.saveTick, this.reload, this.destroy, this.id := tick, tick, reload, false, id;
    }
  }

  ghost predicate NoDuplicates(s: seq<Node>) {
    forall i, j :: 0 <= i < j < |s| ==> s[i] != s[j]
  }

  /** The nodes of s are linked in this order, and the last one ends the list. */
  ghost predicate Linked(s: seq<Node>)
    reads s`pNext
  {
    && (forall i :: 0 <= i < |s| - 1 ==> s[i].pNext == s[i + 1])
    && (s != [] ==> s[|s| - 1].pNext == null)
  }

  /** s without its element k. */
  function Without<T>(s: seq<T>, k: nat): (r: seq<T>)
    requires k < |s|
  {
    s[..k] + s[k + 1..]
  }

  /** r is s without o. */
  ghost predicate LacksOne(s: seq<Node>, o: Node, r: seq<Node>) {
    exists k: nat :: k < |s| && s[k] == o && r == Without(s, k)
  }

  /** Only the predecessor of o was given another successor. */
  twostate predicate OthersLinked(s: seq<Node>, o: Node)
    reads s`pNext
  {
    forall n :: n in s && n != o && n.pNext != old(n.pNext) ==> old(n.pNext) == o
  }

  lemma WithoutFacts(s: seq<Node>, k: nat)
    requires k < |s| && NoDuplicates(s)
    ensures var r := Without(s, k);
      && |r| == |s| - 1 && NoDuplicates(r)
      && (forall i :: 0 <= i < |r| ==> r[i] == if i < k then s[i] else s[i + 1])
      && (forall i :: 0 <= i < |s| && i != k ==> s[i] in r) && s[k] !in r
      && (r != [] ==> r[0] == if 0 < k then s[0] else s[1])
      && (r != [] ==> r[|r| - 1] == if |r| - 1 < k then s[|r| - 1] else s[|r|])
  {
    WithoutPlaces(s, k);
    WithoutMembers(s, k);
    hide Without, NoDuplicates;
  }

  lemma WithoutPlaces(s: seq<Node>, k: nat)
    requires k < |s|
    ensures |Without(s, k)| == |s| - 1
    ensures forall i :: 0 <= i < |s| - 1 ==> Without(s, k)[i] == if i < k then s[i] else s[i + 1]
  {
  }

  lemma WithoutMembers(s: seq<Node>, k: nat)
    requires k < |s| && NoDuplicates(s)
    ensures NoDuplicates(Without(s, k)) && s[k] !in Without(s, k)
    ensures forall i :: 0 <= i < |s| && i != k ==> s[i] in Without(s, k)
  {
    assert forall i :: 0 <= i < |s| && i != k ==> s[i] in s[..k] || s[i] in s[k + 1..];
  }

  /** Once its predecessor points past it, node k is out of the list. */
  lemma Relinked(s: seq<Node>, k: nat)
    requires k < |s| && NoDuplicates(s)
    requires forall i :: 0 <= i < |s| - 1 && i != k - 1 ==> s[i].pNext == s[i + 1]
    requires k < |s| - 1 ==> s[|s| - 1].pNext == null
    requires k > 0 ==> s[k - 1].pNext == if k + 1 < |s| then s[k + 1] else null
    ensures Linked(Without(s, k))
  {
    WithoutFacts(s, k);
    var r := Without(s, k);
    hide Without;
    forall i | 0 <= i < |r| - 1
      ensures r[i].pNext == r[i + 1]
    {
      assert r[i] == if i < k then s[i] else s[i + 1];
      assert r[i + 1] == if i + 1 < k then s[i + 1] else s[i + 2];
    }
    if r != [] {
      assert r[|r| - 1] == if |r| - 1 < k then s[|r| - 1] else s[|r|];
    }
  }

  class ListHandle {
    var head: Node?
    var tail: Node?
    var current: Node?
    var count: nat              // uint16_t
    ghost var nodes: seq<Node>  // the objects in the list, in order

    ghost predicate Valid()
      reads this, nodes`pNext
    {
      && NoDuplicates(nodes) && Linked(nodes)
      && head == (if nodes == [] then null else nodes[0])
      && tail == (if nodes == [] then null else nodes[|nodes| - 1])
      && count == Mod16(|nodes|)
    }

    /** createHandle. */
    constructor ()
      ensures Valid() && nodes == [] && current == null
    {
      head, tail, current, count, nodes := null, null, null, 0, [];
    }

    /** appendObject. An object that is in the list already, at place k, cuts the list off behind itself, and
        closes a circle if it was the last; the count goes up all the same. */
    method Append(obj: Node)
      requires Valid()
      modifies this, obj`pNext, nodes`pNext
      ensures obj !in old(nodes) ==> Valid() && nodes == old(nodes) + [obj]
      ensures forall k: nat :: k < |old(nodes)| && old(nodes)[k] == obj ==>
                && nodes == old(nodes)[..k + 1] && head == nodes[0] && tail == obj
                && obj.pNext == (if k + 1 < |old(nodes)| then null else obj)
                && (Valid() <==> k + 1 < |old(nodes)| && Mod16(|old(nodes)| + 1) == Mod16(k + 1))
      ensures count == Mod16(|old(nodes)| + 1) && current == old(current)
    {
      hide Mod16, Inc16;
      Step16(|nodes|);
      ghost var s := nodes;
      obj.pNext := null;
      if tail != null {
        tail.pNext := obj;
        tail := obj;
      } else {
        head := obj;
        tail := obj;
      }
      count := Inc16(count);
      if obj in s {
        ghost var k: nat :| k < |s| && s[k] == obj;
        nodes := s[..k + 1];
      } else {
        nodes := s + [obj];
      }
    }

    /** deleteObject: unlink the object, if it is in the list; head, tail and count follow. */
    method Delete(obj: Node) returns (found: bool)
      requires Valid()
      modifies this, nodes`pNext
      ensures Valid() && (found <==> obj in old(nodes))
      ensures !found ==> nodes == old(nodes)
      ensures found ==> LacksOne(old(nodes), obj, nodes)
      ensures current == if found then null else old(current)
      ensures OthersLinked(old(nodes), obj)
      ensures obj.pNext == old(obj.pNext)
    {
      var plink, ptemp := head, null;
      ghost var k: nat := 0;
      while plink != null
        invariant Valid() && nodes == old(nodes) && k <= |nodes| && current == old(current)
        invariant forall o: Node :: o in nodes ==> o.pNext == old(o.pNext)
        invariant obj.pNext == old(obj.pNext)
        invariant plink == if k < |nodes| then nodes[k] else null
        invariant ptemp == if k == 0 then null else nodes[k - 1]
        invariant forall j :: 0 <= j < k ==> nodes[j] != obj
        decreases |nodes| - k
      {
        if plink == obj {
          Unlink(plink, ptemp, k);
          return true;
        } else {
          ptemp := plink;
          plink := ptemp.pNext;
        }
        assert nodes[k].pNext == if k + 1 < |nodes| then nodes[k + 1] else null;
        k := k + 1;
      }
      return false;
    }

    /** The unlinking of deleteObject, at place k. */
    method Unlink(plink: Node, ptemp: Node?, ghost k: nat)
      requires Valid() && k < |nodes| && plink == nodes[k]
      requires ptemp == if k == 0 then null else nodes[k - 1]
      modifies this, nodes`pNext
      ensures Valid() && nodes == Without(old(nodes), k) && current == null
      ensures forall o: Node :: o in old(nodes) && o.pNext != old(o.pNext) ==> old(o.pNext) == plink && o != plink
    {
      hide Linked, NoDuplicates, Without, Mod16, Dec16;
      ghost var r := Without(nodes, k);
      WithoutFacts(nodes, k);
      Step16(|r|);
      Bypass(plink, ptemp, k);
      current := null;
      count := Dec16(count);
      nodes := r;
    }

    /** Link the predecessor, or the head, to the successor; the tail follows. */
    method Bypass(plink: Node, ptemp: Node?, ghost k: nat)
      requires Valid() && k < |nodes| && plink == nodes[k]
      requires ptemp == if k == 0 then null else nodes[k - 1]
      modifies this`head, this`tail, nodes`pNext
      ensures Linked(Without(nodes, k))
      ensures var r := Without(nodes, k); if r == [] then head == tail == null else head == r[0] && tail == r[|r| - 1]
      ensures forall o: Node :: o in nodes && o.pNext != old(o.pNext) ==> old(o.pNext) == plink && o != plink
    {
      hide Mod16, Without;
      ghost var s := nodes;
      WithoutFacts(s, k);
      assert plink.pNext == if k + 1 < |s| then s[k + 1] else null;
      assert ptemp != null ==> ptemp.pNext == plink && ptemp != plink;
      if ptemp == null {
        head := plink.pNext;
        if head == null {
          tail := null;
        }
      } else {
        ptemp.pNext := plink.pNext;
        if ptemp.pNext == null {
          tail := ptemp;
        }
      }
      Relinked(s, k);
    }

    /** getNumber: place of the object in the list, 0xFFFF when it is not there. */
    method GetNumber(obj: Node?) returns (i: nat)
      requires Valid()
      ensures if obj != null && obj in nodes then exists k: nat :: k < |nodes| && nodes[k] == obj && i == Mod16(k)
              else i == 0xFFFF
    {
      hide Mod16, Inc16;
      Step16(0);
      var plink := head;
      i := 0;
      ghost var k: nat := 0;
      while plink != null && plink != obj
        invariant k <= |nodes| && i == Mod16(k)
        invariant plink == if k < |nodes| then nodes[k] else null
        invariant forall j :: 0 <= j < k ==> nodes[j] != obj
        decreases |nodes| - k
      {
        Step16(k);
        i := Inc16(i);
        plink := plink.pNext;
        k := k + 1;
      }
      if plink == null {
        i := 0xFFFF;
      }
    }

    /** getSize. */
    method GetSize() returns (n: nat)
      requires Valid()
      ensures n == Mod16(|nodes|)
    {
      n := count;
    }

    /** `plink->pNext`, for the object at place k. */
    method Next(plink: Node, ghost k: nat) returns (nxt: Node?)
      requires Valid() && k < |nodes| && plink == nodes[k]
      ensures nxt == if k + 1 < |nodes| then nodes[k + 1] else null
    {
      nxt := plink.pNext;
    }

    /** getFirst. */
    method GetFirst() returns (o: Node?)
      requires Valid()
      ensures o == if nodes == [] then null else nodes[0]
    {
      o := head;
    }

    /** getLast. */
    method GetLast() returns (o: Node?)
      requires Valid()
      ensures o == if nodes == [] then null else nodes[|nodes| - 1]
    {
      o := tail;
    }
  }
}
