/**
 * The intrusive XOR list: every node stores one word, the exclusive or of its neighbours' addresses.
 * A node is its 64-bit address, 0 being null, and memory holds the link word of the node at every
 * address, so that casting between pointers and integers is the identity and writes alias by address.
 */
module XorList {

  datatype Address = Address(bits: bv64)

  const NULL := Address(0)

  function Xor(a: Address, b: Address): Address {
    Address(a.bits ^ b.bits)
  }

  lemma XorCancels(a: Address, b: Address)
    ensures Xor(a, Xor(a, b)) == b
    ensures Xor(b, Xor(a, b)) == a
  {
    hide Xor;
    Cancel(a, b);
    Cancel(b, a);
    Commute(a, b);
  }

  lemma Cancel(a: Address, b: Address)
    ensures Xor(a, Xor(a, b)) == b
  {
  }

  lemma Commute(a: Address, b: Address)
    ensures Xor(a, b) == Xor(b, a)
  {
  }

  lemma XorNull(a: Address)
    ensures Xor(NULL, a) == a && Xor(a, NULL) == a
  {
  }

  type Links = map<Address, Address>

  /** The link words of all nodes; lists over the same memory share it. */
  class Memory {
    var link: Links

    constructor ()
      ensures link == map[]
    {
      link := map[];
    }
  }

  /** The node at position i of a list, and null beyond either end. */
  function At(s: seq<Address>, i: int): Address {
    if 0 <= i < |s| then s[i] else NULL
  }

  ghost predicate Distinct(s: seq<Address>) {
    && (forall i :: 0 <= i < |s| ==> s[i] != NULL)
    && (forall i, j :: 0 <= i < j < |s| ==> s[i] != s[j])
  }

  /** The member at position i stores the exclusive or of its neighbours. */
  ghost predicate LinkedAt(s: seq<Address>, link: Links, i: nat)
    requires i < |s|
  {
    s[i] in link && link[s[i]] == Xor(At(s, i - 1), At(s, i + 1))
  }

  ghost predicate Linked(s: seq<Address>, link: Links) {
    forall i :: 0 <= i < |s| ==> LinkedAt(s, link, i)
  }

  lemma WordAt(s: seq<Address>, link: Links, i: int)
    requires Linked(s, link)
    ensures 0 <= i < |s| ==> LinkedAt(s, link, i)
  {
  }

  /** s with a new node put in at position k. */
  function Insert(s: seq<Address>, k: nat, node: Address): seq<Address>
    requires k <= |s|
  {
    s[..k] + [node] + s[k..]
  }

  function Remove(s: seq<Address>, k: nat): seq<Address>
    requires k < |s|
  {
    s[..k] + s[k + 1..]
  }

  /** Only the nodes in `nodes` have had their words changed. */
  ghost predicate OnlyChanges(before: Links, after: Links, nodes: seq<Address>, node: Address) {
    forall a :: a !in nodes && a != node && a in before ==> a in after && after[a] == before[a]
  }

  lemma InsertAt(s: seq<Address>, k: nat, node: Address, i: int)
    requires k <= |s|
    ensures At(Insert(s, k, node), i) == if i < k then At(s, i) else if i == k then node else At(s, i - 1)
  {
  }

  lemma RemoveAt(s: seq<Address>, k: nat, i: int)
    requires k < |s|
    ensures At(Remove(s, k), i) == if i < k then At(s, i) else At(s, i + 1)
  {
  }

  /** The words written when a node goes in at position k: its own and its neighbours'. */
  function InsertWords(s: seq<Address>, k: nat, node: Address, link: Links): Links
    requires k <= |s|
  {
    var own := link[node := Xor(At(s, k - 1), At(s, k))];
    var before := if k > 0 then own[s[k - 1] := Xor(At(s, k - 2), node)] else own;
    if k < |s| then before[s[k] := Xor(node, At(s, k + 1))] else before
  }

  /** The words written when the node at position k goes out: its neighbours'. */
  function RemoveWords(s: seq<Address>, k: nat, link: Links): Links
    requires k < |s|
  {
    var before := if k > 0 then link[s[k - 1] := Xor(At(s, k - 2), At(s, k + 1))] else link;
    if k + 1 < |s| then before[s[k + 1] := Xor(At(s, k - 1), At(s, k + 2))] else before
  }

  lemma InsertWord(s: seq<Address>, k: nat, node: Address, link: Links, i: nat)
    requires k <= |s| && i < |s| && Distinct(s) && node !in s && s[i] in link
    ensures s[i] in InsertWords(s, k, node, link)
    ensures InsertWords(s, k, node, link)[s[i]]
         == if i == k - 1 then Xor(At(s, k - 2), node)
            else if i == k then Xor(node, At(s, k + 1))
            else link[s[i]]
  {
  }

  lemma RemoveWord(s: seq<Address>, k: nat, link: Links, i: nat)
    requires k < |s| && i < |s| && Distinct(s) && s[i] in link
    ensures s[i] in RemoveWords(s, k, link)
    ensures RemoveWords(s, k, link)[s[i]]
         == if i == k - 1 then Xor(At(s, k - 2), At(s, k + 1))
            else if i == k + 1 then Xor(At(s, k - 1), At(s, k + 2))
            else link[s[i]]
  {
  }

  lemma InsertDistinct(s: seq<Address>, k: nat, node: Address)
    requires k <= |s| && Distinct(s) && node != NULL && node !in s
    ensures Distinct(Insert(s, k, node))
  {
    var t := Insert(s, k, node);
    assert forall i :: 0 <= i < |t| ==> t[i] == if i < k then s[i] else if i == k then node else s[i - 1];
  }

  lemma RemoveDistinct(s: seq<Address>, k: nat)
    requires k < |s| && Distinct(s)
    ensures Distinct(Remove(s, k))
    ensures s[k] !in Remove(s, k)
  {
    var t := Remove(s, k);
    assert forall i :: 0 <= i < |t| ==> t[i] == if i < k then s[i] else s[i + 1];
  }

  lemma InsertLinkedAt(s: seq<Address>, k: nat, node: Address, link: Links, i: nat)
    requires k <= |s| && i <= |s| && Distinct(s) && Linked(s, link) && node !in s
    ensures LinkedAt(Insert(s, k, node), InsertWords(s, k, node, link), i)
  {
    hide InsertWords;
    hide Xor;
    InsertOnlyChanges(s, k, node, link);
    InsertAt(s, k, node, i - 1);
    InsertAt(s, k, node, i);
    InsertAt(s, k, node, i + 1);
    assert |Insert(s, k, node)| == |s| + 1;
    hide Insert;
    if i != k {
      var j := if i < k then i else i - 1;
      assert LinkedAt(s, link, j);
      InsertWord(s, k, node, link, j);
    }
    hide Distinct;
    hide Linked;
  }

  /** Writing three words links the list with the new node in it and touches nothing else. */
  lemma InsertLinks(s: seq<Address>, k: nat, node: Address, link: Links)
    requires k <= |s| && Distinct(s) && Linked(s, link)
    requires node != NULL && node !in s
    ensures Distinct(Insert(s, k, node)) && Linked(Insert(s, k, node), InsertWords(s, k, node, link))
    ensures OnlyChanges(link, InsertWords(s, k, node, link), s, node)
  {
    InsertDistinct(s, k, node);
    InsertOnlyChanges(s, k, node, link);
    forall i | 0 <= i <= |s| ensures LinkedAt(Insert(s, k, node), InsertWords(s, k, node, link), i) {
      InsertLinkedAt(s, k, node, link, i);
    }
  }

  lemma RemoveLinkedAt(s: seq<Address>, k: nat, link: Links, i: nat)
    requires k < |s| && i < |s| - 1 && Distinct(s) && Linked(s, link)
    ensures LinkedAt(Remove(s, k), RemoveWords(s, k, link), i)
  {
    RemoveAt(s, k, i - 1);
    RemoveAt(s, k, i);
    RemoveAt(s, k, i + 1);
    var j := if i < k then i else i + 1;
    assert LinkedAt(s, link, j);
    RemoveWord(s, k, link, j);
  }

  /** Writing two words links the list without the node and touches nothing else. */
  lemma RemoveLinks(s: seq<Address>, k: nat, link: Links)
    requires k < |s| && Distinct(s) && Linked(s, link)
    ensures Distinct(Remove(s, k)) && s[k] !in Remove(s, k)
    ensures Linked(Remove(s, k), RemoveWords(s, k, link))
    ensures OnlyChanges(link, RemoveWords(s, k, link), Remove(s, k), s[k])
  {
    RemoveDistinct(s, k);
    RemoveOnlyChanges(s, k, link);
    forall i | 0 <= i < |s| - 1 ensures LinkedAt(Remove(s, k), RemoveWords(s, k, link), i) {
      RemoveLinkedAt(s, k, link, i);
    }
  }

  lemma InsertOnlyChanges(s: seq<Address>, k: nat, node: Address, link: Links)
    requires k <= |s| && node !in s
    ensures OnlyChanges(link, InsertWords(s, k, node, link), s, node)
    ensures node in InsertWords(s, k, node, link)
    ensures InsertWords(s, k, node, link)[node] == Xor(At(s, k - 1), At(s, k))
  {
  }

  lemma RemoveOnlyChanges(s: seq<Address>, k: nat, link: Links)
    requires k < |s|
    ensures OnlyChanges(link, RemoveWords(s, k, link), Remove(s, k), s[k])
  {
    RemoveNeighbours(s, k);
  }

  /** Clearing the word of a node that is out changes no list it is not in. */
  lemma ClearLinks(s: seq<Address>, link: Links, before: Links, node: Address)
    requires Linked(s, link) && node !in s && OnlyChanges(before, link, s, node)
    ensures Linked(s, link[node := NULL]) && OnlyChanges(before, link[node := NULL], s, node)
  {
    var after := link[node := NULL];
    forall i | 0 <= i < |s| ensures LinkedAt(s, after, i) {
      assert LinkedAt(s, link, i);
    }
  }

  lemma RemoveNeighbours(s: seq<Address>, k: nat)
    requires k < |s|
    ensures k > 0 ==> s[k - 1] in Remove(s, k)
    ensures k + 1 < |s| ==> s[k + 1] in Remove(s, k)
  {
    var t := Remove(s, k);
    assert k > 0 ==> t[k - 1] == s[k - 1];
    assert k + 1 < |s| ==> t[k] == s[k + 1];
  }

  /** A list over memory that is changed only outside its members stays linked. */
  lemma OtherListsStayLinked(s: seq<Address>, before: Links, after: Links, nodes: seq<Address>, node: Address)
    requires Linked(s, before) && OnlyChanges(before, after, nodes, node)
    requires node !in s && forall a :: a in s ==> a !in nodes
    ensures Linked(s, after)
  {
    forall i | 0 <= i < |s| ensures LinkedAt(s, after, i) {
      assert LinkedAt(s, before, i);
    }
  }

  /** A position in a list: a node and the node before it. */
  class Iterator {
    var prev: Address
    var current: Address

    constructor (prev: Address, current: Address)
      ensures this.prev == prev && this.current == current
    {
      this.prev := prev;
      this.current := current;
    }

    /** The iterator stands at position k of s; k == |s| is the end. */
    ghost predicate StandsAt(s: seq<Address>, k: nat)
      reads this
    {
      k <= |s| && prev == At(s, k - 1) && current == At(s, k)
    }
  }

  class List {
    const memory: Memory
    var head: Address
    var tail: Address
    var size: nat
    ghost var contents: seq<Address>

    ghost predicate Valid()
      reads this, memory
    {
      && size == |contents|
      && head == At(contents, 0)
      && tail == At(contents, |contents| - 1)
      && Distinct(contents)
      && Linked(contents, memory.link)
    }

    constructor (memory: Memory)
      ensures Valid() && contents == [] && this.memory == memory
    {
      this.memory := memory;
      head, tail, size, contents := NULL, NULL, 0, [];
    }

    predicate Empty()
      reads this
    {
      head == NULL
    }

    /** The neighbour of a node on the far side of another neighbour. */
    function Across(node: Address, neighbour: Address): Address
      reads memory
      requires node in memory.link
    {
      Xor(neighbour, memory.link[node])
    }

    /** Stores a node's word. */
    method Set(node: Address, pre: Address, next: Address)
      modifies memory
      ensures memory.link == old(memory.link)[node := Xor(pre, next)]
    {
      memory.link := memory.link[node := Xor(pre, next)];
    }

    method PushFront(node: Address)
      requires Valid() && node != NULL && node !in contents
      modifies this, memory
      ensures Valid() && contents == [node] + old(contents)
      ensures OnlyChanges(old(memory.link), memory.link, old(contents), node)
    {
      ghost var s, link := contents, memory.link;
      InsertLinks(s, 0, node, link);
      WordAt(s, link, 0);
      XorNull(At(s, 1));
      if Empty() {
        head, tail := node, node;
        Set(node, NULL, NULL);
      } else {
        Set(node, NULL, head);
        var oldNext := Across(head, NULL);
        Set(head, node, oldNext);
        head := node;
      }
      size := size + 1;
      contents := [node] + s;
      assert contents == Insert(s, 0, node);
      assert memory.link == InsertWords(s, 0, node, link);
    }

    method PushBack(node: Address)
      requires Valid() && node != NULL && node !in contents
      modifies this, memory
      ensures Valid() && contents == old(contents) + [node]
      ensures OnlyChanges(old(memory.link), memory.link, old(contents), node)
    {
      ghost var s, link := contents, memory.link;
      InsertLinks(s, |s|, node, link);
      WordAt(s, link, |s| - 1);
      XorNull(At(s, |s| - 2));
      if Empty() {
        head, tail := node, node;
        Set(node, NULL, NULL);
      } else {
        Set(node, tail, NULL);
        var oldPrev := Across(tail, NULL);
        Set(tail, oldPrev, node);
        tail := node;
      }
      size := size + 1;
      contents := s + [node];
      assert contents == Insert(s, |s|, node);
      assert memory.link == InsertWords(s, |s|, node, link);
    }

    /** Takes the first node off, if there is one; its own word is left as it was. */
    method PopFront() returns (front: Address)
      requires Valid()
      modifies this, memory
      ensures Valid()
      ensures old(contents) == [] ==> front == NULL && contents == []
      ensures old(contents) != [] ==> front == old(contents)[0] && contents == old(contents)[1..]
      ensures old(contents) != [] ==>
        front in old(memory.link) && front in memory.link && memory.link[front] == old(memory.link)[front]
      ensures OnlyChanges(old(memory.link), memory.link, contents, front)
    {
      if Empty() {
        return NULL;
      }
      ghost var s, link := contents, memory.link;
      RemoveLinks(s, 0, link);
      WordAt(s, link, 0);
      RemoveWord(s, 0, link, 0);
      WordAt(s, link, 1);
      XorNull(At(s, 1));
      XorCancels(At(s, 0), At(s, 2));
      front := head;
      var next := Across(head, NULL);
      if next != NULL {
        var nextOfNext := Across(next, front);
        Set(next, NULL, nextOfNext);
      } else {
        tail := NULL;
      }
      head := next;
      size := size - 1;
      contents := s[1..];
      assert contents == Remove(s, 0);
      assert memory.link == RemoveWords(s, 0, link);
    }

    method PopBack() returns (back: Address)
      requires Valid()
      modifies this, memory
      ensures Valid()
      ensures old(contents) == [] ==> back == NULL && contents == []
      ensures old(contents) != [] ==>
        back == old(contents)[|old(contents)| - 1] && contents == old(contents)[..|old(contents)| - 1]
      ensures old(contents) != [] ==>
        back in old(memory.link) && back in memory.link && memory.link[back] == old(memory.link)[back]
      ensures OnlyChanges(old(memory.link), memory.link, contents, back)
    {
      if Empty() {
        return NULL;
      }
      ghost var s, link, n := contents, memory.link, |contents| - 1;
      RemoveLinks(s, n, link);
      WordAt(s, link, n);
      RemoveWord(s, n, link, n);
      WordAt(s, link, n - 1);
      XorNull(At(s, n - 1));
      XorCancels(At(s, n - 2), At(s, n));
      back := tail;
      var prev := Across(tail, NULL);
      if prev != NULL {
        var prevOfPrev := Across(prev, back);
        Set(prev, prevOfPrev, NULL);
      } else {
        head := NULL;
      }
      tail := prev;
      size := size - 1;
      contents := s[..n];
      assert contents == Remove(s, n);
      assert memory.link == RemoveWords(s, n, link);
    }

    /** Unlinks the node the iterator stands at, clears its word and moves on to the node after it. */
    method Erase(pos: Iterator, ghost k: nat) returns (after: Iterator)
      requires Valid() && k < |contents| && pos.StandsAt(contents, k)
      modifies this, memory
      ensures Valid() && contents == Remove(old(contents), k)
      ensures fresh(after) && after.StandsAt(contents, k)
      ensures old(contents)[k] in memory.link && memory.link[old(contents)[k]] == NULL
      ensures OnlyChanges(old(memory.link), memory.link, contents, old(contents)[k])
    {
      ghost var s, link := contents, memory.link;
      RemoveLinks(s, k, link);
      var prev, current := pos.prev, pos.current;
      var next := JoinAround(prev, current, k);
      ClearLinks(Remove(s, k), memory.link, link, s[k]);
      RemoveAt(s, k, 0);
      RemoveAt(s, k, |s| - 2);
      RemoveAt(s, k, k - 1);
      RemoveAt(s, k, k);
      size := size - 1;
      Set(current, NULL, NULL);
      contents := Remove(s, k);
      after := new Iterator(prev, next);
    }

    /** Links the neighbours of the node at position k to each other, and moves the ends if it was one. */
    method JoinAround(prev: Address, current: Address, ghost k: nat) returns (next: Address)
      requires Valid() && k < |contents| && prev == At(contents, k - 1) && current == At(contents, k)
      modifies this`head, this`tail, memory
      ensures next == At(contents, k + 1)
      ensures memory.link == RemoveWords(contents, k, old(memory.link))
      ensures head == if k == 0 then next else old(head)
      ensures tail == if k == |contents| - 1 then prev else old(tail)
    {
      ghost var s, link := contents, memory.link;
      WordAt(s, link, k - 1);
      WordAt(s, link, k);
      WordAt(s, link, k + 1);
      XorCancels(At(s, k - 1), At(s, k + 1));
      XorCancels(At(s, k - 2), At(s, k));
      XorCancels(At(s, k), At(s, k + 2));
      XorNull(NULL);
      next := Across(current, prev);
      if prev != NULL {
        var prevOfPrev := Across(prev, current);
        Set(prev, prevOfPrev, next);
      } else {
        head := next;
      }
      if next != NULL {
        var nextOfNext := Across(next, current);
        Set(next, prev, nextOfNext);
      } else {
        tail := prev;
      }
    }

    /** Forgets the nodes without touching them. */
    method Clear()
      requires Valid()
      modifies this
      ensures Valid() && contents == []
    {
      head, tail, size, contents := NULL, NULL, 0, [];
    }

    method Begin() returns (it: Iterator)
      requires Valid()
      ensures fresh(it) && it.StandsAt(contents, 0)
    {
      it := new Iterator(NULL, head);
    }

    method End() returns (it: Iterator)
      requires Valid()
      ensures fresh(it) && it.StandsAt(contents, |contents|)
    {
      it := new Iterator(tail, NULL);
    }

    method Advance(it: Iterator, ghost k: nat)
      requires Valid() && k < |contents| && it.StandsAt(contents, k)
      modifies it
      ensures it.StandsAt(contents, k + 1)
    {
      WordAt(contents, memory.link, k);
      XorCancels(At(contents, k - 1), At(contents, k + 1));
      var next := Across(it.current, it.prev);
      it.prev := it.current;
      it.current := next;
    }

    /** Steps an iterator backward; from the end this reaches the last node. */
    method Retreat(it: Iterator, ghost k: nat)
      requires Valid() && 0 < k && it.StandsAt(contents, k)
      modifies it
      ensures it.StandsAt(contents, k - 1)
    {
      WordAt(contents, memory.link, k - 1);
      XorCancels(At(contents, k - 2), At(contents, k));
      var prevOfPrev := Across(it.prev, it.current);
      it.current := it.prev;
      it.prev := prevOfPrev;
    }

    /** Walking from begin to end visits the members in order. */
    method Forward() returns (visited: seq<Address>)
      requires Valid()
      ensures visited == contents
    {
      visited := [];
      var it := Begin();
      ghost var k: nat := 0;
      while it.current != NULL
        invariant it.StandsAt(contents, k) && fresh(it)
        invariant visited == contents[..k]
        decreases |contents| - k
      {
        visited := visited + [it.current];
        Advance(it, k);
        k := k + 1;
      }
    }

    /** Walking from end to begin visits the members in reverse. */
    method Backward() returns (visited: seq<Address>)
      requires Valid()
      ensures visited == Reversed(contents)
    {
      visited := [];
      var it := End();
      ghost var s := contents;
      ghost var k: nat := |s|;
      while it.current != head
        invariant it.StandsAt(s, k) && fresh(it)
        invariant visited == Reversed(s[k..])
        decreases k
      {
        Retreat(it, k);
        k := k - 1;
        assert s[k..][1..] == s[k + 1..];
        visited := visited + [it.current];
      }
      assert s[0..] == s;
    }
  }

  function Reversed(s: seq<Address>): seq<Address> {
    if s == [] then [] else Reversed(s[1..]) + [s[0]]
  }

  /** Iterators compare by node alone, which identifies the position. */
  lemma SamePosition(s: seq<Address>, a: Iterator, b: Iterator, j: nat, k: nat)
    requires Distinct(s) && a.StandsAt(s, j) && b.StandsAt(s, k)
    ensures a.current == b.current <==> j == k
  {
  }
}
