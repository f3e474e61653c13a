/** The recency list behind the cache: a doubly linked list whose elements carry a key. */
module RecencyList {

  class Element {
    const key: string
    var prev: Element?
    var next: Element?

    constructor (key: string)
      ensures this.key == key && prev == null && next == null
    {
      this.key := key;
      prev := null;
      next := null;
    }
  }

  function RemoveAt<T>(s: seq<T>, i: nat): (r: seq<T>)
    requires i < |s|
    ensures |r| == |s| - 1
    ensures forall k :: 0 <= k < |r| ==> r[k] == s[if k < i then k else k + 1]
  {
    s[..i] + s[i + 1..]
  }

  class List {
    var front: Element?
    var back: Element?
    ghost var elems: seq<Element>
    ghost var Repr: set<Element>

    ghost predicate Valid()
      reads this, Repr
    {
      && (forall i :: 0 <= i < |elems| ==> elems[i] in Repr)
      && (forall i, j :: 0 <= i < j < |elems| ==> elems[i] != elems[j])
      && (elems == [] ==> front == null && back == null)
      && (elems != [] ==> front == elems[0] && back == elems[|elems| - 1])
      && (forall i :: 0 <= i < |elems| ==> PrevIs(i))
      && (forall i :: 0 <= i < |elems| ==> NextIs(i))
    }

    ghost predicate PrevIs(i: int)
      requires 0 <= i < |elems|
      reads this, elems[i]
    {
      if i == 0 then elems[i].prev == null else elems[i].prev == elems[i - 1]
    }

    ghost predicate NextIs(i: int)
      requires 0 <= i < |elems|
      reads this, elems[i]
    {
      if i == |elems| - 1 then elems[i].next == null else elems[i].next == elems[i + 1]
    }

    constructor ()
      ensures Valid() && elems == [] && Repr == {}
    {
      front := null;
      back := null;
      elems := [];
      Repr := {};
    }

    method Init()
      modifies this
      ensures Valid() && elems == [] && Repr == old(Repr)
    {
      front := null;
      back := null;
      elems := [];
    }

    method PushFront(key: string) returns (e: Element)
      requires Valid()
      modifies this, Repr
      ensures Valid() && fresh(e) && e.key == key && Repr == old(Repr) + {e}
      ensures elems == [e] + old(elems)
    {
      e := new Element(key);
      Link(e);
    }

    method Link(e: Element)
      requires Valid() && e !in elems
      modifies this, Repr, e
      ensures Valid() && Repr == old(Repr) + {e} && elems == [e] + old(elems)
    {
      e.prev := null;
      e.next := front;
      if front == null {
        back := e;
      } else {
        front.prev := e;
      }
      front := e;
      elems := [e] + elems;
      Repr := Repr + {e};
      forall k | 0 <= k < |elems|
        ensures PrevIs(k) && NextIs(k)
      {
        if k > 0 {
          assert old(PrevIs(k - 1)) && old(NextIs(k - 1));
        }
      }
    }

    method Remove(e: Element, ghost i: nat)
      requires Valid() && i < |elems| && elems[i] == e
      modifies this, Repr
      ensures Valid() && Repr == old(Repr) && elems == RemoveAt(old(elems), i)
    {
      hide RemoveAt;
      var p, n := e.prev, e.next;
      assert PrevIs(i) && NextIs(i);
      if p == null {
        front := n;
      } else {
        p.next := n;
      }
      if n == null {
        back := p;
      } else {
        n.prev := p;
      }
      elems := RemoveAt(elems, i);
      forall k | 0 <= k < |elems|
        ensures PrevIs(k)
      {
        assert old(PrevIs(if k < i then k else k + 1));
      }
      forall k | 0 <= k < |elems|
        ensures NextIs(k)
      {
        assert old(NextIs(if k < i then k else k + 1));
      }
    }

    method MoveToFront(e: Element, ghost i: nat)
      requires Valid() && i < |elems| && elems[i] == e
      modifies this, Repr
      ensures Valid() && Repr == old(Repr) && elems == [e] + RemoveAt(old(elems), i)
    {
      if front == e {
        assert i == 0;
        return;
      }
      Remove(e, i);
      Link(e);
    }
  }
}
