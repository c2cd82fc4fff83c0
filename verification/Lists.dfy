/** The circular doubly linked lists of lists.h. A link knows the object it is embedded in, which
    is what container_of computes; the head of a list is embedded in none. */
module Lists {
  datatype Option<+T> = None | Some(value: T)

  class Link<T> {
    const container: Option<T>
    var next: Link?<T>
    var prev: Link?<T>

    constructor (container: Option<T>)
      ensures this.container == container
    {
      this.container := container;
      next, prev := null, null;
    }
  }

  ghost predicate Distinct<T>(c: seq<Link<T>>) {
    forall i, j :: 0 <= i < j < |c| ==> c[i] != c[j]
  }

  /** The links form one ring in this order, both ways round. */
  ghost predicate Ring<T>(c: seq<Link<T>>)
    reads c
  {
    && c != [] && Distinct(c)
    && (forall i {:trigger c[i].next} :: 0 <= i < |c| - 1 ==> c[i].next == c[i + 1])
    && (forall i {:trigger c[i].prev} :: 0 < i < |c| ==> c[i].prev == c[i - 1])
    && c[|c| - 1].next == c[0] && c[0].prev == c[|c| - 1]
  }

  lemma RingNext<T>(c: seq<Link<T>>, k: nat)
    requires Ring(c) && k < |c|
    ensures c[k].next == if k + 1 < |c| then c[k + 1] else c[0]
    ensures k > 0 ==> c[k] != c[0]
  {
    if k + 1 < |c| {
      assert c[k].next == c[k + 1];
    }
  }

  /** INIT_LIST_HEAD */
  method InitHead<T>(h: Link<T>)
    modifies h
    ensures Ring([h])
  {
    h.next := h;
    h.prev := h;
  }

  /** list_empty */
  method IsEmpty<T>(h: Link<T>, ghost c: seq<Link<T>>) returns (empty: bool)
    requires Ring(c) && h == c[0]
    ensures empty <==> c == [h]
  {
    empty := h.next == h;
    if |c| > 1 {
      assert c[0].next == c[1];
    }
  }

  /** __list_add: the new link goes behind c[k]. */
  method AddBetween<T>(n: Link<T>, prev: Link<T>, next: Link<T>, ghost c: seq<Link<T>>, ghost k: nat)
    requires Ring(c) && n !in c && k < |c|
    requires prev == c[k] && next == if k + 1 < |c| then c[k + 1] else c[0]
    modifies n, prev, next
    ensures Ring(c[..k + 1] + [n] + c[k + 1..])
  {
    next.prev := n;
    n.next := next;
    n.prev := prev;
    prev.next := n;
    assert forall i :: 0 <= i < |c| && c[i] == prev ==> i == k;
  }

  /** list_add: the new link goes behind c[k], at the front of the list when that is the head. */
  method Add<T>(n: Link<T>, at: Link<T>, ghost c: seq<Link<T>>, ghost k: nat)
    requires Ring(c) && n !in c && k < |c| && at == c[k]
    modifies n, at, if k + 1 < |c| then c[k + 1] else c[0]
    ensures Ring(c[..k + 1] + [n] + c[k + 1..])
  {
    if k + 1 < |c| {
      assert c[k].next == c[k + 1];
    }
    AddBetween(n, at, at.next, c, k);
  }

  /** The ring with `n` in front of c[k]; in front of the head means at the end of the list. */
  ghost function Inserted<T>(c: seq<Link<T>>, k: nat, n: Link<T>): seq<Link<T>>
    requires k < |c|
  {
    if k == 0 then c + [n] else c[..k] + [n] + c[k..]
  }

  /** list_add_tail: the new link goes in front of c[k]. */
  method AddTail<T>(n: Link<T>, at: Link<T>, ghost c: seq<Link<T>>, ghost k: nat)
    requires Ring(c) && n !in c && k < |c| && at == c[k]
    modifies n, at, if k > 0 then c[k - 1] else c[|c| - 1]
    ensures Ring(Inserted(c, k, n))
  {
    ghost var j := if k > 0 then k - 1 else |c| - 1;
    assert at.prev == c[j];
    AddBetween(n, at.prev, at, c, j);
    assert k == 0 ==> c[..j + 1] + [n] + c[j + 1..] == c + [n];
  }

  /** list_del of c[k], not the head: the others keep their order. */
  method Delete<T>(n: Link<T>, ghost c: seq<Link<T>>, ghost k: nat)
    requires Ring(c) && 0 < k < |c| && n == c[k]
    modifies n, c[k - 1], if k + 1 < |c| then c[k + 1] else c[0]
    ensures Ring(c[..k] + c[k + 1..])
    ensures n.next == null && n.prev == null
  {
    assert c[k].prev == c[k - 1];
    if k + 1 < |c| {
      assert c[k].next == c[k + 1];
    }
    n.next.prev := n.prev;
    n.prev.next := n.next;
    n.next := null;
    n.prev := null;
    ghost var d := c[..k] + c[k + 1..];
    assert forall i :: 0 <= i < |d| ==> d[i] == if i < k then c[i] else c[i + 1];
  }

  /** move_to_tail: from one list to the end of another. */
  method MoveToTail<T>(n: Link<T>, to: Link<T>, ghost c: seq<Link<T>>, ghost k: nat, ghost d: seq<Link<T>>)
    requires Ring(c) && 0 < k < |c| && n == c[k]
    requires Ring(d) && to == d[0]
    requires forall x :: x in c ==> x !in d
    modifies n, c[k - 1], if k + 1 < |c| then c[k + 1] else c[0], d[0], d[|d| - 1]
    ensures Ring(c[..k] + c[k + 1..]) && Ring(d + [n])
  {
    assert n in c && c[k - 1] in c && (if k + 1 < |c| then c[k + 1] else c[0]) in c;
    assert forall j :: 0 <= j < |d| ==> d[j] in d;
    Delete(n, c, k);
    AddTail(n, to, d, 0);
    assert forall x :: x in c[..k] + c[k + 1..] ==> x in c;
  }

  /** Reading a ring off its links: two rings from the same head are the same. */
  lemma {:induction false} RingIsUnique<T>(c: seq<Link<T>>, d: seq<Link<T>>, n: nat)
    requires Ring(c) && Ring(d) && c[0] == d[0] && n <= |c| && n <= |d|
    ensures c[..n] == d[..n]
  {
    if n > 1 {
      RingIsUnique(c, d, n - 1);
      assert c[n - 2] == c[..n - 1][n - 2] == d[n - 2];
      assert c[n - 2].next == c[n - 1] && d[n - 2].next == d[n - 1];
    }
  }
}
