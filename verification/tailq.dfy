/** The TAILQ macros of server/slist/queue.h: an intrusive list whose back links point to `next` fields. */
module Tailq {
  import opened Sequences

  // A head or an entry: both are a forward pointer followed by the address of a forward pointer, and that
  // address is modelled by the Link it lies in. For a head they are tqh_first and tqh_last.
  class Link {
    var next: Link?
    var back: Link?
  }

  ghost predicate Apart(a: seq<Link>, b: seq<Link>) {
    forall i, j :: 0 <= i < |a| && 0 <= j < |b| ==> a[i] != b[j]
  }

  // nodes[0] is the head: forward links lead along `nodes` to the end, back links lead back to the head,
  // and the head's own points to the last node.
  ghost predicate Linked(nodes: seq<Link>)
    reads nodes
  {
    && nodes != []
    && (forall i {:trigger nodes[i].next} :: 0 <= i < |nodes| - 1 ==> nodes[i].next == nodes[i + 1])
    && (forall i {:trigger nodes[i].back} :: 1 <= i < |nodes| ==> nodes[i].back == nodes[i - 1])
    && nodes[|nodes| - 1].next == null
    && nodes[0].back == nodes[|nodes| - 1]
    && NoDuplicates(nodes)
  }

  lemma Around(s: seq<Link>, elements: seq<Link>, p: nat)
    requires Linked(s) && 0 < p < |s| && elements == s[1..]
    ensures elements[p - 1] == s[p] && s[p].back == s[p - 1] && s[p - 1] != s[p]
    ensures s[p].next == (if p + 1 < |s| then s[p + 1] else null)
    ensures p + 1 < |s| ==> s[p + 1] != s[p] && s[p + 1] != s[p - 1]
  {
  }

  // The elements are the nodes behind the head: element k is node k + 1.
  lemma InsertedTail<T>(s: seq<T>, e: seq<T>, k: nat, x: T)
    requires k < |s| && e == s[1..]
    ensures var n := s[..k + 1] + [x] + s[k + 1..];
            n[1..] == e[..k] + [x] + e[k..] && n[0] == s[0]
  {
  }

  lemma RemovedTail<T>(s: seq<T>, e: seq<T>, k: nat)
    requires k + 1 < |s| && e == s[1..]
    ensures var n := s[..k + 1] + s[k + 2..];
            n[1..] == e[..k] + e[k + 1..] && n[0] == s[0]
  {
  }

  // A chain s in which the links around position p were rewritten to take x in.
  lemma Inserted(s: seq<Link>, p: nat, x: Link)
    requires 0 < p <= |s| && NoDuplicates(s) && forall i :: 0 <= i < |s| ==> s[i] != x
    requires forall i {:trigger s[i].next} :: 0 <= i < |s| - 1 && i != p - 1 ==> s[i].next == s[i + 1]
    requires forall i {:trigger s[i].back} :: 1 <= i < |s| && i != p ==> s[i].back == s[i - 1]
    requires s[p - 1].next == x && x.back == s[p - 1]
    requires if p < |s| then x.next == s[p] && s[p].back == x && s[|s| - 1].next == null else x.next == null
    requires s[0].back == if p < |s| then s[|s| - 1] else x
    ensures Linked(s[..p] + [x] + s[p..])
  {
    var n := s[..p] + [x] + s[p..];
    forall i | 0 <= i < |n|
      ensures n[i] == if i < p then s[i] else if i == p then x else s[i - 1]
    {
    }
    assert n[|n| - 1].next == null && n[0].back == n[|n| - 1];
  }

  lemma Appended(s: seq<Link>, x: Link)
    requires s != [] && NoDuplicates(s) && forall i :: 0 <= i < |s| ==> s[i] != x
    requires forall i {:trigger s[i].next} :: 0 <= i < |s| - 1 ==> s[i].next == s[i + 1]
    requires forall i {:trigger s[i].back} :: 1 <= i < |s| ==> s[i].back == s[i - 1]
    requires s[|s| - 1].next == x && x.back == s[|s| - 1] && x.next == null && s[0].back == x
    ensures Linked(s + [x]) && (s + [x])[1..] == s[1..] + [x]
  {
    Inserted(s, |s|, x);
    assert s[..|s|] + [x] + s[|s|..] == s + [x];
  }

  // A chain s in which the links around position p were rewritten to leave s[p] out.
  lemma Taken(s: seq<Link>, p: nat)
    requires 0 < p < |s| && NoDuplicates(s)
    requires forall i {:trigger s[i].next} :: 0 <= i < |s| - 1 && i != p - 1 && i != p ==> s[i].next == s[i + 1]
    requires forall i {:trigger s[i].back} :: 1 <= i < |s| && i != p && i != p + 1 ==> s[i].back == s[i - 1]
    requires if p + 1 < |s|
             then s[p - 1].next == s[p + 1] && s[p + 1].back == s[p - 1] && s[|s| - 1].next == null
             else s[p - 1].next == null
    requires s[0].back == if p + 1 < |s| then s[|s| - 1] else s[p - 1]
    ensures Linked(s[..p] + s[p + 1..])
  {
    var n := s[..p] + s[p + 1..];
    forall i | 0 <= i < |n|
      ensures n[i] == if i < p then s[i] else s[i + 1]
    {
    }
    assert n[|n| - 1].next == null && n[0].back == n[|n| - 1];
  }

  // A chain s whose entries were given the head h.
  lemma Reheaded(s: seq<Link>, h: Link)
    requires s != [] && NoDuplicates(s) && forall i :: 1 <= i < |s| ==> s[i] != h
    requires forall i {:trigger s[i].next} :: 1 <= i < |s| - 1 ==> s[i].next == s[i + 1]
    requires forall i {:trigger s[i].back} :: 2 <= i < |s| ==> s[i].back == s[i - 1]
    requires if |s| > 1
             then h.next == s[1] && s[1].back == h && s[|s| - 1].next == null && h.back == s[|s| - 1]
             else h.next == null && h.back == h
    ensures Linked(s[0 := h]) && s[0 := h][1..] == s[1..]
  {
  }

  lemma Alone(x: Link)
    requires x.next == null && x.back == x
    ensures Linked([x])
  {
  }

  // Two chains, the second without its head, linked end to end.
  lemma Joined(a: seq<Link>, b: seq<Link>, joined: seq<Link>)
    requires a != [] && |b| > 1 && joined == a + b[1..]
    requires NoDuplicates(a) && NoDuplicates(b) && Apart(a, b)
    requires forall i {:trigger a[i].next} :: 0 <= i < |a| - 1 ==> a[i].next == a[i + 1]
    requires forall i {:trigger a[i].back} :: 1 <= i < |a| ==> a[i].back == a[i - 1]
    requires forall i {:trigger b[i].next} :: 1 <= i < |b| - 1 ==> b[i].next == b[i + 1]
    requires forall i {:trigger b[i].back} :: 2 <= i < |b| ==> b[i].back == b[i - 1]
    requires a[|a| - 1].next == b[1] && b[1].back == a[|a| - 1]
    requires b[|b| - 1].next == null && a[0].back == b[|b| - 1]
    ensures Linked(joined)
  {
    forall i, j | 0 <= i < j < |joined|
      ensures joined[i] != joined[j]
    {
      assert joined[i] == if i < |a| then a[i] else b[i - |a| + 1];
      assert joined[j] == if j < |a| then a[j] else b[j - |a| + 1];
    }
    forall i {:trigger joined[i].next} | 0 <= i < |joined| - 1
      ensures joined[i].next == joined[i + 1]
    {
      if i < |a| {
        assert joined[i] == a[i];
      } else {
        assert joined[i] == b[i - |a| + 1];
      }
    }
    forall i {:trigger joined[i].back} | 1 <= i < |joined|
      ensures joined[i].back == joined[i - 1]
    {
      if i < |a| {
        assert joined[i] == a[i];
      } else {
        assert joined[i] == b[i - |a| + 1];
      }
    }
  }

  class TailQueue {
    const head: Link
    ghost var nodes: seq<Link>

    ghost predicate Valid()
      reads this, nodes
    {
      Linked(nodes) && nodes[0] == head
    }

    // The entries in order.
    ghost function Elements(): seq<Link>
      reads this, nodes
      requires Valid()
    {
      nodes[1..]
    }

    constructor Init()
      ensures Valid() && fresh(head) && Elements() == []
    {
      head := new Link;
      new;
      head.next := null;
      head.back := head;
      nodes := [head];
    }

    method InsertHead(elm: Link)
      requires Valid() && elm !in nodes
      modifies this, nodes, elm
      ensures Valid() && Elements() == [elm] + old(Elements())
    {
      elm.next := head.next;
      if elm.next != null {
        head.next.back := elm;
      } else {
        head.back := elm;
      }
      head.next := elm;
      elm.back := head;
      ghost var before := nodes;
      Inserted(before, 1, elm);
      InsertedTail(before, before[1..], 0, elm);
      hide Linked;
      nodes := before[..1] + [elm] + before[1..];
    }

    method InsertTail(elm: Link)
      requires Valid() && elm !in nodes
      modifies this, nodes, elm
      ensures Valid() && Elements() == old(Elements()) + [elm]
    {
      elm.next := null;
      elm.back := head.back;
      head.back.next := elm;
      head.back := elm;
      Appended(nodes, elm);
      hide Linked;
      nodes := nodes + [elm];
    }

    method InsertBefore(listelm: Link, elm: Link, ghost k: nat)
      requires Valid() && elm !in nodes
      requires k < |Elements()| && Elements()[k] == listelm
      modifies this, nodes, elm
      ensures Valid() && Elements() == old(Elements())[..k] + [elm] + old(Elements())[k..]
    {
      ghost var before, elements := nodes, Elements();
      Around(before, elements, k + 1);
      assert forall i :: 0 <= i < |before| ==> before[i] != elm;
      elm.back := listelm.back;
      elm.next := listelm;
      listelm.back.next := elm;
      listelm.back := elm;
      Inserted(before, k + 1, elm);
      InsertedTail(before, elements, k, elm);
      hide Linked;
      nodes := before[..k + 1] + [elm] + before[k + 1..];
    }

    method InsertAfter(listelm: Link, elm: Link, ghost k: nat)
      requires Valid() && elm !in nodes
      requires k < |Elements()| && Elements()[k] == listelm
      modifies this, nodes, elm
      ensures Valid() && Elements() == old(Elements())[..k + 1] + [elm] + old(Elements())[k + 1..]
    {
      ghost var before, elements := nodes, Elements();
      Around(before, elements, k + 1);
      assert forall i :: 0 <= i < |before| ==> before[i] != elm;
      elm.next := listelm.next;
      if elm.next != null {
        elm.next.back := elm;
      } else {
        head.back := elm;
      }
      listelm.next := elm;
      elm.back := listelm;
      Inserted(before, k + 2, elm);
      InsertedTail(before, elements, k + 1, elm);
      hide Linked;
      nodes := before[..k + 2] + [elm] + before[k + 2..];
    }

    method Remove(elm: Link, ghost k: nat)
      requires Valid()
      requires k < |Elements()| && Elements()[k] == elm
      modifies this, nodes
      ensures Valid() && Elements() == old(Elements())[..k] + old(Elements())[k + 1..]
    {
      ghost var before, elements := nodes, Elements();
      Around(before, elements, k + 1);
      if elm.next != null {
        elm.next.back := elm.back;
      } else {
        head.back := elm.back;
      }
      elm.back.next := elm.next;
      Taken(before, k + 1);
      RemovedTail(before, elements, k);
      hide Linked;
      nodes := before[..k + 1] + before[k + 2..];
    }

    method Replace(elm: Link, elm2: Link, ghost k: nat)
      requires Valid() && elm2 !in nodes
      requires k < |Elements()| && Elements()[k] == elm
      modifies this, nodes, elm2
      ensures Valid() && Elements() == old(Elements())[k := elm2]
    {
      Around(nodes, Elements(), k + 1);
      elm2.next := elm.next;
      if elm2.next != null {
        elm2.next.back := elm2;
      } else {
        head.back := elm2;
      }
      elm2.back := elm.back;
      elm2.back.next := elm2;
      nodes := nodes[k + 1 := elm2];
    }

    // The other queue's entries move to the end of this one.
    method Concat(head2: TailQueue)
      requires Valid() && head2.Valid()
      requires Apart(nodes, head2.nodes)
      modifies this, nodes, head2, head2.nodes
      ensures Valid() && head2.Valid()
      ensures Elements() == old(Elements()) + old(head2.Elements())
      ensures head2.Elements() == []
    {
      if head2.head.next != null {
        ghost var a, b := nodes, head2.nodes;
        ghost var joined := a + b[1..];
        assert head.back == a[|a| - 1] && head2.head.next == b[1] && head2.head.back == b[|b| - 1];
        head.back.next := head2.head.next;
        head2.head.next.back := head.back;
        head.back := head2.head.back;
        head2.head.next := null;
        head2.head.back := head2.head;
        Joined(a, b, joined);
        Alone(head2.head);
        assert joined[0] == a[0] && joined[1..] == a[1..] + b[1..];
        hide Linked;
        nodes := joined;
        head2.nodes := [head2.head];
      } else {
        assert head2.Elements() == [] && Elements() + [] == Elements();
      }
    }

    method Swap(head2: TailQueue)
      requires Valid() && head2.Valid()
      requires Apart(nodes, head2.nodes)
      modifies this, nodes, head2, head2.nodes
      ensures Valid() && head2.Valid()
      ensures Elements() == old(head2.Elements()) && head2.Elements() == old(Elements())
    {
      ghost var a, b := nodes, head2.nodes;
      var swapFirst, swapLast := head.next, head.back;
      head.next := head2.head.next;
      head.back := head2.head.back;
      head2.head.next := swapFirst;
      head2.head.back := swapLast;
      swapFirst := head.next;
      if swapFirst != null {
        swapFirst.back := head;
      } else {
        head.back := head;
      }
      swapFirst := head2.head.next;
      if swapFirst != null {
        swapFirst.back := head2.head;
      } else {
        head2.head.back := head2.head;
      }
      Reheaded(b, head);
      Reheaded(a, head2.head);
      hide Linked;
      nodes, head2.nodes := b[0 := head], a[0 := head2.head];
    }

    // The layout pun: whatever the head's back link lies in, its own back link leads one further back.
    method Last() returns (last: Link?)
      requires Valid()
      ensures last == if Elements() == [] then null else Elements()[|Elements()| - 1]
    {
      last := head.back.back.next;
    }

    method Prev(elm: Link, ghost k: nat) returns (prev: Link?)
      requires Valid()
      requires k < |Elements()| && Elements()[k] == elm
      ensures prev == if k == 0 then null else Elements()[k - 1]
    {
      prev := elm.back.back.next;
    }

    method ForeachReverse() returns (visited: seq<Link>)
      requires Valid()
      ensures visited == Reversed(Elements())
    {
      hide Linked, Reversed;
      visited := [];
      ghost var elements := Elements();
      ghost var k := |elements|;
      var x := Last();
      assert elements[..k] == elements && visited + Reversed(elements) == Reversed(elements);
      while x != null
        invariant 0 <= k <= |elements|
        invariant x == if k == 0 then null else elements[k - 1]
        invariant visited + Reversed(elements[..k]) == Reversed(elements)
        decreases k
      {
        ReversedStep(visited, elements, k);
        visited := visited + [x];
        x := Prev(x, k - 1);
        k := k - 1;
      }
      ReversedStep(visited, elements, 0);
    }
  }

  function Reversed<T>(s: seq<T>): seq<T> {
    if s == [] then [] else [s[|s| - 1]] + Reversed(s[..|s| - 1])
  }

  lemma ReversedStep<T>(visited: seq<T>, s: seq<T>, k: nat)
    requires k <= |s|
    ensures visited + Reversed(s[..k]) ==
            if k == 0 then visited else visited + [s[k - 1]] + Reversed(s[..k - 1])
  {
    assert k > 0 ==> s[..k][..k - 1] == s[..k - 1];
  }

  lemma {:induction false} ReversedAt<T>(s: seq<T>, k: nat)
    requires k < |s|
    ensures |Reversed(s)| == |s| && Reversed(s)[k] == s[|s| - 1 - k]
  {
    if |s| > 1 {
      ReversedAt(s[..|s| - 1], if k == 0 then 0 else k - 1);
    }
  }
}
