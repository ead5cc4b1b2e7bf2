/** The registry of connection threads: an SLIST of heap items, one per created thread. */
module Registry {
  import opened Sequences

  class ThreadData {
    const fd: int
    var isCompleted: bool

    constructor Malloc(fd: int)
      ensures this.fd == fd && !isCompleted
    {
      this.fd, isCompleted := fd, false;
    }
  }

  class Item {
    const td: ThreadData
    var next: Item?

    constructor Malloc(td: ThreadData)
      ensures this.td == td && next == null
    {
      this.td, next := td, null;
    }
  }

  // What a link to position i of a list is.
  function At(items: seq<Item>, i: nat): Item? {
    if i < |items| then items[i] else null
  }

  // A list whose link in front of position k was rewritten to pass over it.
  lemma Unlinked(s: seq<Item>, k: nat)
    requires 0 < k < |s| && NoDuplicates(s)
    requires forall i {:trigger s[i].next} :: 0 <= i < |s| && i != k - 1 ==> s[i].next == At(s, i + 1)
    requires s[k - 1].next == At(s, k + 1)
    ensures var rest := s[..k] + s[k + 1..];
            && At(rest, 0) == s[0]
            && (forall i :: 0 <= i < |rest| ==> rest[i].next == At(rest, i + 1))
            && NoDuplicates(rest)
  {
    var rest := s[..k] + s[k + 1..];
    forall i | 0 <= i < |rest|
      ensures rest[i] == if i < k then s[i] else s[i + 1]
    {
    }
  }

  // SLIST_HEAD, with the macros of server/slist/queue.h as methods.
  class SlistHead {
    var first: Item?
    ghost var items: seq<Item>

    // Following the links from `first` meets exactly `items`, and then the end.
    ghost predicate Valid()
      reads this, items
    {
      && first == At(items, 0)
      && (forall i :: 0 <= i < |items| ==> items[i].next == At(items, i + 1))
      && NoDuplicates(items)
    }

    constructor Init()
      ensures Valid() && items == []
    {
      first, items := null, [];
    }

    method InsertHead(elm: Item)
      requires Valid() && elm !in items
      modifies this, elm`next
      ensures Valid() && items == [elm] + old(items)
    {
      elm.next := first;
      first := elm;
      items := [elm] + items;
    }

    method RemoveHead()
      requires Valid() && items != []
      modifies this
      ensures Valid() && items == old(items)[1..]
    {
      first := first.next;
      items := items[1..];
    }

    // The element's own link is left as it was.
    method Remove(elm: Item, ghost k: nat)
      requires Valid() && k < |items| && items[k] == elm
      modifies this, items`next
      ensures Valid() && items == old(items)[..k] + old(items)[k + 1..]
      ensures elm.next == old(elm.next)
    {
      if first == elm {
        assert items[0] == elm && k == 0;
        RemoveHead();
      } else {
        var curelm := first;
        ghost var i := 0;
        while curelm.next != elm
          invariant 0 <= i < k && curelm == items[i]
          decreases k - i
        {
          assert i + 1 != k;
          curelm := curelm.next;
          i := i + 1;
        }
        assert i + 1 == k;
        curelm.next := curelm.next.next;
        Unlinked(items, k);
        hide NoDuplicates;
        items := items[..k] + items[k + 1..];
      }
    }
  }

  lemma DataWithout(s: seq<Item>, k: nat)
    requires k < |s| && NoDuplicates(s) && DistinctData(s)
    ensures DistinctData(s[..k] + s[k + 1..])
    ensures DataOf(s[..k] + s[k + 1..]) == DataOf(s) - {s[k].td}
    ensures SetOf(s[..k] + s[k + 1..]) == SetOf(s) - {s[k]}
  {
    var rest := s[..k] + s[k + 1..];
    forall i | 0 <= i < |s| && i != k
      ensures s[i] in rest
    {
      assert s[i] == rest[if i < k then i else i - 1];
    }
    assert forall it :: it in rest ==> it in s;
  }

  lemma SetOfAppend(a: seq<Item>, b: seq<Item>)
    ensures SetOf(a + b) == SetOf(a) + SetOf(b)
    ensures DataOf(a + b) == DataOf(a) + DataOf(b)
  {
    forall it | it in a || it in b
      ensures it in a + b
    {
    }
  }

  lemma SetOfOne(x: Item)
    ensures SetOf([x]) == {x} && SetOf<Item>([]) == {}
  {
  }

  // The items that are not gone, in their order.
  ghost function Without(s: seq<Item>, gone: set<Item>): (kept: seq<Item>)
    ensures |kept| <= |s|
  {
    if s == [] then []
    else Without(s[..|s| - 1], gone) + if s[|s| - 1] in gone then [] else [s[|s| - 1]]
  }

  lemma {:induction false} WithoutMembers(s: seq<Item>, gone: set<Item>)
    ensures SetOf(Without(s, gone)) == SetOf(s) - gone
  {
    if s != [] {
      var rest, last := s[..|s| - 1], s[|s| - 1];
      WithoutMembers(rest, gone);
      assert s == rest + [last];
      SetOfOne(last);
      hide SetOf;
      SetOfAppend(rest, [last]);
      SetOfAppend(Without(rest, gone), [last]);
      SetOfAppend(Without(rest, gone), []);
    }
  }

  lemma WithoutAmong(s: seq<Item>, i: nat, gone: set<Item>)
    requires i <= |s|
    ensures SetOf(Without(s[..i], gone) + s[i..]) <= SetOf(s)
    ensures DataOf(Without(s[..i], gone) + s[i..]) <= DataOf(s)
  {
    WithoutMembers(s[..i], gone);
    SetOfAppend(Without(s[..i], gone), s[i..]);
    SetOfAppend(s[..i], s[i..]);
    assert s == s[..i] + s[i..];
    FewerData(Without(s[..i], gone) + s[i..], s);
  }

  lemma FewerData(a: seq<Item>, b: seq<Item>)
    requires SetOf(a) <= SetOf(b)
    ensures DataOf(a) <= DataOf(b)
  {
    forall it | it in a
      ensures it in b
    {
      assert it in SetOf(a);
    }
  }

  lemma {:induction false} WithoutMore(s: seq<Item>, gone: set<Item>, x: Item)
    requires x !in s
    ensures Without(s, gone + {x}) == Without(s, gone)
  {
    if s != [] {
      WithoutMore(s[..|s| - 1], gone, x);
    }
  }

  lemma WithoutStep(s: seq<Item>, i: nat, gone: set<Item>)
    requires i < |s|
    ensures Without(s[..i + 1], gone) == Without(s[..i], gone) + if s[i] in gone then [] else [s[i]]
  {
    assert s[..i + 1][..i] == s[..i];
  }

  lemma WithoutNothing(s: seq<Item>)
    ensures Without(s[..0], {}) + s[0..] == s && SetOf(s[..0]) == {}
  {
  }

  lemma NotSeenYet(s: seq<Item>, i: nat, gone: set<Item>)
    requires i < |s| && NoDuplicates(s) && gone <= SetOf(s[..i])
    ensures s[i] !in s[..i] && s[i] !in gone
    ensures SetOf(s[..i + 1]) == SetOf(s[..i]) + {s[i]}
  {
    assert s[i] !in s[..i];
    assert s[..i + 1] == s[..i] + [s[i]];
    SetOfAppend(s[..i], [s[i]]);
    SetOfOne(s[i]);
  }

  // The list after the visit of s[i], which takes it out or leaves it.
  lemma WithoutVisit(s: seq<Item>, i: nat, gone: set<Item>)
    requires i < |s| && NoDuplicates(s) && gone <= SetOf(s[..i])
    ensures s[i] !in gone && SetOf(s[..i + 1]) == SetOf(s[..i]) + {s[i]}
    ensures var k, list := |Without(s[..i], gone)|, Without(s[..i], gone) + s[i..];
            && k < |list| && list[k] == s[i] && At(list, k + 1) == At(s, i + 1)
            && Without(s[..i + 1], gone) + s[i + 1..] == list
            && Without(s[..i + 1], gone + {s[i]}) + s[i + 1..] == list[..k] + list[k + 1..]
  {
    hide NoDuplicates, SetOf, Without;
    NotSeenYet(s, i, gone);
    WithoutStep(s, i, gone);
    WithoutStep(s, i, gone + {s[i]});
    WithoutMore(s[..i], gone, s[i]);
  }

  const TWO_32: int := 0x1_0000_0000

  // An unsigned counter after n increments.
  function Counter(n: nat): nat {
    n % TWO_32
  }

  lemma CounterSteps(n: nat)
    ensures Counter(n + 1) == (Counter(n) + 1) % TWO_32
    ensures Counter(n) == (Counter(n + 1) - 1) % TWO_32
    ensures Counter(n + 1) == (n + 1) % TWO_32
  {
  }

  ghost function DataOf(items: seq<Item>): set<ThreadData> {
    set it | it in items :: it.td
  }

  // The flags of all these are up.
  ghost predicate AllUp(items: set<Item>)
    reads set it | it in items :: it.td
  {
    forall it :: it in items ==> it.td.isCompleted
  }

  ghost function Completed(items: seq<Item>): (done: set<Item>)
    reads DataOf(items)
    ensures done <= SetOf(items) && AllUp(done)
  {
    set it | it in items && it.td.isCompleted
  }

  lemma GoneStep<T>(done: set<T>, gone: set<T>, seen: set<T>, x: T)
    requires done * seen <= gone <= seen
    ensures done + gone + {x} == done + (gone + {x})
    ensures done * (seen + {x}) <= gone + {x} <= seen + {x}
    ensures x !in done + gone ==> done * (seen + {x}) <= gone <= seen + {x}
  {
  }

  lemma FewerUp(a: set<Item>, b: set<Item>)
    requires a <= b && AllUp(b)
    ensures AllUp(a)
  {
  }

  // No two items share their thread's data.
  ghost predicate DistinctData(items: seq<Item>) {
    forall i, j :: 0 <= i < j < |items| ==> items[i].td != items[j].td
  }

  class Threads {
    const head: SlistHead
    // unsigned, so it counts modulo 2^32
    var threadClients: nat
    // what malloc handed out and free did not take back
    ghost var liveItems: set<Item>
    ghost var liveData: set<ThreadData>
    // the data of threads that were created and not joined
    ghost var unjoined: set<ThreadData>

    ghost function Items(): seq<Item>
      reads this, head
    {
      head.items
    }

    // The list holds all memory there is but `extra`, and exactly the threads not yet joined but those of `extra`.
    ghost predicate Holds(extra: set<ThreadData>)
      reads this, head, head.items
    {
      && head.Valid()
      && DistinctData(head.items) && extra !! DataOf(head.items)
      && liveItems == SetOf(head.items)
      && liveData == DataOf(head.items) + extra
      && unjoined == DataOf(head.items) + extra
    }

    ghost predicate Valid()
      reads this, head, head.items
    {
      Holds({}) && threadClients == Counter(|head.items|)
    }

    constructor Initialize()
      ensures Valid() && fresh(head) && Items() == []
    {
      head := new SlistHead.Init();
      threadClients := 0;
      liveItems, liveData, unjoined := {}, {}, {};
    }

    // Freeing twice is not allowed, nor freeing the data of a thread that may still run.
    ghost method FreeData(td: ThreadData)
      requires td in liveData && td !in unjoined
      modifies this`liveData
      ensures liveData == old(liveData) - {td}
    {
      liveData := liveData - {td};
    }

    ghost method FreeItem(item: Item)
      requires item in liveItems
      modifies this`liveItems
      ensures liveItems == old(liveItems) - {item}
    {
      liveItems := liveItems - {item};
    }

    // A thread is joined once; after that its handler has returned.
    ghost method Join(td: ThreadData)
      requires td in unjoined
      modifies this`unjoined
      ensures unjoined == old(unjoined) - {td}
    {
      unjoined := unjoined - {td};
    }

    method AddThread(td: ThreadData)
      requires Holds({td}) && threadClients == Counter(|Items()|)
      modifies this`threadClients, this`liveItems, head
      ensures Valid() && |Items()| == |old(Items())| + 1 && Items()[1..] == old(Items())
      ensures fresh(Items()[0]) && Items()[0].td == td
      ensures threadClients == |Items()| % TWO_32
    {
      hide SlistHead.Valid, Counter;
      ghost var before := head.items;
      CounterSteps(|before|);
      var datap := new Item.Malloc(td);
      liveItems := liveItems + {datap};
      head.InsertHead(datap);
      threadClients := (threadClients + 1) % TWO_32;
      assert head.items[1..] == before;
    }

    /** The accept branch: the data of a thread that could not be created is freed at once, that of any
        other is listed first; then maintenance filters the list. */
    method Accept(connfd: int, created: bool) returns (ghost listed: seq<Item>, ghost gone: set<Item>)
      requires Valid()
      modifies this, head, SetOf(Items())`next, DataOf(Items())`isCompleted
      ensures Valid() && Items() == Without(listed, gone)
      ensures if created
              then listed != [] && listed[1..] == old(Items()) && fresh(listed[0]) && listed[0].td.fd == connfd
              else listed == old(Items())
      ensures old(Completed(Items())) <= gone <= SetOf(listed) && AllUp(gone)
      ensures forall it :: it in gone ==> it in listed && it.td.isCompleted
      ensures threadClients == |Items()| % TWO_32
      ensures forall it :: it in old(Items()) && old(it.td.isCompleted) ==> it in gone
    {
      hide Valid, Without, Completed;
      listed := Enlist(connfd, created);
      gone := DoMaintenance();
    }

    method Enlist(connfd: int, created: bool) returns (ghost listed: seq<Item>)
      requires Valid()
      modifies this, head
      ensures Valid() && Items() == listed
      ensures if created
              then listed != [] && listed[1..] == old(Items()) && fresh(listed[0]) && listed[0].td.fd == connfd
                   && fresh(listed[0].td)
              else listed == old(Items())
      ensures old(Completed(Items())) <= Completed(listed)
    {
      hide Counter;
      var thrd := new ThreadData.Malloc(connfd);
      liveData := liveData + {thrd};
      if !created {
        FreeData(thrd);
      } else {
        unjoined := unjoined + {thrd};
        AddThread(thrd);
      }
      listed := Items();
      assert forall it :: it in old(Items()) ==> it in listed;
    }

    // Other threads run: any of them may finish and raise its flag; no flag is ever lowered.
    method OthersRun(ghost up: set<Item>)
      requires head.Valid() && AllUp(up)
      modifies DataOf(Items())`isCompleted
      ensures AllUp(up)
    {
      var it := head.first;
      ghost var i := 0;
      while it != null
        invariant 0 <= i <= |Items()| && it == At(Items(), i) && AllUp(up)
        decreases |Items()| - i
      {
        if * {
          it.td.isCompleted := true;
        }
        it := it.next;
        i := i + 1;
      }
    }

    // The k-th item completed: join, unlink, free, free.
    method Reap(item: Item, ghost k: nat)
      requires Valid() && k < |Items()| && Items()[k] == item
      modifies this, head, SetOf(Items())`next
      ensures Valid() && Items() == old(Items())[..k] + old(Items())[k + 1..]
    {
      hide SlistHead.Valid, Counter;
      ghost var before := head.items;
      CounterSteps(|before| - 1);
      DataWithout(before, k);
      Join(item.td);
      head.Remove(item, k);
      FreeData(item.td);
      FreeItem(item);
      threadClients := (threadClients - 1) % TWO_32;
    }

    // One round of the traversal: the next item is fetched before the current one may be freed.
    method Visit(item: Item, ghost k: nat, ghost up: set<Item>) returns (tmpItem: Item?, ghost taken: bool)
      requires Valid() && k < |Items()| && Items()[k] == item && AllUp(up)
      modifies this, head, SetOf(Items())`next, DataOf(Items())`isCompleted
      ensures Valid() && Items() == if taken then old(Items())[..k] + old(Items())[k + 1..] else old(Items())
      ensures tmpItem == At(old(Items()), k + 1)
      ensures AllUp(if taken then up + {item} else up)
      ensures item in up ==> taken
    {
      hide Counter, DistinctData;
      tmpItem := item.next;
      OthersRun(up);
      taken := item.td.isCompleted;
      if item.td.isCompleted {
        Reap(item, k);
      }
    }

    lemma ListHead()
      requires Valid()
      ensures head.first == At(Items(), 0) && NoDuplicates(Items())
    {
    }

    // The traversal, in terms of the flags seen as sets.
    method Sweep() returns (ghost gone: set<Item>)
      requires Valid()
      modifies this, head, SetOf(Items())`next, DataOf(Items())`isCompleted
      ensures Valid()
      ensures Items() == Without(old(Items()), gone)
      ensures gone <= SetOf(old(Items())) && AllUp(gone)
      ensures old(Completed(Items())) <= gone
    {
      hide Valid, Without, NoDuplicates, SetOf, DataOf, Completed, AllUp;
      ListHead();
      ghost var all, done := Items(), Completed(Items());
      gone := {};
      ghost var i := 0;
      var item := head.first;
      WithoutNothing(all);
      assert done + gone == done;
      while item != null
        invariant 0 <= i <= |all| && item == At(all, i)
        invariant Valid() && Items() == Without(all[..i], gone) + all[i..]
        invariant done * SetOf(all[..i]) <= gone <= SetOf(all[..i])
        invariant AllUp(done + gone)
        decreases |all| - i
      {
        WithoutAmong(all, i, gone);
        WithoutVisit(all, i, gone);
        GoneStep(done, gone, SetOf(all[..i]), all[i]);
        ghost var k, taken := |Without(all[..i], gone)|, false;
        item, taken := Visit(item, k, done + gone);
        if taken {
          gone := gone + {all[i]};
        }
        i := i + 1;
      }
      assert all[..i] == all && all[i..] == [];
      assert Items() == Without(all, gone) + [];
      FewerUp(gone, done + gone);
    }

    /** Maintenance filters the list: what it removes had completed, what had completed before is removed,
        and the others stay in their order. That the threads of what is gone were joined, and the memory
        freed once and not leaked, is in Valid and in what Join and the two frees require. */
    method DoMaintenance() returns (ghost gone: set<Item>)
      requires Valid()
      modifies this, head, SetOf(Items())`next, DataOf(Items())`isCompleted
      ensures Valid()
      ensures Items() == Without(old(Items()), gone)
      ensures gone <= SetOf(old(Items())) && AllUp(gone)
      ensures old(Completed(Items())) <= gone
      ensures forall it :: it in gone ==> it in old(Items()) && it.td.isCompleted
      ensures threadClients == |Items()| % TWO_32
      ensures forall it :: it in old(Items()) && old(it.td.isCompleted) ==> it in gone
    {
      gone := Sweep();
    }

    /** Shutdown joins every thread that is left and frees all memory. */
    method Shutdown()
      requires Valid()
      modifies this, head
      ensures Items() == [] && head.first == null
      ensures liveItems == {} && liveData == {} && unjoined == {}
    {
      hide DistinctData, NoDuplicates;
      while head.first != null
        invariant Holds({})
        decreases |Items()|
      {
        ghost var before := head.items;
        DataWithout(before, 0);
        assert before[..0] + before[1..] == before[1..];
        var datap := head.first;
        var td := datap.td;
        Join(td);
        head.RemoveHead();
        FreeData(td);
        FreeItem(datap);
      }
    }
  }
}
