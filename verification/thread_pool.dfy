/** The operations of the thread pool (amavutils/amthreadpool.c) as they update the item lists and the
    records on the heap, each one taken as atomic. */
module ThreadPool {
  import opened Wrappers
  import opened Items
  import opened ItemList
  import opened ThreadRegistry

  lemma {:induction false} UntilZeroStops(s: seq<Pid>, i: nat)
    requires i <= |s| && NonZero(s[..i]) && (i < |s| ==> s[i] == 0)
    ensures UntilZero(s) == s[..i]
  {
    if i > 0 {
      assert s[..i][0] == s[0];
      assert s[1..][..i - 1] == s[..i][1..];
      UntilZeroStops(s[1..], i - 1);
    }
  }

  /** Copying the ancestors of the creator into a zeroed `ppid`. */
  method CopyAncestry(creator: Pid, parent: seq<Pid>) returns (ppid: seq<Pid>)
    requires |parent| == MAX_DEPTH
    ensures ppid == Inherited(creator, parent)
    ensures |ppid| == 8 && ppid[0] == creator
    ensures forall i :: 0 <= i < 7 ==> ppid[i + 1] == if 0 !in parent[..i + 1] then parent[i] else 0
  {
    ppid := [creator, 0, 0, 0, 0, 0, 0, 0];
    var i := 0;
    while i < MAX_DEPTH - 1
      invariant 0 <= i <= MAX_DEPTH - 1 && |ppid| == MAX_DEPTH && ppid[0] == creator
      invariant NonZero(parent[..i])
      invariant forall k :: 0 <= k < i ==> ppid[k + 1] == parent[k]
      invariant forall k :: i + 1 <= k < MAX_DEPTH ==> ppid[k] == 0
    {
      if parent[i] == 0 {
        break;
      }
      ppid := ppid[i + 1 := parent[i]];
      i := i + 1;
    }
    var s := parent[..MAX_DEPTH - 1];
    assert s[..i] == parent[..i];
    UntilZeroStops(s, i);
    assert ppid == Inherited(creator, parent);
    InheritedEntries(creator, parent, ppid);
  }

  function Targets(list: seq<Item>): set<Addr> {
    set it | it in list :: it.ext
  }

  lemma TargetsNext(list: seq<Item>, i: nat)
    requires i < |list|
    ensures Targets(list[..i + 1]) == Targets(list[..i]) + {list[i].ext}
  {
  }

  function Flagged(threads: map<Addr, Thread>, targets: set<Addr>, flag: int): map<Addr, Thread> {
    map a | a in threads :: if a in targets then threads[a].(onExit := flag) else threads[a]
  }

  lemma FlaggedNext(threads: map<Addr, Thread>, targets: set<Addr>, a: Addr, flag: int)
    requires a in threads
    ensures var was := Flagged(threads, targets, flag);
            a in was && Flagged(threads, targets + {a}, flag) == was[a := was[a].(onExit := flag)]
  {
  }

  lemma NobodyCancelled(r: Registry, pid: Pid, flag: int, allThreads: bool)
    requires Indexed(r) && NoDangling(r) && Find(r.threadList, pid).None?
    ensures Cancelled(r, pid, flag, allThreads) == r
  {
  }

  lemma CancelledIsFlagged(r: Registry, pid: Pid, flag: int, allThreads: bool, self: Addr)
    requires Indexed(r) && NoDangling(r) && Find(r.threadList, pid) == Some(self) && self in r.threads
    ensures var pool := r.pools[r.threads[self].pool];
            var targets := if allThreads && pool.pid == pid then Targets(pool.threadlist) else {};
            Cancelled(r, pid, flag, allThreads)
            == r.(threads := Flagged(r.threads, targets, flag)[self := r.threads[self].(onExit := flag)])
  {
  }

  predicate HasPool(r: Registry, c: Addr) {
    c in r.threads && r.threads[c].pool in r.pools && |r.threads[c].ppid| == MAX_DEPTH
  }

  /** The registry after thread `pid` with its record at `a` was added to the pool of its creator, whose
      record is at `c`. */
  ghost function WithThread(r: Registry, creator: Pid, c: Addr, pid: Pid, a: Addr): Registry
    requires HasPool(r, c)
  {
    var pool := r.threads[c].pool;
    Registry(r.poolList, AddTail(r.threadList, Item(pid, a)),
             r.pools[pool := r.pools[pool].(threadlist := AddTail(r.pools[pool].threadlist, Item(pid, a)))],
             r.threads[a := Thread(pid, Inherited(creator, r.threads[c].ppid), pool, 0)])
  }

  /** The registry after it was added with a pool of its own, at `b`. */
  ghost function WithRoot(r: Registry, creator: Pid, pid: Pid, a: Addr, b: Addr): Registry {
    Registry(AddTail(r.poolList, Item(pid, b)), AddTail(r.threadList, Item(pid, a)),
             r.pools[b := Pool(pid, [])], r.threads[a := Thread(pid, Padded([creator]), b, 0)])
  }

  ghost predicate IsStart(r: Registry, s: Registry, creator: Pid, pid: Pid, a: Addr, b: Addr) {
    match Find(r.threadList, creator)
    case Some(c) => HasPool(r, c) && s == WithThread(r, creator, c, pid, a)
    case None => s == WithRoot(r, creator, pid, a, b)
  }

  lemma StartedParts(r: Registry, creator: Pid, pid: Pid, a: Addr, b: Addr)
    requires Intact(r)
    ensures IsStart(r, Started(r, creator, pid, a, b), creator, pid, a, b)
  {
    FindMember(r.threadList, creator);
  }

  /** What a join makes of the registry. */
  ghost predicate IsJoin(r: Registry, s: Registry, pid: Pid) {
    match Find(r.threadList, pid)
    case Some(a) =>
      && a in r.threads && r.threads[a].pool in r.pools
      && s == if r.pools[r.threads[a].pool].pid == pid then Released(Dropped(r, pid, a), pid) else Dropped(r, pid, a)
    case None => s == r
  }

  lemma JoinParts(r: Registry, pid: Pid)
    requires Intact(r)
    ensures Deleted(r, pid).Some? && IsJoin(r, Deleted(r, pid).value, pid)
    ensures NoDangling(Deleted(r, pid).value) <==> !Premature(r, pid)
  {
    FindMember(r.threadList, pid);
    if Find(r.threadList, pid).Some? {
      var a := Find(r.threadList, pid).value;
      JoinIsSafeIff(r, pid, a);
      DeletedCases(r, pid, a);
    }
  }

  /** What a cancel makes of the registry. */
  ghost predicate IsCancel(r: Registry, s: Registry, pid: Pid, flag: int, allThreads: bool) {
    match Find(r.threadList, pid)
    case Some(a) =>
      && a in r.threads && r.threads[a].pool in r.pools
      && var pool := r.pools[r.threads[a].pool];
         var targets := if allThreads && pool.pid == pid then Targets(pool.threadlist) else {};
         && (forall it :: it in pool.threadlist ==> it.ext in r.threads)
         && s == r.(threads := Flagged(r.threads, targets, flag)[a := r.threads[a].(onExit := flag)])
    case None => s == r
  }

  lemma CancelParts(r: Registry, pid: Pid, flag: int, allThreads: bool)
    requires Intact(r)
    ensures IsCancel(r, Cancelled(r, pid, flag, allThreads), pid, flag, allThreads)
  {
    FindMember(r.threadList, pid);
    match Find(r.threadList, pid)
    case Some(a) => CancelledIsFlagged(r, pid, flag, allThreads, a);
    case None => NobodyCancelled(r, pid, flag, allThreads);
  }

  /** What a sleep makes of the registry. */
  ghost predicate IsSleep(r: Registry, s: Registry, pid: Pid) {
    match Find(r.threadList, pid)
    case Some(a) =>
      && a in r.threads
      && s == if r.threads[a].onExit > 1
              then r.(threads := r.threads[a := r.threads[a].(onExit := r.threads[a].onExit - 1)])
              else r
    case None => s == r
  }

  lemma SleepParts(r: Registry, pid: Pid)
    requires Indexed(r)
    ensures IsSleep(r, Slept(r, pid), pid)
  {
    FindMember(r.threadList, pid);
  }

  /** A pool on the heap, with its list of threads. */
  datatype PoolRecord = PoolRecord(pid: Pid, threadlist: List)

  class System {
    const poolList: List   // threadpool_list
    const threadList: List // threadpool_threadlist
    var pools: map<Addr, PoolRecord>
    var threads: map<Addr, Thread>

    ghost function Lists(): set<List>
      reads this`pools
    {
      {poolList, threadList} + set b | b in pools :: pools[b].threadlist
    }

    /** The nodes of all lists. */
    ghost function Rings(): set<Node>
      reads this`pools, Lists()
    {
      set l, n | l in Lists() && n in l.ring :: n
    }

    lemma RingsHoldAll()
      ensures forall l, n :: l in Lists() && n in l.ring ==> n in Rings()
    {
    }

    /** All lists are distinct and linked, and reject data they have already. */
    ghost predicate Separate()
      reads this`pools, Lists(), Rings()
    {
      RingsHoldAll();
      && poolList != threadList
      && (forall b :: b in pools ==> pools[b].threadlist != poolList && pools[b].threadlist != threadList)
      && (forall b, c :: b in pools && c in pools && b != c ==> pools[b].threadlist != pools[c].threadlist)
      && (forall l :: l in Lists() ==> l.Valid() && l.rejectSame && l.maxItems == 0)
    }

    ghost function PoolView(): map<Addr, Pool>
      reads this`pools, set b | b in pools :: pools[b].threadlist
    {
      map b | b in pools :: Pool(pools[b].pid, pools[b].threadlist.Contents())
    }

    ghost function View(): Registry
      reads this`pools, this`threads, Lists()
    {
      Registry(poolList.Contents(), threadList.Contents(), PoolView(), threads)
    }

    constructor ()
      ensures Separate() && AnyOrder([]) == Some(View())
    {
      poolList := new List(0, true);
      threadList := new List(0, true);
      pools, threads := map[], map[];
    }

    /** `itemlist_add_tail_data_ext` on one of the lists. */
    method Append(l: List, data: nat, ext: Addr)
      requires Separate() && l in Lists()
      modifies l, l.ring
      ensures Separate()
      ensures l.Contents() == AddTail(old(l.Contents()), Item(data, ext))
      ensures forall m :: m in Lists() && m != l ==> m.ring == old(m.ring)
    {
      var _ := l.AddTailData(data, ext, true, Lists() - {l});
    }

    /** `itemlist_get_match_item` on one of the lists. */
    method Take(l: List, data: nat) returns (ext: Option<Addr>)
      requires Separate() && l in Lists()
      modifies l, l.ring
      ensures Separate()
      ensures l.Contents() == Remove(old(l.Contents()), data) && ext == Find(old(l.Contents()), data)
      ensures forall n :: n in l.ring ==> n in old(l.ring)
      ensures forall m :: m in Lists() && m != l ==> m.ring == old(m.ring)
    {
      var node := l.GetMatch(data, Lists() - {l});
      ext := if node == null then None else Some(node.ext);
    }

    /** `amthreadpool_findthead_thread_data`: where the record of a registered thread is. */
    method Lookup(pid: Pid) returns (self: Option<Addr>)
      requires Separate()
      ensures self == Find(View().threadList, pid)
    {
      var node, _ := threadList.FindMatch(pid);
      self := if node == null then None else Some(node.ext);
    }

    twostate lemma PoolsKept()
      requires pools == old(pools) && forall b :: b in pools ==>
                pools[b].threadlist.ring == old(pools[b].threadlist.ring)
      ensures PoolView() == old(PoolView())
    {
    }

    /** Only the list of the pool at `b` has changed, or the pool is new. */
    twostate lemma PoolChanged(b: Addr)
      requires b in pools && pools.Keys == old(pools.Keys) + {b}
      requires forall c :: c in pools && c != b ==>
                pools[c] == old(pools[c]) && pools[c].threadlist.ring == old(pools[c].threadlist.ring)
      ensures PoolView() == old(PoolView())[b := Pool(pools[b].pid, pools[b].threadlist.Contents())]
    {
    }

    /** `amthreadpool_create_pool`, with the pool at `b`. */
    method CreatePool(pid: Pid, b: Addr)
      requires Separate() && b !in pools
      modifies this`pools, poolList, poolList.ring
      ensures Separate() && b in pools && PoolView() == old(PoolView())[b := Pool(pid, [])]
      ensures poolList.Contents() == AddTail(old(poolList.Contents()), Item(pid, b))
      ensures threadList.ring == old(threadList.ring)
    {
      NewPool(pid, b);
      Append(poolList, pid, b);
      PoolChanged(b);
    }

    /** The record of a new pool, with an empty list. */
    method NewPool(pid: Pid, b: Addr)
      requires Separate() && b !in pools
      modifies this`pools
      ensures Separate() && b in pools && pools == old(pools)[b := PoolRecord(pid, pools[b].threadlist)]
      ensures fresh(pools[b].threadlist) && pools[b].threadlist.Contents() == []
    {
      var list := new List(0, true);
      pools := pools[b := PoolRecord(pid, list)];
    }

    /** `amthreadpool_pool_add_thread` on the record at `a`, with a pool ... */
    method AddInside(b: Addr, pid: Pid, a: Addr)
      requires Separate() && b in pools
      modifies pools[b].threadlist, pools[b].threadlist.ring, threadList, threadList.ring
      ensures Separate()
      ensures View() == var r := old(View());
                        r.(threadList := AddTail(r.threadList, Item(pid, a)),
                           pools := r.pools[b :=
                             r.pools[b].(threadlist := AddTail(r.pools[b].threadlist, Item(pid, a)))])
    {
      AddToPool(b, pid, a);
      AddToAll(pid, a);
    }

    /** ... and without one: then it makes a pool at `b`. */
    method AddOutside(pid: Pid, a: Addr, b: Addr)
      requires Separate() && b !in pools
      modifies this`pools, poolList, poolList.ring, threadList, threadList.ring
      ensures Separate()
      ensures View() == var r := old(View());
                        r.(poolList := AddTail(r.poolList, Item(pid, b)),
                           threadList := AddTail(r.threadList, Item(pid, a)),
                           pools := r.pools[b := Pool(pid, [])])
    {
      CreatePool(pid, b);
      AddToAll(pid, a);
    }

    method AddToPool(b: Addr, pid: Pid, a: Addr)
      requires Separate() && b in pools
      modifies pools[b].threadlist, pools[b].threadlist.ring
      ensures Separate() && poolList.ring == old(poolList.ring) && threadList.ring == old(threadList.ring)
      ensures PoolView() == var was := old(PoolView());
                            was[b := was[b].(threadlist := AddTail(was[b].threadlist, Item(pid, a)))]
    {
      Append(pools[b].threadlist, pid, a);
      PoolChanged(b);
    }

    method AddToAll(pid: Pid, a: Addr)
      requires Separate()
      modifies threadList, threadList.ring
      ensures Separate() && poolList.ring == old(poolList.ring) && PoolView() == old(PoolView())
      ensures threadList.Contents() == AddTail(old(threadList.Contents()), Item(pid, a))
    {
      Append(threadList, pid, a);
      PoolsKept();
    }

    /** `amthreadpool_start_thread` up to the start routine, in a new thread `pid` whose record is at `a`. */
    method StartThread(creator: Pid, pid: Pid, a: Addr, b: Addr)
      requires Separate() && Intact(View()) && Fresh(View(), creator, pid, a, b)
      modifies this, Lists(), Rings()
      ensures Separate() && View() == Started(old(View()), creator, pid, a, b)
    {
      StartedParts(View(), creator, pid, a, b);
      assert b !in PoolView();
      Register(creator, pid, a, b, Started(View(), creator, pid, a, b));
    }

    method Register(creator: Pid, pid: Pid, a: Addr, b: Addr, ghost s: Registry)
      requires Separate() && a !in threads && b !in pools && IsStart(View(), s, creator, pid, a, b)
      modifies this`pools, this`threads, Lists(), Rings()
      ensures Separate() && View() == s
    {
      ghost var r := View();
      var self := Lookup(creator);
      assert Separate() && View() == r;
      if self.Some? {
        assert s == WithThread(r, creator, self.value, pid, a);
        RegisterInside(creator, self.value, pid, a);
      } else {
        assert s == WithRoot(r, creator, pid, a, b);
        RegisterOutside(creator, pid, a, b);
      }
    }

    /** The record of the creator is at `c`. */
    method RegisterInside(creator: Pid, c: Addr, pid: Pid, a: Addr)
      requires Separate() && a !in threads && HasPool(View(), c)
      modifies this`threads, Lists(), Rings()
      ensures Separate() && View() == WithThread(old(View()), creator, c, pid, a)
    {
      RingsHoldAll();
      ghost var r := View();
      var parent := threads[c];
      var t := NewRecord(creator, pid, parent);
      threads := threads[a := t];
      assert View() == r.(threads := threads);
      AddInside(parent.pool, pid, a);
    }

    method NewRecord(creator: Pid, pid: Pid, parent: Thread) returns (t: Thread)
      requires |parent.ppid| == MAX_DEPTH
      ensures t == Thread(pid, Inherited(creator, parent.ppid), parent.pool, 0)
    {
      var ppid := CopyAncestry(creator, parent.ppid);
      t := Thread(pid, ppid, parent.pool, 0);
    }

    method RegisterOutside(creator: Pid, pid: Pid, a: Addr, b: Addr)
      requires Separate() && a !in threads && b !in pools
      modifies this`pools, this`threads, Lists(), Rings()
      ensures Separate() && View() == WithRoot(old(View()), creator, pid, a, b)
    {
      RingsHoldAll();
      ghost var r := View();
      threads := threads[a := Thread(pid, [creator, 0, 0, 0, 0, 0, 0, 0], b, 0)];
      assert [creator, 0, 0, 0, 0, 0, 0, 0] == Padded([creator]);
      assert View() == r.(threads := threads);
      AddOutside(pid, a, b);
    }

    /** `amthreadpool_pthread_join` after the thread has ended. */
    method JoinThread(pid: Pid) returns (ret: int)
      requires Separate() && Intact(View())
      modifies this, Lists(), Rings()
      ensures Separate() && Deleted(old(View()), pid) == Some(View())
      ensures NoDangling(View()) <==> !old(Premature(View(), pid))
      ensures ret == if Find(old(View()).threadList, pid).Some? then 0 else -2
    {
      ghost var r := View();
      JoinParts(r, pid);
      ret := Unregister(pid, Deleted(r, pid).value);
    }

    /** `amthreadpool_pool_del_thread`. */
    method Unregister(pid: Pid, ghost s: Registry) returns (ret: int)
      requires Separate() && IsJoin(View(), s, pid)
      modifies this`pools, this`threads, Lists(), Rings()
      ensures Separate() && View() == s
      ensures ret == if Find(old(View()).threadList, pid).Some? then 0 else -2
    {
      ghost var r := View();
      var self := TakeThread(pid);
      if self.None? {
        return -2;
      }
      assert Dropped(r, pid, self.value).threadList == View().threadList;
      var isRoot := DropRecord(pid, self.value);
      assert View() == Dropped(r, pid, self.value);
      if isRoot {
        Release(pid);
      }
      return 0;
    }

    method TakeThread(pid: Pid) returns (self: Option<Addr>)
      requires Separate()
      modifies Lists(), Rings()
      ensures Separate() && Rings() <= old(Rings()) && self == Find(old(View()).threadList, pid)
      ensures View() == if self.None? then old(View())
              else old(View()).(threadList := Remove(old(View()).threadList, pid))
    {
      RingsHoldAll();
      self := Take(threadList, pid);
      PoolsKept();
      if self.None? {
        RemoveAbsent(old(threadList.Contents()), pid);
      }
    }

    /** The record of `pid` at `a` and its entry in the list of its pool go; is it the root of that pool? */
    method DropRecord(pid: Pid, a: Addr) returns (isRoot: bool)
      requires Separate() && a in threads && threads[a].pool in pools
      modifies this`threads, Lists(), Rings()
      ensures Separate() && Rings() <= old(Rings())
      ensures var r, b := old(View()), old(threads[a].pool);
              && View() == r.(threads := r.threads - {a},
                              pools := r.pools[b := r.pools[b].(threadlist := Remove(r.pools[b].threadlist, pid))])
              && isRoot == (r.pools[b].pid == pid)
    {
      var b := threads[a].pool;
      isRoot := TakeFromPool(pid, b);
      RemoveRecord(a);
    }

    method SetRecord(a: Addr, t: Thread)
      requires Separate()
      modifies this`threads
      ensures Separate() && View() == old(View()).(threads := old(View()).threads[a := t])
    {
      threads := threads[a := t];
    }

    method RemoveRecord(a: Addr)
      requires Separate()
      modifies this`threads
      ensures Separate() && Rings() == old(Rings())
      ensures View() == old(View()).(threads := old(View()).threads - {a})
    {
      threads := threads - {a};
    }

    method TakeFromPool(pid: Pid, b: Addr) returns (isRoot: bool)
      requires Separate() && b in pools
      modifies Lists(), Rings()
      ensures Separate() && Rings() <= old(Rings()) && isRoot == (old(View()).pools[b].pid == pid)
      ensures View() == var r := old(View());
                        r.(pools := r.pools[b := r.pools[b].(threadlist := Remove(r.pools[b].threadlist, pid))])
    {
      RingsHoldAll();
      isRoot := pools[b].pid == pid;
      var _ := Take(pools[b].threadlist, pid);
      PoolChanged(b);
    }

    /** `amthreadpool_release`. */
    method Release(pid: Pid)
      requires Separate()
      modifies this`pools, Lists(), Rings()
      ensures Separate() && View() == Released(old(View()), pid)
    {
      RingsHoldAll();
      var item := Take(poolList, pid);
      PoolsKept();
      if item.Some? {
        Free(item.value);
      } else {
        RemoveAbsent(old(poolList.Contents()), pid);
      }
    }

    method Free(b: Addr)
      requires Separate()
      modifies this`pools
      ensures Separate() && View() == old(View()).(pools := old(PoolView()) - {b})
    {
      pools := pools - {b};
      assert PoolView() == old(PoolView()) - {b};
    }

    /** `amthreadpool_pool_thread_cancel_l1`. */
    method CancelThread(pid: Pid, flag: int, allThreads: bool)
      requires Separate() && Intact(View())
      modifies this`threads
      ensures Separate() && View() == Cancelled(old(View()), pid, flag, allThreads)
    {
      CancelParts(View(), pid, flag, allThreads);
      SetFlags(pid, flag, allThreads, Cancelled(View(), pid, flag, allThreads));
    }

    method SetFlags(pid: Pid, flag: int, allThreads: bool, ghost s: Registry)
      requires Separate() && IsCancel(View(), s, pid, flag, allThreads)
      modifies this`threads
      ensures Separate() && View() == s
    {
      ghost var r := View();
      var self := Lookup(pid);
      assert Separate() && View() == r;
      if self.None? {
        return;
      }
      var a := self.value;
      var b := threads[a].pool;
      if allThreads && pools[b].pid == pid {
        FlagPool(b, flag);
      } else {
        assert Flagged(r.threads, {}, flag) == r.threads;
      }
      SetRecord(a, threads[a].(onExit := flag));
    }

    method FlagPool(b: Addr, flag: int)
      requires Separate() && b in pools && forall it :: it in View().pools[b].threadlist ==> it.ext in threads
      modifies this`threads
      ensures Separate()
      ensures View() == var r := old(View()); r.(threads := Flagged(r.threads, Targets(r.pools[b].threadlist), flag))
    {
      FlagList(pools[b].threadlist, flag);
    }

    /** The loop over the list of a pool. */
    method FlagList(list: List, flag: int)
      requires list.Valid() && forall it :: it in list.Contents() ==> it.ext in threads
      modifies this`threads
      ensures threads == Flagged(old(threads), Targets(list.Contents()), flag)
    {
      ghost var was, items, k := threads, list.Contents(), 1;
      list.EmptyIff();
      var node := list.head.next;
      while node != list.head
        invariant 1 <= k <= |list.ring| && node == if k < |list.ring| then list.ring[k] else list.head
        invariant threads == Flagged(was, Targets(items[..k - 1]), flag)
        decreases |list.ring| - k
      {
        list.ItemAt(k);
        TargetsNext(items, k - 1);
        FlaggedNext(was, Targets(items[..k - 1]), node.ext, flag);
        threads := threads[node.ext := threads[node.ext].(onExit := flag)];
        node := node.next;
        k := k + 1;
      }
      assert items[..k - 1] == items;
    }

    /** The flag handling of `amthreadpool_thread_usleep_in`. */
    method SleepThread(pid: Pid)
      requires Separate() && Indexed(View())
      modifies this`threads
      ensures Separate() && View() == Slept(old(View()), pid)
    {
      SleepParts(View(), pid);
      CountDown(pid, Slept(View(), pid));
    }

    method CountDown(pid: Pid, ghost s: Registry)
      requires Separate() && IsSleep(View(), s, pid)
      modifies this`threads
      ensures Separate() && View() == s
    {
      ghost var r := View();
      var self := Lookup(pid);
      assert Separate() && View() == r;
      if self.Some? {
        var t := threads[self.value];
        if t.onExit > 1 {
          SetRecord(self.value, t.(onExit := t.onExit - 1));
        }
      }
    }

    method Perform(e: Event)
      requires Separate() && Intact(View()) && Possible(View(), e)
      modifies this, Lists(), Rings()
      ensures Separate() && View() == Next(old(View()), e)
    {
      match e {
        case Start(creator, pid, a, b) => StartThread(creator, pid, a, b);
        case Join(pid) => var _ := JoinThread(pid);
        case Cancel(pid, flag, allThreads) => CancelThread(pid, flag, allThreads);
        case Sleep(pid) => SleepThread(pid);
      }
    }
  }
}
