/** The thread registry (amavutils/amthreadpool.c): every thread is listed with its ancestors, and every
    thread created from outside the registry owns a pool that lists its descendants. The C heap is made
    explicit: an address is alive while it is a key of `pools` or `threads`. */
module ThreadRegistry {
  import opened Wrappers
  import opened Items

  const MAX_DEPTH := 8

  type Pid = nat // 0 is no thread

  datatype Pool = Pool(pid: Pid, threadlist: seq<Item>)

  datatype Thread = Thread(pid: Pid, ppid: seq<Pid>, pool: Addr, onExit: int)

  /** `s` cut or filled with zeros to the length of a `ppid` field. */
  function Padded(s: seq<Pid>): (r: seq<Pid>)
    ensures |r| == MAX_DEPTH
  {
    seq(MAX_DEPTH, i => if 0 <= i < |s| then s[i] else 0)
  }

  /** A new thread's `ppid`: its creator, then the creator's own ancestors up to the first zero. */
  function Inherited(creator: Pid, parent: seq<Pid>): (r: seq<Pid>)
    requires |parent| == MAX_DEPTH
    ensures |r| == MAX_DEPTH
  {
    Padded([creator] + UntilZero(parent[..MAX_DEPTH - 1]))
  }

  function UntilZero(s: seq<Pid>): seq<Pid> {
    if s == [] || s[0] == 0 then [] else [s[0]] + UntilZero(s[1..])
  }

  ghost predicate NonZero(s: seq<Pid>) {
    forall i :: 0 <= i < |s| ==> s[i] != 0
  }

  lemma {:induction false} UntilZeroPadded(s: seq<Pid>, n: nat)
    requires NonZero(s)
    ensures UntilZero(s + seq(n, _ => 0)) == s
  {
    if s != [] {
      UntilZeroPadded(s[1..], n);
      assert (s + seq(n, _ => 0))[1..] == s[1..] + seq(n, _ => 0);
    }
  }

  lemma {:induction false} UntilZeroAt(s: seq<Pid>, i: nat)
    requires i < |s|
    ensures i < |UntilZero(s)| <==> 0 !in s[..i + 1]
    ensures i < |UntilZero(s)| ==> UntilZero(s)[i] == s[i]
  {
    assert 0 !in s[..i + 1] ==> s[..i + 1][0] != 0;
    if s[0] != 0 && i > 0 {
      UntilZeroAt(s[1..], i - 1);
      assert s[..i + 1] == [s[0]] + s[1..][..i];
    }
  }

  /** Entry by entry: the creator, and then the creator's own entries as long as none so far is zero. */
  lemma InheritedEntries(creator: Pid, parent: seq<Pid>, ppid: seq<Pid>)
    requires |parent| == MAX_DEPTH && ppid == Inherited(creator, parent)
    ensures |ppid| == 8 && ppid[0] == creator
    ensures forall i :: 0 <= i < 7 ==> ppid[i + 1] == if 0 !in parent[..i + 1] then parent[i] else 0
  {
    forall i | 0 <= i < 7
      ensures ppid[i + 1] == if 0 !in parent[..i + 1] then parent[i] else 0
    {
      var s := parent[..MAX_DEPTH - 1];
      UntilZeroAt(s, i);
      assert s[..i + 1] == parent[..i + 1];
    }
  }

  /** So `ppid` always is the first eight entries of the chain of creators. */
  lemma InheritedIsPrefix(creator: Pid, chain: seq<Pid>)
    requires NonZero(chain)
    ensures Inherited(creator, Padded(chain)) == Padded([creator] + chain)
  {
    var short := if |chain| < MAX_DEPTH - 1 then chain else chain[..MAX_DEPTH - 1];
    UntilZeroPadded(short, MAX_DEPTH - 1 - |short|);
    assert Padded(chain)[..MAX_DEPTH - 1] == short + seq(MAX_DEPTH - 1 - |short|, _ => 0);
  }

  /** The registry with the C heap behind it. */
  datatype Registry = Registry(poolList: seq<Item>, threadList: seq<Item>,
                               pools: map<Addr, Pool>, threads: map<Addr, Thread>)

  /** What really happened: for each registered thread its creators that were themselves registered, nearest
      first, and the unregistered thread that created the last of them. */
  datatype History = History(line: map<Pid, seq<Pid>>, origin: map<Pid, Pid>)

  function Ancestors(h: History, pid: Pid): seq<Pid>
    requires pid in h.line && pid in h.origin
  {
    h.line[pid] + [h.origin[pid]]
  }

  /** The outermost registered creator of a thread, or the thread itself. */
  function RootOf(h: History, pid: Pid): Pid
    requires pid in h.line
  {
    if h.line[pid] == [] then pid else h.line[pid][|h.line[pid]| - 1]
  }

  /** The lists and the heap agree: each list entry leads to a living record of that thread, and back. */
  ghost predicate Indexed(r: Registry) {
    && Keyed(r.threadList) && Keyed(r.poolList)
    && (forall it :: it in r.threadList ==> it.ext in r.threads && r.threads[it.ext].pid == it.data)
    && (forall it :: it in r.poolList ==> it.ext in r.pools && r.pools[it.ext].pid == it.data)
    && (forall a :: a in r.threads ==> Item(r.threads[a].pid, a) in r.threadList)
    && (forall b :: b in r.pools ==> Item(r.pools[b].pid, b) in r.poolList)
  }

  /** No registered thread refers to a freed pool. */
  ghost predicate NoDangling(r: Registry) {
    forall a :: a in r.threads ==> r.threads[a].pool in r.pools
  }

  /** A pool lists exactly the threads that refer to it, its own root excepted. */
  ghost predicate Listed(r: Registry) {
    forall b :: b in r.pools ==>
      && Keyed(r.pools[b].threadlist)
      && forall it :: it in r.pools[b].threadlist <==>
           && it.ext in r.threads && r.threads[it.ext].pid == it.data
           && r.threads[it.ext].pool == b && it.data != r.pools[b].pid
  }

  /** The history covers the registered threads, whose registered creators still are registered. */
  ghost predicate Lineage(r: Registry, h: History) {
    && h.line.Keys == h.origin.Keys
    && (forall a :: a in r.threads ==> r.threads[a].pid in h.line)
    && (forall pid :: pid in h.line ==> pid != 0 && h.origin[pid] != 0 && Find(r.threadList, pid).Some?)
    && (forall pid :: pid in h.line && h.line[pid] != [] ==>
          && h.line[pid][0] in h.line
          && h.line[pid] == [h.line[pid][0]] + h.line[h.line[pid][0]]
          && h.origin[pid] == h.origin[h.line[pid][0]])
  }

  /** A thread refers to the pool of its root, records its ancestors, and each pool belongs to a root. */
  ghost predicate Faithful(r: Registry, h: History)
    requires Lineage(r, h) && NoDangling(r)
  {
    && (forall a :: a in r.threads ==>
          && r.pools[r.threads[a].pool].pid == RootOf(h, r.threads[a].pid)
          && r.threads[a].ppid == Padded(Ancestors(h, r.threads[a].pid)))
    && (forall b :: b in r.pools ==> r.pools[b].pid in h.line && h.line[r.pools[b].pid] == [])
  }

  ghost predicate Inv(r: Registry, h: History) {
    Indexed(r) && NoDangling(r) && Listed(r) && Lineage(r, h) && Faithful(r, h)
  }

  /** `amthreadpool_start_thread` up to the start routine, in a new thread `pid` whose record is at `a`.
      If a pool is needed it is at `b`. */
  function Started(r: Registry, creator: Pid, pid: Pid, a: Addr, b: Addr): Registry
    requires Indexed(r) && NoDangling(r)
    requires forall c :: c in r.threads ==> |r.threads[c].ppid| == MAX_DEPTH
  {
    FindMember(r.threadList, creator);
    match Find(r.threadList, creator)
    case Some(c) =>
      var pool := r.threads[c].pool;
      var listed := r.pools[pool].(threadlist := AddTail(r.pools[pool].threadlist, Item(pid, a)));
      Registry(r.poolList, AddTail(r.threadList, Item(pid, a)), r.pools[pool := listed],
               r.threads[a := Thread(pid, Inherited(creator, r.threads[c].ppid), pool, 0)])
    case None =>
      Registry(AddTail(r.poolList, Item(pid, b)), AddTail(r.threadList, Item(pid, a)), r.pools[b := Pool(pid, [])],
               r.threads[a := Thread(pid, Padded([creator]), b, 0)])
  }

  function Recorded(h: History, registered: bool, creator: Pid, pid: Pid): History
    requires registered ==> creator in h.line && creator in h.origin
  {
    if registered then History(h.line[pid := [creator] + h.line[creator]], h.origin[pid := h.origin[creator]])
    else History(h.line[pid := []], h.origin[pid := creator])
  }

  /** The system never gives a thread the id of one not yet joined, nor `malloc` a living address. */
  ghost predicate CanStart(r: Registry, h: History, creator: Pid, pid: Pid, a: Addr, b: Addr) {
    creator != 0 && pid != 0 && creator != pid && pid !in h.line && a !in r.threads && b !in r.pools
  }

  /** `amthreadpool_pool_del_thread`; `None` if it would read a freed pool. */
  function Deleted(r: Registry, pid: Pid): Option<Registry>
    requires Indexed(r)
  {
    FindMember(r.threadList, pid);
    match Find(r.threadList, pid)
    case None => Some(r) // joined before
    case Some(a) =>
      var b := r.threads[a].pool;
      if b !in r.pools then None else
      var pool := r.pools[b].(threadlist := Remove(r.pools[b].threadlist, pid));
      var left := Registry(r.poolList, Remove(r.threadList, pid), r.pools[b := pool], r.threads - {a});
      Some(if pool.pid == pid then Released(left, pid) else left)
  }

  /** `amthreadpool_release`. */
  function Released(r: Registry, pid: Pid): Registry {
    match Find(r.poolList, pid)
    case None => r
    case Some(b) => r.(poolList := Remove(r.poolList, pid), pools := r.pools - {b})
  }

  function Forgotten(h: History, pid: Pid): History {
    History(h.line - {pid}, h.origin - {pid})
  }

  /** A thread is joined only after every thread it created. */
  ghost predicate CanJoin(h: History, pid: Pid) {
    forall t :: t in h.line && h.line[t] != [] ==> h.line[t][0] != pid
  }

  lemma PidsAreRegistered(r: Registry, h: History, pid: Pid)
    requires Indexed(r) && Lineage(r, h)
    ensures pid in h.line <==> Find(r.threadList, pid).Some?
    ensures pid in h.line ==> var a := Find(r.threadList, pid).value; a in r.threads && r.threads[a].pid == pid
    ensures pid !in h.line ==> forall it :: it in r.threadList ==> it.data != pid
  {
    FindMember(r.threadList, pid);
  }

  lemma PidsAreUnique(r: Registry, a: Addr, c: Addr)
    requires Indexed(r) && a in r.threads && c in r.threads && r.threads[a].pid == r.threads[c].pid
    ensures a == c
  {
  }

  lemma PoolsAreUnique(r: Registry, b: Addr, c: Addr)
    requires Indexed(r) && b in r.pools && c in r.pools && r.pools[b].pid == r.pools[c].pid
    ensures b == c
  {
  }

  /** The registry after a thread with record `t` at `a` was added to the living pool that `t` refers to. */
  function Joined(r: Registry, a: Addr, t: Thread): Registry
    requires t.pool in r.pools
  {
    var pool := r.pools[t.pool];
    Registry(r.poolList, r.threadList + [Item(t.pid, a)],
             r.pools[t.pool := pool.(threadlist := pool.threadlist + [Item(t.pid, a)])], r.threads[a := t])
  }

  ghost predicate NewThread(r: Registry, a: Addr, t: Thread) {
    && a !in r.threads && t.pool in r.pools && (forall it :: it in r.threadList ==> it.data != t.pid)
    && (forall b :: b in r.pools ==> r.pools[b].pid != t.pid)
  }

  lemma JoinedIndexed(r: Registry, a: Addr, t: Thread)
    requires Indexed(r) && NewThread(r, a, t)
    ensures Indexed(Joined(r, a, t))
  {
  }

  lemma JoinedListed(r: Registry, a: Addr, t: Thread)
    requires Indexed(r) && Listed(r) && NewThread(r, a, t)
    ensures Listed(Joined(r, a, t))
  {
    var r' := Joined(r, a, t);
    forall b | b in r'.pools
      ensures Keyed(r'.pools[b].threadlist)
      ensures forall it :: it in r'.pools[b].threadlist <==>
                && it.ext in r'.threads && r'.threads[it.ext].pid == it.data
                && r'.threads[it.ext].pool == b && it.data != r'.pools[b].pid
    {
      PoolListGrows(r, a, t, b);
    }
  }

  lemma PoolListGrows(r: Registry, a: Addr, t: Thread, b: Addr)
    requires Indexed(r) && Listed(r) && NewThread(r, a, t) && b in r.pools
    ensures var r' := Joined(r, a, t);
            && Keyed(r'.pools[b].threadlist)
            && forall it :: it in r'.pools[b].threadlist <==>
                 && it.ext in r'.threads && r'.threads[it.ext].pid == it.data
                 && r'.threads[it.ext].pool == b && it.data != r'.pools[b].pid
  {
  }

  lemma LineageGrows(r: Registry, h: History, creator: Pid, pid: Pid, a: Addr, t: Thread)
    requires Indexed(r) && Lineage(r, h) && NewThread(r, a, t) && creator in h.line && pid == t.pid != 0
             && pid !in h.line
    ensures Lineage(Joined(r, a, t), Recorded(h, true, creator, pid))
  {
    var r', h' := Joined(r, a, t), Recorded(h, true, creator, pid);
    forall p | p in h'.line
      ensures Find(r'.threadList, p).Some?
    {
      FindMember(r.threadList, p);
      FindMember(r'.threadList, p);
      assert Item(pid, a) in r'.threadList;
    }
    forall p | p in h.line && h.line[p] != []
      ensures h'.line[p] == [h'.line[p][0]] + h'.line[h'.line[p][0]]
    {
      assert h.line[p][0] in h.line;
    }
  }

  lemma AncestorsGrow(h: History, creator: Pid, pid: Pid, p: Pid)
    requires creator in h.line && creator in h.origin && pid !in h.line && (p == pid || (p in h.line && p in h.origin))
    ensures var h' := Recorded(h, true, creator, pid);
            && Ancestors(h', p) == (if p == pid then [creator] + Ancestors(h, creator) else Ancestors(h, p))
            && RootOf(h', p) == RootOf(h, if p == pid then creator else p)
  {
  }

  ghost predicate IsRoot(r: Registry, a: Addr, b: Addr) {
    a in r.threads && b in r.pools && r.threads[a].pid == r.pools[b].pid && r.threads[a].pool == b
  }

  /** Each pool is that of a registered thread, its root. */
  ghost predicate Rooted(r: Registry) {
    forall b :: b in r.pools ==> exists a :: IsRoot(r, a, b)
  }

  /** What holds whatever the order of joins, as long as no thread refers to a freed pool. */
  ghost predicate Intact(r: Registry) {
    && Indexed(r) && NoDangling(r) && Listed(r) && Rooted(r)
    && forall a :: a in r.threads ==> |r.threads[a].ppid| == MAX_DEPTH
  }

  lemma InvIsIntact(r: Registry, h: History)
    requires Inv(r, h)
    ensures Intact(r)
  {
    forall b | b in r.pools
      ensures exists a :: IsRoot(r, a, b)
    {
      PidsAreRegistered(r, h, r.pools[b].pid);
      var a := Find(r.threadList, r.pools[b].pid).value;
      PoolsAreUnique(r, b, r.threads[a].pool);
      assert IsRoot(r, a, b);
    }
  }

  /** `CanStart` without a history: thread ids and addresses in use are not given again. */
  ghost predicate Fresh(r: Registry, creator: Pid, pid: Pid, a: Addr, b: Addr) {
    creator != 0 && pid != 0 && creator != pid && Find(r.threadList, pid).None? && a !in r.threads && b !in r.pools
  }

  lemma UnregisteredHasNoPool(r: Registry, pid: Pid)
    requires Indexed(r) && Rooted(r) && Find(r.threadList, pid).None?
    ensures forall it :: it in r.threadList ==> it.data != pid
    ensures forall it :: it in r.poolList ==> it.data != pid
    ensures forall b :: b in r.pools ==> r.pools[b].pid != pid
  {
    FindMember(r.threadList, pid);
    forall b | b in r.pools
      ensures r.pools[b].pid != pid
    {
      var a :| IsRoot(r, a, b);
    }
  }

  lemma JoinedIntact(r: Registry, a: Addr, t: Thread)
    requires Intact(r) && NewThread(r, a, t) && |t.ppid| == MAX_DEPTH
    ensures Intact(Joined(r, a, t))
  {
    JoinedIndexed(r, a, t);
    JoinedListed(r, a, t);
    JoinedAlive(r, a, t);
  }

  lemma JoinedAlive(r: Registry, a: Addr, t: Thread)
    requires NoDangling(r) && Rooted(r) && NewThread(r, a, t)
    ensures NoDangling(Joined(r, a, t)) && Rooted(Joined(r, a, t))
  {
    var r' := Joined(r, a, t);
    forall b | b in r'.pools
      ensures exists c :: IsRoot(r', c, b)
    {
      var c :| IsRoot(r, c, b);
      assert IsRoot(r', c, b);
    }
  }

  /** A thread created by a registered one joins its creator's pool. */
  lemma StartedInside(r: Registry, creator: Pid, pid: Pid, a: Addr, b: Addr, c: Addr)
    requires Intact(r) && Fresh(r, creator, pid, a, b) && Find(r.threadList, creator) == Some(c)
    ensures c in r.threads && r.threads[c].pid == creator
    ensures var t := Thread(pid, Inherited(creator, r.threads[c].ppid), r.threads[c].pool, 0);
            NewThread(r, a, t) && Started(r, creator, pid, a, b) == Joined(r, a, t) && Intact(Joined(r, a, t))
  {
    FindMember(r.threadList, creator);
    UnregisteredHasNoPool(r, pid);
    var t := Thread(pid, Inherited(creator, r.threads[c].ppid), r.threads[c].pool, 0);
    AddTailMember(r.threadList, Item(pid, a));
    ListOmits(r, t.pool, pid);
    AddTailMember(r.pools[t.pool].threadlist, Item(pid, a));
    JoinedIntact(r, a, t);
  }

  lemma StartInside(r: Registry, h: History, creator: Pid, pid: Pid, a: Addr, b: Addr)
    requires Inv(r, h) && CanStart(r, h, creator, pid, a, b) && creator in h.line
    ensures Inv(Started(r, creator, pid, a, b), Recorded(h, true, creator, pid))
  {
    PidsAreRegistered(r, h, creator);
    PidsAreRegistered(r, h, pid);
    InvIsIntact(r, h);
    var c := Find(r.threadList, creator).value;
    StartedInside(r, creator, pid, a, b, c);
    var t := Thread(pid, Inherited(creator, r.threads[c].ppid), r.threads[c].pool, 0);
    LineageGrows(r, h, creator, pid, a, t);
    AncestorsNonZero(r, h, creator);
    InheritedIsPrefix(creator, Ancestors(h, creator));
    FaithfulGrows(r, h, creator, pid, a, t);
  }

  lemma ListOmits(r: Registry, b: Addr, pid: Pid)
    requires Indexed(r) && Listed(r) && b in r.pools && forall it :: it in r.threadList ==> it.data != pid
    ensures forall it :: it in r.pools[b].threadlist ==> it.data != pid
  {
  }

  lemma FaithfulGrows(r: Registry, h: History, creator: Pid, pid: Pid, a: Addr, t: Thread)
    requires NoDangling(r) && Lineage(r, h) && Faithful(r, h) && NewThread(r, a, t)
    requires creator in h.line && pid == t.pid && pid !in h.line
    requires exists c :: c in r.threads && r.threads[c].pid == creator && r.threads[c].pool == t.pool
    requires t.ppid == Padded([creator] + Ancestors(h, creator))
    requires Lineage(Joined(r, a, t), Recorded(h, true, creator, pid))
    ensures NoDangling(Joined(r, a, t)) && Faithful(Joined(r, a, t), Recorded(h, true, creator, pid))
  {
    var r', h' := Joined(r, a, t), Recorded(h, true, creator, pid);
    forall c | c in r'.threads
      ensures r'.pools[r'.threads[c].pool].pid == RootOf(h', r'.threads[c].pid)
      ensures r'.threads[c].ppid == Padded(Ancestors(h', r'.threads[c].pid))
    {
      AncestorsGrow(h, creator, pid, r'.threads[c].pid);
    }
  }

  lemma {:induction false} AncestorsNonZero(r: Registry, h: History, pid: Pid)
    requires Lineage(r, h) && pid in h.line
    ensures NonZero(Ancestors(h, pid))
    decreases |h.line[pid]|
  {
    if h.line[pid] != [] {
      AncestorsNonZero(r, h, h.line[pid][0]);
      assert Ancestors(h, pid) == [h.line[pid][0]] + Ancestors(h, h.line[pid][0]);
    }
  }

  /** The registry after a thread with record `t` at `a` was added together with a pool of its own. */
  function Opened(r: Registry, a: Addr, t: Thread): Registry {
    Registry(r.poolList + [Item(t.pid, t.pool)], r.threadList + [Item(t.pid, a)],
             r.pools[t.pool := Pool(t.pid, [])], r.threads[a := t])
  }

  ghost predicate NewRoot(r: Registry, a: Addr, t: Thread) {
    && a !in r.threads && t.pool !in r.pools
    && (forall it :: it in r.threadList ==> it.data != t.pid)
    && (forall it :: it in r.poolList ==> it.data != t.pid)
  }

  lemma OpenedIndexed(r: Registry, a: Addr, t: Thread)
    requires Indexed(r) && NewRoot(r, a, t)
    ensures Indexed(Opened(r, a, t))
  {
  }

  lemma OpenedListed(r: Registry, a: Addr, t: Thread)
    requires Indexed(r) && NoDangling(r) && Listed(r) && NewRoot(r, a, t)
    ensures Listed(Opened(r, a, t))
  {
  }

  lemma LineageOpens(r: Registry, h: History, creator: Pid, a: Addr, t: Thread)
    requires Indexed(r) && Lineage(r, h) && NewRoot(r, a, t) && t.pid != 0 && creator != 0 && t.pid !in h.line
    ensures Lineage(Opened(r, a, t), Recorded(h, false, creator, t.pid))
  {
    var r', h' := Opened(r, a, t), Recorded(h, false, creator, t.pid);
    forall p | p in h'.line
      ensures Find(r'.threadList, p).Some?
    {
      FindMember(r.threadList, p);
      FindMember(r'.threadList, p);
      assert Item(t.pid, a) in r'.threadList;
    }
  }

  lemma FaithfulOpens(r: Registry, h: History, creator: Pid, a: Addr, t: Thread)
    requires NoDangling(r) && Lineage(r, h) && Faithful(r, h) && NewRoot(r, a, t) && t.pid !in h.line
    requires t.ppid == Padded([creator])
    requires Lineage(Opened(r, a, t), Recorded(h, false, creator, t.pid))
    ensures NoDangling(Opened(r, a, t)) && Faithful(Opened(r, a, t), Recorded(h, false, creator, t.pid))
  {
    var r', h' := Opened(r, a, t), Recorded(h, false, creator, t.pid);
    forall c | c in r'.threads
      ensures r'.pools[r'.threads[c].pool].pid == RootOf(h', r'.threads[c].pid)
      ensures r'.threads[c].ppid == Padded(Ancestors(h', r'.threads[c].pid))
    {
      AncestorsOpen(h, creator, t.pid, r'.threads[c].pid);
    }
  }

  lemma AncestorsOpen(h: History, creator: Pid, pid: Pid, p: Pid)
    requires pid !in h.line && (p == pid || (p in h.line && p in h.origin))
    ensures var h' := Recorded(h, false, creator, pid);
            && Ancestors(h', p) == (if p == pid then [creator] else Ancestors(h, p))
            && RootOf(h', p) == (if p == pid then pid else RootOf(h, p))
  {
  }

  /** A thread created from outside the registry opens a pool of its own. */
  lemma StartedOutside(r: Registry, creator: Pid, pid: Pid, a: Addr, b: Addr)
    requires Intact(r) && Fresh(r, creator, pid, a, b) && Find(r.threadList, creator).None?
    ensures var t := Thread(pid, Padded([creator]), b, 0);
            NewRoot(r, a, t) && Started(r, creator, pid, a, b) == Opened(r, a, t) && Intact(Opened(r, a, t))
  {
    UnregisteredHasNoPool(r, pid);
    AddTailMember(r.threadList, Item(pid, a));
    AddTailMember(r.poolList, Item(pid, b));
    OpenedIntact(r, a, Thread(pid, Padded([creator]), b, 0));
  }

  /** What a start by a registered thread comes to: one more record, at the end of the list of all threads and
      of that of the creator's pool. */
  lemma InsideRecord(r: Registry, creator: Pid, pid: Pid, a: Addr, b: Addr, c: Addr)
    requires Intact(r) && Fresh(r, creator, pid, a, b) && Find(r.threadList, creator) == Some(c)
    ensures c in r.threads && |r.threads[c].ppid| == 8 && r.threads[c].pool in r.pools
    ensures var s, pool := Started(r, creator, pid, a, b), r.threads[c].pool;
            && s.threadList == r.threadList + [Item(pid, a)] && s.poolList == r.poolList
            && s.pools == r.pools[pool := Pool(r.pools[pool].pid, r.pools[pool].threadlist + [Item(pid, a)])]
            && s.threads == r.threads[a := Thread(pid, Inherited(creator, r.threads[c].ppid), pool, 0)]
  {
    StartedInside(r, creator, pid, a, b, c);
  }

  /** Its `ppid` is the creator, and then the creator's entries as long as none so far is zero. */
  lemma NewAncestry(r: Registry, creator: Pid, pid: Pid, a: Addr, b: Addr, c: Addr)
    returns (ppid: seq<Pid>, parent: seq<Pid>)
    requires Intact(r) && Fresh(r, creator, pid, a, b) && Find(r.threadList, creator) == Some(c)
    ensures c in r.threads && parent == r.threads[c].ppid && |parent| == 8
    ensures a in Started(r, creator, pid, a, b).threads && ppid == Started(r, creator, pid, a, b).threads[a].ppid
    ensures |ppid| == 8 && ppid[0] == creator
    ensures forall i :: 0 <= i < 7 ==> ppid[i + 1] == if 0 !in parent[..i + 1] then parent[i] else 0
  {
    InsideRecord(r, creator, pid, a, b, c);
    parent := r.threads[c].ppid;
    ppid := Inherited(creator, parent);
    InheritedEntries(creator, parent, ppid);
  }

  /** What a start by any other thread comes to: a pool that lists nobody besides. */
  lemma OutsideRecord(r: Registry, creator: Pid, pid: Pid, a: Addr, b: Addr)
    requires Intact(r) && Fresh(r, creator, pid, a, b) && Find(r.threadList, creator).None?
    ensures var s := Started(r, creator, pid, a, b);
            && s.threadList == r.threadList + [Item(pid, a)] && s.poolList == r.poolList + [Item(pid, b)]
            && s.pools == r.pools[b := Pool(pid, [])]
            && s.threads == r.threads[a := Thread(pid, [creator, 0, 0, 0, 0, 0, 0, 0], b, 0)]
  {
    StartedOutside(r, creator, pid, a, b);
    PaddedOne(creator);
  }

  lemma PaddedOne(creator: Pid)
    ensures Padded([creator]) == [creator, 0, 0, 0, 0, 0, 0, 0]
  {
  }

  lemma OpenedIntact(r: Registry, a: Addr, t: Thread)
    requires Intact(r) && NewRoot(r, a, t) && |t.ppid| == MAX_DEPTH
    ensures Intact(Opened(r, a, t))
  {
    OpenedIndexed(r, a, t);
    OpenedListed(r, a, t);
    OpenedAlive(r, a, t);
  }

  lemma OpenedAlive(r: Registry, a: Addr, t: Thread)
    requires NoDangling(r) && Rooted(r) && NewRoot(r, a, t)
    ensures NoDangling(Opened(r, a, t)) && Rooted(Opened(r, a, t))
  {
    var r' := Opened(r, a, t);
    forall b | b in r'.pools
      ensures exists c :: IsRoot(r', c, b)
    {
      if b == t.pool {
        assert IsRoot(r', a, b);
      } else {
        var c :| IsRoot(r, c, b);
        assert IsRoot(r', c, b);
      }
    }
  }

  lemma StartOutside(r: Registry, h: History, creator: Pid, pid: Pid, a: Addr, b: Addr)
    requires Inv(r, h) && CanStart(r, h, creator, pid, a, b) && creator !in h.line
    ensures Inv(Started(r, creator, pid, a, b), Recorded(h, false, creator, pid))
  {
    PidsAreRegistered(r, h, creator);
    PidsAreRegistered(r, h, pid);
    InvIsIntact(r, h);
    StartedOutside(r, creator, pid, a, b);
    var t := Thread(pid, Padded([creator]), b, 0);
    LineageOpens(r, h, creator, a, t);
    FaithfulOpens(r, h, creator, a, t);
  }

  /** Whoever descends from a root does so through a child of that root. */
  lemma {:induction false} RootHasChild(r: Registry, h: History, t: Pid) returns (child: Pid)
    requires Lineage(r, h) && t in h.line && h.line[t] != []
    ensures child in h.line && h.line[child] != [] && h.line[child][0] == RootOf(h, t)
    decreases |h.line[t]|
  {
    var parent := h.line[t][0];
    if h.line[parent] == [] {
      child := t;
    } else {
      child := RootHasChild(r, h, parent);
    }
  }

  /** The registry without the thread `pid` whose record is at `a`, its pool still in place. */
  function Dropped(r: Registry, pid: Pid, a: Addr): Registry
    requires a in r.threads && r.threads[a].pool in r.pools
  {
    var b := r.threads[a].pool;
    Registry(r.poolList, Remove(r.threadList, pid),
             r.pools[b := r.pools[b].(threadlist := Remove(r.pools[b].threadlist, pid))], r.threads - {a})
  }

  lemma DropIndexed(r: Registry, pid: Pid, a: Addr)
    requires Indexed(r) && a in r.threads && r.threads[a].pid == pid && r.threads[a].pool in r.pools
    ensures Indexed(Dropped(r, pid, a))
  {
    RemoveMember(r.threadList, pid);
    forall c | c in r.threads && c != a
      ensures r.threads[c].pid != pid
    {
      if r.threads[c].pid == pid {
        PidsAreUnique(r, a, c);
      }
    }
  }

  lemma DropListed(r: Registry, pid: Pid, a: Addr)
    requires Indexed(r) && Listed(r) && a in r.threads && r.threads[a].pid == pid && r.threads[a].pool in r.pools
    ensures Listed(Dropped(r, pid, a))
  {
    var r' := Dropped(r, pid, a);
    forall b | b in r'.pools
      ensures Keyed(r'.pools[b].threadlist)
      ensures forall it :: it in r'.pools[b].threadlist <==>
                && it.ext in r'.threads && r'.threads[it.ext].pid == it.data
                && r'.threads[it.ext].pool == b && it.data != r'.pools[b].pid
    {
      RemoveMember(r.pools[b].threadlist, pid);
      forall c | c in r.threads && c != a
        ensures r.threads[c].pid != pid
      {
        if r.threads[c].pid == pid {
          PidsAreUnique(r, a, c);
        }
      }
    }
  }

  lemma LineageDrops(r: Registry, h: History, pid: Pid, a: Addr, r': Registry)
    requires Indexed(r) && Lineage(r, h) && a in r.threads && r.threads[a].pid == pid && CanJoin(h, pid)
    requires r'.threads == r.threads - {a} && r'.threadList == Remove(r.threadList, pid)
    ensures Lineage(r', Forgotten(h, pid))
  {
    var h' := Forgotten(h, pid);
    RemoveMember(r.threadList, pid);
    forall c | c in r'.threads
      ensures r'.threads[c].pid in h'.line
    {
      if r.threads[c].pid == pid {
        PidsAreUnique(r, a, c);
      }
    }
    forall p | p in h'.line
      ensures Find(r'.threadList, p).Some?
    {
      FindMember(r.threadList, p);
      FindMember(r'.threadList, p);
    }
  }

  lemma ForgottenKeeps(h: History, pid: Pid, p: Pid)
    requires p in h.line && p in h.origin && p != pid
    ensures var h' := Forgotten(h, pid);
            p in h'.line && p in h'.origin && Ancestors(h', p) == Ancestors(h, p) && RootOf(h', p) == RootOf(h, p)
  {
  }

  lemma FaithfulDrops(r: Registry, h: History, pid: Pid, a: Addr, r': Registry)
    requires Indexed(r) && NoDangling(r) && Lineage(r, h) && Faithful(r, h)
    requires a in r.threads && r.threads[a].pid == pid
    requires r'.threads == r.threads - {a} && NoDangling(r') && Lineage(r', Forgotten(h, pid))
    requires forall b :: b in r'.pools ==> b in r.pools && r'.pools[b].pid == r.pools[b].pid && r.pools[b].pid != pid
    ensures Faithful(r', Forgotten(h, pid))
  {
    forall c | c in r'.threads
      ensures r'.pools[r'.threads[c].pool].pid == RootOf(Forgotten(h, pid), r'.threads[c].pid)
      ensures r'.threads[c].ppid == Padded(Ancestors(Forgotten(h, pid), r'.threads[c].pid))
    {
      ForgottenKeeps(h, pid, r.threads[c].pid);
    }
    forall b | b in r'.pools
      ensures r'.pools[b].pid in Forgotten(h, pid).line && Forgotten(h, pid).line[r'.pools[b].pid] == []
    {
      ForgottenKeeps(h, pid, r.pools[b].pid);
    }
  }

  /** Only the root of a pool frees it. */
  lemma PoolOfRoot(r: Registry, h: History, pid: Pid, a: Addr)
    requires Inv(r, h) && a in r.threads && r.threads[a].pid == pid
    ensures r.pools[r.threads[a].pool].pid == pid <==> h.line[pid] == []
    ensures h.line[pid] == [] ==> Find(r.poolList, pid) == Some(r.threads[a].pool)
    ensures forall b :: b in r.pools && r.pools[b].pid == pid ==> b == r.threads[a].pool && h.line[pid] == []
  {
    FindMember(r.poolList, pid);
    var b := r.threads[a].pool;
    assert Item(r.pools[b].pid, b) in r.poolList;
    forall c | c in r.pools && r.pools[c].pid == pid
      ensures c == b
    {
      PoolsAreUnique(r, b, c);
    }
  }

  lemma JoinInside(r: Registry, h: History, pid: Pid, a: Addr)
    requires Inv(r, h) && CanJoin(h, pid) && a in r.threads && r.threads[a].pid == pid && h.line[pid] != []
    ensures Inv(Dropped(r, pid, a), Forgotten(h, pid))
  {
    var r' := Dropped(r, pid, a);
    PoolOfRoot(r, h, pid, a);
    DropIndexed(r, pid, a);
    DropListed(r, pid, a);
    LineageDrops(r, h, pid, a, r');
    FaithfulDrops(r, h, pid, a, r');
  }

  lemma ReleaseIndexed(r: Registry, pid: Pid, b: Addr)
    requires Indexed(r) && Listed(r) && b in r.pools && r.pools[b].pid == pid && Find(r.poolList, pid) == Some(b)
    ensures Indexed(Released(r, pid)) && Listed(Released(r, pid))
  {
    RemoveMember(r.poolList, pid);
    forall c | c in r.pools && c != b
      ensures r.pools[c].pid != pid
    {
      if r.pools[c].pid == pid {
        PoolsAreUnique(r, b, c);
      }
    }
  }

  lemma RootIndexed(r: Registry, pid: Pid, a: Addr)
    requires Indexed(r) && Listed(r) && a in r.threads && r.threads[a].pid == pid && r.threads[a].pool in r.pools
    requires r.pools[r.threads[a].pool].pid == pid && Find(r.poolList, pid) == Some(r.threads[a].pool)
    ensures var r' := Released(Dropped(r, pid, a), pid);
            && Indexed(r') && Listed(r')
            && r'.threads == r.threads - {a} && r'.threadList == Remove(r.threadList, pid)
            && r'.pools.Keys == r.pools.Keys - {r.threads[a].pool}
            && forall b :: b in r'.pools ==> r'.pools[b].pid == r.pools[b].pid && r.pools[b].pid != pid
  {
    var b := r.threads[a].pool;
    DropIndexed(r, pid, a);
    DropListed(r, pid, a);
    ReleaseIndexed(Dropped(r, pid, a), pid, b);
    forall c | c in r.pools && c != b
      ensures r.pools[c].pid != pid
    {
      if r.pools[c].pid == pid {
        PoolsAreUnique(r, b, c);
      }
    }
  }

  lemma RootFaithful(r: Registry, h: History, pid: Pid, a: Addr, r': Registry)
    requires Inv(r, h) && CanJoin(h, pid) && a in r.threads && r.threads[a].pid == pid && h.line[pid] == []
    requires r'.threads == r.threads - {a} && r'.threadList == Remove(r.threadList, pid)
    requires r'.pools.Keys == r.pools.Keys - {r.threads[a].pool}
    requires forall b :: b in r'.pools ==> r'.pools[b].pid == r.pools[b].pid && r.pools[b].pid != pid
    ensures NoDangling(r') && Lineage(r', Forgotten(h, pid)) && Faithful(r', Forgotten(h, pid))
  {
    LineageDrops(r, h, pid, a, r');
    PoolUnused(r, h, pid, a);
    FaithfulDrops(r, h, pid, a, r');
  }

  lemma JoinRoot(r: Registry, h: History, pid: Pid, a: Addr)
    requires Inv(r, h) && CanJoin(h, pid) && a in r.threads && r.threads[a].pid == pid && h.line[pid] == []
    ensures Inv(Released(Dropped(r, pid, a), pid), Forgotten(h, pid))
  {
    PoolOfRoot(r, h, pid, a);
    RootIndexed(r, pid, a);
    RootFaithful(r, h, pid, a, Released(Dropped(r, pid, a), pid));
  }

  lemma PoolUnused(r: Registry, h: History, pid: Pid, a: Addr)
    requires Inv(r, h) && CanJoin(h, pid) && a in r.threads && r.threads[a].pid == pid && h.line[pid] == []
    ensures forall c :: c in r.threads && c != a ==> r.threads[c].pool != r.threads[a].pool
  {
    forall c | c in r.threads && c != a
      ensures r.threads[c].pool != r.threads[a].pool
    {
      if r.threads[c].pool == r.threads[a].pool {
        FindMember(r.threadList, pid);
        var child := RootHasChild(r, h, r.threads[c].pid);
      }
    }
  }

  lemma NothingForgotten(h: History, pid: Pid)
    requires pid !in h.line && pid !in h.origin
    ensures Forgotten(h, pid) == h
  {
  }

  /** A join in due order keeps the invariant: in particular it frees no pool that is still referred to. */
  lemma JoinKeepsInv(r: Registry, h: History, pid: Pid)
    requires Inv(r, h) && CanJoin(h, pid)
    ensures Deleted(r, pid).Some? && Inv(Deleted(r, pid).value, Forgotten(h, pid))
  {
    PidsAreRegistered(r, h, pid);
    if pid in h.line {
      var a := Find(r.threadList, pid).value;
      PoolOfRoot(r, h, pid, a);
      if h.line[pid] == [] {
        JoinRoot(r, h, pid, a);
      } else {
        JoinInside(r, h, pid, a);
      }
    } else {
      NothingForgotten(h, pid);
    }
  }

  /** The pool of a root has an empty list exactly if nobody else refers to it. */
  lemma EmptyListIsUnused(r: Registry, a: Addr)
    requires Indexed(r) && NoDangling(r) && Listed(r) && a in r.threads
             && r.pools[r.threads[a].pool].pid == r.threads[a].pid
    ensures var b := r.threads[a].pool;
            r.pools[b].threadlist == [] <==> forall c :: c in r.threads && c != a ==> r.threads[c].pool != b
  {
    var b := r.threads[a].pool;
    var list := r.pools[b].threadlist;
    forall c | c in r.threads && c != a
      ensures r.threads[c].pool == b ==> Item(r.threads[c].pid, c) in list
    {
      PidsDiffer(r, a, c);
    }
    if list != [] {
      assert list[0] in list;
    }
  }

  lemma DeletedCases(r: Registry, pid: Pid, a: Addr)
    requires Indexed(r) && NoDangling(r) && Find(r.threadList, pid) == Some(a) && a in r.threads
    ensures var d := Dropped(r, pid, a);
            Deleted(r, pid) == Some(if r.pools[r.threads[a].pool].pid == pid then Released(d, pid) else d)
  {
  }

  lemma ReleaseDangles(r: Registry, pid: Pid, a: Addr)
    requires Indexed(r) && NoDangling(r) && a in r.threads && Find(r.poolList, pid) == Some(r.threads[a].pool)
    ensures NoDangling(Dropped(r, pid, a))
    ensures NoDangling(Released(Dropped(r, pid, a), pid))
            <==> forall c :: c in r.threads && c != a ==> r.threads[c].pool != r.threads[a].pool
  {
    var left := Released(Dropped(r, pid, a), pid);
    assert left.pools.Keys == r.pools.Keys - {r.threads[a].pool} && left.threads == r.threads - {a};
    forall c | c in r.threads && c != a
      ensures c in left.threads && left.threads[c] == r.threads[c]
    {
    }
  }

  /** A join that comes before those of all threads in the pool of the joined one. */
  ghost predicate Premature(r: Registry, pid: Pid) {
    var self := Find(r.threadList, pid);
    && self.Some? && self.value in r.threads && r.threads[self.value].pool in r.pools
    && var pool := r.pools[r.threads[self.value].pool]; pool.pid == pid && pool.threadlist != []
  }

  /** Whatever the order of joins so far, the thread that is joined leaves a dangling pool behind exactly if
      it is the root of a pool whose list is not yet empty. */
  lemma JoinIsSafeIff(r: Registry, pid: Pid, a: Addr)
    requires Indexed(r) && NoDangling(r) && Listed(r) && Find(r.threadList, pid) == Some(a)
    ensures a in r.threads && Deleted(r, pid).Some?
    ensures NoDangling(Deleted(r, pid).value) <==> !Premature(r, pid)
  {
    FindMember(r.threadList, pid);
    FindMember(r.poolList, pid);
    DeletedCases(r, pid, a);
    if r.pools[r.threads[a].pool].pid == pid {
      EmptyListIsUnused(r, a);
      ReleaseDangles(r, pid, a);
    } else {
      assert NoDangling(Dropped(r, pid, a));
    }
  }

  lemma RootIsUnique(r: Registry, pid: Pid, a: Addr, b: Addr)
    requires Indexed(r) && Rooted(r) && a in r.threads && r.threads[a].pid == pid && b in r.pools
             && r.pools[b].pid == pid
    ensures r.threads[a].pool == b
  {
    var c :| IsRoot(r, c, b);
    PidsAreUnique(r, a, c);
  }

  /** Without the thread at `a`, all pools have a root but its own. */
  lemma OthersStayRooted(r: Registry, pid: Pid, a: Addr, r': Registry)
    requires Indexed(r) && Rooted(r) && a in r.threads && r.threads[a].pid == pid
    requires r'.threads == r.threads - {a}
    requires forall b :: b in r'.pools ==> b in r.pools && r'.pools[b].pid == r.pools[b].pid && r.pools[b].pid != pid
    ensures Rooted(r')
  {
    forall b | b in r'.pools
      ensures exists c :: IsRoot(r', c, b)
    {
      var c :| IsRoot(r, c, b);
      assert IsRoot(r', c, b);
    }
  }

  lemma DropIntact(r: Registry, pid: Pid, a: Addr)
    requires Intact(r) && a in r.threads && r.threads[a].pid == pid && r.pools[r.threads[a].pool].pid != pid
    ensures Intact(Dropped(r, pid, a))
  {
    DropIndexed(r, pid, a);
    DropListed(r, pid, a);
    var r' := Dropped(r, pid, a);
    forall b | b in r'.pools
      ensures b in r.pools && r'.pools[b].pid == r.pools[b].pid && r.pools[b].pid != pid
    {
      if r.pools[b].pid == pid {
        RootIsUnique(r, pid, a, b);
      }
    }
    OthersStayRooted(r, pid, a, r');
  }

  lemma ReleaseIntact(r: Registry, pid: Pid, a: Addr)
    requires Intact(r) && a in r.threads && r.threads[a].pid == pid && r.pools[r.threads[a].pool].pid == pid
    requires Find(r.poolList, pid) == Some(r.threads[a].pool) && NoDangling(Released(Dropped(r, pid, a), pid))
    ensures Intact(Released(Dropped(r, pid, a), pid))
  {
    RootIndexed(r, pid, a);
    OthersStayRooted(r, pid, a, Released(Dropped(r, pid, a), pid));
  }

  /** A join that is not premature keeps the registry intact. */
  /** What a join comes to: the record goes, the lists lose the thread and keep all others, and only the pool of
      a root is freed. */
  lemma JoinDrops(r: Registry, pid: Pid, a: Addr)
    requires Intact(r) && Find(r.threadList, pid) == Some(a)
    ensures a in r.threads && r.threads[a].pool in r.pools && Deleted(r, pid).Some?
    ensures var s, b := Deleted(r, pid).value, r.threads[a].pool;
            && s.threads == r.threads - {a}
            && (forall it :: it in s.threadList <==> it in r.threadList && it.data != pid)
            && s.pools.Keys == (if r.pools[b].pid == pid then r.pools.Keys - {b} else r.pools.Keys)
            && (forall c :: c in s.pools && c != b ==> s.pools[c] == r.pools[c])
            && (b in s.pools ==>
                  && s.pools[b].pid == r.pools[b].pid
                  && forall it :: it in s.pools[b].threadlist <==> it in r.pools[b].threadlist && it.data != pid)
  {
    FindMember(r.threadList, pid);
    FindMember(r.poolList, pid);
    DeletedCases(r, pid, a);
    DroppedParts(r, pid, a);
  }

  lemma DroppedParts(r: Registry, pid: Pid, a: Addr)
    requires Indexed(r) && Listed(r) && a in r.threads && r.threads[a].pool in r.pools
    ensures var s, b := Dropped(r, pid, a), r.threads[a].pool;
            && (forall it :: it in s.threadList <==> it in r.threadList && it.data != pid)
            && s.pools.Keys == r.pools.Keys && s.pools[b].pid == r.pools[b].pid
            && (forall it :: it in s.pools[b].threadlist <==> it in r.pools[b].threadlist && it.data != pid)
  {
    RemoveMember(r.threadList, pid);
    RemoveMember(r.pools[r.threads[a].pool].threadlist, pid);
  }

  lemma JoinKeepsIntact(r: Registry, pid: Pid)
    requires Intact(r) && !Premature(r, pid)
    ensures Deleted(r, pid).Some? && Intact(Deleted(r, pid).value)
  {
    FindMember(r.threadList, pid);
    if Find(r.threadList, pid).Some? {
      var a := Find(r.threadList, pid).value;
      JoinIsSafeIff(r, pid, a);
      DeletedCases(r, pid, a);
      if r.pools[r.threads[a].pool].pid == pid {
        FindMember(r.poolList, pid);
        ReleaseIntact(r, pid, a);
      } else {
        DropIntact(r, pid, a);
      }
    }
  }

  lemma PidsDiffer(r: Registry, a: Addr, c: Addr)
    requires Indexed(r) && a in r.threads && c in r.threads && a != c
    ensures r.threads[a].pid != r.threads[c].pid
  {
  }

  datatype World = World(r: Registry, h: History)

  datatype Event =
    | Start(creator: Pid, pid: Pid, a: Addr, b: Addr)
    | Join(pid: Pid)
    | Cancel(pid: Pid, flag: int, allThreads: bool)
    | Sleep(pid: Pid)

  /** The thread at `a` is `pid`, or it is in the list of the pool that `pid` is the root of. */
  ghost predicate Targeted(r: Registry, pid: Pid, allThreads: bool, a: Addr)
    requires Indexed(r) && NoDangling(r)
  {
    FindMember(r.threadList, pid);
    var self := Find(r.threadList, pid);
    && self.Some?
    && (a == self.value
        || (allThreads && var pool := r.pools[r.threads[self.value].pool];
                          pool.pid == pid && exists it :: it in pool.threadlist && it.ext == a))
  }

  /** `amthreadpool_pool_thread_cancel_l1`. */
  ghost function Cancelled(r: Registry, pid: Pid, flag: int, allThreads: bool): Registry
    requires Indexed(r) && NoDangling(r)
  {
    r.(threads := map a | a in r.threads :: if Targeted(r, pid, allThreads, a) then r.threads[a].(onExit := flag)
       else r.threads[a])
  }

  /** Going to sleep counts a pending cancel down, but never below 1. */
  function Slept(r: Registry, pid: Pid): Registry
    requires Indexed(r)
  {
    FindMember(r.threadList, pid);
    match Find(r.threadList, pid)
    case None => r
    case Some(a) =>
      if r.threads[a].onExit > 1 then r.(threads := r.threads[a := r.threads[a].(onExit := r.threads[a].onExit - 1)])
         else r
  }

  ghost predicate Enabled(w: World, e: Event) {
    match e
    case Start(creator, pid, a, b) => CanStart(w.r, w.h, creator, pid, a, b)
    case Join(pid) => CanJoin(w.h, pid)
    case _ => true
  }

  ghost function Step(w: World, e: Event): World
    requires Inv(w.r, w.h) && Enabled(w, e)
  {
    match e
    case Start(creator, pid, a, b) =>
      World(Started(w.r, creator, pid, a, b), Recorded(w.h, creator in w.h.line, creator, pid))
    case Join(pid) =>
      JoinKeepsInv(w.r, w.h, pid);
      World(Deleted(w.r, pid).value, Forgotten(w.h, pid))
    case Cancel(pid, flag, allThreads) => w.(r := Cancelled(w.r, pid, flag, allThreads))
    case Sleep(pid) => w.(r := Slept(w.r, pid))
  }

  /** Registries that differ in cancel flags only. */
  ghost predicate SameButFlags(r: Registry, s: Registry) {
    && r.poolList == s.poolList && r.threadList == s.threadList && r.pools == s.pools
    && r.threads.Keys == s.threads.Keys
    && forall a :: a in r.threads ==> r.threads[a].(onExit := 0) == s.threads[a].(onExit := 0)
  }

  lemma FlagsAreIrrelevant(r: Registry, s: Registry, h: History)
    requires Inv(r, h) && SameButFlags(r, s)
    ensures Inv(s, h)
  {
  }

  lemma StartKeepsInv(r: Registry, h: History, creator: Pid, pid: Pid, a: Addr, b: Addr)
    requires Inv(r, h) && CanStart(r, h, creator, pid, a, b)
    ensures Inv(Started(r, creator, pid, a, b), Recorded(h, creator in h.line, creator, pid))
  {
    if creator in h.line {
      StartInside(r, h, creator, pid, a, b);
    } else {
      StartOutside(r, h, creator, pid, a, b);
    }
  }

  lemma SleepKeepsInv(r: Registry, h: History, pid: Pid)
    requires Inv(r, h)
    ensures Inv(Slept(r, pid), h)
  {
    FindMember(r.threadList, pid);
    FlagsAreIrrelevant(r, Slept(r, pid), h);
  }

  lemma CancelKeepsInv(r: Registry, h: History, pid: Pid, flag: int, allThreads: bool)
    requires Inv(r, h)
    ensures Inv(Cancelled(r, pid, flag, allThreads), h)
  {
    FlagsAreIrrelevant(r, Cancelled(r, pid, flag, allThreads), h);
  }

  lemma StepKeepsInv(w: World, e: Event)
    requires Inv(w.r, w.h) && Enabled(w, e)
    ensures Inv(Step(w, e).r, Step(w, e).h)
  {
    match e
    case Start(creator, pid, a, b) => StartKeepsInv(w.r, w.h, creator, pid, a, b);
    case Join(pid) => JoinKeepsInv(w.r, w.h, pid);
    case Cancel(pid, flag, allThreads) => CancelKeepsInv(w.r, w.h, pid, flag, allThreads);
    case Sleep(pid) => SleepKeepsInv(w.r, w.h, pid);
  }

  /** The world after a run of events, if each was possible in its turn. */
  ghost function Run(events: seq<Event>): (w: Option<World>)
    ensures w.Some? ==> Inv(w.value.r, w.value.h)
  {
    if events == [] then Some(World(Registry([], [], map[], map[]), History(map[], map[]))) else
    var before := Run(events[..|events| - 1]);
    var e := events[|events| - 1];
    if before.Some? && Enabled(before.value, e) then
      StepKeepsInv(before.value, e);
      Some(Step(before.value, e))
    else None
  }

  lemma StartKeepsIntact(r: Registry, creator: Pid, pid: Pid, a: Addr, b: Addr)
    requires Intact(r) && Fresh(r, creator, pid, a, b)
    ensures Intact(Started(r, creator, pid, a, b))
  {
    match Find(r.threadList, creator)
    case Some(c) => StartedInside(r, creator, pid, a, b, c);
    case None => StartedOutside(r, creator, pid, a, b);
  }

  lemma FlagsKeepIntact(r: Registry, s: Registry)
    requires Intact(r) && SameButFlags(r, s)
    ensures Intact(s)
  {
    FlagsKeepRoots(r, s);
  }

  lemma FlagsKeepRoots(r: Registry, s: Registry)
    requires Rooted(r) && SameButFlags(r, s)
    ensures Rooted(s)
  {
    forall b | b in s.pools
      ensures exists a :: IsRoot(s, a, b)
    {
      var a :| IsRoot(r, a, b);
      assert r.threads[a].(onExit := 0) == s.threads[a].(onExit := 0);
      assert IsRoot(s, a, b);
    }
  }

  ghost predicate Possible(r: Registry, e: Event) {
    e.Start? ==> Fresh(r, e.creator, e.pid, e.a, e.b)
  }

  /** One event, whatever the order of joins. */
  ghost function Next(r: Registry, e: Event): Registry
    requires Intact(r) && Possible(r, e)
  {
    match e
    case Start(creator, pid, a, b) => Started(r, creator, pid, a, b)
    case Join(pid) =>
      FindMember(r.threadList, pid);
      Deleted(r, pid).value
    case Cancel(pid, flag, allThreads) => Cancelled(r, pid, flag, allThreads)
    case Sleep(pid) => Slept(r, pid)
  }

  lemma NextIsIntactIff(r: Registry, e: Event)
    requires Intact(r) && Possible(r, e)
    ensures e.Join? && Premature(r, e.pid) ==> !NoDangling(Next(r, e))
    ensures !(e.Join? && Premature(r, e.pid)) ==> Intact(Next(r, e))
  {
    match e
    case Start(creator, pid, a, b) => StartKeepsIntact(r, creator, pid, a, b);
    case Join(pid) =>
      if Premature(r, pid) {
        JoinIsSafeIff(r, pid, Find(r.threadList, pid).value);
      } else {
        JoinKeepsIntact(r, pid);
      }
    case Cancel(pid, flag, allThreads) => CancelKeepsIntact(r, pid, flag, allThreads);
    case Sleep(pid) => SleepKeepsIntact(r, pid);
  }

  lemma CancelKeepsIntact(r: Registry, pid: Pid, flag: int, allThreads: bool)
    requires Intact(r)
    ensures Intact(Cancelled(r, pid, flag, allThreads))
  {
    FlagsKeepIntact(r, Cancelled(r, pid, flag, allThreads));
  }

  lemma SleepKeepsIntact(r: Registry, pid: Pid)
    requires Intact(r)
    ensures Intact(Slept(r, pid))
  {
    FindMember(r.threadList, pid);
    FlagsKeepIntact(r, Slept(r, pid));
  }

  /** The registry after a run with joins in any order. It is left as it is once a thread refers to a freed
      pool: the C code has no defined behaviour from there on. */
  ghost function AnyOrder(events: seq<Event>): (r: Option<Registry>)
    ensures r.Some? && NoDangling(r.value) ==> Intact(r.value)
  {
    if events == [] then Some(Registry([], [], map[], map[])) else
    var before := AnyOrder(events[..|events| - 1]);
    var e := events[|events| - 1];
    if before.None? || !NoDangling(before.value) then before
    else if Possible(before.value, e) then
      NextIsIntactIff(before.value, e);
      Some(Next(before.value, e))
    else None
  }

  /** Where in a run a root is joined while its pool still lists a thread. */
  ghost function PrematureJoins(events: seq<Event>): set<nat> {
    if events == [] then {} else
    var n := |events| - 1;
    PrematureJoins(events[..n]) + if TooEarly(AnyOrder(events[..n]), events[n]) then {n} else {}
  }

  ghost predicate TooEarly(r: Option<Registry>, e: Event) {
    r.Some? && e.Join? && Premature(r.value, e.pid)
  }

  /** Over any run, no thread ever refers to a freed pool exactly if there is no such join. */
  lemma {:induction false} NeverDanglesIff(events: seq<Event>)
    requires AnyOrder(events).Some?
    ensures NoDangling(AnyOrder(events).value) <==> PrematureJoins(events) == {}
  {
    if events != [] {
      var n := |events| - 1;
      LastEvent(events);
      NeverDanglesIff(events[..n]);
      assert TooEarly(AnyOrder(events[..n]), events[n]) ==> n in PrematureJoins(events);
    }
  }

  lemma LastEvent(events: seq<Event>)
    requires events != [] && AnyOrder(events).Some?
    ensures var n := |events| - 1;
            var before := AnyOrder(events[..n]);
            && before.Some?
            && (NoDangling(AnyOrder(events).value) <==> NoDangling(before.value) && !TooEarly(before, events[n]))
  {
    var n := |events| - 1;
    var r := AnyOrder(events[..n]).value;
    if NoDangling(r) {
      NextIsIntactIff(r, events[n]);
    }
  }

  /** A run with joins in due order is one of these, and in it none comes too early. */
  lemma {:induction false} DueOrderIsSafe(events: seq<Event>)
    requires Run(events).Some?
    ensures AnyOrder(events) == Some(Run(events).value.r) && PrematureJoins(events) == {}
  {
    if events != [] {
      var before := events[..|events| - 1];
      DueOrderIsSafe(before);
      var w := Run(before).value;
      InvIsIntact(w.r, w.h);
      DueStep(w, events[|events| - 1]);
    }
    NeverDanglesIff(events);
  }

  lemma DueStep(w: World, e: Event)
    requires Inv(w.r, w.h) && Intact(w.r) && Enabled(w, e)
    ensures Possible(w.r, e) && Next(w.r, e) == Step(w, e).r
  {
    if e.Start? {
      PidsAreRegistered(w.r, w.h, e.pid);
    }
  }

  /** A root is a registered creator of exactly those that lead back to it. */
  lemma {:induction false} RootInLine(r: Registry, h: History, root: Pid, t: Pid)
    requires Lineage(r, h) && root in h.line && h.line[root] == [] && t in h.line
    ensures root in h.line[t] <==> t != root && RootOf(h, t) == root
    decreases |h.line[t]|
  {
    if h.line[t] != [] {
      RootInLine(r, h, root, h.line[t][0]);
    }
  }

  /** Each registered root owns exactly one pool, which lists exactly its registered descendants. */
  lemma PoolListsDescendants(r: Registry, h: History, root: Pid) returns (b: Addr)
    requires Inv(r, h) && root in h.line && h.line[root] == []
    ensures b in r.pools && r.pools[b].pid == root && forall c :: c in r.pools && r.pools[c].pid == root ==> c == b
    ensures forall t :: Find(r.pools[b].threadlist, t).Some? <==> t in h.line && root in h.line[t]
  {
    PidsAreRegistered(r, h, root);
    var a := Find(r.threadList, root).value;
    b := r.threads[a].pool;
    PoolOfRoot(r, h, root, a);
    var list := r.pools[b].threadlist;
    forall t
      ensures Find(list, t).Some? <==> t in h.line && root in h.line[t]
    {
      FindMember(list, t);
      PidsAreRegistered(r, h, t);
      if t in h.line {
        RootInLine(r, h, root, t);
        var c := Find(r.threadList, t).value;
        if RootOf(h, t) == root {
          PoolsAreUnique(r, b, r.threads[c].pool);
        }
        assert Item(t, c) in list <==> r.threads[c].pool == b && t != root;
        forall it | it in list && it.data == t
          ensures it == Item(t, c)
        {
          PidsAreUnique(r, it.ext, c);
        }
      }
    }
  }

  /** The registry over any run in which every thread is joined only after those it created. */
  lemma RegistryIsSafe(events: seq<Event>)
    requires Run(events).Some?
    ensures var r, h := Run(events).value.r, Run(events).value.h;
            && NoDangling(r) && Lineage(r, h)
            // `ppid` holds the nearest eight creators, and zeros if there are fewer
            && (forall a :: a in r.threads ==>
                  && |r.threads[a].ppid| == 8
                  && var chain := h.line[r.threads[a].pid] + [h.origin[r.threads[a].pid]];
                     forall i :: 0 <= i < 8 ==> r.threads[a].ppid[i] == if i < |chain| then chain[i] else 0)
            && (forall b :: b in r.pools ==> r.pools[b].pid in h.line && h.line[r.pools[b].pid] == [])
            && (forall root :: root in h.line && h.line[root] == [] ==>
                  exists b :: b in r.pools && r.pools[b].pid == root
                              && forall t :: Find(r.pools[b].threadlist, t).Some? <==> t in h.line && root in h.line[t])
  {
    var r, h := Run(events).value.r, Run(events).value.h;
    forall root | root in h.line && h.line[root] == []
      ensures exists b :: b in r.pools && r.pools[b].pid == root
                && forall t :: Find(r.pools[b].threadlist, t).Some? <==> t in h.line && root in h.line[t]
    {
      var b := PoolListsDescendants(r, h, root);
    }
  }

  lemma RunNext(events: seq<Event>, e: Event, w: World)
    requires Run(events) == Some(w) && Enabled(w, e)
    ensures Run(events + [e]) == Some(Step(w, e))
  {
    assert (events + [e])[..|events|] == events;
  }

  /** The registry with one root, thread 2, created by thread 1 from outside. */
  function OneRoot(): World {
    World(Registry([Item(2, 20)], [Item(2, 10)], map[20 := Pool(2, [])], map[10 := Thread(2, Padded([1]), 20, 0)]),
          History(map[2 := []], map[2 := 1]))
  }

  lemma OneRootIsReached()
    ensures Run([Start(1, 2, 10, 20)]) == Some(OneRoot())
  {
    var w := Run([]).value;
    RunNext([], Start(1, 2, 10, 20), w);
    assert [] + [Start(1, 2, 10, 20)] == [Start(1, 2, 10, 20)];
    var s := Step(w, Start(1, 2, 10, 20));
    assert s.r.poolList == [Item(2, 20)] && s.r.threadList == [Item(2, 10)];
    assert s.r.pools == map[20 := Pool(2, [])];
    assert s.r.threads == map[10 := Thread(2, Padded([1]), 20, 0)];
    assert s.h.line == map[2 := []] && s.h.origin == map[2 := 1];
  }

  lemma ChildOfOneRoot(r: Registry)
    requires r == OneRoot().r && Indexed(r) && NoDangling(r)
    ensures var s := Started(r, 2, 3, 11, 21);
            && Find(s.threadList, 2) == Some(10) && 10 in s.threads && s.threads[10].pool == 20
            && 20 in s.pools && s.pools[20] == Pool(2, [Item(3, 11)])
  {
  }

  /** Out of order, a root that is joined before its child leaves the child with a freed pool. */
  lemma OutOfOrderJoinDangles() returns (events: seq<Event>, root: Pid)
    ensures Run(events).Some?
    ensures var r := Run(events).value.r; Deleted(r, root).Some? && !NoDangling(Deleted(r, root).value)
  {
    OneRootIsReached();
    RunNext([Start(1, 2, 10, 20)], Start(2, 3, 11, 21), OneRoot());
    events := [Start(1, 2, 10, 20)] + [Start(2, 3, 11, 21)];
    root := 2;
    ChildOfOneRoot(OneRoot().r);
    var w := Run(events).value;
    JoinIsSafeIff(w.r, root, 10);
  }

  /** Cancelling all threads of a root reaches it and its registered descendants, and nobody else; cancelling
      one thread, or all of a thread that is no root, reaches that thread only. */
  lemma CancelReaches(r: Registry, h: History, pid: Pid, flag: int, allThreads: bool, c: Addr)
    requires Inv(r, h) && pid in h.line && c in r.threads
    ensures var t := r.threads[c].pid;
            var reached := t == pid || (allThreads && h.line[pid] == [] && pid in h.line[t]);
            Cancelled(r, pid, flag, allThreads).threads[c] == if reached then r.threads[c].(onExit := flag)
              else r.threads[c]
  {
    PidsAreRegistered(r, h, pid);
    var a := Find(r.threadList, pid).value;
    PoolOfRoot(r, h, pid, a);
    var t := r.threads[c].pid;
    if h.line[pid] == [] {
      RootInLine(r, h, pid, t);
      var list := r.pools[r.threads[a].pool].threadlist;
      if RootOf(h, t) == pid {
        PoolsAreUnique(r, r.threads[a].pool, r.threads[c].pool);
      }
      assert Item(t, c) in list <==> r.threads[c].pool == r.threads[a].pool && t != pid;
    }
    if a != c {
      PidsDiffer(r, a, c);
    }
  }

  lemma StartedKeepsRecords(r: Registry, creator: Pid, pid: Pid, a: Addr, b: Addr, c: Addr)
    requires Indexed(r) && NoDangling(r) && (forall x :: x in r.threads ==> |r.threads[x].ppid| == MAX_DEPTH)
    requires a !in r.threads && c in r.threads
    ensures c in Started(r, creator, pid, a, b).threads && Started(r, creator, pid, a, b).threads[c] == r.threads[c]
  {
  }

  lemma DeletedKeepsRecords(r: Registry, pid: Pid, c: Addr)
    requires Indexed(r) && Deleted(r, pid).Some?
    ensures c in Deleted(r, pid).value.threads ==> c in r.threads && Deleted(r, pid).value.threads[c] == r.threads[c]
  {
  }

  /** A sleep touches the flag of the sleeping thread only. */
  lemma SleptCountsDown(r: Registry, pid: Pid, a: Addr)
    requires Indexed(r) && a in r.threads
    ensures Slept(r, pid).threads.Keys == r.threads.Keys
    ensures Slept(r, pid).threads[a]
            == if r.threads[a].pid == pid && r.threads[a].onExit > 1
               then r.threads[a].(onExit := r.threads[a].onExit - 1)
               else r.threads[a]
    ensures Slept(r, pid).pools == r.pools && Slept(r, pid).threadList == r.threadList
    ensures Slept(r, pid).poolList == r.poolList
  {
    FindMember(r.threadList, pid);
  }

  lemma SleptStaysCancelled(r: Registry, pid: Pid, c: Addr)
    requires Indexed(r) && c in r.threads && r.threads[c].onExit >= 1
    ensures c in Slept(r, pid).threads && Slept(r, pid).threads[c].onExit >= 1
  {
  }

  /** A pending cancel is only ever withdrawn by cancelling with flag 0: no sleep forgets it. */
  lemma CancelPersists(w: World, e: Event, a: Addr)
    requires Inv(w.r, w.h) && Enabled(w, e) && a in w.r.threads && w.r.threads[a].onExit >= 1
    requires e.Cancel? ==> e.flag >= 1
    ensures a in Step(w, e).r.threads ==> Step(w, e).r.threads[a].onExit >= 1
  {
    match e
    case Start(creator, pid, b, c) => StartedKeepsRecords(w.r, creator, pid, b, c, a);
    case Join(pid) =>
      JoinKeepsInv(w.r, w.h, pid);
      DeletedKeepsRecords(w.r, pid, a);
    case Cancel(_, _, _) =>
    case Sleep(pid) => SleptStaysCancelled(w.r, pid, a);
  }
}
