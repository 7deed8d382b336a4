/** The proxy's cache on values: a table of page copies and a queue of page owners, changed by critical sections that
    any number of connections run in any order, so that even several of them may have missed the same host. */
module CacheSpec {
  import opened PQueueSpec
  import opened HashMap

  const CACHE_SIZE: nat := 30

  /** A page; its message is a buffer of its own on the heap. */
  datatype CachePage = CachePage(timesUsed: int, host: Key, messageSize: nat, message: nat)

  /** What a host answered. */
  type Answer = seq<nat>

  /** `pages` and `messages` are what is allocated: pages of the queue, and those that connections still prepare. */
  datatype State = State(table: map<Key, CachePage>, queue: seq<Elem>, currCacheSize: nat,
                         pages: map<nat, CachePage>, messages: map<nat, Answer>)

  const Empty: State := State(map[], [], 0, map[], map[])

  // ---------- What the cache keeps ----------

  ghost predicate PagesOwnMessages(st: State) {
    && (forall p <- st.pages :: st.pages[p].message in st.messages)
    && (forall p <- st.pages ::
          st.pages[p].messageSize == |st.messages[st.pages[p].message]| && st.pages[p].timesUsed == 1)
    && (forall p, q :: p in st.pages && q in st.pages && st.pages[p].message == st.pages[q].message ==> p == q)
    && (forall m <- st.messages :: exists p :: p in st.pages && st.pages[p].message == m)
  }

  ghost predicate QueueOfPages(queue: seq<Elem>, pages: map<nat, CachePage>) {
    && (forall i :: 0 <= i < |queue| ==> queue[i].page in pages && queue[i].priority == 1)
    && (forall i, j :: 0 <= i < j < |queue| ==> queue[i].page != queue[j].page)
  }

  /** Slot `i` of the queue owns the message that the table has for the host. */
  ghost predicate Owns(st: State, i: nat, host: Key)
    requires host in st.table
  {
    && i < |st.queue| && st.queue[i].page in st.pages
    && var page := st.pages[st.queue[i].page];
      page.host == host && page.message == st.table[host].message && page.messageSize == st.table[host].messageSize
  }

  ghost predicate TableOfQueued(st: State) {
    forall host <- st.table :: exists i :: Owns(st, i, host)
  }

  ghost predicate Agrees(st: State) {
    && st.currCacheSize == |st.queue| <= CACHE_SIZE
    && PagesOwnMessages(st) && QueueOfPages(st.queue, st.pages) && TableOfQueued(st)
  }

  // ---------- The critical sections ----------

  /** A connection that looked its host up; if it was there and could be sent, the table's copy counts the use. */
  function Serve(st: State, host: Key, sent: bool): State {
    if host in st.table && sent
    then st.(table := st.table[host := st.table[host].(timesUsed := st.table[host].timesUsed + 1)])
    else st
  }

  /** What a connection with a hit sends. */
  function Reply(st: State, host: Key): (answer: Answer)
    requires Agrees(st) && host in st.table
    ensures exists i: nat :: Owns(st, i, host) && answer == st.messages[st.pages[st.queue[i].page].message]
  {
    assert exists i :: Owns(st, i, host);
    st.messages[st.table[host].message][..st.table[host].messageSize]
  }

  /** A connection with a miss has the host's whole answer, at a newly allocated buffer and page. */
  function Prepare(st: State, host: Key, answer: Answer, page: nat, message: nat): State {
    st.(pages := st.pages[page := CachePage(1, host, |answer|, message)], messages := st.messages[message := answer])
  }

  /** A full cache gives up the page that its queue hands out: with its message and whatever the table has for its
      host. */
  function Evict(st: State): State
    requires |st.queue| > 0 && st.queue[0].page in st.pages && st.currCacheSize > 0
  {
    var victim := st.queue[0].page;
    var page := st.pages[victim];
    State(st.table - {page.host}, Rest(st.queue), st.currCacheSize - 1,
          st.pages - {victim}, st.messages - {page.message})
  }

  function Insert(st: State, p: nat): State
    requires p in st.pages
  {
    var page := st.pages[p];
    st.(table := st.table[page.host := page],
        queue := Enqueue(st.queue, CACHE_SIZE, Elem(page.timesUsed, p)),
        currCacheSize := st.currCacheSize + 1)
  }

  /** A page that is prepared and not in the queue: no other connection knows it. */
  predicate Private(st: State, p: nat) {
    p in st.pages && forall i :: 0 <= i < |st.queue| ==> st.queue[i].page != p
  }

  /** The connection puts its page into the cache. */
  function Commit(st: State, p: nat): State
    requires Agrees(st) && Private(st, p)
  {
    if st.currCacheSize == CACHE_SIZE then Insert(Evict(st), p) else Insert(st, p)
  }

  // ---------- The queue among pages used once ----------

  /** Copies count the hits, so every page in the queue keeps the priority it came with, and nothing ever moves up or
      down. */
  lemma EqualPriorities(q: seq<Elem>, x: Elem)
    requires forall i :: 0 <= i < |q| ==> q[i].priority == x.priority
    ensures |q| < CACHE_SIZE ==> Enqueue(q, CACHE_SIZE, x) == q + [x]
    ensures |q| == 1 ==> Rest(q) == []
    ensures |q| > 1 ==> Rest(q) == [q[|q| - 1]] + q[1..|q| - 1]
  {
    var n := |q|;
    if n > 1 {
      var moved := q[0 := q[n - 1]][..n - 1];
      assert moved == [q[n - 1]] + q[1..n - 1];
      assert Largest(moved, 0) == 0;
    }
  }

  lemma EvictedQueue(st: State)
    requires Agrees(st) && st.currCacheSize == CACHE_SIZE
    ensures Evict(st).queue == [st.queue[29]] + st.queue[1..29]
  {
    EqualPriorities(st.queue, st.queue[0]);
  }

  // ---------- The agreement is kept ----------

  /** What is left when slot 0 goes is in slots 1 to 29, the last of them moved to slot 0. */
  function MovedSlot(i: nat): nat {
    if i == 29 then 0 else i
  }

  lemma EvictKeepsMessages(st: State)
    requires Agrees(st) && st.currCacheSize == CACHE_SIZE
    ensures PagesOwnMessages(Evict(st))
  {
    var e, victim := Evict(st), st.queue[0].page;
    hide Rest, TableOfQueued, QueueOfPages;
    forall m <- e.messages ensures exists p :: p in e.pages && e.pages[p].message == m {
      var p :| p in st.pages && st.pages[p].message == m;
      assert p in e.pages && e.pages[p].message == m;
    }
  }

  lemma EvictKeepsQueue(st: State)
    requires Agrees(st) && st.currCacheSize == CACHE_SIZE
    ensures QueueOfPages(Evict(st).queue, Evict(st).pages)
  {
    EvictedQueue(st);
    hide Rest, TableOfQueued, PagesOwnMessages;
    var q, e := st.queue, Evict(st).queue;
    assert forall i :: 0 <= i < 29 ==> e[i] == q[if i == 0 then 29 else i];
  }

  lemma EvictKeepsTable(st: State)
    requires Agrees(st) && st.currCacheSize == CACHE_SIZE
    ensures TableOfQueued(Evict(st))
  {
    EvictedQueue(st);
    hide Rest, PagesOwnMessages;
    var e := Evict(st);
    forall host <- e.table ensures exists i :: Owns(e, i, host) {
      var i: nat :| Owns(st, i, host);
      assert i > 0;
      assert e.queue[MovedSlot(i)] == st.queue[i];
      assert Owns(e, MovedSlot(i), host);
    }
  }

  lemma EvictKeeps(st: State)
    requires Agrees(st) && st.currCacheSize == CACHE_SIZE
    ensures Agrees(Evict(st)) && Evict(st).currCacheSize == CACHE_SIZE - 1
  {
    EvictKeepsMessages(st);
    EvictKeepsQueue(st);
    EvictKeepsTable(st);
    hide PagesOwnMessages, QueueOfPages, TableOfQueued, Rest;
  }

  lemma InsertKeeps(st: State, p: nat)
    requires Agrees(st) && st.currCacheSize < CACHE_SIZE && Private(st, p)
    ensures Agrees(Insert(st, p)) && Insert(st, p).queue == st.queue + [Elem(1, p)]
  {
    EqualPriorities(st.queue, Elem(1, p));
    var e := Insert(st, p);
    hide Enqueue;
    forall host <- e.table ensures exists i :: Owns(e, i, host) {
      if host == st.pages[p].host {
        assert Owns(e, |st.queue|, host);
      } else {
        var i: nat :| Owns(st, i, host);
        assert Owns(e, i, host);
      }
    }
  }

  lemma EvictLeavesPrivate(st: State, p: nat)
    requires Agrees(st) && st.currCacheSize == CACHE_SIZE && Private(st, p)
    ensures Private(Evict(st), p)
  {
    EvictedQueue(st);
    hide Rest, PagesOwnMessages, TableOfQueued;
    assert st.queue[0].page != p;
  }

  /** The page always gets in. */
  lemma CommitKeeps(st: State, p: nat)
    requires Agrees(st) && Private(st, p)
    ensures Agrees(Commit(st, p)) && Elem(1, p) in Commit(st, p).queue
  {
    if st.currCacheSize == CACHE_SIZE {
      EvictKeeps(st);
      EvictLeavesPrivate(st, p);
      InsertKeeps(Evict(st), p);
    } else {
      InsertKeeps(st, p);
    }
    hide Agrees, Insert, Evict, Private;
  }

  /** Right after the insertion, a lookup of the host is a hit with the new answer; no other host's entry changes, and
      of the others exactly the host of a page that had to go has lost its entry, whoever put it there. */
  lemma StoredIsServed(st: State, p: nat)
    requires Agrees(st) && Private(st, p)
    ensures var e, host := Commit(st, p), st.pages[p].host;
      && Agrees(e) && host in e.table && st.pages[p].message in st.messages
      && Reply(e, host) == st.messages[st.pages[p].message]
      && (forall h :: h != host && h in e.table ==> h in st.table && e.table[h] == st.table[h])
      && (forall h :: h in st.table ==>
            (h !in e.table <==>
               h != host && st.currCacheSize == CACHE_SIZE && h == st.pages[st.queue[0].page].host))
  {
    CommitKeeps(st, p);
    StoredIsThere(st, p);
    hide Agrees, Commit;
  }

  lemma StoredIsThere(st: State, p: nat)
    requires Agrees(st) && Private(st, p)
    ensures var e, page := Commit(st, p), st.pages[p];
      && page.host in e.table && e.table[page.host] == page && page.message in st.messages
      && page.message in e.messages && e.messages[page.message] == st.messages[page.message]
      && |e.messages[page.message]| == page.messageSize
      && (forall h :: h != page.host && h in e.table ==> h in st.table && e.table[h] == st.table[h])
      && (forall h :: h in st.table ==>
            (h !in e.table <==>
               h != page.host && st.currCacheSize == CACHE_SIZE && h == st.pages[st.queue[0].page].host))
  {
    assert st.currCacheSize == CACHE_SIZE ==> st.queue[0].page in st.pages && st.queue[0].page != p;
    hide Rest, Enqueue, QueueOfPages, TableOfQueued;
  }

  lemma ServeKeeps(st: State, host: Key, sent: bool)
    requires Agrees(st)
    ensures Agrees(Serve(st, host, sent))
  {
    var e := Serve(st, host, sent);
    hide QueueOfPages;
    forall h <- e.table ensures exists i :: Owns(e, i, h) {
      var i: nat :| Owns(st, i, h);
      assert Owns(e, i, h);
    }
  }

  lemma PrepareKeeps(st: State, host: Key, answer: Answer, page: nat, message: nat)
    requires Agrees(st) && page !in st.pages && message !in st.messages
    ensures Agrees(Prepare(st, host, answer, page, message))
  {
    PrepareKeepsMessages(st, host, answer, page, message);
    PrepareKeepsTable(st, host, answer, page, message);
    hide PagesOwnMessages, TableOfQueued;
  }

  lemma PrepareKeepsMessages(st: State, host: Key, answer: Answer, page: nat, message: nat)
    requires PagesOwnMessages(st) && page !in st.pages && message !in st.messages
    ensures PagesOwnMessages(Prepare(st, host, answer, page, message))
  {
    var e := Prepare(st, host, answer, page, message);
    forall m <- e.messages ensures exists p :: p in e.pages && e.pages[p].message == m {
      if m == message {
        assert page in e.pages;
      } else {
        var p :| p in st.pages && st.pages[p].message == m;
        assert p in e.pages;
      }
    }
  }

  lemma PrepareKeepsTable(st: State, host: Key, answer: Answer, page: nat, message: nat)
    requires QueueOfPages(st.queue, st.pages) && TableOfQueued(st) && page !in st.pages
    ensures TableOfQueued(Prepare(st, host, answer, page, message))
  {
    var e := Prepare(st, host, answer, page, message);
    forall h <- e.table ensures exists i :: Owns(e, i, h) {
      var i: nat :| Owns(st, i, h);
      assert Owns(e, i, h);
    }
  }

  // ---------- The table is never larger than the queue ----------

  function HostsOf(st: State, n: nat): set<Key>
    requires n <= |st.queue|
  {
    if n == 0 then {}
    else HostsOf(st, n - 1) + if st.queue[n - 1].page in st.pages then {st.pages[st.queue[n - 1].page].host} else {}
  }

  lemma {:induction false} HostsOfSlots(st: State, n: nat)
    requires n <= |st.queue|
    ensures |HostsOf(st, n)| <= n
    ensures forall i :: 0 <= i < n && st.queue[i].page in st.pages ==> st.pages[st.queue[i].page].host in HostsOf(st, n)
  {
    if n > 0 {
      HostsOfSlots(st, n - 1);
    }
  }

  lemma {:induction false} SubsetIsSmaller<T>(a: set<T>, b: set<T>)
    requires a <= b
    ensures |a| <= |b|
  {
    if a != {} {
      var x :| x in a;
      SubsetIsSmaller(a - {x}, b - {x});
    }
  }

  /** Several queued pages may have the same host, but no host in the table is without one. */
  lemma TableFits(st: State)
    requires Agrees(st)
    ensures |st.table| <= |st.queue|
  {
    HostsOfSlots(st, |st.queue|);
    forall host <- st.table ensures host in HostsOf(st, |st.queue|) {
      var i: nat :| Owns(st, i, host);
    }
    SubsetIsSmaller(st.table.Keys, HostsOf(st, |st.queue|));
  }

  // ---------- Runs ----------

  /** One step of some connection; `malloc` may give any address that is not in use. */
  datatype Action =
    | Lookup(host: Key, sent: bool)
    | Answered(host: Key, answer: Answer, page: nat, message: nat)
    | Store(page: nat)

  predicate Enabled(st: State, a: Action) {
    match a
    case Lookup(_, _) => true
    case Answered(_, _, page, message) => page !in st.pages && message !in st.messages
    case Store(page) => Private(st, page)
  }

  function Apply(st: State, a: Action): State
    requires Agrees(st) && Enabled(st, a)
  {
    match a
    case Lookup(host, sent) => Serve(st, host, sent)
    case Answered(host, answer, page, message) => Prepare(st, host, answer, page, message)
    case Store(page) => Commit(st, page)
  }

  lemma ApplyKeeps(st: State, a: Action)
    requires Agrees(st) && Enabled(st, a)
    ensures Agrees(Apply(st, a))
  {
    hide Agrees, Serve, Prepare, Commit, Private;
    match a {
      case Lookup(host, sent) => ServeKeeps(st, host, sent);
      case Answered(host, answer, page, message) => PrepareKeeps(st, host, answer, page, message);
      case Store(page) => CommitKeeps(st, page);
    }
  }

  /** `states` is a run of the cache under `actions`. */
  ghost predicate IsRun(states: seq<State>, actions: seq<Action>) {
    && |states| == |actions| + 1 && Agrees(states[0])
    && forall i {:trigger RunStep(states, actions, i)} :: 0 <= i < |actions| ==> RunStep(states, actions, i)
  }

  ghost predicate RunStep(states: seq<State>, actions: seq<Action>, i: nat)
    requires i < |actions| < |states|
  {
    Agrees(states[i]) ==> Enabled(states[i], actions[i]) && states[i + 1] == Apply(states[i], actions[i])
  }

  /** The table and the queue agree in every state of every run. */
  lemma {:induction false} AlwaysAgrees(states: seq<State>, actions: seq<Action>, i: nat)
    requires IsRun(states, actions) && i < |states|
    ensures Agrees(states[i])
  {
    if i > 0 {
      AlwaysAgrees(states, actions, i - 1);
      assert RunStep(states, actions, i - 1);
      hide Agrees, Enabled, Apply;
      ApplyKeeps(states[i - 1], actions[i - 1]);
    }
  }

  /** The message of every allocated page was answered by the page's host, in one of the first `n` steps. */
  ghost predicate Genuine(st: State, actions: seq<Action>, n: nat)
    requires PagesOwnMessages(st) && n <= |actions|
  {
    forall p <- st.pages :: WasAnswered(actions, n, st.pages[p].host, st.messages[st.pages[p].message])
  }

  ghost predicate WasAnswered(actions: seq<Action>, n: nat, host: Key, answer: Answer)
    requires n <= |actions|
  {
    exists k :: 0 <= k < n && actions[k].Answered? && actions[k].host == host && actions[k].answer == answer
  }

  lemma {:induction false} AlwaysGenuine(states: seq<State>, actions: seq<Action>, i: nat)
    requires IsRun(states, actions) && i < |states| && states[0] == Empty
    ensures Agrees(states[i]) && Genuine(states[i], actions, i)
  {
    AlwaysAgrees(states, actions, i);
    if i > 0 {
      AlwaysGenuine(states, actions, i - 1);
      assert RunStep(states, actions, i - 1);
      StaysGenuine(states[i - 1], actions, i - 1);
    }
  }

  lemma StaysGenuine(st: State, actions: seq<Action>, i: nat)
    requires i < |actions| && Agrees(st) && Genuine(st, actions, i) && Enabled(st, actions[i])
    requires Agrees(Apply(st, actions[i]))
    ensures Genuine(Apply(st, actions[i]), actions, i + 1)
  {
    var e := Apply(st, actions[i]);
    hide QueueOfPages, TableOfQueued, Rest, Enqueue;
    forall p <- e.pages ensures WasAnswered(actions, i + 1, e.pages[p].host, e.messages[e.pages[p].message]) {
      if p in st.pages && !(actions[i].Answered? && p == actions[i].page) {
        assert WasAnswered(actions, i, st.pages[p].host, st.messages[st.pages[p].message]);
      } else {
        assert actions[i].Answered?;
      }
    }
  }

  /** A hit never reads a freed message: it sends what that very host once answered. */
  lemma HitsAreGenuine(states: seq<State>, actions: seq<Action>, i: nat, host: Key)
    requires IsRun(states, actions) && i < |states| && states[0] == Empty && host in states[i].table
    ensures Agrees(states[i]) && WasAnswered(actions, i, host, Reply(states[i], host))
  {
    AlwaysGenuine(states, actions, i);
    var st := states[i];
    var answer := Reply(st, host);
    var k: nat :| Owns(st, k, host) && answer == st.messages[st.pages[st.queue[k].page].message];
    assert st.queue[k].page in st.pages;
  }

  /** The lookups of a host that were sent, from step `i` to step `j`. */
  function SentHits(actions: seq<Action>, host: Key, i: nat, j: nat): nat
    requires i <= j <= |actions|
    decreases j
  {
    if i == j then 0 else SentHits(actions, host, i, j - 1) + if actions[j - 1] == Lookup(host, true) then 1 else 0
  }

  /** As long as nothing is stored, the table's copy of a page counts the hits that were sent. */
  lemma {:induction false} HitsAreCounted(states: seq<State>, actions: seq<Action>, host: Key, i: nat, j: nat)
    requires IsRun(states, actions) && i <= j < |states| && host in states[i].table
    requires forall k :: i <= k < j ==> !actions[k].Store?
    ensures host in states[j].table
    ensures states[j].table[host] ==
      states[i].table[host].(timesUsed := states[i].table[host].timesUsed + SentHits(actions, host, i, j))
    decreases j
  {
    if i < j {
      HitsAreCounted(states, actions, host, i, j - 1);
      AlwaysAgrees(states, actions, j - 1);
      assert RunStep(states, actions, j - 1);
      hide Agrees, IsRun;
    }
  }

  // ---------- What the eviction order comes to ----------

  lemma CommitInFull(st: State, p: nat)
    requires Agrees(st) && st.currCacheSize == CACHE_SIZE && Private(st, p)
    ensures Commit(st, p).queue == [st.queue[29]] + st.queue[1..29] + [Elem(1, p)]
  {
    EvictKeeps(st);
    EvictedQueue(st);
    EvictLeavesPrivate(st, p);
    hide Evict, Insert, Agrees;
    InsertKeeps(Evict(st), p);
  }

  /** Once the cache is full, 28 of its 30 pages stay for good. */
  lemma {:induction false} FullCacheTurnsOverTwoSlots(states: seq<State>, actions: seq<Action>, i: nat, j: nat)
    requires IsRun(states, actions) && i <= j < |states| && states[i].currCacheSize == CACHE_SIZE
    ensures Agrees(states[j]) && states[j].currCacheSize == CACHE_SIZE && Agrees(states[i])
    ensures states[j].queue[1..29] == states[i].queue[1..29]
    decreases j - i
  {
    AlwaysAgrees(states, actions, i);
    AlwaysAgrees(states, actions, j);
    if i < j {
      FullCacheTurnsOverTwoSlots(states, actions, i, j - 1);
      assert RunStep(states, actions, j - 1);
      hide Agrees;
      FullStep(states[j - 1], actions[j - 1]);
    }
  }

  lemma FullStep(st: State, a: Action)
    requires Agrees(st) && st.currCacheSize == CACHE_SIZE && Enabled(st, a)
    ensures Agrees(Apply(st, a)) && Apply(st, a).currCacheSize == CACHE_SIZE
    ensures Apply(st, a).queue[1..29] == st.queue[1..29]
  {
    ApplyKeeps(st, a);
    if a.Store? {
      CommitInFull(st, a.page);
      hide Commit;
      assert |Apply(st, a).queue| == CACHE_SIZE;
    }
  }
}
