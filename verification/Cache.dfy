/** The cache's critical sections on the hash table and the priority queue themselves, against CacheSpec.dfy. */
module Cache {
  import opened Wrappers
  import opened HashMap
  import opened PQueueSpec
  import opened PQueue
  import opened CacheSpec

  class ProxyCache {
    const table: Map<CachePage>
    const pqueue: PriorityQueue
    var currCacheSize: nat
    var pages: map<nat, CachePage>
    var messages: map<nat, Answer>

    ghost predicate Sound()
      reads table, table.buckets, table.nodes, pqueue, pqueue.data
    {
      table.Valid() && pqueue.Valid() && pqueue.capacity == CACHE_SIZE
    }

    ghost predicate Valid()
      reads this, table, table.buckets, table.nodes, pqueue, pqueue.data
    {
      Sound() && Agrees(Abs())
    }

    ghost function Abs(): State
      requires pqueue.Valid()
      reads this, table, pqueue, pqueue.data
    {
      State(table.contents, pqueue.Contents(), currCacheSize, pages, messages)
    }

    constructor ()
      ensures Valid() && Abs() == Empty
    {
      var t := new Map<CachePage>();
      var q := new PriorityQueue(CACHE_SIZE);
      table, pqueue := t, q;
      currCacheSize, pages, messages := 0, map[], map[];
    }

    /** write: the whole message of a page in the table. */
    method Send(host: Key, page: CachePage) returns (answer: Answer)
      requires Valid() && host in table.contents && page == table.contents[host]
      ensures answer == Reply(Abs(), host)
    {
      ghost var i: nat :| Owns(Abs(), i, host);
      answer := messages[page.message][..page.messageSize];
    }

    /** The section of a lookup: a hit sends the message, and counts the use in the table's copy if that succeeded. */
    method Lookup(host: Key, sent: bool) returns (reply: Option<Answer>)
      requires Valid()
      modifies table`contents, table.nodes`value
      ensures Valid() && Abs() == Serve(old(Abs()), host, sent)
      ensures reply == if host in old(Abs()).table then Some(Reply(old(Abs()), host)) else None
    {
      var prev, node, i := table.GetRef(host);
      reply := None;
      if node != null {
        hide Agrees, Reply, Map.Valid, Map.Holds, PriorityQueue.Valid;
        var answer := Send(host, node.value);
        reply := Some(answer);
        CountUse(node, sent);
      }
    }

    /** Counts a use in the table's copy of a page, if there was one. */
    method CountUse(node: Node<CachePage>, sent: bool)
      requires Valid() && table.At(node)
      modifies table`contents, node`value
      ensures Valid() && Abs() == Serve(old(Abs()), node.key, sent)
    {
      ServeKeeps(Abs(), node.key, sent);
      if sent {
        hide Agrees, Serve;
        Bump(node);
      }
    }

    method Bump(node: Node<CachePage>)
      requires Sound() && table.At(node)
      modifies table`contents, node`value
      ensures Sound() && Abs() == Serve(old(Abs()), node.key, true)
    {
      table.Overwrite(node, node.value.(timesUsed := node.value.timesUsed + 1));
    }

    /** A connection with a miss has read its host's answer, into a new buffer of a new page. */
    method Answered(host: Key, answer: Answer, page: nat, message: nat)
      requires Valid() && page !in pages && message !in messages
      modifies this`pages, this`messages
      ensures Valid() && Abs() == Prepare(old(Abs()), host, answer, page, message)
    {
      PrepareKeeps(Abs(), host, answer, page, message);
      hide Agrees;
      pages := pages[page := CachePage(1, host, |answer|, message)];
      messages := messages[message := answer];
    }

    /** Takes the page out of the queue that it hands out. */
    method TakeVictim() returns (victim: nat)
      requires Sound() && pqueue.size > 0
      modifies pqueue`size, pqueue.data
      ensures Sound() && Abs() == old(Abs()).(queue := Rest(old(Abs()).queue))
      ensures victim == old(Abs()).queue[0].page
    {
      hide Map.Valid, Rest;
      var found, x := pqueue.Dequeue();
      victim := x.page;
    }

    /** Removes whatever the table has for a host. */
    method Forget(host: Key)
      requires Sound()
      modifies table`nnodes, table`chains, table`contents, table.buckets, table.nodes`next
      ensures Sound() && Abs() == old(Abs()).(table := old(Abs()).table - {host})
    {
      hide Map.Valid, PriorityQueue.Valid;
      table.Remove(host);
    }

    /** Gives up the page that the queue hands out: its message, whatever the table has for its host, and the page. */
    method EvictPage()
      requires Sound() && pqueue.size > 0 && pqueue.Contents()[0].page in pages && currCacheSize > 0
      modifies this, table`nnodes, table`chains, table`contents, table.buckets, table.nodes`next
      modifies pqueue`size, pqueue.data
      ensures Sound() && Abs() == Evict(old(Abs()))
    {
      var victim := TakeVictim();
      hide Sound, Rest, PriorityQueue.Contents;
      Forget(pages[victim].host);
      Free(victim);
    }

    /** Frees a page and its message, and counts it off. */
    method Free(victim: nat)
      requires pqueue.Valid() && victim in pages && currCacheSize > 0
      modifies this
      ensures Abs() == old(Abs()).(currCacheSize := currCacheSize, messages := messages, pages := pages)
      ensures currCacheSize == old(currCacheSize) - 1
      ensures messages == old(messages) - {old(pages)[victim].message} && pages == old(pages) - {victim}
    {
      messages := messages - {pages[victim].message};
      pages := pages - {victim};
      currCacheSize := currCacheSize - 1;
    }

    /** Puts a page into the table; memory is to be had. */
    method Remember(page: CachePage)
      requires Sound() && table.CanSet(page.host, true, true)
      modifies table, table.buckets, table.nodes
      ensures Sound() && Abs() == old(Abs()).(table := old(Abs()).table[page.host := page])
      ensures fresh(table.nodes - old(table.nodes)) && (table.buckets == old(table.buckets) || fresh(table.buckets))
    {
      hide Map.Valid, Map.CanSet, PriorityQueue.Valid;
      var err := table.Set(page.host, page, true, true);
    }

    /** Puts a page into the queue, and counts it. */
    method EnqueuePage(x: Elem)
      requires Sound()
      modifies this`currCacheSize, pqueue`size, pqueue.data
      ensures Sound()
      ensures var st := old(Abs());
        Abs() == st.(queue := Enqueue(st.queue, CACHE_SIZE, x), currCacheSize := st.currCacheSize + 1)
    {
      hide Map.Valid, Enqueue;
      pqueue.Enqueue(x);
      currCacheSize := currCacheSize + 1;
    }

    /** Puts a page into the table and the queue. */
    method InsertPage(p: nat)
      requires Sound() && p in pages && table.CanSet(pages[p].host, true, true)
      modifies this`currCacheSize, table, table.buckets, table.nodes, pqueue`size, pqueue.data
      ensures Sound() && Abs() == Insert(old(Abs()), p)
    {
      var page := pages[p];
      assert Abs().pages == pages;
      hide Map.CanSet, Enqueue, Abs;
      Remember(page);
      EnqueuePage(Elem(page.timesUsed, p));
    }

    /** The table never has to grow beyond what an int counts. */
    lemma CanRemember(host: Key)
      requires Valid()
      ensures table.CanSet(host, true, true)
    {
      TableFits(Abs());
      hide PagesOwnMessages, QueueOfPages, TableOfQueued;
    }

    lemma VictimIsThere()
      requires Valid() && currCacheSize == CACHE_SIZE
      ensures pqueue.size > 0 && pqueue.Contents()[0].page in pages && Abs().queue[0].page in pages
    {
      hide PagesOwnMessages, TableOfQueued;
    }

    /** Lets a full cache give up a page. */
    method MakeRoom(p: nat)
      requires Valid() && Private(Abs(), p)
      modifies this, table`nnodes, table`chains, table`contents, table.buckets, table.nodes`next
      modifies pqueue`size, pqueue.data
      ensures Valid() && Private(Abs(), p)
      ensures Abs() == if old(Abs()).currCacheSize == CACHE_SIZE then Evict(old(Abs())) else old(Abs())
    {
      if currCacheSize == CACHE_SIZE {
        VictimIsThere();
        EvictKeeps(Abs());
        EvictLeavesPrivate(Abs(), p);
        hide Agrees, Evict, Private;
        EvictPage();
      }
    }

    /** The section of an insertion: into a full cache, the page goes in for the one that the queue hands out. */
    method Store(p: nat)
      requires Valid() && Private(Abs(), p)
      modifies this, table, table.buckets, table.nodes, pqueue`size, pqueue.data
      ensures Valid() && Abs() == Commit(old(Abs()), p)
    {
      CommitKeeps(Abs(), p);
      hide Agrees;
      MakeRoom(p);
      CanRemember(pages[p].host);
      hide Agrees, Insert, Evict, Map.CanSet;
      InsertPage(p);
    }
  }
}
