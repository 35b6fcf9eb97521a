/** The master's block lists over whole runs of the client-server file system. */
module StoreRuns {
  import opened BlockStore
  import opened Blocks
  import opened ClientServer
  import opened Accounting

  /** The addresses that a request stores to an inode number, if it does. */
  function StoredBy(sys: System, req: Request, i: nat): seq<seq<Addr>> {
    if req.Flush? && req.ino == i && i < |sys.files| && MustStore(sys.files[i]) then [req.addrs] else []
  }

  /** The stores of a run to an inode number, oldest first, whatever files had it. */
  ghost function StoresTo(sys: System, reqs: seq<Request>, i: nat, cfg: Config): seq<seq<Addr>>
    requires Shaped(sys, cfg)
    decreases |reqs|
  {
    if reqs == [] || !Ready(sys, reqs[0], cfg) then []
    else StoredBy(sys, reqs[0], i) + StoresTo(Serve(sys, reqs[0], cfg).0, reqs[1..], i, cfg)
  }

  /** Only a flush that stores changes a block list; a new file takes over the one of its number. */
  lemma ServeLists(sys: System, req: Request, i: nat, cfg: Config)
    requires Shaped(sys, cfg) && Ready(sys, req, cfg)
    ensures ListOf(Serve(sys, req, cfg).0.lists, i)
            == if StoredBy(sys, req, i) == [] then ListOf(sys.lists, i)
               else Recorded(ListOf(sys.lists, i), req.addrs, i, cfg)
  {
  }

  lemma HistoryMore(writes: seq<seq<Addr>>, addrs: seq<Addr>, i: nat, cfg: Config)
    ensures History(writes + [addrs], i, cfg) == Recorded(History(writes, i, cfg), addrs, i, cfg)
  {
    assert (writes + [addrs])[..|writes|] == writes;
  }

  lemma OneServed(sys: System, req: Request, before: seq<seq<Addr>>, i: nat, cfg: Config)
    requires Shaped(sys, cfg) && Ready(sys, req, cfg) && ListOf(sys.lists, i) == History(before, i, cfg)
    ensures ListOf(Serve(sys, req, cfg).0.lists, i) == History(before + StoredBy(sys, req, i), i, cfg)
  {
    ServeLists(sys, req, i, cfg);
    if StoredBy(sys, req, i) == [] {
      assert before + StoredBy(sys, req, i) == before;
    } else {
      HistoryMore(before, req.addrs, i, cfg);
    }
  }

  lemma Grouped<T>(a: seq<T>, b: seq<T>, c: seq<T>)
    ensures a + (b + c) == (a + b) + c
  {
  }

  lemma {:induction false} ListsAreHistory(sys: System, reqs: seq<Request>, before: seq<seq<Addr>>, i: nat, cfg: Config)
    requires Shaped(sys, cfg) && ListOf(sys.lists, i) == History(before, i, cfg)
    ensures ListOf(ServeAll(sys, reqs, cfg).lists, i) == History(before + StoresTo(sys, reqs, i, cfg), i, cfg)
    decreases |reqs|
  {
    if reqs == [] || !Ready(sys, reqs[0], cfg) {
      assert before + [] == before;
    } else {
      var after := Serve(sys, reqs[0], cfg).0;
      OneServed(sys, reqs[0], before, i, cfg);
      ListsAreHistory(after, reqs[1..], before + StoredBy(sys, reqs[0], i), i, cfg);
      Grouped(before, StoredBy(sys, reqs[0], i), StoresTo(after, reqs[1..], i, cfg));
    }
  }

  /** Over every run from mounting the block list of an inode number is the one that the history
      of the stores to it makes, across any reuse of the number. */
  lemma ListsFromMount(reqs: seq<Request>, i: nat, cfg: Config)
    ensures ListOf(ServeAll(Mounted(cfg), reqs, cfg).lists, i)
            == History(StoresTo(Mounted(cfg), reqs, i, cfg), i, cfg)
  {
    ListsAreHistory(Mounted(cfg), reqs, [], i, cfg);
    assert [] + StoresTo(Mounted(cfg), reqs, i, cfg) == StoresTo(Mounted(cfg), reqs, i, cfg);
  }
}
