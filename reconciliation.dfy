/**
  The reconciliation tick of `check_account_holders`, as values.

  A tick walks a snapshot of the account-holder table and, for each row in
  order, first starts a worker for the row's username if the row is not paused
  and no worker is registered, then stops the registered worker if the row is
  paused. `Step` is one iteration of that loop, `Run` is the whole tick, and the
  lemmas below state what a tick does to the `threads` dictionary.
 */
module Reconciliation {

  datatype Option<T> = None | Some(value: T)

  /** One account-holder row as the tick reads it; `is_paused` is a nullable column. */
  datatype Holder = Holder(username: string, password: string, isPaused: Option<bool>)

  /** Python truthiness of the nullable `is_paused`: only `True` is truthy, `None` and `False` are not. */
  predicate Truthy(b: Option<bool>) {
    b == Some(true)
  }

  /**
    A worker: the `(thread, stop_event)` pair stored under a username. `id` is the
    identity of the freshly created pair; the thread was started with the row's
    username and password.
   */
  datatype Handle = Handle(id: nat, username: string, password: string)

  /**
    The registry: the `threads` dictionary, the next fresh handle id, the handles
    whose stop event has been set, and every handle ever created.
   */
  datatype State = State(threads: map<string, Handle>, nextId: nat, signalled: set<Handle>, spawned: set<Handle>)

  /** The registry before the first tick: `threads = {}`. */
  function Empty(): State {
    State(map[], 0, {}, {})
  }

  /**
    The registry's invariant: each entry is the worker of the username it is
    stored under; every handle ever created is either still registered or has
    had its stop event set, never both; ids were minted below `nextId`.
   */
  predicate Inv(s: State) {
    && (forall u :: u in s.threads ==> s.threads[u].username == u)
    && s.spawned == s.threads.Values + s.signalled
    && s.threads.Values !! s.signalled
    && (forall h :: h in s.spawned ==> h.id < s.nextId)
  }

  /**
    The workers created and not yet told to stop. A worker that has been told
    to stop may still be alive until its current sleep ends.
   */
  function Unsignalled(s: State): set<Handle> {
    s.spawned - s.signalled
  }

  /** The start check then the stop check for one row (one iteration of the loop). */
  function Step(s: State, h: Holder): (r: State)
    ensures h.username in r.threads <==> !Truthy(h.isPaused)
    ensures forall u :: u != h.username ==> (u in r.threads <==> u in s.threads)
    ensures forall u :: u != h.username && u in s.threads ==> r.threads[u] == s.threads[u]
    ensures s.signalled <= r.signalled && s.spawned <= r.spawned && s.nextId <= r.nextId
    ensures forall w :: w in r.spawned - s.spawned ==> s.nextId <= w.id < r.nextId
  {
    var started :=
      if !Truthy(h.isPaused) && h.username !in s.threads then
        var w := Handle(s.nextId, h.username, h.password);
        State(s.threads[h.username := w], s.nextId + 1, s.signalled, s.spawned + {w})
      else
        s;
    if Truthy(h.isPaused) && h.username in started.threads then
      State(started.threads - {h.username}, started.nextId,
            started.signalled + {started.threads[h.username]}, started.spawned)
    else
      started
  }

  /** A whole tick over a snapshot listing, row by row from the first. */
  function Run(s: State, listing: seq<Holder>): (r: State)
    ensures s.signalled <= r.signalled && s.spawned <= r.spawned && s.nextId <= r.nextId
    ensures forall w :: w in r.spawned - s.spawned ==> s.nextId <= w.id < r.nextId
    decreases |listing|
  {
    if listing == [] then s
    else Step(Run(s, listing[..|listing| - 1]), listing[|listing| - 1])
  }

  /** Position of the last row of `listing` with username `u`, if any. */
  function LastIndex(listing: seq<Holder>, u: string): (r: Option<nat>)
    ensures r.Some? ==> r.value < |listing| && listing[r.value].username == u
    ensures r.Some? ==> forall j :: r.value < j < |listing| ==> listing[j].username != u
    ensures r.None? ==> forall j :: 0 <= j < |listing| ==> listing[j].username != u
    decreases |listing|
  {
    if listing == [] then None
    else if listing[|listing| - 1].username == u then Some(|listing| - 1)
    else LastIndex(listing[..|listing| - 1], u)
  }

  /** Every row with the same username agrees on whether it is paused. */
  predicate Agreeing(listing: seq<Holder>) {
    forall i, j :: 0 <= i < |listing| && 0 <= j < |listing| && listing[i].username == listing[j].username ==>
      Truthy(listing[i].isPaused) == Truthy(listing[j].isPaused)
  }

  /** One iteration keeps the registry's invariant. */
  lemma StepKeepsInv(s: State, h: Holder)
    requires Inv(s)
    ensures Inv(Step(s, h))
  {
  }

  /** A tick keeps the registry's invariant. */
  lemma {:induction false} RunKeepsInv(s: State, listing: seq<Holder>)
    requires Inv(s)
    ensures Inv(Run(s, listing))
    decreases |listing|
  {
    if listing != [] {
      var n := |listing| - 1;
      RunKeepsInv(s, listing[..n]);
      StepKeepsInv(Run(s, listing[..n]), listing[n]);
    }
  }

  /**
    Under the invariant at most one worker per username has not been told to
    stop, and it is the registered one.
   */
  lemma OneUnsignalledPerUsername(s: State, h1: Handle, h2: Handle)
    requires Inv(s)
    requires h1 in Unsignalled(s) && h2 in Unsignalled(s) && h1.username == h2.username
    ensures h1 == h2 && h1.username in s.threads && s.threads[h1.username] == h1
  {
  }

  /**
    After a tick, a username that appears in the listing is registered exactly
    when its last row is not paused (a null `is_paused` counts as not paused).
   */
  lemma {:induction false} LastRowDecides(s: State, listing: seq<Holder>, i: nat)
    requires i < |listing|
    requires forall j :: i < j < |listing| ==> listing[j].username != listing[i].username
    ensures listing[i].username in Run(s, listing).threads <==> !Truthy(listing[i].isPaused)
    decreases |listing|
  {
    var n := |listing| - 1;
    if i < n {
      var prefix := listing[..n];
      assert forall j :: i < j < |prefix| ==> prefix[j] == listing[j];
      LastRowDecides(s, prefix, i);
    }
  }

  /**
    A username with no row in the listing keeps exactly the entry it had, or
    stays absent: the tick never stops a holder missing from the listing.
   */
  lemma {:induction false} MissingUntouched(s: State, listing: seq<Holder>, u: string)
    requires forall j :: 0 <= j < |listing| ==> listing[j].username != u
    ensures u in Run(s, listing).threads <==> u in s.threads
    ensures u in s.threads ==> Run(s, listing).threads[u] == s.threads[u]
    decreases |listing|
  {
    if listing != [] {
      MissingUntouched(s, listing[..|listing| - 1], u);
    }
  }

  /** The registered worker of a username missing from the listing is not told to stop. */
  lemma MissingNotSignalled(s: State, listing: seq<Holder>, u: string)
    requires Inv(s) && u in s.threads
    requires forall j :: 0 <= j < |listing| ==> listing[j].username != u
    ensures s.threads[u] in Unsignalled(Run(s, listing))
  {
    MissingUntouched(s, listing, u);
    RunKeepsInv(s, listing);
    var r := Run(s, listing);
    assert r.threads[u] in r.threads.Values;
  }

  /**
    Starting is idempotent: a registered username none of whose rows is paused
    keeps its existing worker, so no new worker is created for it and the
    password it was started with is not replaced.
   */
  lemma {:induction false} RunningKept(s: State, listing: seq<Holder>, u: string)
    requires u in s.threads
    requires forall j :: 0 <= j < |listing| && listing[j].username == u ==> !Truthy(listing[j].isPaused)
    ensures u in Run(s, listing).threads && Run(s, listing).threads[u] == s.threads[u]
    ensures forall w :: w in Run(s, listing).spawned - s.spawned ==> w.username != u
    decreases |listing|
  {
    if listing != [] {
      RunningKept(s, listing[..|listing| - 1], u);
    }
  }

  /**
    An entry that was not there before the tick (or replaces one that was) is a
    new worker: a fresh id never used before, the username it is stored under,
    the password of a non-paused row of that username, and a stop event that is
    not set.
   */
  lemma {:induction false} NewEntryFresh(s: State, listing: seq<Holder>, u: string)
    requires Inv(s)
    requires u in Run(s, listing).threads
    requires u !in s.threads || Run(s, listing).threads[u] != s.threads[u]
    ensures var w := Run(s, listing).threads[u];
      && s.nextId <= w.id < Run(s, listing).nextId
      && w !in s.spawned
      && w.username == u
      && w !in Run(s, listing).signalled
      && exists j :: 0 <= j < |listing| && listing[j].username == u && listing[j].password == w.password
                     && !Truthy(listing[j].isPaused)
    decreases |listing|
  {
    var n := |listing| - 1;
    var prefix := listing[..n];
    var p := Run(s, prefix);
    var r := Run(s, listing);
    var w := r.threads[u];
    RunKeepsInv(s, listing);
    assert w in r.threads.Values;
    RunKeepsInv(s, prefix);
    if u in p.threads && p.threads[u] == w {
      // the entry already existed before the last row
      NewEntryFresh(s, prefix, u);
      var j :| 0 <= j < |prefix| && prefix[j].username == u && prefix[j].password == w.password
               && !Truthy(prefix[j].isPaused);
      assert listing[j] == prefix[j];
    } else {
      // the last row created it
      assert listing[n].username == u;
      assert w == Handle(p.nextId, u, listing[n].password);
      assert s.nextId <= p.nextId;
    }
  }

  /**
    Row `j` is the row that inserts the entry of `u` with `password` during a
    tick from `s`: a non-paused row of `u` with that password, no paused row of
    `u` after it, and either the previous row of `u` is paused or there is none
    and `u` was not registered before the tick.
   */
  predicate InsertingRow(s: State, listing: seq<Holder>, u: string, j: int, password: string) {
    && 0 <= j < |listing|
    && listing[j].username == u && listing[j].password == password && !Truthy(listing[j].isPaused)
    && (forall k :: j < k < |listing| && listing[k].username == u ==> !Truthy(listing[k].isPaused))
    && match LastIndex(listing[..j], u)
       case Some(q) => Truthy(listing[q].isPaused)
       case None => u !in s.threads
  }

  /**
    The password a new or replaced entry carries is that of the row that
    inserted it; later non-paused rows of the username do not replace it.
   */
  lemma {:induction false} NewEntryPassword(s: State, listing: seq<Holder>, u: string)
    requires u in Run(s, listing).threads
    requires u !in s.threads || Run(s, listing).threads[u] != s.threads[u]
    ensures exists j :: InsertingRow(s, listing, u, j, Run(s, listing).threads[u].password)
    decreases |listing|
  {
    var n := |listing| - 1;
    var prefix := listing[..n];
    var p := Run(s, prefix);
    var w := Run(s, listing).threads[u];
    if u in p.threads && p.threads[u] == w {
      NewEntryPassword(s, prefix, u);
      var j :| InsertingRow(s, prefix, u, j, w.password);
      InsertingRowExtends(s, listing, u, j, w.password);
    } else {
      assert listing[n].username == u && !Truthy(listing[n].isPaused);
      assert w.password == listing[n].password;
      assert u !in p.threads;
      assert listing[..n] == prefix;
      match LastIndex(prefix, u)
      case Some(q) => {
        LastRowDecides(s, prefix, q);
        assert Truthy(listing[q].isPaused);
        assert InsertingRow(s, listing, u, n, w.password);
      }
      case None => {
        MissingUntouched(s, prefix, u);
        assert InsertingRow(s, listing, u, n, w.password);
      }
    }
  }

  /** The inserting row of a prefix stays the inserting row when a non-paused row (or another username's row) follows. */
  lemma InsertingRowExtends(s: State, listing: seq<Holder>, u: string, j: int, password: string)
    requires |listing| > 0 && InsertingRow(s, listing[..|listing| - 1], u, j, password)
    requires listing[|listing| - 1].username == u ==> !Truthy(listing[|listing| - 1].isPaused)
    ensures InsertingRow(s, listing, u, j, password)
  {
    var prefix := listing[..|listing| - 1];
    assert listing[..j] == prefix[..j];
    assert forall k :: 0 <= k < |prefix| ==> listing[k] == prefix[k];
  }

  /**
    An entry is removed or replaced only because some row of its username is
    paused, and the removed worker has its stop event set.
   */
  lemma RemovedSignalled(s: State, listing: seq<Holder>, u: string)
    requires Inv(s) && u in s.threads
    requires u !in Run(s, listing).threads || Run(s, listing).threads[u] != s.threads[u]
    ensures s.threads[u] in Run(s, listing).signalled
    ensures exists j :: 0 <= j < |listing| && listing[j].username == u && Truthy(listing[j].isPaused)
  {
  }

  /**
    The tick sets only the stop events of workers that were registered when it
    began or that it created itself; together with `Inv`, no worker still
    registered after the tick has its stop event set.
   */
  lemma {:induction false} SignalsOnlyOwnWorkers(s: State, listing: seq<Holder>)
    requires Inv(s)
    ensures forall h :: h in Run(s, listing).signalled - s.signalled ==>
              h in s.threads.Values || s.nextId <= h.id < Run(s, listing).nextId
    ensures Run(s, listing).threads.Values !! Run(s, listing).signalled
    decreases |listing|
  {
    RunKeepsInv(s, listing);
    if listing != [] {
      var n := |listing| - 1;
      var p := Run(s, listing[..n]);
      SignalsOnlyOwnWorkers(s, listing[..n]);
      RunKeepsInv(s, listing[..n]);
      var h := listing[n];
      if Truthy(h.isPaused) && h.username in p.threads {
        var w := p.threads[h.username];
        assert w in p.spawned;
        assert w in s.threads.Values || s.nextId <= w.id by {
          if w !in s.threads.Values && w.id < s.nextId {
            SpawnedBeforeTick(s, listing[..n], w);
          }
        }
      }
    }
  }

  /** A handle registered during a tick with an old id was already registered when the tick began. */
  lemma {:induction false} SpawnedBeforeTick(s: State, listing: seq<Holder>, w: Handle)
    requires Inv(s)
    requires w in Run(s, listing).threads.Values && w.id < s.nextId
    ensures w in s.threads.Values
    decreases |listing|
  {
    if listing != [] {
      var n := |listing| - 1;
      var p := Run(s, listing[..n]);
      var r := Run(s, listing);
      var v :| v in r.threads && r.threads[v] == w;
      RunKeepsInv(s, listing[..n]);
      if v in p.threads && p.threads[v] == w {
        assert w in p.threads.Values;
        SpawnedBeforeTick(s, listing[..n], w);
      } else {
        assert false;
      }
    }
  }

  /** A tick over rows whose paused flags already agree with the registry changes nothing. */
  lemma {:induction false} SettledRunIsQuiet(s: State, listing: seq<Holder>)
    requires forall j :: 0 <= j < |listing| ==> (listing[j].username in s.threads <==> !Truthy(listing[j].isPaused))
    ensures Run(s, listing) == s
    decreases |listing|
  {
    if listing != [] {
      SettledRunIsQuiet(s, listing[..|listing| - 1]);
    }
  }

  /**
    When the rows of each username agree on being paused, a second tick over
    the same listing starts nothing and stops nothing: the whole registry,
    `threads` included, is unchanged.
   */
  lemma SecondTickQuiet(s: State, listing: seq<Holder>)
    requires Agreeing(listing)
    ensures Run(Run(s, listing), listing) == Run(s, listing)
  {
    var r := Run(s, listing);
    forall j | 0 <= j < |listing|
      ensures listing[j].username in r.threads <==> !Truthy(listing[j].isPaused)
    {
      var last := LastIndex(listing, listing[j].username);
      LastRowDecides(s, listing, last.value);
    }
    SettledRunIsQuiet(r, listing);
  }

  /**
    A paused row stops the worker: a registered username with a paused row in
    the listing has its worker's stop event set, and its entry is removed or
    replaced by another worker.
   */
  lemma {:induction false} PausedRowStops(s: State, listing: seq<Holder>, u: string, j: nat)
    requires Inv(s) && u in s.threads
    requires j < |listing| && listing[j].username == u && Truthy(listing[j].isPaused)
    ensures s.threads[u] in Run(s, listing).signalled
    ensures u !in Run(s, listing).threads || Run(s, listing).threads[u] != s.threads[u]
    decreases |listing|
  {
    var n := |listing| - 1;
    var prefix := listing[..n];
    var w := s.threads[u];
    RunKeepsInv(s, listing);
    var r := Run(s, listing);
    if exists k :: 0 <= k < n && prefix[k].username == u && Truthy(prefix[k].isPaused) {
      var k :| 0 <= k < n && prefix[k].username == u && Truthy(prefix[k].isPaused);
      PausedRowStops(s, prefix, u, k);
    } else {
      RunningKept(s, prefix, u);
      assert j == n;
    }
    assert w in r.signalled;
    assert w !in r.threads.Values;
  }

  /**
    A username with a paused row followed, as its last row, by a non-paused row
    is restarted by every tick: whatever worker it had is told to stop, and it
    ends the tick registered with a newly created worker.
   */
  lemma PausedThenUnpausedRestarts(s: State, listing: seq<Holder>, u: string, i: nat, k: nat)
    requires Inv(s)
    requires i < k < |listing| && listing[i].username == u && listing[k].username == u
    requires Truthy(listing[i].isPaused) && !Truthy(listing[k].isPaused)
    requires forall j :: k < j < |listing| ==> listing[j].username != u
    ensures u in Run(s, listing).threads
    ensures s.nextId <= Run(s, listing).threads[u].id && Run(s, listing).threads[u] !in s.spawned
    ensures u in s.threads ==> s.threads[u] in Run(s, listing).signalled
  {
    LastRowDecides(s, listing, k);
    if u in s.threads {
      PausedRowStops(s, listing, u, i);
    }
    NewEntryFresh(s, listing, u);
  }

  /**
    Two rows of one username that disagree on being paused, the paused one
    first, make the second tick over the same listing stop the worker the first
    tick left registered and register a new one: `threads` changes, and for a
    while two threads of that username may be alive at once.
   */
  lemma DisagreeingRowsFlap(s: State, listing: seq<Holder>, u: string, i: nat, k: nat)
    requires Inv(s)
    requires i < k < |listing| && listing[i].username == u && listing[k].username == u
    requires Truthy(listing[i].isPaused) && !Truthy(listing[k].isPaused)
    requires forall j :: k < j < |listing| ==> listing[j].username != u
    ensures var once := Run(s, listing);
      var twice := Run(once, listing);
      && u in once.threads && u in twice.threads
      && twice.threads[u] != once.threads[u]
      && once.threads[u] in twice.signalled
      && twice.threads != once.threads
  {
    var once := Run(s, listing);
    RunKeepsInv(s, listing);
    PausedThenUnpausedRestarts(s, listing, u, i, k);
    PausedThenUnpausedRestarts(once, listing, u, i, k);
    assert once.threads[u] in once.spawned;
  }

  /**
    A holder that was running and is then deleted from the table keeps its
    worker: the next tick does not stop it.
   */
  lemma DeletedHolderKeepsRunning(listing: seq<Holder>)
    requires forall j :: 0 <= j < |listing| ==> listing[j].username != "a"
    ensures var once := Run(Empty(), [Holder("a", "p", Some(false))]);
      && once.threads == map["a" := Handle(0, "a", "p")]
      && "a" in Run(once, listing).threads
      && Run(once, listing).threads["a"] == Handle(0, "a", "p")
      && Handle(0, "a", "p") in Unsignalled(Run(once, listing))
  {
    var first := [Holder("a", "p", Some(false))];
    assert first[..0] == [];
    var once := Run(Empty(), first);
    assert once == State(map["a" := Handle(0, "a", "p")], 1, {}, {Handle(0, "a", "p")}) by {
      assert once == Step(Empty(), first[0]);
    }
    assert Inv(once) by {
      assert once.threads.Values == {Handle(0, "a", "p")};
    }
    MissingNotSignalled(once, listing, "a");
    MissingUntouched(once, listing, "a");
  }
}
