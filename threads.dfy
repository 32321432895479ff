/**
  The module-level `threads` dictionary of the bank service and the loop body
  of `check_account_holders` that updates it in place.
 */
module Threads {
  import opened Reconciliation

  class Registry {
    /** The `threads` dictionary: username to its `(thread, stop_event)` pair. */
    var threads: map<string, Handle>
    /** The handles whose stop event has been set. */
    var signalled: set<Handle>
    /** The id the next created worker receives. */
    var nextId: nat
    /** Every worker ever created. */
    ghost var spawned: set<Handle>

    ghost function Model(): State
      reads this
    {
      State(threads, nextId, signalled, spawned)
    }

    ghost predicate Valid()
      reads this
    {
      Inv(Model())
    }

    /** `threads = {}` at module load. */
    constructor ()
      ensures Valid()
      ensures Model() == Empty()
    {
      threads := map[];
      signalled := {};
      nextId := 0;
      spawned := {};
    }

    /**
      One tick, run while holding `threads_lock`: for each row of the snapshot
      in order, start a worker if the row is not paused and its username is not
      registered, then pop the entry and set its stop event if the row is paused
      and its username is registered.
     */
    method Tick(listing: seq<Holder>)
      requires Valid()
      modifies this
      ensures Valid()
      ensures Model() == Run(old(Model()), listing)
      ensures forall i :: 0 <= i < |listing| && LastIndex(listing, listing[i].username) == Some(i) ==>
                (listing[i].username in threads <==> !Truthy(listing[i].isPaused))
      ensures forall u :: LastIndex(listing, u) == None ==>
                (u in threads <==> u in old(threads)) && (u in threads ==> threads[u] == old(threads)[u])
      ensures threads.Values !! signalled
    {
      for i := 0 to |listing|
        invariant Model() == Run(old(Model()), listing[..i])
      {
        var holder := listing[i];
        if !Truthy(holder.isPaused) && holder.username !in threads {
          var worker := Handle(nextId, holder.username, holder.password);
          nextId := nextId + 1;
          threads := threads[holder.username := worker];
          spawned := spawned + {worker};
        }
        if Truthy(holder.isPaused) && holder.username in threads {
          var worker := threads[holder.username];
          threads := threads - {holder.username};
          signalled := signalled + {worker};
        }
        assert listing[..i + 1][..i] == listing[..i];
      }
      assert listing[..|listing|] == listing;
      RunKeepsInv(old(Model()), listing);
      forall i | 0 <= i < |listing| && LastIndex(listing, listing[i].username) == Some(i)
        ensures listing[i].username in threads <==> !Truthy(listing[i].isPaused)
      {
        LastRowDecides(old(Model()), listing, i);
      }
      forall u | LastIndex(listing, u) == None
        ensures (u in threads <==> u in old(threads)) && (u in threads ==> threads[u] == old(threads)[u])
      {
        MissingUntouched(old(Model()), listing, u);
      }
    }
  }
}
