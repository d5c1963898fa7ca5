/** calcCoOrderings of src/GenMCDriver.cpp: its two branches. */
module CoDriver {
  import opened Events
  import opened Lists
  import opened MixedAccess
  import opened RfOptions
  import opened Coherence
  import opened CoInsertion
  import opened CoOrderings
  import opened CoEqual
  import opened CoCuts

  class Driver {
    var co: seq<Event>
    var worklist: seq<seq<Event>>

    constructor (co0: seq<Event>)
      ensures co == co0 && worklist == []
    {
      co, worklist := co0, [];
    }

    /** Queues the coherence orders to explore for the new store lab, and puts it last. The
        orders are placements that differ pairwise on some byte. They cover all placements,
        except that the branch for equal accesses misses some exactly if an overlapping store
        from before its places can slip past the new one. */
    method CalcCoOrderings(stores: map<Event, Store>, init: bv64, before: Event -> bool, lab: Event)
      requires var w := Word(co, stores, init);
        StoresOf(w, co) && lab in stores && InWord(stores[lab].access) && lab !in co && Distinct(co)
      modifies this
      ensures co == old(co) + [lab]
      ensures old(worklist) <= worklist
      ensures var w, added := Word(old(co), stores, init), worklist[|old(worklist)|..];
        && PlacedApart(w, before, lab, added)
        && (if PlacesEqual(w, before, lab) then
              && added == EqualOrders(w, before, lab, |w.co|)
              && (Queued(w, before, lab, added) <==> NothingSlips(w, before, lab))
            else Queued(w, before, lab, added))
    {
      hide *;
      var w := Word(co, stores, init);
      var from := FirstPlace(w, before, lab);
      var equal := AllEqual(w, before, lab, from);
      var added;
      if equal {
        added := SameSizeOrderings(w, before, lab, from);
        EqualOrdersApart(w, before, lab);
        CoversIffNothingSlips(w, before, lab);
      } else {
        SomePlace(w, before, lab);
        added := MixedOrderings(w, before, lab);
        QueuedApart(w, before, lab, added);
      }
      co := co + [lab];
      worklist := worklist + added;
      assert worklist[|old(worklist)|..] == added;
    }
  }
}
