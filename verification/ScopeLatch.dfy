/** The in-process queue of creators, one latch per order scope, counted so that an idle
    scope leaves nothing behind. Each method is one critical section of the store's mutex,
    or one attempt at the latch's token; any interleaving of callers is a sequence of these. */
module ScopeLatch {
  datatype Phase = Waiting | Holding

  datatype Caller = Caller(key: string, latch: Latch, phase: Phase)

  class Latch {
    var token: bool
    var refs: nat

    constructor ()
      ensures !token && refs == 0
    {
      token, refs := false, 0;
    }
  }

  ghost function UserSet(callers: map<nat, Caller>, key: string): set<nat> {
    set c | c in callers && callers[c].key == key
  }

  ghost function HolderSet(callers: map<nat, Caller>, key: string): set<nat> {
    set c | c in callers && callers[c].key == key && callers[c].phase == Holding
  }

  /** How many callers want key's latch, and how many of them hold it. */
  ghost function Users(callers: map<nat, Caller>, key: string): nat { |UserSet(callers, key)| }

  ghost function Holders(callers: map<nat, Caller>, key: string): nat { |HolderSet(callers, key)| }

  class LatchTable {
    var latches: map<string, Latch>
    ghost var callers: map<nat, Caller>

    ghost function Objects(): set<object> reads this { set key | key in latches :: latches[key] }

    /** A registered latch counts its users, of which there are some, and its token is out exactly
        when one of them holds it; an unregistered key has no users. */
    ghost predicate KeyOk(key: string) reads this, Objects() {
      if key in latches
      then 0 < latches[key].refs == Users(callers, key) && Holders(callers, key) == (if latches[key].token then 1 else 0)
      else Users(callers, key) == Holders(callers, key) == 0
    }

    /** All current users of a key share the one latch registered for it, and keys share no latch. */
    ghost predicate Valid() reads this, Objects() {
      && (forall key :: KeyOk(key))
      && (forall c :: c in callers ==> callers[c].key in latches && latches[callers[c].key] == callers[c].latch)
      && (forall key, other :: key in latches && other in latches && latches[key] == latches[other] ==> key == other)
    }

    constructor ()
      ensures Valid() && callers == map[] && latches == map[]
    {
      latches, callers := map[], map[];
    }

    /** The first section of acquireScope: find or create the latch and count in. */
    method Enter(caller: nat, key: string) returns (latch: Latch)
      requires Valid() && caller !in callers
      modifies this, Objects()
      ensures Valid() && fresh(Objects() - old(Objects()))
      ensures callers == old(callers)[caller := Caller(key, latch, Waiting)]
      ensures key in old(latches) ==> latch == old(latches)[key]
    {
      hide Users, Holders;
      assert KeyOk(key);
      if key in latches {
        latch := latches[key];
      } else {
        latch := new Latch();
        latches := latches[key := latch];
      }
      latch.refs := latch.refs + 1;
      ghost var was := callers;
      callers := callers[caller := Caller(key, latch, Waiting)];
      forall other ensures KeyOk(other) {
        CountedIn(was, caller, callers[caller], other);
        assert old(KeyOk(other));
      }
    }

    /** The token is taken if it is free; otherwise the caller keeps waiting. */
    method TryTake(caller: nat, latch: Latch) returns (taken: bool)
      requires Valid() && caller in callers && callers[caller].latch == latch && callers[caller].phase == Waiting
      modifies this`callers, latch`token
      ensures Valid()
      ensures taken <==> Holders(old(callers), old(callers)[caller].key) == 0
      ensures callers == if taken then old(callers)[caller := old(callers)[caller].(phase := Holding)] else old(callers)
    {
      hide Users, Holders;
      assert KeyOk(callers[caller].key);
      taken := !latch.token;
      if taken {
        latch.token := true;
        callers := callers[caller := callers[caller].(phase := Holding)];
      }
      forall other ensures KeyOk(other) {
        NowHolds(old(callers), caller, other);
        assert old(KeyOk(other));
      }
    }

    /** The last section: give the token back if held, count out, and unregister an idle latch. The
        receive from the token channel never blocks: the holder's token is there. */
    method Drop(caller: nat, key: string, latch: Latch, held: bool)
      requires Valid() && caller in callers && callers[caller].key == key && callers[caller].latch == latch
      requires held <==> callers[caller].phase == Holding
      modifies this, latch
      ensures Valid() && Objects() <= old(Objects())
      ensures callers == old(callers) - {caller}
    {
      hide Users, Holders, UserSet, HolderSet;
      assert KeyOk(key);
      CountedOut(callers, caller, key);
      if held {
        assert latch.token;
        latch.token := false;
      }
      latch.refs := latch.refs - 1;
      callers := callers - {caller};
      if latch.refs == 0 {
        NoUsers(callers, key);
        latches := latches - {key};
      }
      assert KeyOk(key);
      forall other | other != key ensures KeyOk(other) {
        CountedOut(old(callers), caller, other);
        assert old(KeyOk(other));
        assert other in latches ==> latches[other] != latch;
      }
    }

    /** The registry remembers exactly the keys somebody is using. */
    lemma RegisteredWhileUsed(key: string)
      requires Valid()
      ensures key in latches <==> 0 < Users(callers, key)
    {
      assert KeyOk(key);
    }
  }

  lemma OneMore(small: set<nat>, big: set<nat>, c: nat, extra: bool)
    requires c !in small && forall x :: x in big <==> x in small || (x == c && extra)
    ensures |big| == |small| + if extra then 1 else 0
  {
    assert big == small + (if extra then {c} else {});
  }

  lemma CountedIn(callers: map<nat, Caller>, c: nat, caller: Caller, key: string)
    requires c !in callers && caller.phase == Waiting
    ensures Users(callers[c := caller], key) == Users(callers, key) + (if key == caller.key then 1 else 0)
    ensures Holders(callers[c := caller], key) == Holders(callers, key)
  {
    OneMore(UserSet(callers, key), UserSet(callers[c := caller], key), c, key == caller.key);
    OneMore(HolderSet(callers, key), HolderSet(callers[c := caller], key), c, false);
  }

  lemma NowHolds(callers: map<nat, Caller>, c: nat, key: string)
    requires c in callers && callers[c].phase == Waiting
    ensures var next := callers[c := callers[c].(phase := Holding)];
            && Users(next, key) == Users(callers, key)
            && Holders(next, key) == Holders(callers, key) + (if key == callers[c].key then 1 else 0)
  {
    var next := callers[c := callers[c].(phase := Holding)];
    assert UserSet(next, key) == UserSet(callers, key);
    OneMore(HolderSet(callers, key), HolderSet(next, key), c, key == callers[c].key);
  }

  lemma CountedOut(callers: map<nat, Caller>, c: nat, key: string)
    requires c in callers
    ensures Users(callers, key) == Users(callers - {c}, key) + (if key == callers[c].key then 1 else 0)
    ensures Holders(callers, key) ==
            Holders(callers - {c}, key) + (if key == callers[c].key && callers[c].phase == Holding then 1 else 0)
  {
    OneMore(UserSet(callers - {c}, key), UserSet(callers, key), c, key == callers[c].key);
    OneMore(HolderSet(callers - {c}, key), HolderSet(callers, key), c, key == callers[c].key && callers[c].phase == Holding);
  }

  lemma NoUsers(callers: map<nat, Caller>, key: string)
    requires Users(callers, key) == 0
    ensures Holders(callers, key) == 0
    ensures forall c :: c in callers ==> callers[c].key != key
  {
    assert UserSet(callers, key) == {} == HolderSet(callers, key);
    assert forall c :: c in callers && callers[c].key == key ==> c in UserSet(callers, key);
  }

  /** At most one holder per key. */
  lemma SoleHolder(table: LatchTable, a: nat, b: nat)
    requires table.Valid() && a in table.callers && b in table.callers
    requires table.callers[a].key == table.callers[b].key
    requires table.callers[a].phase == Holding && table.callers[b].phase == Holding
    ensures a == b
  {
    assert table.KeyOk(table.callers[a].key);
    if a != b {
      var key := table.callers[a].key;
      CountedOut(table.callers, a, key);
      CountedOut(table.callers - {a}, b, key);
    }
  }
}
