/** What holds in every run of ordered acquisition. */
module ResourceRuns {
  import opened Wrappers
  import opened ResourceOrder
  import opened ResourceOrderProof

  /** n contexts outside any operation. */
  function Initial(n: nat): State {
    State(seq(n, _ => Context([], false, None, false, Outside, 0)), map[])
  }

  function Run(s: State, evs: seq<Event>): State {
    if evs == [] then s else Step(Run(s, evs[..|evs| - 1]), evs[|evs| - 1])
  }

  lemma {:induction false} NoUsers(xs: seq<Context>, k: Key)
    requires forall c :: 0 <= c < |xs| ==> xs[c].list == []
    ensures Users(xs, k) == 0
  {
    if xs != [] {
      NoUsers(xs[..|xs| - 1], k);
    }
  }

  lemma InitialOk(n: nat)
    ensures Inv(Initial(n))
  {
    forall k ensures Users(Initial(n).contexts, k) == 0 {
      NoUsers(Initial(n).contexts, k);
    }
  }

  lemma {:induction false} RunKeeps(n: nat, evs: seq<Event>)
    ensures Inv(Run(Initial(n), evs))
  {
    hide Inv, Step;
    if evs == [] {
      InitialOk(n);
    } else {
      RunKeeps(n, evs[..|evs| - 1]);
      StepKeeps(Run(Initial(n), evs[..|evs| - 1]), evs[|evs| - 1]);
    }
  }

  // ---------------------------------------------------------------- no deadlock

  /** A context waits only for a key above every key it holds. */
  lemma WaitsAbove(x: Context, k: Key)
    requires ContextOk(x) && Wants(x).Some? && HoldsKey(x, k)
    ensures Less(k, Wants(x).value)
  {
    var i :| 0 <= i < |x.list| && x.list[i].held && x.list[i].key == k;
    if x.at.Relocking? {
      assert i < x.at.next;
    }
  }

  /** Context c waits for a key that context d holds. */
  ghost predicate WaitsFor(s: State, c: nat, d: nat) {
    c < |s.contexts| && d < |s.contexts| && Wants(s.contexts[c]).Some?
        && HoldsKey(s.contexts[d], Wants(s.contexts[c]).value)
  }

  ghost predicate WaitCycle(s: State, cycle: seq<nat>) {
    && |cycle| > 0 && WaitsFor(s, cycle[|cycle| - 1], cycle[0])
    && forall i :: 0 <= i < |cycle| - 1 ==> WaitsFor(s, cycle[i], cycle[i + 1])
  }

  lemma WaitRises(s: State, c: nat, d: nat)
    requires Inv(s) && WaitsFor(s, c, d) && Wants(s.contexts[d]).Some?
    ensures Less(Wants(s.contexts[c]).value, Wants(s.contexts[d]).value)
  {
    WaitsAbove(s.contexts[d], Wants(s.contexts[c]).value);
  }

  lemma {:induction false} ChainRises(s: State, chain: seq<nat>, i: nat)
    requires Inv(s) && 0 < i < |chain| && WaitsFor(s, chain[0], chain[1])
              && (forall j :: 0 <= j < i ==> WaitsFor(s, chain[j], chain[j + 1]))
    requires chain[i] < |s.contexts| && Wants(s.contexts[chain[i]]).Some?
    ensures Less(Wants(s.contexts[chain[0]]).value, Wants(s.contexts[chain[i]]).value)
  {
    hide Inv, Wants, HoldsKey;
    assert WaitsFor(s, chain[i - 1], chain[i]);
    WaitRises(s, chain[i - 1], chain[i]);
    if i > 1 {
      ChainRises(s, chain, i - 1);
    } else {
      assert chain[i - 1] == chain[0];
    }
  }

  /** In no reachable state do contexts wait for each other in a cycle. */
  lemma NoWaitCycle(n: nat, evs: seq<Event>, cycle: seq<nat>)
    ensures !WaitCycle(Run(Initial(n), evs), cycle)
  {
    var s := Run(Initial(n), evs);
    RunKeeps(n, evs);
    if WaitCycle(s, cycle) {
      NoCycle(s, cycle);
    }
  }

  lemma NoCycle(s: State, cycle: seq<nat>)
    requires Inv(s)
    ensures !WaitCycle(s, cycle)
  {
    hide Inv, Wants, HoldsKey;
    if WaitCycle(s, cycle) {
      var last := |cycle| - 1;
      if last > 0 {
        assert WaitsFor(s, cycle[0], cycle[1]);
        WaitRises(s, cycle[last], cycle[0]);
        ChainRises(s, cycle, last);
      } else {
        WaitRises(s, cycle[0], cycle[0]);
      }
    }
  }

  /** If some context waits for a held key, then a context that holds a key is not waiting and can run. */
  lemma {:induction false} SomeoneRuns(s: State, c: nat, seen: set<nat>) returns (d: nat)
    requires Inv(s) && c < |s.contexts| && Wants(s.contexts[c]).Some? && !Free(s, Wants(s.contexts[c]).value)
    requires c !in seen && (forall e :: e in seen ==> e < |s.contexts|)
    requires forall e ::
              e in seen ==> Wants(s.contexts[e]).Some? && Less(Wants(s.contexts[e]).value, Wants(s.contexts[c]).value)
    ensures d < |s.contexts| && (exists k :: HoldsKey(s.contexts[d], k))
    ensures Wants(s.contexts[d]).None? || Free(s, Wants(s.contexts[d]).value)
    decreases |s.contexts| - |seen|
  {
    var w := Wants(s.contexts[c]).value;
    d :| 0 <= d < |s.contexts| && HoldsKey(s.contexts[d], w);
    if Wants(s.contexts[d]).Some? && !Free(s, Wants(s.contexts[d]).value) {
      WaitRises(s, c, d);
      SeenBound(seen + {c}, |s.contexts|);
      hide Inv, Wants, HoldsKey, Free;
      d := SomeoneRuns(s, d, seen + {c});
    }
  }

  lemma {:induction false} SeenBound(seen: set<nat>, n: nat)
    requires forall e :: e in seen ==> e < n
    ensures |seen| <= n
    decreases n
  {
    if n > 0 {
      SeenBound(seen - {n - 1}, n - 1);
    } else {
      assert seen == {};
    }
  }

  // ---------------------------------------------------------------- replays

  /** Every call of context c asks for a key of the set. */
  ghost predicate AsksWithin(evs: seq<Event>, c: nat, keys: set<Key>) {
    forall i :: 0 <= i < |evs| && evs[i].Call? && evs[i].c == c ==> evs[i].goal.key in keys
  }

  ghost predicate KeysWithin(x: Context, keys: set<Key>) {
    && (forall k :: Has(x.list, k) ==> k in keys)
    && (x.at.Asking? || x.at.Relocking? ==> x.at.goal.key in keys)
  }

  lemma StepWithin(s: State, ev: Event, c: nat, keys: set<Key>)
    requires Inv(s) && c < |s.contexts| && KeysWithin(s.contexts[c], keys)
    requires ev.Call? && ev.c == c ==> ev.goal.key in keys
    ensures c < |Step(s, ev).contexts| && KeysWithin(Step(s, ev).contexts[c], keys)
  {
    if Enabled(s, ev) && ev.c == c {
      var x := s.contexts[c];
      assert ContextOk(x);
      forall k | Has(StepContext(x, ev).list, k) ensures k in keys {
        KeptKeys(x, ev, k);
      }
      hide Has, ContextOk, Insert, Held, Less;
    }
  }

  lemma {:induction false} RunWithin(s: State, evs: seq<Event>, c: nat, keys: set<Key>)
    requires Inv(s) && c < |s.contexts| && KeysWithin(s.contexts[c], keys) && AsksWithin(evs, c, keys)
    ensures Inv(Run(s, evs)) && c < |Run(s, evs).contexts| && KeysWithin(Run(s, evs).contexts[c], keys)
  {
    if evs != [] {
      var short := evs[..|evs| - 1];
      assert AsksWithin(short, c, keys) by {
        forall i | 0 <= i < |short| && short[i].Call? && short[i].c == c ensures short[i].goal.key in keys {
          assert evs[i] == short[i];
        }
      }
      RunWithin(s, short, c, keys);
      hide Inv, Step, KeysWithin;
      StepKeeps(Run(s, short), evs[|evs| - 1]);
      StepWithin(Run(s, short), evs[|evs| - 1], c, keys);
    }
  }

  lemma {:induction false} ListBound(list: seq<Request>, keys: set<Key>)
    requires Ascending(list) && forall i :: 0 <= i < |list| ==> list[i].key in keys
    ensures |list| <= |keys|
    decreases |list|
  {
    if list != [] {
      var last := list[|list| - 1].key;
      var rest := list[..|list| - 1];
      forall i | 0 <= i < |rest| ensures rest[i].key in keys - {last} {
        assert Less(list[i].key, list[|list| - 1].key);
      }
      ListBound(rest, keys - {last});
    }
  }

  /** No operation is under way in context c, as at first and after every final release. */
  ghost predicate Between(s: State, c: nat) {
    c < |s.contexts| && s.contexts[c].list == [] && s.contexts[c].at.Outside?
  }

  /** A release that is not asked to replay ends the operation. */
  lemma ReleaseEnds(s: State, c: nat)
    requires c < |s.contexts| && s.contexts[c].at.Outside? && !s.contexts[c].retry
    ensures Between(Step(s, Release(c)), c) && Step(s, Release(c)).contexts[c].replays == 0
  {}

  /** An operation that begins after the run `pre` and asks for keys of a finite set is replayed fewer times than there
      are keys, whatever the context did before and whatever others do. */
  lemma ReplaysBounded(n: nat, pre: seq<Event>, op: seq<Event>, c: nat, keys: set<Key>)
    requires Between(Run(Initial(n), pre), c) && AsksWithin(op, c, keys)
    ensures var s := Run(Run(Initial(n), pre), op);
            c < |s.contexts| && (s.contexts[c].replays == 0 || s.contexts[c].replays < |keys|)
  {
    var s := Run(Initial(n), pre);
    RunKeeps(n, pre);
    RunWithin(s, op, c, keys);
    Bounded(Run(s, op).contexts[c], keys);
  }

  lemma Bounded(x: Context, keys: set<Key>)
    requires ContextOk(x) && KeysWithin(x, keys)
    ensures x.replays == 0 || x.replays < |keys|
  {
    forall i | 0 <= i < |x.list| ensures x.list[i].key in keys {
      HasIs(x.list, x.list[i].key);
    }
    ListBound(x.list, keys);
  }

  // ---------------------------------------------------------------- traps

  /** A key that is asked for again is held, or belongs to an unpublished inode. */
  lemma KeptIsCovered(n: nat, evs: seq<Event>, c: nat)
    requires var s := Run(Initial(n), evs); Enabled(s, Get(c))
    ensures var x := Run(Initial(n), evs).contexts[c];
            forall i :: 0 <= i < |x.list| && x.list[i].key == x.at.goal.key ==> Covered(x.list[i])
  {
    RunKeeps(n, evs);
    var x := Run(Initial(n), evs).contexts[c];
    assert ContextOk(x);
    AllCovered(x);
  }

  /** A resource without references is neither held nor waited for, so its mutex may be freed. */
  lemma UnreferencedIsIdle(n: nat, evs: seq<Event>, k: Key)
    ensures var s := Run(Initial(n), evs);
            k !in s.references ==> Free(s, k) && forall c :: 0 <= c < |s.contexts| ==> Wants(s.contexts[c]) != Some(k)
  {
    RunKeeps(n, evs);
    var s := Run(Initial(n), evs);
    if k !in s.references {
      forall c | 0 <= c < |s.contexts| ensures !HoldsKey(s.contexts[c], k) && Wants(s.contexts[c]) != Some(k) {
        assert ContextOk(s.contexts[c]);
        HasIs(s.contexts[c].list, k);
        if Has(s.contexts[c].list, k) {
          UsersAtLeast(s.contexts, c, k);
        }
      }
    }
  }
}
