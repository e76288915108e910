/** The linked structure behind the notification list: `next`, the address in `previous`, `retired_next`
    and the counters, updated in place. Each lock scope is proved to take the step of FileMappings. */
module FileMappingLinks {
  import opened FileMappings
  import opened FileMappingProof
  import opened Wrappers

  /** What `previous` holds: nothing, the address of the list head, or of a mapping's `next`. */
  datatype Link = NoLink | HeadLink | NextOf(m: nat)

  datatype Cell = Cell(next: Option<nat>, previous: Link, retiredNext: Option<nat>, borrows: nat)

  function LinkTo(list: seq<nat>, i: nat): Link
    requires i < |list|
  {
    if i == 0 then HeadLink else NextOf(list[i - 1])
  }

  /** The listed cells are chained in list order in both directions. */
  ghost predicate Chained(cs: seq<Cell>, head: Option<nat>, list: seq<nat>) {
    && head == First(list)
    && forall i :: 0 <= i < |list| ==>
         list[i] < |cs| && cs[list[i]].next == Following(list, i) && cs[list[i]].previous == LinkTo(list, i)
  }

  /** The cell of one mapping; off the list, `next` and `retired_next` agree. */
  ghost predicate Matches(c: Cell, x: Mapping) {
    && c.borrows == x.borrows && c.retiredNext == x.retired && (c.previous.NoLink? <==> !x.listed)
    && (!x.listed ==> c.next == x.retired)
  }

  ghost predicate MatchAll(cs: seq<Cell>, ns: seq<Mapping>) {
    |cs| == |ns| && forall m :: 0 <= m < |ns| ==> Matches(cs[m], ns[m])
  }

  ghost predicate Represents(cs: seq<Cell>, head: Option<nat>, borrows: nat, closing: bool, s: State) {
    MatchAll(cs, s.nodes) && Chained(cs, head, s.list) && borrows == s.total && closing == s.closing
  }

  // ---------------------------------------------------------------- pieces of the proofs

  lemma BumpMatches(cs: seq<Cell>, ns: seq<Mapping>, m: nat)
    requires MatchAll(cs, ns) && m < |cs|
    ensures MatchAll(cs[m := Cell(cs[m].next, cs[m].previous, cs[m].retiredNext, cs[m].borrows + 1)], Bump(ns, m))
  {}

  lemma BumpChained(cs: seq<Cell>, head: Option<nat>, list: seq<nat>, m: nat, b: nat)
    requires Chained(cs, head, list) && m < |cs|
    ensures Chained(cs[m := Cell(cs[m].next, cs[m].previous, cs[m].retiredNext, b)], head, list)
  {}

  lemma WithoutAt(list: seq<nat>, i: nat, j: nat)
    requires i < |list| && j < |list| - 1
    ensures var list', j' := Without(list, i), if j < i then j else j + 1;
            && |list'| == |list| - 1 && list'[j] == list[j'] && j' != i
            && Following(list', j) == Following(list, if j' + 1 == i then i else j')
            && LinkTo(list', j) == LinkTo(list, if j' == i + 1 then i else j')
  {}

  /** The cells after entry i is unlinked: its neighbours point at each other. */
  ghost predicate Unlinks(cs: seq<Cell>, cs': seq<Cell>, m: nat, next: Option<nat>, previous: Link) {
    && |cs'| == |cs|
    && forall q: nat :: q < |cs| && q != m ==>
         cs'[q] == Cell(if previous == NextOf(q) then next else cs[q].next,
                        if next == Some(q) then previous else cs[q].previous, cs[q].retiredNext, cs[q].borrows)
  }

  ghost predicate AllDistinct(list: seq<nat>) {
    forall i, j :: 0 <= i < j < |list| ==> list[i] != list[j]
  }

  lemma ListDistinct(s: State)
    requires Listing(s.nodes, s.list)
    ensures AllDistinct(s.list)
  {
    forall i, j | 0 <= i < j < |s.list| ensures s.list[i] != s.list[j] {
      assert s.nodes[s.list[i]].stamp > s.nodes[s.list[j]].stamp;
    }
  }

  lemma UnlinkedAt(cs: seq<Cell>, cs': seq<Cell>, head: Option<nat>, list: seq<nat>, i: nat, j: nat)
    requires Chained(cs, head, list) && AllDistinct(list) && i < |list| && j < |list| && j != i
    requires Unlinks(cs, cs', list[i], Following(list, i), LinkTo(list, i))
    ensures list[j] < |cs'|
    ensures cs'[list[j]].next == Following(list, if j + 1 == i then i else j)
    ensures cs'[list[j]].previous == LinkTo(list, if j == i + 1 then i else j)
  {
    assert list[j] != list[i];
  }

  lemma UnlinkChained(cs: seq<Cell>, cs': seq<Cell>, head: Option<nat>, list: seq<nat>, i: nat)
    requires Chained(cs, head, list) && AllDistinct(list) && i < |list|
    requires Unlinks(cs, cs', list[i], Following(list, i), LinkTo(list, i))
    ensures Chained(cs', if i == 0 then Following(list, i) else head, Without(list, i))
  {
    var list' := Without(list, i);
    UnlinkHead(list, i);
    assert head == First(list);
    hide Unlinks, AllDistinct, Without, Following, LinkTo, First;
    forall j | 0 <= j < |list'|
      ensures list'[j] < |cs'| && cs'[list'[j]].next == Following(list', j)
                && cs'[list'[j]].previous == LinkTo(list', j)
    {
      WithoutAt(list, i, j);
      UnlinkedAt(cs, cs', head, list, i, if j < i then j else j + 1);
    }
  }

  lemma UnlinkHead(list: seq<nat>, i: nat)
    requires i < |list|
    ensures |Without(list, i)| == |list| - 1
    ensures First(Without(list, i)) == if i == 0 then Following(list, i) else First(list)
  {}

  /** The cells after m is linked in front. */
  ghost predicate Links(cs: seq<Cell>, cs': seq<Cell>, m: nat, head: Option<nat>) {
    && |cs'| == |cs| && m < |cs| && cs'[m] == Cell(head, HeadLink, None, 0)
    && forall q: nat :: q < |cs| && q != m ==>
         cs'[q] == Cell(cs[q].next,
                        if head == Some(q) then NextOf(m) else cs[q].previous, cs[q].retiredNext, cs[q].borrows)
  }

  lemma LinkChained(cs: seq<Cell>, cs': seq<Cell>, head: Option<nat>, list: seq<nat>, m: nat)
    requires Chained(cs, head, list) && AllDistinct(list) && m !in list && Links(cs, cs', m, head)
    ensures Chained(cs', Some(m), [m] + list)
  {
    var list' := [m] + list;
    LinkedFirst(cs, cs', head, list, m);
    hide Links, AllDistinct, Following, LinkTo, Chained;
    forall j | 0 <= j < |list'|
      ensures list'[j] < |cs'| && cs'[list'[j]].next == Following(list', j)
                && cs'[list'[j]].previous == LinkTo(list', j)
    {
      if j > 0 {
        LinkedAt(cs, cs', head, list, m, j - 1);
      }
    }
    ChainedIntro(cs', Some(m), list');
  }

  lemma LinkedFirst(cs: seq<Cell>, cs': seq<Cell>, head: Option<nat>, list: seq<nat>, m: nat)
    requires Chained(cs, head, list) && Links(cs, cs', m, head)
    ensures m < |cs'| && cs'[m].next == Following([m] + list, 0) && cs'[m].previous == LinkTo([m] + list, 0)
    ensures First([m] + list) == Some(m)
  {}

  lemma ChainedIntro(cs: seq<Cell>, head: Option<nat>, list: seq<nat>)
    requires head == First(list)
    requires forall i ::
              0 <= i < |list| ==>
                  list[i] < |cs| && cs[list[i]].next == Following(list, i) && cs[list[i]].previous == LinkTo(list, i)
    ensures Chained(cs, head, list)
  {}

  lemma LinkedAt(cs: seq<Cell>, cs': seq<Cell>, head: Option<nat>, list: seq<nat>, m: nat, j: nat)
    requires Chained(cs, head, list) && AllDistinct(list) && m !in list && Links(cs, cs', m, head) && j < |list|
    ensures var list' := [m] + list;
            list[j] < |cs'| && cs'[list[j]].next == Following(list', j + 1)
                && cs'[list[j]].previous == LinkTo(list', j + 1)
  {
    assert list[j] in list;
    if j > 0 {
      assert list[0] != list[j];
    }
  }

  lemma UnlinkMatches(cs: seq<Cell>, cs': seq<Cell>, ns: seq<Mapping>, m: nat, next: Option<nat>, previous: Link,
                      x: Mapping)
    requires MatchAll(cs, ns) && Unlinks(cs, cs', m, next, previous) && m < |cs| && Matches(cs'[m], x)
    requires previous.NextOf? ==> previous.m < |cs| && ns[previous.m].listed
    requires next.Some? ==> next.value < |cs| && ns[next.value].listed && !previous.NoLink?
    ensures MatchAll(cs', ns[m := x])
  {
    forall q | 0 <= q < |ns| ensures Matches(cs'[q], ns[m := x][q]) {
      assert Matches(cs[q], ns[q]);
    }
  }

  lemma LinkMatches(cs: seq<Cell>, cs': seq<Cell>, ns: seq<Mapping>, m: nat, head: Option<nat>, x: Mapping)
    requires MatchAll(cs, ns) && Links(cs, cs', m, head) && Matches(cs'[m], x)
    requires head.Some? ==> head.value < |cs| && ns[head.value].listed
    ensures MatchAll(cs', ns[m := x])
  {
    forall q | 0 <= q < |ns| ensures Matches(cs'[q], ns[m := x][q]) {
      assert Matches(cs[q], ns[q]);
    }
  }

  /** A cell's `previous` is set exactly while the mapping is listed, and then locates it. */
  lemma Linked(cs: seq<Cell>, head: Option<nat>, s: State, m: nat)
    requires MatchAll(cs, s.nodes) && Chained(cs, head, s.list) && Listing(s.nodes, s.list) && m < |cs|
    ensures !cs[m].previous.NoLink? <==> m in s.list
    ensures m in s.list ==>
              cs[m].next == Following(s.list, IndexOf(s.list, m))
                  && cs[m].previous == LinkTo(s.list, IndexOf(s.list, m))
    ensures m !in s.list ==> cs[m].retiredNext == s.nodes[m].retired
  {
    assert Matches(cs[m], s.nodes[m]);
  }

  lemma EmptyRepresents()
    ensures Inv(EMPTY) && Represents([], None, 0, false, EMPTY)
  {
    EmptyOk();
  }

  class MappingState {
    var mappings: Option<nat>
    var cells: seq<Cell>
    var borrows: nat
    var closing: bool
    ghost var model: State

    ghost predicate Valid()
      reads this
    {
      Inv(model) && Represents(cells, mappings, borrows, closing, model)
    }

    constructor ()
      ensures Valid() && model == EMPTY
    {
      hide Inv, Represents;
      mappings, cells, borrows, closing, model := None, [], 0, false, EMPTY;
      EmptyRepresents();
    }

    /** `borrow` */
    method Borrow(o: Option<nat>)
      requires o.Some? ==> o.value < |cells|
      modifies this`cells, this`borrows
      ensures borrows == old(borrows) + Extra(o) && |cells| == |old(cells)|
      ensures forall ns :: MatchAll(old(cells), ns) ==> MatchAll(cells, Borrowed(ns, o))
      ensures forall head, list :: Chained(old(cells), head, list) ==> Chained(cells, head, list)
    {
      if o.Some? {
        var c := cells[o.value];
        cells := cells[o.value := Cell(c.next, c.previous, c.retiredNext, c.borrows + 1)];
        borrows := borrows + 1;
        forall ns | MatchAll(old(cells), ns) ensures MatchAll(cells, Borrowed(ns, o)) {
          BumpMatches(old(cells), ns, o.value);
        }
        forall head, list | Chained(old(cells), head, list) ensures Chained(cells, head, list) {
          BumpChained(old(cells), head, list, o.value, c.borrows + 1);
        }
      }
    }

    /** A mapping object comes into being, zeroed. */
    method Create() returns (m: nat)
      requires Valid()
      modifies this`cells, this`model
      ensures Valid() && model == Step(old(model), FileMappings.Create) && m == |old(cells)|
    {
      hide Inv, Step, MatchAll, Chained;
      m := |cells|;
      StepKeeps(model, FileMappings.Create);
      CreateRepresents(cells, mappings, model);
      cells := cells + [Cell(None, NoLink, None, 0)];
      model := Step(model, FileMappings.Create);
    }

    /** `kernel_file_mapping_register`; false is the busy status while the list is closing. */
    method Register(m: nat) returns (ok: bool)
      requires Valid() && m < |cells|
      requires cells[m].previous.NoLink? && cells[m].borrows == 0
      modifies this`cells, this`mappings, this`model
      ensures Valid() && model == Step(old(model), FileMappings.Register(m)) && ok == !closing
    {
      hide Inv, Step, MatchAll, Chained, Links, AllDistinct;
      StepKeeps(model, FileMappings.Register(m));
      RegisterFacts(cells, mappings, model, m);
      assert cells[m].retiredNext.None?;
      if closing {
        return false;
      }
      ghost var before := cells;
      cells := cells[m := Cell(mappings, HeadLink, None, 0)];
      if mappings.Some? {
        var n := mappings.value;
        cells := cells[n := Cell(cells[n].next, NextOf(m), cells[n].retiredNext, cells[n].borrows)];
      }
      LinksIntro(before, cells, m, mappings);
      LinkChained(before, cells, mappings, model.list, m);
      LinkMatches(before, cells, model.nodes, m, mappings, Mapping(true, None, 0, model.clock));
      mappings := Some(m);
      model := Step(model, FileMappings.Register(m));
      return true;
    }

    /** `kernel_file_mapping_stop`, whose consistency traps cannot fire. */
    method Stop(m: nat)
      requires Valid() && m < |cells|
      modifies this`cells, this`mappings, this`borrows, this`model
      ensures Valid() && model == Step(old(model), FileMappings.Stop(m)) && closing == old(closing)
    {
      hide Inv, Step, MatchAll, Chained, Unlinks, AllDistinct, IndexOf, Without, Following, LinkTo, Borrowed;
      StepKeeps(model, FileMappings.Stop(m));
      StopFacts(cells, mappings, model, m);
      if cells[m].previous.NoLink? {
        return;
      }
      ghost var i, before, x := IndexOf(model.list, m), cells, Unlinked(model, m);
      var next, previous := cells[m].next, cells[m].previous;
      assert (if previous.HeadLink? then mappings else cells[previous.m].next) == Some(m);
      assert cells[m].retiredNext.None?;
      assert next.Some? ==> cells[next.value].previous == NextOf(m);
      Unlink(m, next, previous);
      var b := cells[m].borrows;
      ReplaceOwn(before, cells, m, next, previous,
                 if b > 0 then Cell(next, NoLink, next, b) else Cell(None, NoLink, None, 0));
      cells := cells[m := if b > 0 then Cell(next, NoLink, next, b) else Cell(None, NoLink, None, 0)];
      OwnCell(before, old(mappings), model, m, next, previous, cells);
      if b > 0 {
        Borrow(next);
      } else {
        BorrowNone(model.nodes[m := x]);
      }
      StopRepresents(model, m);
      model := Step(model, FileMappings.Stop(m));
    }

    /** The relinking of the neighbours. */
    method Unlink(m: nat, next: Option<nat>, previous: Link)
      requires m < |cells| && !previous.NoLink? && (previous.NextOf? ==> previous.m < |cells| && previous.m != m)
      requires next.Some? ==> next.value < |cells| && next.value != m
      modifies this`cells, this`mappings
      ensures Unlinks(old(cells), cells, m, next, previous)
      ensures cells[m] == Cell(old(cells[m]).next, NoLink, old(cells[m]).retiredNext, old(cells[m]).borrows)
      ensures mappings == if previous.HeadLink? then next else old(mappings)
    {
      if previous.HeadLink? {
        mappings := next;
      } else {
        var p := previous.m;
        cells := cells[p := Cell(next, cells[p].previous, cells[p].retiredNext, cells[p].borrows)];
      }
      if next.Some? {
        var n := next.value;
        cells := cells[n := Cell(cells[n].next, previous, cells[n].retiredNext, cells[n].borrows)];
      }
      cells := cells[m := Cell(cells[m].next, NoLink, cells[m].retiredNext, cells[m].borrows)];
    }

    /** The first scope of `notify`. */
    method StartWalk() returns (mapping: Option<nat>)
      requires Valid()
      modifies this`cells, this`borrows, this`model
      ensures Valid() && model == Step(old(model), Start) && closing == old(closing)
      ensures |model.walkers| > 0 && model.walkers[|model.walkers| - 1].phase == At(mapping)
    {
      hide Inv, Step, MatchAll, Chained, Borrowed;
      StepKeeps(model, Start);
      StartFacts(cells, mappings, model);
      mapping := mappings;
      Borrow(mapping);
      model := Step(model, Start);
    }

    /** The activity check of walker w, which is on mapping m. */
    method CheckActive(ghost w: nat, m: nat) returns (active: bool)
      requires Valid() && w < |model.walkers| && model.walkers[w].phase == At(Some(m))
      modifies this`model
      ensures Valid() && model == Step(old(model), Check(w))
      ensures w < |model.walkers| && model.walkers[w].phase == Called(m)
      ensures model.walkers[w].called == old(model).walkers[w].called + if active then [m] else []
    {
      hide Inv, Step, MatchAll, Chained;
      StepKeeps(model, Check(w));
      CheckFacts(cells, mappings, model, w, m);
      active := !cells[m].previous.NoLink?;
      model := Step(model, Check(w));
    }

    /** The successor scope of walker w. */
    method Advance(ghost w: nat, m: nat) returns (next: Option<nat>)
      requires Valid() && w < |model.walkers| && model.walkers[w].phase == Called(m)
      modifies this`cells, this`borrows, this`model
      ensures Valid() && model == Step(old(model), FileMappings.Advance(w)) && closing == old(closing)
      ensures w < |model.walkers| && model.walkers[w].phase == Leaving(Some(m), next)
    {
      hide Inv, Step, MatchAll, Chained, Borrowed, Successor;
      StepKeeps(model, FileMappings.Advance(w));
      AdvanceFacts(cells, mappings, model, w, m);
      next := if cells[m].previous.NoLink? then cells[m].retiredNext else cells[m].next;
      Borrow(next);
      model := Step(model, FileMappings.Advance(w));
    }

    /** One raw segment of `put` for walker w: the loop of `put_segment`. */
    method PutSegment(ghost w: nat, mapping: nat) returns (rest: Option<nat>)
      requires Valid() && w < |model.walkers| && model.walkers[w].phase.Leaving?
                && model.walkers[w].phase.put == Some(mapping)
      modifies this`cells, this`borrows, this`model
      ensures Valid() && model == Step(old(model), Put(w)) && closing == old(closing)
      ensures w < |model.walkers|
      ensures model.walkers[w].phase
                == var next := old(model).walkers[w].phase.next; if rest.Some? then Leaving(rest, next) else At(next)
    {
      hide Inv, Step, MatchAll, Chained, AccountOk, Retireds, Lowered, Drop;
      StepKeeps(model, Put(w));
      ghost var ws := PutFacts(cells, mappings, model, w, mapping);
      ghost var list, ns, total := model.list, model.nodes, model.total;
      rest := Some(mapping);
      var count := 0;
      while rest.Some? && count < SEGMENT
        invariant model == old(model) && closing == old(closing)
        invariant count <= SEGMENT && (rest.Some? ==> rest.value < |ns|) && borrows == total
        invariant MatchAll(cells, ns) && Chained(cells, mappings, list) && Retireds(ns)
        invariant AccountOk(ns, ws, total, rest)
        invariant Drop(model.nodes, model.total, Some(mapping), SEGMENT) == Drop(ns, total, rest, SEGMENT - count)
        decreases SEGMENT - count
      {
        var m := rest.value;
        SegmentFacts(cells, mappings, list, ns, ws, total, m, SEGMENT - count);
        assert cells[m].borrows > 0 && borrows > 0;
        ghost var x, before := ns[m], cells;
        var c := cells[m];
        borrows := borrows - 1;
        if c.borrows > 1 || !c.previous.NoLink? {
          cells := cells[m := Cell(c.next, c.previous, c.retiredNext, c.borrows - 1)];
          rest := None;
          ns, total := ns[m := Mapping(x.listed, x.retired, x.borrows - 1, x.stamp)], total - 1;
        } else {
          cells := cells[m := Cell(None, c.previous, None, 0)];
          rest := c.retiredNext;
          ns, total := ns[m := Mapping(x.listed, None, 0, x.stamp)], total - 1;
        }
        count := count + 1;
      }
      DropEnds(ns, total, rest, SEGMENT - count);
      PutRepresents(model, w);
      model := Step(model, Put(w));
    }
  }

  // ---------------------------------------------------------------- the steps seen from the cells

  lemma RegisterFacts(cs: seq<Cell>, head: Option<nat>, s: State, m: nat)
    requires Inv(s) && MatchAll(cs, s.nodes) && Chained(cs, head, s.list) && m < |cs|
    requires cs[m].previous.NoLink? && cs[m].borrows == 0
    ensures cs[m].retiredNext.None? && |cs| == |s.nodes| && m !in s.list && AllDistinct(s.list)
    ensures head.Some? ==> head.value < |cs| && head.value != m && s.nodes[head.value].listed
    ensures s.closing ==> Step(s, Register(m)) == s
    ensures !s.closing ==>
              var t := Step(s, Register(m));
              && t.nodes == s.nodes[m := Mapping(true, None, 0, s.clock)] && t.list == [m] + s.list
              && t.total == s.total && t.closing == s.closing
  {
    assert Matches(cs[m], s.nodes[m]);
    assert RetiredOk(s.nodes, s.nodes[m]);
    hide AccountOk, Retireds, WalkerOk, Stamped;
    ListDistinct(s);
  }

  lemma LinksIntro(cs: seq<Cell>, cs': seq<Cell>, m: nat, head: Option<nat>)
    requires m < |cs| && (head.Some? ==> head.value < |cs| && head.value != m)
    requires var c1 := cs[m := Cell(head, HeadLink, None, 0)];
             cs' == if head.Some?
                 then c1[head.value := Cell(cs[head.value].next, NextOf(m), cs[head.value].retiredNext,
                                            cs[head.value].borrows)]
                    else c1
    ensures Links(cs, cs', m, head)
  {}

  lemma StopFacts(cs: seq<Cell>, head: Option<nat>, s: State, m: nat)
    requires Inv(s) && MatchAll(cs, s.nodes) && Chained(cs, head, s.list) && m < |cs|
    ensures |cs| == |s.nodes| && AllDistinct(s.list)
    ensures cs[m].previous.NoLink? ==> Step(s, Stop(m)) == s
    ensures !cs[m].previous.NoLink? ==>
              && m in s.list && cs[m].retiredNext.None? && cs[m].borrows == s.nodes[m].borrows
              && cs[m].next == Following(s.list, IndexOf(s.list, m))
              && cs[m].previous == LinkTo(s.list, IndexOf(s.list, m))
              && (cs[m].previous.HeadLink? <==> IndexOf(s.list, m) == 0)
              && (cs[m].previous.HeadLink? ==> head == Some(m))
              && (cs[m].previous.NextOf? ==>
                    && cs[m].previous.m < |cs| && cs[m].previous.m != m
                    && s.nodes[cs[m].previous.m].listed && cs[cs[m].previous.m].next == Some(m))
              && (cs[m].next.Some? ==>
                    && cs[m].next.value < |cs| && cs[m].next.value != m
                    && s.nodes[cs[m].next.value].listed && cs[cs[m].next.value].previous == NextOf(m))
  {
    hide AccountOk, Retireds, WalkerOk, Stamped, Listing, Chained, MatchAll, AllDistinct, IndexOf, Following, LinkTo,
        Step;
    SameLength(cs, s.nodes);
    ListDistinct(s);
    Linked(cs, head, s, m);
    if m in s.list {
      ListedRetiresNone(s, m);
      MatchedNode(cs, s.nodes, m);
      StopNeighbours(cs, head, s.list, IndexOf(s.list, m));
      ListedNeighbours(s, IndexOf(s.list, m));
    } else {
      StopDisabled(s, m);
    }
  }

  lemma StopDisabled(s: State, m: nat)
    requires m !in s.list
    ensures Step(s, Stop(m)) == s
  {}

  lemma MatchedNode(cs: seq<Cell>, ns: seq<Mapping>, m: nat)
    requires MatchAll(cs, ns) && m < |cs|
    ensures cs[m].borrows == ns[m].borrows && cs[m].retiredNext == ns[m].retired
  {
    assert Matches(cs[m], ns[m]);
  }

  lemma ListedNeighbours(s: State, i: nat)
    requires Listing(s.nodes, s.list) && i < |s.list|
    ensures LinkTo(s.list, i).NextOf? ==> LinkTo(s.list, i).m < |s.nodes| && s.nodes[LinkTo(s.list, i).m].listed
    ensures Following(s.list, i).Some? ==>
              Following(s.list, i).value < |s.nodes| && s.nodes[Following(s.list, i).value].listed
  {}

  lemma StopNeighbours(cs: seq<Cell>, head: Option<nat>, list: seq<nat>, i: nat)
    requires Chained(cs, head, list) && AllDistinct(list) && i < |list|
    ensures LinkTo(list, i).HeadLink? <==> i == 0
    ensures LinkTo(list, i).HeadLink? ==> head == Some(list[i])
    ensures LinkTo(list, i).NextOf? ==>
              i > 0 && list[i - 1] == LinkTo(list, i).m < |cs| && list[i - 1] != list[i]
                  && cs[list[i - 1]].next == Some(list[i])
    ensures Following(list, i).Some? ==>
              i + 1 < |list| && list[i + 1] == Following(list, i).value < |cs| && list[i + 1] != list[i]
              && cs[list[i + 1]].previous == NextOf(list[i])
  {}

  lemma OwnCell(cs: seq<Cell>, head: Option<nat>, s: State, m: nat, next: Option<nat>, previous: Link, cs': seq<Cell>)
    requires MatchAll(cs, s.nodes) && Chained(cs, head, s.list) && AllDistinct(s.list) && m < |cs| && m in s.list
    requires next == Following(s.list, IndexOf(s.list, m)) && previous == LinkTo(s.list, IndexOf(s.list, m))
    requires Unlinks(cs, cs', m, next, previous)
    requires previous.NextOf? ==> previous.m < |cs| && s.nodes[previous.m].listed
    requires next.Some? ==> next.value < |cs| && s.nodes[next.value].listed
    requires var b := s.nodes[m].borrows;
             cs'[m] == if b > 0 then Cell(next, NoLink, next, b) else Cell(None, NoLink, None, 0)
    ensures MatchAll(cs', s.nodes[m := Unlinked(s, m)])
    ensures Chained(cs', if previous.HeadLink? then next else head, Without(s.list, IndexOf(s.list, m)))
  {
    hide Without, Following, IndexOf, AllDistinct, Unlinks;
    UnlinkChained(cs, cs', head, s.list, IndexOf(s.list, m));
    UnlinkMatches(cs, cs', s.nodes, m, next, previous, Unlinked(s, m));
  }

  lemma ReplaceOwn(cs: seq<Cell>, c1: seq<Cell>, m: nat, next: Option<nat>, previous: Link, c: Cell)
    requires Unlinks(cs, c1, m, next, previous) && m < |cs|
    ensures Unlinks(cs, c1[m := c], m, next, previous)
  {}

  lemma StopRepresents(s: State, m: nat)
    requires m < |s.nodes| && m in s.list
    ensures var t, x := Step(s, Stop(m)), Unlinked(s, m);
            && t.nodes == Borrowed(s.nodes[m := x], x.retired) && t.list == Without(s.list, IndexOf(s.list, m))
            && t.total == s.total + Extra(x.retired) && t.closing == s.closing
  {}

  lemma BorrowNone(ns: seq<Mapping>)
    ensures Borrowed(ns, None) == ns
  {}

  lemma StartFacts(cs: seq<Cell>, head: Option<nat>, s: State)
    requires Inv(s) && MatchAll(cs, s.nodes) && Chained(cs, head, s.list)
    ensures head.Some? ==> head.value < |cs|
    ensures var t := Step(s, Start);
            && t.nodes == Borrowed(s.nodes, head) && t.list == s.list && t.total == s.total + Extra(head)
            && t.closing == s.closing
            && |t.walkers| > 0 && t.walkers[|t.walkers| - 1].phase == At(head)
  {
    hide Inv, MatchAll, Borrowed;
  }

  lemma CheckFacts(cs: seq<Cell>, head: Option<nat>, s: State, w: nat, m: nat)
    requires Inv(s) && MatchAll(cs, s.nodes) && w < |s.walkers| && s.walkers[w].phase == At(Some(m))
    ensures m < |cs| && |cs| == |s.nodes|
    ensures var t := Step(s, Check(w));
            && t.nodes == s.nodes && t.list == s.list && t.total == s.total && t.closing == s.closing
            && w < |t.walkers| && t.walkers[w].phase == Called(m)
            && t.walkers[w].called == s.walkers[w].called + if !cs[m].previous.NoLink? then [m] else []
  {
    assert WalkerOk(s.nodes, s.walkers[w]);
    assert Matches(cs[m], s.nodes[m]);
    hide Inv;
  }

  lemma AdvanceFacts(cs: seq<Cell>, head: Option<nat>, s: State, w: nat, m: nat)
    requires Inv(s) && MatchAll(cs, s.nodes) && Chained(cs, head, s.list) && w < |s.walkers|
              && s.walkers[w].phase == Called(m)
    ensures m < |cs|
    ensures var t, next := Step(s, Advance(w)), if cs[m].previous.NoLink? then cs[m].retiredNext else cs[m].next;
            && (next.Some? ==> next.value < |cs|)
            && t.nodes == Borrowed(s.nodes, next) && t.list == s.list && t.total == s.total + Extra(next)
            && t.closing == s.closing
            && w < |t.walkers| && t.walkers[w].phase == Leaving(Some(m), next)
  {
    hide AccountOk, Retireds, WalkerOk, ListOk, MatchAll, Chained, Step, Borrowed, IndexOf, Following, GoesTo, Live,
        Successor;
    assert WalkerOk(s.nodes, s.walkers[w]);
    CalledWithin(s.nodes, s.walkers[w]);
    WalkerIsLive(s, w, m);
    LiveIfBorrowed(s.nodes[m]);
    SuccessorGoesTo(s, m);
    GoesToLive(s.nodes, m, Successor(s, m));
    SameLength(cs, s.nodes);
    SuccessorCell(cs, head, s, m);
    AdvanceModel(s, w, m);
  }

  lemma SuccessorCell(cs: seq<Cell>, head: Option<nat>, s: State, m: nat)
    requires MatchAll(cs, s.nodes) && Chained(cs, head, s.list) && ListOk(s) && m < |cs|
    ensures Successor(s, m) == if cs[m].previous.NoLink? then cs[m].retiredNext else cs[m].next
  {
    Linked(cs, head, s, m);
  }

  lemma AdvanceModel(s: State, w: nat, m: nat)
    requires w < |s.walkers| && s.walkers[w].phase == Called(m) && m < |s.nodes|
    ensures var t, next := Step(s, Advance(w)), Successor(s, m);
            && t.nodes == Borrowed(s.nodes, next) && t.list == s.list && t.total == s.total + Extra(next)
            && t.closing == s.closing
            && w < |t.walkers| && t.walkers[w].phase == Leaving(Some(m), next)
  {}

  lemma SameLength(cs: seq<Cell>, ns: seq<Mapping>)
    requires MatchAll(cs, ns)
    ensures |cs| == |ns|
  {}

  lemma PutFacts(cs: seq<Cell>, head: Option<nat>, s: State, w: nat, m: nat) returns (ws: seq<Walker>)
    requires Inv(s) && w < |s.walkers| && s.walkers[w].phase.Leaving? && s.walkers[w].phase.put == Some(m)
    ensures m < |s.nodes| && Retireds(s.nodes) && AccountOk(s.nodes, ws, s.total, Some(m))
  {
    hide AccountOk, Retireds, WalkerOk, ListOk;
    var k := s.walkers[w];
    var k1 := Walker(Leaving(None, k.phase.next), k.start, k.seen, k.called);
    assert WalkerOk(s.nodes, k);
    CalledWithin(s.nodes, k);
    ws := s.walkers[w := k1];
    WalkerGives(s.nodes, s.walkers, s.total, Some(m), w, k1);
  }

  /** One round of the segment loop. */
  lemma SegmentFacts(cs: seq<Cell>, head: Option<nat>, list: seq<nat>, ns: seq<Mapping>, ws: seq<Walker>, total: nat,
                     m: nat, n: nat)
    requires MatchAll(cs, ns) && Chained(cs, head, list) && Retireds(ns) && AccountOk(ns, ws, total, Some(m))
              && m < |ns| && n > 0
    ensures |cs| == |ns| && Matches(cs[m], ns[m]) && ns[m].borrows > 0 && total > 0
    ensures ns[m].retired.Some? ==> ns[m].retired.value < |ns|
    ensures var x, c := ns[m], cs[m];
            if x.borrows > 1 || x.listed then
              var y, d := Mapping(x.listed, x.retired, x.borrows - 1, x.stamp),
                  Cell(c.next, c.previous, c.retiredNext, c.borrows - 1);
              && MatchAll(cs[m := d], ns[m := y]) && Chained(cs[m := d], head, list) && Retireds(ns[m := y])
              && AccountOk(ns[m := y], ws, total - 1, None)
              && Drop(ns, total, Some(m), n) == Drop(ns[m := y], total - 1, None, n - 1)
            else
              var y, d := Mapping(x.listed, None, 0, x.stamp), Cell(None, c.previous, None, 0);
              && MatchAll(cs[m := d], ns[m := y]) && Chained(cs[m := d], head, list) && Retireds(ns[m := y])
              && AccountOk(ns[m := y], ws, total - 1, x.retired)
              && Drop(ns, total, Some(m), n) == Drop(ns[m := y], total - 1, x.retired, n - 1)
  {
    hide AccountOk, Retireds;
    HeldNode(ns, ws, total, m);
    var x, c := ns[m], cs[m];
    assert Matches(c, x);
    var y := Mapping(x.listed, if x.borrows > 1 || x.listed then x.retired else None, x.borrows - 1, x.stamp);
    DropAccount(ns, ws, total, m, y);
    LowerRetired(ns, m, y);
    assert !x.listed ==> m !in list;
  }

  lemma DropEnds(ns: seq<Mapping>, total: nat, o: Option<nat>, n: nat)
    requires o.None? || n == 0
    ensures Drop(ns, total, o, n) == (ns, total, o)
  {}

  lemma PutRepresents(s: State, w: nat)
    requires Enabled(s, Put(w))
    ensures var t, (ns, total, rest) := Step(s, Put(w)), Drop(s.nodes, s.total, s.walkers[w].phase.put, SEGMENT);
            && t.nodes == ns && t.total == total && t.list == s.list && t.closing == s.closing && w < |t.walkers|
            && t.walkers[w].phase
            == if rest.Some? then Leaving(rest, s.walkers[w].phase.next) else At(s.walkers[w].phase.next)
  {}

  lemma CreateRepresents(cs: seq<Cell>, head: Option<nat>, s: State)
    requires MatchAll(cs, s.nodes) && Chained(cs, head, s.list)
    ensures Represents(cs + [Cell(None, NoLink, None, 0)], head, s.total, s.closing, Step(s, Create))
    ensures |cs| == |s.nodes|
  {}
}
