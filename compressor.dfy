/** The element compressor: event containers and elements as objects whose command lists
    the compressor edits in place, the two elimination passes as loops over those lists,
    the recursion over an element's loops and triggers, the per-element decision to
    compress, and the thread-count setting. Each pass is proved to compute exactly the
    function of the same name in module Obsolete or Logic, where its guarantees are
    proved. */
module Compressor {
  import opened Events
  import opened Obsolete
  import opened Logic

  /** An event container: an element's own command list, or one of its loops or
      triggers. */
  class Container {
    /** EventList: the commands, in the order they were added. */
    var events: seq<Event>
    /** ObsoleteList.TimingList: the obsolete ranges, filled before compression starts. */
    const timing: seq<Span>
    /** The declared extent of a loop or a trigger (StartTime, EndTime). */
    const extent: Span

    ghost predicate Valid()
      reads this
    {
      UniqueIds(events) && WellFormed(events)
    }

    constructor (events: seq<Event>, timing: seq<Span>, extent: Span)
      requires UniqueIds(events) && WellFormed(events)
      ensures Valid()
      ensures this.events == events && this.timing == timing && this.extent == extent
    {
      this.events := events;
      this.timing := timing;
      this.extent := extent;
    }
  }

  /** An element (a sprite or an animation): its own container, its loops and triggers,
      and the default position a lone move can be folded into. */
  class Element {
    const own: Container
    const loops: seq<Container>
    const triggers: seq<Container>
    var defaultX: Param
    var defaultY: Param

    ghost function Parts(): set<Container> {
      {own} + (set c | c in loops) + (set c | c in triggers)
    }

    /** Every container is valid and appears once in the element. */
    ghost predicate Valid()
      reads Parts()
    {
      own.Valid() && AllValid(loops) && AllValid(triggers) &&
      own !in loops && own !in triggers &&
      (forall c :: c in loops ==> c !in triggers)
    }

    constructor (own: Container, loops: seq<Container>, triggers: seq<Container>, x: Param, y: Param)
      ensures this.own == own && this.loops == loops && this.triggers == triggers
      ensures defaultX == x && defaultY == y
    {
      this.own := own;
      this.loops := loops;
      this.triggers := triggers;
      defaultX := x;
      defaultY := y;
    }
  }

  function Extents(cs: seq<Container>): seq<Span> {
    seq(|cs|, i requires 0 <= i < |cs| => cs[i].extent)
  }

  /** What RemoveByLogic sees of `container is Element`. */
  function HostOf(el: Element?): Host {
    if el == null then Plain else ElementHost(Extents(el.loops), Extents(el.triggers))
  }

  /** The element's default position; a plain container has none and reads as the origin. */
  ghost function PosOf(el: Element?): Position
    reads el
  {
    if el == null then Origin else Position(el.defaultX, el.defaultY)
  }

  /** RemoveEvent: deletes the command from the container's list and from the working
      group list; nothing else changes. */
  method RemoveEvent(c: Container, list: seq<Event>, e: Event) returns (rest: seq<Event>)
    modifies c
    ensures c.events == Remove(old(c.events), e.id)
    ensures rest == Remove(list, e.id)
    ensures Pruned(old(c.events), c.events)
  {
    RemovePrunes(c.events, e.id);
    c.events := Remove(c.events, e.id);
    rest := Remove(list, e.id);
  }

  /** The loop over a lone command's end values that snaps each to its start value when
      the start value's literal is shorter. */
  method SnapEndValues(e: Event, h: Helpers) returns (end: seq<Param>)
    requires |e.end| <= |e.start|
    ensures end == SnapEnd(e, h)
  {
    end := e.end;
    var j := 0;
    while j < |end|
      invariant 0 <= j <= |end| && |end| == |e.end|
      invariant forall m :: 0 <= m < j ==> end[m] == SnapEnd(e, h)[m]
      invariant forall m :: j <= m < |end| ==> end[m] == e.end[m]
    {
      if h.fmtLen(end[j]) > h.fmtLen(e.start[j]) {
        end := end[j := e.start[j]];
      }
      j := j + 1;
    }
  }

  /** One group of RemoveByObsoletedList: the forward walk over the commands of one kind,
      deleting from the container and the group list together. */
  method WalkObsoleteGroup(c: Container, group: seq<Event>, h: Helpers)
    requires WellFormed(c.events) && WellFormed(group)
    modifies c
    ensures WellFormed(c.events)
    ensures c.events == ObsWalk(Walk(old(c.events), group, 0), c.timing, h)
  {
    var list := group;
    var i := 0;
    while i < |list|
      invariant 0 <= i <= |list|
      invariant WellFormed(c.events) && WellFormed(list)
      invariant ObsWalk(Walk(c.events, list, i), c.timing, h)
             == ObsWalk(Walk(old(c.events), group, 0), c.timing, h)
      decreases |list| - i
    {
      ghost var before := Walk(c.events, list, i);
      var nowE := list[i];
      var nextE := if i == |list| - 1 then None else Some(list[i + 1]);
      if !(h.onObsoleteTimingRange(nowE, c.events, c.timing) && nowE.kind in h.unworthy) {
        if nextE == None {
          var range := h.inObsoleteTimingRange(nowE, c.events, c.timing);
          var canRemove := range.Some? && range.value.endTime == h.maxTime(c.events);
          if canRemove {
            if |list| == 1 {
              assert nowE in list;
              var end := SnapEndValues(nowE, h);
              var snapped := nowE.(end := end);
              c.events := Overwrite(c.events, snapped);
              list := Overwrite(list, snapped);
              if h.isSmallerThenMaxTime(snapped, c.events) {
                var collapsed := snapped.(endTime := snapped.startTime);
                c.events := Overwrite(c.events, collapsed);
                list := Overwrite(list, collapsed);
              }
            } else {
              list := RemoveEvent(c, list, nowE);
              i := i - 1;
            }
          }
        } else {
          var canRemove := h.containsTimingPoint(c.timing, nowE.startTime, nowE.endTime, nextE.value.startTime);
          if canRemove {
            list := RemoveEvent(c, list, nowE);
            i := i - 1;
          }
        }
      }
      i := i + 1;
      assert Walk(c.events, list, i) == ObsStep(before, c.timing, h);
    }
  }

  /** The foreach of RemoveByObsoletedList over the kinds of the snapshot `eventList`,
      in order of first appearance. */
  method ObsGroupsLoop(c: Container, eventList: seq<Event>, h: Helpers)
    requires WellFormed(eventList) && c.events == eventList
    modifies c
    ensures ObsGroups.requires(eventList, Groups(eventList), c.timing, h)
    ensures c.events == ObsGroups(eventList, Groups(eventList), c.timing, h)
  {
    var kinds := Kinds(eventList);
    ghost var gs := Groups(eventList);
    assert forall g :: 0 <= g < |gs| ==> WellFormed(gs[g]);
    ghost var target := ObsGroups(eventList, gs, c.timing, h);
    for g := 0 to |kinds|
      invariant WellFormed(c.events)
      invariant ObsGroups(c.events, gs[g..], c.timing, h) == target
    {
      var list := OfKind(eventList, kinds[g]);
      assert list == gs[g];
      ObsGroupsAt(c.events, gs, g, c.timing, h);
      WalkObsoleteGroup(c, list, h);
    }
    assert gs[|kinds|..] == [];
  }

  /** RemoveByObsoletedList: walks each kind's group forward and deletes the commands
      made redundant by the container's obsolete ranges. */
  method RemoveByObsoletedList(c: Container, h: Helpers)
    requires c.Valid()
    modifies c
    ensures c.Valid()
    ensures c.events == ObsoletePass(old(c.events), c.timing, h)
    ensures |c.timing| == 0 ==> c.events == old(c.events)
    ensures Pruned(old(c.events), c.events)
    ensures forall kind :: HasKind(old(c.events), kind) ==> HasKind(c.events, kind)
  {
    ObsoletePassPrunes(c.events, c.timing, h);
    ObsoletePassKeepsKinds(c.events, c.timing, h);
    if |c.timing| == 0 {
      return;
    }
    ObsGroupsLoop(c, c.events, h);
  }

  /** An iteration of RemoveByLogic's loop past the group's first command: merges or
      deletes against the predecessor, and moves one index down. */
  method LaterIteration(c: Container, list: seq<Event>, index: int, ghost pos: Position, h: Helpers)
    returns (rest: seq<Event>, next: int)
    requires 0 < index < |list|
    requires WellFormed(c.events) && WellFormed(list)
    modifies c
    ensures var r := LaterStep(State(old(c.events), list, index, pos), h);
      c.events == r.evs && rest == r.list && next == r.index
  {
    var nowE := list[index];
    rest := list;
    var preE := list[index - 1];
    InList(list, index - 1);
    if h.isStatic(nowE) && h.isStatic(preE) && h.isSequent(preE, nowE) {
      var merged := preE.(endTime := nowE.endTime);
      c.events := Overwrite(c.events, merged);
      rest := Overwrite(rest, merged);
      rest := RemoveEvent(c, rest, nowE);
      next := index - 1;
    } else if h.isSmallerThenMaxTime(nowE, c.events) && h.isStatic(nowE) && h.isSequent(preE, nowE) {
      rest := RemoveEvent(c, rest, nowE);
      next := index - 1;
    } else if nowE.startTime == preE.endTime && preE.startTime == preE.endTime {
      if index > 1 {
        rest := RemoveEvent(c, rest, preE);
        next := index - 1;
      } else if h.equalsMultiMinTime(preE, c.events) {
        rest := RemoveEvent(c, rest, preE);
        next := index - 1;
      } else if h.isStatic(preE) && h.isSequent(preE, nowE) {
        rest := RemoveEvent(c, rest, preE);
        next := index - 1;
      } else {
        next := index - 1;
      }
    } else {
      next := index - 1;
    }
  }

  /** The iteration of RemoveByLogic's loop at the group's first command, once the
      snapshot holds more than one command; the loop breaks after it. */
  method FirstIteration(c: Container, el: Element?, list: seq<Event>, kind: EventType,
                        total: nat, h: Helpers)
    returns (rest: seq<Event>)
    requires 1 <= |list| && list[0].kind == kind && total > 1
    requires WellFormed(c.events) && WellFormed(list)
    modifies c, el
    ensures var r := FirstStep(State(old(c.events), list, 0, old(PosOf(el))), HostOf(el), total, h);
      c.events == r.evs && rest == r.list && PosOf(el) == r.pos
  {
    var nowE := list[0];
    assert nowE in list;
    rest := list;
    if h.isTimeInRange(nowE, c.events) && h.isStaticAndDefault(nowE) && |list| == 1 {
      rest := RemoveEvent(c, rest, nowE);
    } else if h.isTimeInRange(nowE, c.events) && h.isStatic(nowE) && |list| > 1 {
      var nextE := list[1];
      if h.isSequent(nowE, nextE) {
        rest := RemoveEvent(c, rest, nowE);
      }
    } else if kind == Move && el != null {
      if |list| == 1 && h.isStatic(nowE) && h.isTimeInRange(nowE, c.events) && total > 1 {
        if forall j :: 0 <= j < |nowE.start| ==> h.isIntegral(nowE.start[j]) {
          el.defaultX := nowE.start[0];
          el.defaultY := nowE.start[1];
          rest := RemoveEvent(c, rest, nowE);
        } else if h.equalsInitialPosition(nowE, Position(el.defaultX, el.defaultY)) {
          rest := RemoveEvent(c, rest, nowE);
        } else {
          el.defaultX := 0.0;
          el.defaultY := 0.0;
        }
      } else {
        el.defaultX := 0.0;
        el.defaultY := 0.0;
      }
    }
  }

  /** One iteration of RemoveByLogic's backward loop at `index`: a command of an element
      that overlaps both a trigger and a loop is passed over; at the group's first command
      the pass returns when the snapshot holds at most one command, and otherwise the
      group's loop breaks after FirstIteration; later commands go to LaterIteration. */
  method LogicIteration(c: Container, el: Element?, list: seq<Event>, index: int, kind: EventType,
                        total: nat, h: Helpers)
    returns (flow: Flow, rest: seq<Event>, next: int)
    requires 0 <= index < |list|
    requires WellFormed(c.events) && WellFormed(list)
    requires forall e :: e in list ==> e.kind == kind
    modifies c, el
    ensures (flow, State(c.events, rest, next, PosOf(el))) ==
      LogicStep(State(old(c.events), list, index, old(PosOf(el))), HostOf(el), total, h)
  {
    ghost var before := State(c.events, list, index, PosOf(el));
    var nowE := list[index];
    assert nowE in list;
    if el != null && Overlaps(Extents(el.triggers), nowE) && Overlaps(Extents(el.loops), nowE) {
      assert Skipped(HostOf(el), nowE);
      return Continue, list, index - 1;
    }
    assert !Skipped(HostOf(el), nowE);
    if index == 0 {
      if total <= 1 {
        return Return, list, index;
      }
      rest := FirstIteration(c, el, list, kind, total, h);
      return Break, rest, index;
    }
    rest, next := LaterIteration(c, list, index, PosOf(el), h);
    return Continue, rest, next;
  }

  /** One group of RemoveByLogic: the backward walk over the commands of one kind.
      The walk ends in Return where the source leaves the whole pass, and in Break or
      Continue where it goes on with the next kind. `total` is the number of commands
      in the snapshot the pass groups. */
  method WalkLogicGroup(c: Container, el: Element?, group: seq<Event>, kind: EventType,
                        total: nat, h: Helpers)
    returns (flow: Flow)
    requires WellFormed(c.events) && WellFormed(group)
    requires forall e :: e in group ==> e.kind == kind
    modifies c, el
    ensures WellFormed(c.events)
    ensures var w := LogicWalk(State(old(c.events), group, |group| - 1, old(PosOf(el))), HostOf(el), total, h);
      flow == w.0 && c.events == w.1.evs && PosOf(el) == w.1.pos
  {
    ghost var host := HostOf(el);
    ghost var walk := LogicWalk(State(c.events, group, |group| - 1, PosOf(el)), host, total, h);
    var list := group;
    var index := |list| - 1;
    while index >= 0
      invariant -1 <= index < |list|
      invariant WellFormed(c.events) && WellFormed(list)
      invariant forall e :: e in list ==> e.kind == kind
      invariant LogicWalk(State(c.events, list, index, PosOf(el)), host, total, h) == walk
      decreases index + 1
    {
      ghost var before := State(c.events, list, index, PosOf(el));
      LogicStepKeepsKind(before, host, total, h, kind);
      flow, list, index := LogicIteration(c, el, list, index, kind, total, h);
      if flow != Continue {
        return;
      }
    }
    return Continue;
  }

  /** The foreach of RemoveByLogic over the kinds of the snapshot `eventList`, in order
      of first appearance; a Return from one group's walk leaves the whole pass. */
  method LogicGroupsLoop(c: Container, el: Element?, eventList: seq<Event>, h: Helpers)
    requires WellFormed(eventList) && c.events == eventList
    modifies c, el
    ensures LogicGroups.requires(eventList, old(PosOf(el)), Groups(eventList), HostOf(el), |eventList|, h)
    ensures var out := LogicGroups(eventList, old(PosOf(el)), Groups(eventList), HostOf(el), |eventList|, h);
      c.events == out.evs && PosOf(el) == out.pos
  {
    ghost var host := HostOf(el);
    var kinds := Kinds(eventList);
    ghost var gs := Groups(eventList);
    assert forall g :: 0 <= g < |gs| ==> WellFormed(gs[g]);
    ghost var out := LogicGroups(eventList, PosOf(el), gs, host, |eventList|, h);
    for g := 0 to |kinds|
      invariant WellFormed(c.events)
      invariant LogicGroups(c.events, PosOf(el), gs[g..], host, |eventList|, h) == out
    {
      var list := OfKind(eventList, kinds[g]);
      assert list == gs[g];
      ghost var evs0, pos0 := c.events, PosOf(el);
      LogicGroupsAt(evs0, pos0, gs, g, host, |eventList|, h);
      ghost var walk := LogicWalk(State(evs0, list, |list| - 1, pos0), host, |eventList|, h);
      var flow := WalkLogicGroup(c, el, list, kinds[g], |eventList|, h);
      assert flow == walk.0 && c.events == walk.1.evs && PosOf(el) == walk.1.pos;
      if flow == Return {
        return;
      }
    }
    assert gs[|kinds|..] == [];
  }

  /** RemoveByLogic: walks each kind's group backwards, merging and deleting commands
      by the sequencing rules, and on an element may fold a lone move into the default
      position. */
  method RemoveByLogic(c: Container, el: Element?, h: Helpers)
    requires c.Valid()
    requires el != null ==> el.own == c
    modifies c, el
    ensures c.Valid()
    ensures var out := LogicPass(old(c.events), HostOf(el), old(PosOf(el)), h);
      c.events == out.evs && (el != null ==> PosOf(el) == out.pos)
    ensures Pruned(old(c.events), c.events)
    ensures |old(c.events)| <= 1 ==> c.events == old(c.events) && PosOf(el) == old(PosOf(el))
  {
    var eventList := c.events;
    LogicPassPrunes(eventList, HostOf(el), PosOf(el), h);
    if |eventList| <= 1 {
      LogicPassKeepsSmall(eventList, HostOf(el), PosOf(el), h);
    }
    assert LogicPass(eventList, HostOf(el), PosOf(el), h) ==
      LogicGroups(eventList, PosOf(el), Groups(eventList), HostOf(el), |eventList|, h);
    LogicGroupsLoop(c, el, eventList, h);
  }

  /** The loops (or triggers) of an element: each valid, no two the same object. */
  ghost predicate AllValid(cs: seq<Container>)
    reads set c | c in cs
  {
    (forall i :: 0 <= i < |cs| ==> cs[i].Valid()) &&
    (forall i, j :: 0 <= i < j < |cs| ==> cs[i] != cs[j])
  }

  /** PreOptimize on a loop, a trigger or an element's own commands: the obsolete-range
      pass when there are commands. */
  method PreOptimizeContainer(c: Container, h: Helpers)
    requires c.Valid()
    modifies c
    ensures c.Valid()
    ensures c.events == ObsoletePass(old(c.events), c.timing, h)
  {
    if |c.events| > 0 {
      RemoveByObsoletedList(c, h);
    }
  }

  /** The foreach of PreOptimize over an element's loops or its triggers. */
  method PreOptimizeEach(cs: seq<Container>, h: Helpers)
    requires AllValid(cs)
    modifies set c | c in cs
    ensures AllValid(cs)
    ensures forall i :: 0 <= i < |cs| ==> cs[i].events == ObsoletePass(old(cs[i].events), cs[i].timing, h)
  {
    for i := 0 to |cs|
      invariant AllValid(cs)
      invariant forall j :: 0 <= j < i ==> cs[j].events == ObsoletePass(old(cs[j].events), cs[j].timing, h)
      invariant forall j :: i <= j < |cs| ==> cs[j].events == old(cs[j].events)
    {
      label Before:
      PreOptimizeContainer(cs[i], h);
      assert forall j :: 0 <= j < |cs| && j != i ==> cs[j].events == old@Before(cs[j].events);
    }
  }

  /** PreOptimize on an element: its loops, then its triggers, then its own commands. */
  method PreOptimize(el: Element, h: Helpers)
    requires el.Valid()
    modifies el.Parts()
    ensures el.Valid()
    ensures forall i :: 0 <= i < |el.loops| ==>
      el.loops[i].events == ObsoletePass(old(el.loops[i].events), el.loops[i].timing, h)
    ensures forall i :: 0 <= i < |el.triggers| ==>
      el.triggers[i].events == ObsoletePass(old(el.triggers[i].events), el.triggers[i].timing, h)
    ensures el.own.events == ObsoletePass(old(el.own.events), el.own.timing, h)
  {
    PreOptimizeEach(el.loops, h);
    PreOptimizeEach(el.triggers, h);
    PreOptimizeContainer(el.own, h);
  }

  /** NormalOptimize on a loop or a trigger: the sequencing pass when there are commands. */
  method NormalOptimizeContainer(c: Container, h: Helpers)
    requires c.Valid()
    modifies c
    ensures c.Valid()
    ensures c.events == LogicPass(old(c.events), Plain, Origin, h).evs
  {
    if |c.events| > 0 {
      RemoveByLogic(c, null, h);
    }
  }

  /** The foreach of NormalOptimize over an element's loops or its triggers. */
  method NormalOptimizeEach(cs: seq<Container>, h: Helpers)
    requires AllValid(cs)
    modifies set c | c in cs
    ensures AllValid(cs)
    ensures forall i :: 0 <= i < |cs| ==> cs[i].events == LogicPass(old(cs[i].events), Plain, Origin, h).evs
  {
    for i := 0 to |cs|
      invariant AllValid(cs)
      invariant forall j :: 0 <= j < i ==> cs[j].events == LogicPass(old(cs[j].events), Plain, Origin, h).evs
      invariant forall j :: i <= j < |cs| ==> cs[j].events == old(cs[j].events)
    {
      label Before:
      NormalOptimizeContainer(cs[i], h);
      assert forall j :: 0 <= j < |cs| && j != i ==> cs[j].events == old@Before(cs[j].events);
    }
  }

  /** NormalOptimize on an element's loops, then its triggers. */
  method NormalOptimizeParts(el: Element, h: Helpers)
    requires el.Valid()
    modifies (set c | c in el.loops), (set c | c in el.triggers)
    ensures el.Valid()
    ensures forall i :: 0 <= i < |el.loops| ==>
      el.loops[i].events == LogicPass(old(el.loops[i].events), Plain, Origin, h).evs
    ensures forall i :: 0 <= i < |el.triggers| ==>
      el.triggers[i].events == LogicPass(old(el.triggers[i].events), Plain, Origin, h).evs
  {
    NormalOptimizeEach(el.loops, h);
    NormalOptimizeEach(el.triggers, h);
  }

  /** NormalOptimize on an element's own commands, which may also move its default
      position. */
  method NormalOptimizeOwn(el: Element, h: Helpers)
    requires el.Valid()
    modifies el, el.own
    ensures el.Valid()
    ensures var out := LogicPass(old(el.own.events), HostOf(el), old(PosOf(el)), h);
      el.own.events == out.evs && PosOf(el) == out.pos
  {
    if |el.own.events| > 0 {
      RemoveByLogic(el.own, el, h);
    } else {
      LogicPassKeepsSmall(el.own.events, HostOf(el), PosOf(el), h);
    }
  }

  /** NormalOptimize on an element: its loops, then its triggers, then its own commands,
      which may also move its default position. */
  method NormalOptimize(el: Element, h: Helpers)
    requires el.Valid()
    modifies el, el.Parts()
    ensures el.Valid()
    ensures forall i :: 0 <= i < |el.loops| ==>
      el.loops[i].events == LogicPass(old(el.loops[i].events), Plain, Origin, h).evs
    ensures forall i :: 0 <= i < |el.triggers| ==>
      el.triggers[i].events == LogicPass(old(el.triggers[i].events), Plain, Origin, h).evs
    ensures var out := LogicPass(old(el.own.events), HostOf(el), old(PosOf(el)), h);
      el.own.events == out.evs && PosOf(el) == out.pos
  {
    NormalOptimizeParts(el, h);
    NormalOptimizeOwn(el, h);
  }

  /** What compression makes of one container's commands and position: the
      obsolete-range pass, then the sequencing pass. Every command left is one of the
      original commands, possibly with a shortened or stretched end, in the original
      order. */
  ghost function Compressed(evs: seq<Event>, timing: seq<Span>, host: Host, pos: Position, h: Helpers): (r: Outcome)
    requires UniqueIds(evs) && WellFormed(evs)
    ensures Pruned(evs, r.evs) && UniqueIds(r.evs) && WellFormed(r.evs)
  {
    ObsoletePassPrunes(evs, timing, h);
    var mid := ObsoletePass(evs, timing, h);
    LogicPassPrunes(mid, host, pos, h);
    PrunedTrans(evs, mid, LogicPass(mid, host, pos, h).evs);
    LogicPass(mid, host, pos, h)
  }

  /** Whether InnerCompress goes on to the passes: an element whose examination reported
      errors is abandoned when the run was cancelled before the error could be reported,
      or when the error handler declined to continue. */
  predicate Proceeds(errors: seq<string>, cancelled: bool, handlerContinue: bool) {
    |errors| == 0 || (!cancelled && handlerContinue)
  }

  /** InnerCompress after Examine: `errors` are the messages Examine reported,
      `cancelled` whether cancellation was requested when the error was about to be
      reported, and `handlerContinue` the Continue decision the error handler left. */
  method InnerCompress(el: Element, errors: seq<string>, cancelled: bool, handlerContinue: bool, h: Helpers)
    returns (compressed: bool)
    requires el.Valid()
    modifies el, el.Parts()
    ensures el.Valid()
    ensures compressed == Proceeds(errors, cancelled, handlerContinue)
    ensures !compressed ==> PosOf(el) == old(PosOf(el))
    ensures !compressed ==> forall c :: c in el.Parts() ==> c.events == old(c.events)
    ensures compressed ==> forall i :: 0 <= i < |el.loops| ==>
      el.loops[i].events == Compressed(old(el.loops[i].events), el.loops[i].timing, Plain, Origin, h).evs
    ensures compressed ==> forall i :: 0 <= i < |el.triggers| ==>
      el.triggers[i].events == Compressed(old(el.triggers[i].events), el.triggers[i].timing, Plain, Origin, h).evs
    ensures compressed ==>
      Compressed(old(el.own.events), el.own.timing, HostOf(el), old(PosOf(el)), h) == Outcome(el.own.events, PosOf(el))
  {
    if |errors| > 0 {
      if cancelled {
        return false;
      }
      if !handlerContinue {
        return false;
      }
    }
    PreOptimize(el, h);
    NormalOptimize(el, h);
    return true;
  }

  /** Result of an operation the source may refuse by throwing. */
  datatype Status = Success | Failure

  /** The thread count a requested value is stored as: the nearest value in 1..4. */
  function ClampThreads(value: int): (r: int)
    ensures 1 <= r <= 4
    ensures 1 <= value <= 4 ==> r == value
    ensures forall m :: 1 <= m <= 4 ==> Distance(r, value) <= Distance(m, value)
  {
    if value < 1 then 1 else if value > 4 then 4 else value
  }

  function Distance(a: int, b: int): nat {
    if a >= b then a - b else b - a
  }

  /** The run state and the thread-count setting of an ElementCompressor. */
  class ElementCompressor {
    var threadCount: int
    var isRunning: bool

    constructor ()
      ensures threadCount == 1 && !isRunning
    {
      threadCount := 1;
      isRunning := false;
    }

    /** The ThreadCount setter: refused while a run is active, otherwise stores the
        value clamped to 1..4. */
    method SetThreadCount(value: int) returns (status: Status)
      modifies this`threadCount
      ensures isRunning ==> status == Failure && threadCount == old(threadCount)
      ensures !isRunning ==> status == Success && threadCount == ClampThreads(value)
    {
      if isRunning {
        return Failure;
      }
      threadCount := ClampThreads(value);
      return Success;
    }

    /** The start of CompressAsync: only one run may be active at a time. */
    method BeginRun() returns (status: Status)
      modifies this`isRunning
      ensures isRunning
      ensures status == (if old(isRunning) then Failure else Success)
    {
      if isRunning {
        return Failure;
      }
      isRunning := true;
      return Success;
    }

    /** The end of CompressAsync, once every worker has finished. */
    method EndRun()
      modifies this`isRunning
      ensures !isRunning
    {
      isRunning := false;
    }
  }
}
