/** The normal pass of the compressor (RemoveByLogic) as functions over values: one
    step of the backward walk over a kind's group, the walk, the walk over all groups,
    and what the pass guarantees. The imperative method in module Compressor is proved
    to compute exactly LogicPass. */
module Logic {
  import opened Events

  /** What the pass sees of the container's own type: a plain container (a loop or a
      trigger), or an element with the time extents of its loops and triggers. */
  datatype Host = Plain | ElementHost(loops: seq<Span>, triggers: seq<Span>)

  /** How an iteration leaves the loop: on to the next index, out of this group's loop
      (`break`), or out of the whole pass (`return`). */
  datatype Flow = Continue | Break | Return

  /** State of the backward walk over one kind's group: the container's command list,
      the working group list, the loop index and the element's default position. */
  datatype State = State(evs: seq<Event>, list: seq<Event>, index: int, pos: Position)

  /** The container's command list and the element's default position after the pass. */
  datatype Outcome = Outcome(evs: seq<Event>, pos: Position)

  const Origin := Position(0.0, 0.0)

  /** Some extent in `spans` intersects the command's time interval. */
  predicate Overlaps(spans: seq<Span>, e: Event) {
    exists j :: 0 <= j < |spans| && e.endTime >= spans[j].startTime && e.startTime <= spans[j].endTime
  }

  /** An element's command that overlaps both a trigger and a loop is left alone. */
  predicate Skipped(host: Host, e: Event) {
    host.ElementHost? && Overlaps(host.triggers, e) && Overlaps(host.loops, e)
  }

  /** Every start value of the move is a whole number. */
  predicate AllIntegral(v: seq<Param>, h: Helpers) {
    forall j :: 0 <= j < |v| ==> h.isIntegral(v[j])
  }

  /** RemoveEvent on both the container's list and the group list. */
  function Drop(s: State, x: Event): (r: State)
    requires WellFormed(s.evs) && WellFormed(s.list)
    ensures WellFormed(r.evs) && WellFormed(r.list)
    ensures HasId(s.list, x.id) ==> |r.list| == |s.list| - 1
    ensures |r.evs| <= |s.evs|
  {
    s.(evs := Remove(s.evs, x.id), list := Remove(s.list, x.id))
  }

  /** The iteration at the group's first command, once the container held more than one
      command on entry: a lone static default command in range goes; a static command in
      range that is sequent with its successor goes; otherwise, on an element, a move
      either folds into the default position, goes because it sits on the initial
      position, or resets the default position to the origin. */
  function FirstStep(s: State, host: Host, total: nat, h: Helpers): (r: State)
    requires s.index == 0 && |s.list| >= 1
    requires WellFormed(s.evs) && WellFormed(s.list)
    ensures WellFormed(r.evs) && WellFormed(r.list)
    ensures r.index == 0
    ensures (r.evs == s.evs && r.list == s.list) ||
            (r.evs == Remove(s.evs, s.list[0].id) && r.list == Remove(s.list, s.list[0].id))
  {
    var now := s.list[0];
    assert now in s.list;
    if h.isTimeInRange(now, s.evs) && h.isStaticAndDefault(now) && |s.list| == 1 then
      Drop(s, now)
    else if h.isTimeInRange(now, s.evs) && h.isStatic(now) && |s.list| > 1 then
      if h.isSequent(now, s.list[1]) then Drop(s, now) else s
    else if now.kind == Move && host.ElementHost? then
      if |s.list| == 1 && h.isStatic(now) && h.isTimeInRange(now, s.evs) && total > 1 then
        if AllIntegral(now.start, h) then
          Drop(s.(pos := Position(now.start[0], now.start[1])), now)
        else if h.equalsInitialPosition(now, s.pos) then
          Drop(s, now)
        else
          s.(pos := Origin)
      else
        s.(pos := Origin)
    else
      s
  }

  /** The merge of a sequent static pair: `pre` takes `now`'s end time in both lists,
      then `now` goes from both. */
  function Merge(s: State, now: Event, pre: Event): (r: State)
    requires WellFormed(s.evs) && WellFormed(s.list) && pre in s.list
    ensures WellFormed(r.evs) && WellFormed(r.list)
    ensures |r.list| >= |s.list| - 1 && r.pos == s.pos
    ensures |r.evs| <= |s.evs|
  {
    var merged := pre.(endTime := now.endTime);
    OverwriteWellFormed(s.evs, merged);
    OverwriteWellFormed(s.list, merged);
    Drop(s.(evs := Overwrite(s.evs, merged), list := Overwrite(s.list, merged)), now)
  }

  /** The iteration at a later command `now`, with its predecessor `pre`: a static pair
      that is sequent merges into `pre`; otherwise a static command sequent with `pre`
      that ends before the container's maximum time goes; otherwise, when `pre` is an
      instant ending where `now` starts, `pre` goes if it is not the group's first
      command, or sits on the container's minimum time, or is static and sequent with
      `now`. The loop then moves one index down. */
  function LaterStep(s: State, h: Helpers): (r: State)
    requires 0 < s.index < |s.list|
    requires WellFormed(s.evs) && WellFormed(s.list)
    ensures WellFormed(r.evs) && WellFormed(r.list)
    ensures r.index == s.index - 1 && r.index < |r.list| && r.pos == s.pos
    ensures |r.evs| <= |s.evs|
  {
    var now := s.list[s.index];
    var pre := s.list[s.index - 1];
    assert pre in s.list && HasId(s.list, pre.id) && HasId(s.list, now.id);
    if h.isStatic(now) && h.isStatic(pre) && h.isSequent(pre, now) then
      Merge(s, now, pre).(index := s.index - 1)
    else if h.isSmallerThenMaxTime(now, s.evs) && h.isStatic(now) && h.isSequent(pre, now) then
      Drop(s, now).(index := s.index - 1)
    else if now.startTime == pre.endTime && pre.startTime == pre.endTime then
      if s.index > 1 then
        Drop(s, pre).(index := s.index - 1)
      else if h.equalsMultiMinTime(pre, s.evs) then
        Drop(s, pre).(index := s.index - 1)
      else if h.isStatic(pre) && h.isSequent(pre, now) then
        Drop(s, pre).(index := s.index - 1)
      else
        s.(index := s.index - 1)
    else
      s.(index := s.index - 1)
  }

  /** One iteration of the backward loop over a group. `total` is the number of commands
      the container held on entry (the count of the pass's private copy). */
  function LogicStep(s: State, host: Host, total: nat, h: Helpers): (r: (Flow, State))
    requires 0 <= s.index < |s.list|
    requires WellFormed(s.evs) && WellFormed(s.list)
    ensures WellFormed(r.1.evs) && WellFormed(r.1.list)
    ensures r.0 == Continue ==> -1 <= r.1.index < s.index && r.1.index < |r.1.list|
    ensures |r.1.evs| <= |s.evs|
  {
    var now := s.list[s.index];
    if Skipped(host, now) then
      (Continue, s.(index := s.index - 1))
    else if s.index == 0 then
      if total <= 1 then (Return, s)
      else (Break, FirstStep(s, host, total, h))
    else
      (Continue, LaterStep(s, h))
  }

  /** The rest of the backward loop over one group, from index s.index down. */
  function LogicWalk(s: State, host: Host, total: nat, h: Helpers): (r: (Flow, State))
    requires -1 <= s.index < |s.list|
    requires WellFormed(s.evs) && WellFormed(s.list)
    ensures WellFormed(r.1.evs)
    ensures |r.1.evs| <= |s.evs|
    decreases s.index + 1
  {
    if s.index < 0 then (Continue, s)
    else
      var step := LogicStep(s, host, total, h);
      if step.0 == Continue then LogicWalk(step.1, host, total, h) else step
  }

  /** The loop over the groups; a `return` in one group ends the whole pass. */
  function LogicGroups(evs: seq<Event>, pos: Position, gs: seq<seq<Event>>,
                       host: Host, total: nat, h: Helpers): (r: Outcome)
    requires WellFormed(evs)
    requires forall g :: 0 <= g < |gs| ==> WellFormed(gs[g])
    ensures |r.evs| <= |evs|
    decreases |gs|
  {
    if gs == [] then Outcome(evs, pos)
    else
      var walk := LogicWalk(State(evs, gs[0], |gs[0]| - 1, pos), host, total, h);
      if walk.0 == Return then Outcome(walk.1.evs, walk.1.pos)
      else LogicGroups(walk.1.evs, walk.1.pos, gs[1..], host, total, h)
  }

  /** The loop over the groups, from group g on: group g's walk, then the rest unless
      the walk returned. */
  lemma LogicGroupsAt(evs: seq<Event>, pos: Position, gs: seq<seq<Event>>, g: nat,
                      host: Host, total: nat, h: Helpers)
    requires WellFormed(evs) && g < |gs|
    requires forall i :: 0 <= i < |gs| ==> WellFormed(gs[i])
    ensures var walk := LogicWalk(State(evs, gs[g], |gs[g]| - 1, pos), host, total, h);
      LogicGroups(evs, pos, gs[g..], host, total, h) ==
        if walk.0 == Return then Outcome(walk.1.evs, walk.1.pos)
        else LogicGroups(walk.1.evs, walk.1.pos, gs[g + 1..], host, total, h)
  {
    assert gs[g..][0] == gs[g];
    assert gs[g..][1..] == gs[g + 1..];
  }

  /** RemoveByLogic over a container's command list as it was on entry. */
  function LogicPass(evs: seq<Event>, host: Host, pos: Position, h: Helpers): (r: Outcome)
    requires WellFormed(evs)
    ensures |r.evs| <= |evs|
  {
    var gs := Groups(evs);
    assert forall g :: 0 <= g < |gs| ==> WellFormed(gs[g]);
    LogicGroups(evs, pos, gs, host, |evs|, h)
  }

  /** An iteration leaves only commands of the group's kind in the group list. */
  lemma LogicStepKeepsKind(s: State, host: Host, total: nat, h: Helpers, k: EventType)
    requires 0 <= s.index < |s.list|
    requires WellFormed(s.evs) && WellFormed(s.list)
    requires forall e :: e in s.list ==> e.kind == k
    ensures forall e :: e in LogicStep(s, host, total, h).1.list ==> e.kind == k
  {
    var now := s.list[s.index];
    if !Skipped(host, now) && s.index > 0 {
      var pre := s.list[s.index - 1];
      InList(s.list, s.index - 1);
      LogicStepLater(s, host, total, h);
      if h.isStatic(now) && h.isStatic(pre) && h.isSequent(pre, now) {
        var merged := pre.(endTime := now.endTime);
        LaterStepIsMerge(s, h, now, pre);
        MergeFields(s, now, pre, merged);
        forall e | e in LaterStep(s, h).list ensures e.kind == k {
          OverwriteMember(s.list, merged, e);
        }
      }
    }
  }

  /** An element's command that overlaps both a trigger and a loop is passed over:
      neither list changes, nor the default position, and the walk moves one index
      down. */
  lemma LogicStepSkips(s: State, host: Host, total: nat, h: Helpers)
    requires 0 <= s.index < |s.list| && WellFormed(s.evs) && WellFormed(s.list)
    requires host.ElementHost?
    requires Overlaps(host.triggers, s.list[s.index]) && Overlaps(host.loops, s.list[s.index])
    ensures LogicStep(s, host, total, h) == (Continue, s.(index := s.index - 1))
  {
  }

  /** One iteration keeps the group list coherent, only prunes the container's list, and
      leaves the other kinds' commands alone. */
  lemma LogicStepSound(s: State, host: Host, total: nat, h: Helpers, k: EventType)
    requires Coherent(s.evs, s.list, k) && 0 <= s.index < |s.list|
    ensures WellFormed(s.list)
    ensures var r := LogicStep(s, host, total, h).1;
      Coherent(r.evs, r.list, k) && Pruned(s.evs, r.evs) && OthersKept(s.evs, r.evs, k)
  {
    CoherentWellFormed(s.evs, s.list, k);
    var now := s.list[s.index];
    InList(s.list, s.index);
    if Skipped(host, now) || (s.index == 0 && total <= 1) {
      PrunedRefl(s.evs);
    } else if s.index == 0 {
      FirstStepSound(s, host, total, h, k);
    } else {
      var pre := s.list[s.index - 1];
      InList(s.list, s.index - 1);
      LogicStepLater(s, host, total, h);
      if h.isStatic(now) && h.isStatic(pre) && h.isSequent(pre, now) {
        MergeSound(s, k, now, pre);
        LaterStepIsMerge(s, h, now, pre);
      } else if h.isSmallerThenMaxTime(now, s.evs) && h.isStatic(now) && h.isSequent(pre, now) {
        CoherentRemove(s.evs, s.list, k, now);
      } else if now.startTime == pre.endTime && pre.startTime == pre.endTime &&
                (s.index > 1 || h.equalsMultiMinTime(pre, s.evs) || (h.isStatic(pre) && h.isSequent(pre, now))) {
        CoherentRemove(s.evs, s.list, k, pre);
      } else {
        PrunedRefl(s.evs);
      }
    }
  }

  /** No iteration edits an end value: the only edit, the merge, writes an end time. */
  lemma LogicStepKeepsEnds(s: State, host: Host, total: nat, h: Helpers, k: EventType)
    requires Coherent(s.evs, s.list, k) && 0 <= s.index < |s.list|
    ensures WellFormed(s.list)
    ensures EndsKept(s.evs, LogicStep(s, host, total, h).1.evs)
  {
    CoherentWellFormed(s.evs, s.list, k);
    var r := LogicStep(s, host, total, h).1;
    var now := s.list[s.index];
    if Skipped(host, now) || s.index == 0 {
      EndsKeptSub(s.evs, r.evs);
    } else {
      var pre := s.list[s.index - 1];
      InList(s.list, s.index - 1);
      LogicStepLater(s, host, total, h);
      if h.isStatic(now) && h.isStatic(pre) && h.isSequent(pre, now) {
        MergeKeepsEnds(s, k, now, pre);
        LaterStepIsMerge(s, h, now, pre);
      } else {
        EndsKeptSub(s.evs, r.evs);
      }
    }
  }

  /** The first-command iteration either changes no list or deletes that command. */
  lemma FirstStepSound(s: State, host: Host, total: nat, h: Helpers, k: EventType)
    requires Coherent(s.evs, s.list, k) && s.index == 0 && |s.list| >= 1
    ensures WellFormed(s.list)
    ensures var r := FirstStep(s, host, total, h);
      Coherent(r.evs, r.list, k) && Pruned(s.evs, r.evs) && OthersKept(s.evs, r.evs, k)
  {
    assert WellFormed(s.list);
    var now := s.list[0];
    assert now in s.list;
    var r := FirstStep(s, host, total, h);
    if r.evs == s.evs && r.list == s.list {
      PrunedRefl(s.evs);
    } else {
      CoherentRemove(s.evs, s.list, k, now);
    }
  }

  /** The merge keeps the group list coherent, only prunes the container's list and
      leaves the other kinds' commands alone. */
  lemma MergeSound(s: State, k: EventType, now: Event, pre: Event)
    requires Coherent(s.evs, s.list, k) && 1 <= s.index < |s.list|
    requires now == s.list[s.index] && pre == s.list[s.index - 1]
    ensures pre in s.list
    ensures var r := Merge(s, now, pre);
      Coherent(r.evs, r.list, k) && Pruned(s.evs, r.evs) && OthersKept(s.evs, r.evs, k)
  {
    assert now in s.list && pre in s.list;
    var merged := pre.(endTime := now.endTime);
    MergeOverwrite(s, k, now, pre, merged);
    var evs1 := Overwrite(s.evs, merged);
    var list1 := Overwrite(s.list, merged);
    assert Merge(s, now, pre).evs == Remove(evs1, now.id);
    assert Merge(s, now, pre).list == Remove(list1, now.id);
    CoherentRemove(evs1, list1, k, now);
    PrunedTrans(s.evs, evs1, Remove(evs1, now.id));
  }

  /** The merge writes an end time only: every command keeps its end values. */
  lemma MergeKeepsEnds(s: State, k: EventType, now: Event, pre: Event)
    requires Coherent(s.evs, s.list, k) && 1 <= s.index < |s.list|
    requires now == s.list[s.index] && pre == s.list[s.index - 1]
    ensures pre in s.list
    ensures EndsKept(s.evs, Merge(s, now, pre).evs)
  {
    assert now in s.list && pre in s.list;
    var merged := pre.(endTime := now.endTime);
    MergeOverwrite(s, k, now, pre, merged);
    var evs1 := Overwrite(s.evs, merged);
    forall e | e in s.evs && e.id == merged.id ensures e.end == merged.end {
      SameIdSameEvent(s.evs, e, pre);
    }
    EndsKeptOverwrite(s.evs, merged);
    assert Merge(s, now, pre).evs == Remove(evs1, now.id);
    EndsKeptSub(evs1, Remove(evs1, now.id));
    EndsKeptTrans(s.evs, evs1, Remove(evs1, now.id));
  }

  /** The overwrite half of the merge: `pre` becomes `merged` in both lists, `now` keeps
      its place. */
  lemma MergeOverwrite(s: State, k: EventType, now: Event, pre: Event, merged: Event)
    requires Coherent(s.evs, s.list, k) && 1 <= s.index < |s.list|
    requires now == s.list[s.index] && pre == s.list[s.index - 1]
    requires merged == pre.(endTime := now.endTime)
    ensures var evs1, list1 := Overwrite(s.evs, merged), Overwrite(s.list, merged);
      list1[s.index] == now && list1[s.index - 1] == merged &&
      Coherent(evs1, list1, k) && merged in evs1 && OthersKept(s.evs, evs1, k) &&
      Pruned(s.evs, evs1)
  {
    assert now in s.list && pre in s.list;
    CoherentOverwrite(s.evs, s.list, k, pre, merged);
    assert now.id != pre.id;
  }

  lemma {:induction false} LogicWalkSound(s: State, host: Host, total: nat, h: Helpers, k: EventType)
    requires Coherent(s.evs, s.list, k) && -1 <= s.index < |s.list|
    ensures WellFormed(s.list)
    ensures var r := LogicWalk(s, host, total, h).1;
      Pruned(s.evs, r.evs) && UniqueIds(r.evs) && OthersKept(s.evs, r.evs, k) &&
      EndsKept(s.evs, r.evs)
    decreases s.index + 1
  {
    assert WellFormed(s.list);
    if s.index < 0 {
      PrunedRefl(s.evs);
      EndsKeptSub(s.evs, s.evs);
    } else {
      var step := LogicStep(s, host, total, h);
      LogicStepSound(s, host, total, h, k);
      LogicStepKeepsEnds(s, host, total, h, k);
      if step.0 == Continue {
        var r := LogicWalk(step.1, host, total, h).1;
        LogicWalkSound(step.1, host, total, h, k);
        PrunedTrans(s.evs, step.1.evs, r.evs);
        EndsKeptTrans(s.evs, step.1.evs, r.evs);
      }
    }
  }

  lemma {:induction false} LogicGroupsSound(evs: seq<Event>, pos: Position, gs: seq<seq<Event>>,
                                            host: Host, total: nat, h: Helpers)
    requires UniqueIds(evs) && WellFormed(evs) && GroupsFit(evs, gs)
    ensures forall g :: 0 <= g < |gs| ==> WellFormed(gs[g])
    ensures var r := LogicGroups(evs, pos, gs, host, total, h).evs;
      Pruned(evs, r) && UniqueIds(r) && WellFormed(r) && EndsKept(evs, r)
    decreases |gs|
  {
    assert forall g :: 0 <= g < |gs| ==> WellFormed(gs[g]) by {
      forall g | 0 <= g < |gs| ensures WellFormed(gs[g]) {
        assert Coherent(evs, gs[g], gs[g][0].kind);
      }
    }
    if gs == [] {
      PrunedRefl(evs);
      EndsKeptSub(evs, evs);
    } else {
      var k := gs[0][0].kind;
      var s := State(evs, gs[0], |gs[0]| - 1, pos);
      assert Coherent(evs, gs[0], k);
      var walk := LogicWalk(s, host, total, h);
      LogicWalkSound(s, host, total, h, k);
      if walk.0 != Return {
        GroupsFitTail(evs, gs, walk.1.evs);
        var r := LogicGroups(walk.1.evs, walk.1.pos, gs[1..], host, total, h).evs;
        LogicGroupsSound(walk.1.evs, walk.1.pos, gs[1..], host, total, h);
        PrunedTrans(evs, walk.1.evs, r);
        EndsKeptTrans(evs, walk.1.evs, r);
      }
    }
  }

  /** The normal pass only deletes commands and rewrites end times, keeping the order of
      the survivors (RemoveEvent is its only deletion): every survivor keeps its end
      values. */
  lemma LogicPassPrunes(evs: seq<Event>, host: Host, pos: Position, h: Helpers)
    requires UniqueIds(evs) && WellFormed(evs)
    ensures var r := LogicPass(evs, host, pos, h).evs;
      Pruned(evs, r) && UniqueIds(r) && WellFormed(r) && EndsKept(evs, r)
  {
    GroupsFitInitial(evs);
    LogicGroupsSound(evs, pos, Groups(evs), host, |evs|, h);
  }

  /** A container that held at most one command on entry is left as it was, and so is
      the element's default position: either the overlap skip ends the walk, or the
      first-command iteration returns at once. */
  lemma LogicPassKeepsSmall(evs: seq<Event>, host: Host, pos: Position, h: Helpers)
    requires WellFormed(evs) && |evs| <= 1
    ensures LogicPass(evs, host, pos, h) == Outcome(evs, pos)
  {
    if |evs| == 1 {
      var e := evs[0];
      assert evs[..0] == [];
      assert Kinds(evs) == [e.kind];
      assert OfKind(evs[1..], e.kind) == [];
      assert OfKind(evs, e.kind) == [e];
      var gs := Groups(evs);
      assert |gs| == 1 && gs[0] == [e];
      assert gs[1..] == [];
      assert evs == [e];
      var s := State(evs, [e], 0, pos);
      var walk := LogicWalk(s, host, |evs|, h);
      if Skipped(host, e) {
        var done := s.(index := -1);
        assert LogicStep(s, host, |evs|, h) == (Continue, done);
        assert walk == LogicWalk(done, host, |evs|, h) == (Continue, done);
        assert LogicGroups(evs, pos, gs, host, |evs|, h)
            == LogicGroups(evs, pos, gs[1..], host, |evs|, h);
      } else {
        assert LogicStep(s, host, |evs|, h) == (Return, s);
        assert walk == (Return, s);
      }
    }
  }

  /** Merging: when the current command and its predecessor are both static and sequent,
      the predecessor takes the current command's end time in both lists, and the walk
      moves to the merged predecessor. */
  lemma LaterStepMerges(s: State, h: Helpers, k: EventType)
    requires Coherent(s.evs, s.list, k) && 1 <= s.index < |s.list|
    requires h.isStatic(s.list[s.index]) && h.isStatic(s.list[s.index - 1])
    requires h.isSequent(s.list[s.index - 1], s.list[s.index])
    ensures WellFormed(s.list)
    ensures var r, merged := LaterStep(s, h), s.list[s.index - 1].(endTime := s.list[s.index].endTime);
      r.index == s.index - 1 && r.pos == s.pos && r.list[r.index] == merged && merged in r.evs
  {
    CoherentWellFormed(s.evs, s.list, k);
    var now, pre := s.list[s.index], s.list[s.index - 1];
    InList(s.list, s.index - 1);
    LaterStepIsMerge(s, h, now, pre);
    MergeLands(s, k, now, pre, LaterStep(s, h));
  }

  /** A state that agrees with the merge's lists holds the stretched predecessor in
      both, the group list's one just below the current command's old slot. */
  lemma MergeLands(s: State, k: EventType, now: Event, pre: Event, r: State)
    requires Coherent(s.evs, s.list, k) && 1 <= s.index < |s.list|
    requires now == s.list[s.index] && pre == s.list[s.index - 1] && pre in s.list
    requires r.evs == Merge(s, now, pre).evs && r.list == Merge(s, now, pre).list
    requires r.index == s.index - 1
    ensures r.index < |r.list|
    ensures r.list[r.index] == pre.(endTime := now.endTime) && pre.(endTime := now.endTime) in r.evs
  {
    MergeResult(s, k, now, pre);
  }

  /** Merging deletes the current command: it leaves both lists, each one shorter. */
  lemma LaterStepMergeDeletes(s: State, h: Helpers, k: EventType)
    requires Coherent(s.evs, s.list, k) && 1 <= s.index < |s.list|
    requires h.isStatic(s.list[s.index]) && h.isStatic(s.list[s.index - 1])
    requires h.isSequent(s.list[s.index - 1], s.list[s.index])
    ensures WellFormed(s.list)
    ensures var r := LaterStep(s, h);
      !HasId(r.evs, s.list[s.index].id) && !HasId(r.list, s.list[s.index].id) &&
      |r.evs| == |s.evs| - 1 && |r.list| == |s.list| - 1
  {
    CoherentWellFormed(s.evs, s.list, k);
    var now, pre := s.list[s.index], s.list[s.index - 1];
    InList(s.list, s.index - 1);
    LaterStepIsMerge(s, h, now, pre);
    MergeResult(s, k, now, pre);
  }

  /** Merging leaves every command other than the merged pair in both lists, unedited. */
  lemma LaterStepMergeKeepsOthers(s: State, h: Helpers)
    requires WellFormed(s.evs) && WellFormed(s.list) && 1 <= s.index < |s.list|
    requires h.isStatic(s.list[s.index]) && h.isStatic(s.list[s.index - 1])
    requires h.isSequent(s.list[s.index - 1], s.list[s.index])
    ensures var now, pre := s.list[s.index], s.list[s.index - 1];
      var r := LaterStep(s, h);
      (forall e :: e in s.evs && e.id != now.id && e.id != pre.id ==> e in r.evs) &&
      (forall e :: e in s.list && e.id != now.id && e.id != pre.id ==> e in r.list)
  {
    var now, pre := s.list[s.index], s.list[s.index - 1];
    InList(s.list, s.index - 1);
    LaterStepIsMerge(s, h, now, pre);
    MergeKeepsOthers(s, now, pre);
  }

  /** The merge branch of LaterStep is Merge followed by a step down. */
  lemma LaterStepIsMerge(s: State, h: Helpers, now: Event, pre: Event)
    requires WellFormed(s.evs) && WellFormed(s.list) && 1 <= s.index < |s.list|
    requires now == s.list[s.index] && pre == s.list[s.index - 1]
    requires h.isStatic(now) && h.isStatic(pre) && h.isSequent(pre, now)
    requires pre in s.list
    ensures var r, m := LaterStep(s, h), Merge(s, now, pre);
      r.evs == m.evs && r.list == m.list && r.index == s.index - 1 && r.pos == s.pos
  {
  }

  lemma InList(list: seq<Event>, i: int)
    requires 0 <= i < |list|
    ensures list[i] in list
  {
  }

  /** The merge leaves every command other than the merged pair where it was, unedited. */
  lemma MergeKeepsOthers(s: State, now: Event, pre: Event)
    requires WellFormed(s.evs) && WellFormed(s.list) && pre in s.list
    ensures var r := Merge(s, now, pre);
      (forall e :: e in s.evs && e.id != now.id && e.id != pre.id ==> e in r.evs) &&
      (forall e :: e in s.list && e.id != now.id && e.id != pre.id ==> e in r.list)
  {
    var merged := pre.(endTime := now.endTime);
    var evs1, list1 := Overwrite(s.evs, merged), Overwrite(s.list, merged);
    assert Merge(s, now, pre).evs == Remove(evs1, now.id);
    assert Merge(s, now, pre).list == Remove(list1, now.id);
    forall e | e in s.evs && e.id != pre.id ensures e in evs1 {
      var j :| 0 <= j < |s.evs| && s.evs[j] == e;
      assert evs1[j] == e;
    }
    forall e | e in s.list && e.id != pre.id ensures e in list1 {
      var j :| 0 <= j < |s.list| && s.list[j] == e;
      assert list1[j] == e;
    }
  }

  /** What the merge leaves: `pre`, stretched to `now`'s end, in slot index-1 of the
      group list and in the container's list, and `now` gone from both. */
  lemma MergeResult(s: State, k: EventType, now: Event, pre: Event)
    requires Coherent(s.evs, s.list, k) && 1 <= s.index < |s.list|
    requires now == s.list[s.index] && pre == s.list[s.index - 1]
    ensures pre in s.list
    ensures var r := Merge(s, now, pre);
      r.list[s.index - 1] == pre.(endTime := now.endTime) &&
      pre.(endTime := now.endTime) in r.evs &&
      !HasId(r.evs, now.id) && !HasId(r.list, now.id) &&
      |r.evs| == |s.evs| - 1 && |r.list| == |s.list| - 1
  {
    assert pre in s.list && now in s.list;
    var merged := pre.(endTime := now.endTime);
    MergeOverwrite(s, k, now, pre, merged);
    var evs1 := Overwrite(s.evs, merged);
    var list1 := Overwrite(s.list, merged);
    var r := Merge(s, now, pre);
    MergeFields(s, now, pre, merged);
    RemoveSlotBefore(list1, s.index);
    InList(list1, s.index);
    RemovePresent(evs1, now, merged);
  }

  /** The merge is the write of the stretched `pre` followed by the deletion of `now`. */
  lemma MergeFields(s: State, now: Event, pre: Event, merged: Event)
    requires WellFormed(s.evs) && WellFormed(s.list) && pre in s.list
    requires merged == pre.(endTime := now.endTime)
    ensures Merge(s, now, pre).evs == Remove(Overwrite(s.evs, merged), now.id)
    ensures Merge(s, now, pre).list == Remove(Overwrite(s.list, merged), now.id)
  {
  }

  /** Folding a lone move at an element's first iteration, once the container held more
      than one command on entry and the move is not already removed as a lone static
      default: a static move in range with whole-number start values moves the default
      position to its start and goes; otherwise it goes when it sits on the initial
      position (default position untouched); otherwise it stays and the default position
      is reset to the origin, as it is for any move that is not static and in range. */
  lemma LogicStepFoldsMove(s: State, host: Host, total: nat, h: Helpers)
    requires Coherent(s.evs, s.list, Move) && s.index == 0 && |s.list| == 1
    requires host.ElementHost? && total > 1 && !Skipped(host, s.list[0])
    requires !(h.isTimeInRange(s.list[0], s.evs) && h.isStaticAndDefault(s.list[0]))
    ensures WellFormed(s.list) && |s.list[0].start| == 2
    ensures var now := s.list[0]; var r := LogicStep(s, host, total, h);
      r.0 == Break &&
      (h.isStatic(now) && h.isTimeInRange(now, s.evs) && AllIntegral(now.start, h) ==>
        r.1.pos == Position(now.start[0], now.start[1]) &&
        !HasId(r.1.evs, now.id) && |r.1.evs| == |s.evs| - 1) &&
      (h.isStatic(now) && h.isTimeInRange(now, s.evs) && !AllIntegral(now.start, h) &&
       h.equalsInitialPosition(now, s.pos) ==>
        r.1.pos == s.pos && !HasId(r.1.evs, now.id) && |r.1.evs| == |s.evs| - 1) &&
      (h.isStatic(now) && h.isTimeInRange(now, s.evs) && !AllIntegral(now.start, h) &&
       !h.equalsInitialPosition(now, s.pos) ==>
        r.1.pos == Origin && r.1.evs == s.evs) &&
      (!(h.isStatic(now) && h.isTimeInRange(now, s.evs)) ==>
        r.1.pos == Origin && r.1.evs == s.evs)
  {
    var now := s.list[0];
    assert now in s.list;
    assert WellFormed(s.list);
    CoherentRemove(s.evs, s.list, Move, now);
    RemoveUnique(s.evs, now.id);
  }

  /** At the group's first command, once the container held more than one command: a
      lone static default command in range is deleted, and the group's loop ends. */
  lemma LogicStepDropsLoneDefault(s: State, host: Host, total: nat, h: Helpers, k: EventType)
    requires Coherent(s.evs, s.list, k) && s.index == 0 && |s.list| == 1
    requires total > 1 && !Skipped(host, s.list[0])
    requires h.isTimeInRange(s.list[0], s.evs) && h.isStaticAndDefault(s.list[0])
    ensures WellFormed(s.list)
    ensures var now, r := s.list[0], LogicStep(s, host, total, h);
      r.0 == Break && r.1.list == [] && r.1.pos == s.pos &&
      !HasId(r.1.evs, now.id) && |r.1.evs| == |s.evs| - 1
  {
    CoherentWellFormed(s.evs, s.list, k);
    RemoveSlot(s.evs, s.list, k, 0);
  }

  /** At the group's first command, with more commands after it: a static command in
      range is deleted exactly when it is sequent with its successor, and the group's
      loop ends either way. */
  lemma LogicStepDropsSequentHead(s: State, host: Host, total: nat, h: Helpers, k: EventType)
    requires Coherent(s.evs, s.list, k) && s.index == 0 && |s.list| > 1
    requires total > 1 && !Skipped(host, s.list[0])
    requires h.isTimeInRange(s.list[0], s.evs) && h.isStatic(s.list[0])
    ensures WellFormed(s.list)
    ensures var now, r := s.list[0], LogicStep(s, host, total, h);
      r.0 == Break &&
      if h.isSequent(now, s.list[1]) then
        r.1.list == s.list[1..] && r.1.index == 0 && r.1.pos == s.pos &&
        !HasId(r.1.evs, now.id) && |r.1.evs| == |s.evs| - 1
      else
        r.1 == s
  {
    CoherentWellFormed(s.evs, s.list, k);
    RemoveSlot(s.evs, s.list, k, 0);
  }

  /** At the group's first command, with more commands after it and no static command in
      range there: an element's move group resets the default position to the origin;
      any other group changes nothing. The group's loop ends either way. */
  lemma LogicStepResetsOrigin(s: State, host: Host, total: nat, h: Helpers, k: EventType)
    requires Coherent(s.evs, s.list, k) && s.index == 0 && |s.list| > 1
    requires total > 1 && !Skipped(host, s.list[0])
    requires !(h.isTimeInRange(s.list[0], s.evs) && h.isStatic(s.list[0]))
    ensures WellFormed(s.list)
    ensures LogicStep(s, host, total, h) ==
      (Break, if k == Move && host.ElementHost? then s.(pos := Origin) else s)
  {
    CoherentWellFormed(s.evs, s.list, k);
    InList(s.list, 0);
  }

  /** At the first command of a one-command group, when the container held more than
      one command: a command that is not a static default in range, in a group other
      than an element's moves, is kept, the default position stays, and the loop
      breaks. */
  lemma LogicStepKeepsLoneOther(s: State, host: Host, total: nat, h: Helpers, k: EventType)
    requires Coherent(s.evs, s.list, k) && s.index == 0 && |s.list| == 1
    requires total > 1 && !Skipped(host, s.list[0])
    requires !(h.isTimeInRange(s.list[0], s.evs) && h.isStaticAndDefault(s.list[0]))
    requires !(k == Move && host.ElementHost?)
    ensures LogicStep(s, host, total, h) == (Break, s)
  {
    InList(s.list, 0);
  }

  /** At a later command `now` with predecessor `pre`, when the pair does not merge: a
      static `now` sequent with `pre` and ending before the container's maximum time is
      deleted from both lists, and the index lands on `pre`. */
  lemma LogicStepDropsNow(s: State, host: Host, total: nat, h: Helpers, k: EventType)
    requires Coherent(s.evs, s.list, k) && 1 <= s.index < |s.list|
    requires !Skipped(host, s.list[s.index])
    requires !h.isStatic(s.list[s.index - 1])
    requires h.isSmallerThenMaxTime(s.list[s.index], s.evs) && h.isStatic(s.list[s.index])
    requires h.isSequent(s.list[s.index - 1], s.list[s.index])
    ensures WellFormed(s.list)
    ensures var now, pre, r := s.list[s.index], s.list[s.index - 1], LogicStep(s, host, total, h);
      r.0 == Continue && r.1.index == s.index - 1 && r.1.pos == s.pos &&
      r.1.list == s.list[..s.index] + s.list[s.index + 1..] && r.1.list[r.1.index] == pre &&
      !HasId(r.1.evs, now.id) && |r.1.evs| == |s.evs| - 1
  {
    CoherentWellFormed(s.evs, s.list, k);
    var now, pre := s.list[s.index], s.list[s.index - 1];
    LogicStepLater(s, host, total, h);
    InList(s.list, s.index - 1);
    LaterStepDropsNowFields(s, h, now, pre);
    RemoveSlot(s.evs, s.list, k, s.index);
    assert (s.list[..s.index] + s.list[s.index + 1..])[s.index - 1] == pre;
  }

  /** A later command that is not skipped runs the later-command iteration. */
  lemma LogicStepLater(s: State, host: Host, total: nat, h: Helpers)
    requires WellFormed(s.evs) && WellFormed(s.list) && 1 <= s.index < |s.list|
    requires !Skipped(host, s.list[s.index])
    ensures LogicStep(s, host, total, h) == (Continue, LaterStep(s, h))
  {
  }

  /** The iteration that deletes `now`, field by field. */
  lemma LaterStepDropsNowFields(s: State, h: Helpers, now: Event, pre: Event)
    requires WellFormed(s.evs) && WellFormed(s.list) && 1 <= s.index < |s.list|
    requires now == s.list[s.index] && pre == s.list[s.index - 1] && pre in s.list
    requires !h.isStatic(pre)
    requires h.isSmallerThenMaxTime(now, s.evs) && h.isStatic(now) && h.isSequent(pre, now)
    ensures var r := LaterStep(s, h);
      r.evs == Remove(s.evs, now.id) && r.list == Remove(s.list, now.id) &&
      r.index == s.index - 1 && r.pos == s.pos
  {
  }

  /** At a later command `now` with predecessor `pre`, when neither the merge nor the
      deletion of `now` applies: an instant `pre` ending where `now` starts is deleted
      from both lists when it is not the group's first command, or sits on the
      container's minimum time, or is static and sequent with `now`; the index then
      lands on `now`, which the loop looks at again. Otherwise nothing changes but the
      index. */
  lemma LogicStepDropsInstantPre(s: State, host: Host, total: nat, h: Helpers, k: EventType)
    requires Coherent(s.evs, s.list, k) && 1 <= s.index < |s.list|
    requires !Skipped(host, s.list[s.index])
    requires !(h.isStatic(s.list[s.index]) && h.isStatic(s.list[s.index - 1]) &&
               h.isSequent(s.list[s.index - 1], s.list[s.index]))
    requires !(h.isSmallerThenMaxTime(s.list[s.index], s.evs) && h.isStatic(s.list[s.index]) &&
               h.isSequent(s.list[s.index - 1], s.list[s.index]))
    ensures WellFormed(s.list)
    ensures var now, pre, r := s.list[s.index], s.list[s.index - 1], LogicStep(s, host, total, h);
      r.0 == Continue && r.1.index == s.index - 1 && r.1.pos == s.pos &&
      if now.startTime == pre.endTime && pre.startTime == pre.endTime &&
         (s.index > 1 || h.equalsMultiMinTime(pre, s.evs) || (h.isStatic(pre) && h.isSequent(pre, now))) then
        r.1.list == s.list[..s.index - 1] + s.list[s.index..] && r.1.list[r.1.index] == now &&
        !HasId(r.1.evs, pre.id) && |r.1.evs| == |s.evs| - 1
      else
        r.1.evs == s.evs && r.1.list == s.list
  {
    CoherentWellFormed(s.evs, s.list, k);
    var now, pre := s.list[s.index], s.list[s.index - 1];
    LogicStepLater(s, host, total, h);
    InList(s.list, s.index - 1);
    LaterStepInstantFields(s, h, now, pre);
    RemoveSlot(s.evs, s.list, k, s.index - 1);
    assert (s.list[..s.index - 1] + s.list[s.index..])[s.index - 1] == now;
  }

  /** The iteration once neither the merge nor the deletion of `now` applies, field by
      field. */
  lemma LaterStepInstantFields(s: State, h: Helpers, now: Event, pre: Event)
    requires WellFormed(s.evs) && WellFormed(s.list) && 1 <= s.index < |s.list|
    requires now == s.list[s.index] && pre == s.list[s.index - 1] && pre in s.list
    requires !(h.isStatic(now) && h.isStatic(pre) && h.isSequent(pre, now))
    requires !(h.isSmallerThenMaxTime(now, s.evs) && h.isStatic(now) && h.isSequent(pre, now))
    ensures var r := LaterStep(s, h);
      r.index == s.index - 1 && r.pos == s.pos &&
      if now.startTime == pre.endTime && pre.startTime == pre.endTime &&
         (s.index > 1 || h.equalsMultiMinTime(pre, s.evs) || (h.isStatic(pre) && h.isSequent(pre, now))) then
        r.evs == Remove(s.evs, pre.id) && r.list == Remove(s.list, pre.id)
      else
        r.evs == s.evs && r.list == s.list
  {
  }
}
