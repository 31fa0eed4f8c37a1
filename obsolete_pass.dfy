/** The pre-pass of the compressor (RemoveByObsoletedList) as functions over values:
    one step of the forward walk over a kind's group, the walk, the walk over all groups,
    and what the pass guarantees. The imperative method in module Compressor is proved
    to compute exactly ObsoletePass. */
module Obsolete {
  import opened Events

  /** State of the forward walk over one kind's group: the container's command list,
      the working group list and the loop index. */
  datatype Walk = Walk(evs: seq<Event>, list: seq<Event>, i: nat)

  /** The end values of a lone command after snapping: an end value whose formatted
      literal is longer than its start value's is replaced by the start value. */
  function SnapEnd(e: Event, h: Helpers): (r: seq<Param>)
    requires |e.end| <= |e.start|
    ensures |r| == |e.end|
    ensures forall j :: 0 <= j < |r| ==> h.fmtLen(r[j]) <= h.fmtLen(e.end[j])
    ensures forall j :: 0 <= j < |r| ==> h.fmtLen(r[j]) <= h.fmtLen(e.start[j])
    ensures forall j :: 0 <= j < |r| ==> r[j] == e.end[j] || r[j] == e.start[j]
    ensures forall j :: 0 <= j < |r| && h.fmtLen(e.end[j]) <= h.fmtLen(e.start[j]) ==> r[j] == e.end[j]
  {
    seq(|e.end|, j requires 0 <= j < |e.end| =>
      if h.fmtLen(e.end[j]) > h.fmtLen(e.start[j]) then e.start[j] else e.end[j])
  }

  /** Snapping a second time changes nothing. */
  lemma SnapEndIdempotent(e: Event, h: Helpers)
    requires |e.end| <= |e.start|
    ensures SnapEnd(e.(end := SnapEnd(e, h)), h) == SnapEnd(e, h)
  {
    var r := SnapEnd(e, h);
    var r2 := SnapEnd(e.(end := r), h);
    forall j | 0 <= j < |r| ensures r2[j] == r[j] {
    }
  }

  /** The last command of its kind lies in an obsolete range that lasts until the
      container's maximum time. */
  predicate EndsObsolete(now: Event, evs: seq<Event>, timing: seq<Span>, h: Helpers) {
    match h.inObsoleteTimingRange(now, evs, timing)
    case Some(range) => range.endTime == h.maxTime(evs)
    case None => false
  }

  /** One iteration of the forward loop over a group: a command that sits on an
      obsolete-range boundary and whose kind has a default value is skipped; a command
      with a successor goes when its span up to the successor's start is one obsolete
      range; the last command goes when it lies in an obsolete range that lasts until
      the container ends, unless it is the only one of its kind, which instead has its
      end values snapped and, when it ends before the container's maximum time, its
      end time collapsed to its start time. */
  function ObsStep(w: Walk, timing: seq<Span>, h: Helpers): (r: Walk)
    requires w.i < |w.list|
    requires WellFormed(w.evs) && WellFormed(w.list)
    ensures WellFormed(r.evs) && WellFormed(r.list)
    ensures r.i <= |r.list|
    ensures |r.list| - r.i < |w.list| - w.i
    ensures |r.evs| <= |w.evs|
  {
    var now := w.list[w.i];
    assert now in w.list;
    if h.onObsoleteTimingRange(now, w.evs, timing) && now.kind in h.unworthy then
      w.(i := w.i + 1)
    else if w.i == |w.list| - 1 then
      if !EndsObsolete(now, w.evs, timing, h) then
        w.(i := w.i + 1)
      else if |w.list| == 1 then
        var snapped := now.(end := SnapEnd(now, h));
        OverwriteWellFormed(w.evs, snapped);
        OverwriteWellFormed(w.list, snapped);
        var evs1 := Overwrite(w.evs, snapped);
        var list1 := Overwrite(w.list, snapped);
        if h.isSmallerThenMaxTime(snapped, evs1) then
          var collapsed := snapped.(endTime := snapped.startTime);
          OverwriteWellFormed(evs1, collapsed);
          OverwriteWellFormed(list1, collapsed);
          Walk(Overwrite(evs1, collapsed), Overwrite(list1, collapsed), w.i + 1)
        else
          Walk(evs1, list1, w.i + 1)
      else
        assert HasId(w.list, now.id);
        Walk(Remove(w.evs, now.id), Remove(w.list, now.id), w.i)
    else if h.containsTimingPoint(timing, now.startTime, now.endTime, w.list[w.i + 1].startTime) then
      assert HasId(w.list, now.id);
      Walk(Remove(w.evs, now.id), Remove(w.list, now.id), w.i)
    else
      w.(i := w.i + 1)
  }

  /** The rest of the forward loop over one group, from index w.i on; the container's
      command list when the loop ends. */
  function ObsWalk(w: Walk, timing: seq<Span>, h: Helpers): (r: seq<Event>)
    requires w.i <= |w.list|
    requires WellFormed(w.evs) && WellFormed(w.list)
    ensures |r| <= |w.evs|
    decreases |w.list| - w.i
  {
    if w.i == |w.list| then w.evs
    else ObsWalk(ObsStep(w, timing, h), timing, h)
  }

  /** The loop over the groups, each walked from index 0 against the current list. */
  function ObsGroups(evs: seq<Event>, gs: seq<seq<Event>>, timing: seq<Span>, h: Helpers): (r: seq<Event>)
    requires WellFormed(evs)
    requires forall g :: 0 <= g < |gs| ==> WellFormed(gs[g])
    ensures |r| <= |evs|
    decreases |gs|
  {
    if gs == [] then evs
    else
      var after := ObsWalk(Walk(evs, gs[0], 0), timing, h);
      ObsWalkWellFormed(Walk(evs, gs[0], 0), timing, h);
      ObsGroups(after, gs[1..], timing, h)
  }

  /** The loop over the groups, from group g on: group g's walk, then the rest. */
  lemma ObsGroupsAt(evs: seq<Event>, gs: seq<seq<Event>>, g: nat, timing: seq<Span>, h: Helpers)
    requires WellFormed(evs) && g < |gs|
    requires forall i :: 0 <= i < |gs| ==> WellFormed(gs[i])
    ensures WellFormed(ObsWalk(Walk(evs, gs[g], 0), timing, h))
    ensures ObsGroups(evs, gs[g..], timing, h) ==
      ObsGroups(ObsWalk(Walk(evs, gs[g], 0), timing, h), gs[g + 1..], timing, h)
  {
    ObsWalkWellFormed(Walk(evs, gs[g], 0), timing, h);
    assert gs[g..][0] == gs[g];
    assert gs[g..][1..] == gs[g + 1..];
  }

  /** RemoveByObsoletedList: nothing when the container has no obsolete ranges, else the
      forward walk over each kind's group of the command list as it was on entry. */
  function ObsoletePass(evs: seq<Event>, timing: seq<Span>, h: Helpers): (r: seq<Event>)
    requires WellFormed(evs)
    ensures |r| <= |evs|
  {
    if |timing| == 0 then evs
    else
      var gs := Groups(evs);
      assert forall g :: 0 <= g < |gs| ==> WellFormed(gs[g]);
      ObsGroups(evs, gs, timing, h)
  }

  lemma {:induction false} ObsWalkWellFormed(w: Walk, timing: seq<Span>, h: Helpers)
    requires w.i <= |w.list|
    requires WellFormed(w.evs) && WellFormed(w.list)
    ensures WellFormed(ObsWalk(w, timing, h))
    decreases |w.list| - w.i
  {
    if w.i < |w.list| {
      ObsWalkWellFormed(ObsStep(w, timing, h), timing, h);
    }
  }

  /** One iteration keeps the group list coherent and non-empty, only prunes the
      container's list, and leaves the other kinds' commands alone. */
  lemma ObsStepSound(w: Walk, timing: seq<Span>, h: Helpers, k: EventType)
    requires Coherent(w.evs, w.list, k) && w.i < |w.list|
    ensures WellFormed(w.list)
    ensures var r := ObsStep(w, timing, h);
      Coherent(r.evs, r.list, k) && |r.list| >= 1 &&
      Pruned(w.evs, r.evs) && OthersKept(w.evs, r.evs, k)
  {
    assert WellFormed(w.list);
    var r := ObsStep(w, timing, h);
    var now := w.list[w.i];
    assert now in w.list;
    if r.evs == w.evs && r.list == w.list {
      PrunedRefl(w.evs);
    } else if w.i == |w.list| - 1 && |w.list| == 1 {
      var snapped := now.(end := SnapEnd(now, h));
      CoherentOverwrite(w.evs, w.list, k, now, snapped);
      var evs1 := Overwrite(w.evs, snapped);
      var list1 := Overwrite(w.list, snapped);
      if h.isSmallerThenMaxTime(snapped, evs1) {
        assert list1[0] == snapped;
        var collapsed := snapped.(endTime := snapped.startTime);
        CoherentOverwrite(evs1, list1, k, snapped, collapsed);
        PrunedTrans(w.evs, evs1, r.evs);
      }
    } else {
      CoherentRemove(w.evs, w.list, k, now);
    }
  }

  /** The walk over one non-empty group only prunes, leaves the other kinds' commands
      alone, and leaves at least one command of the group's kind. */
  lemma {:induction false} ObsWalkSound(w: Walk, timing: seq<Span>, h: Helpers, k: EventType)
    requires Coherent(w.evs, w.list, k) && w.i <= |w.list| && |w.list| >= 1
    ensures WellFormed(w.list)
    ensures var r := ObsWalk(w, timing, h);
      Pruned(w.evs, r) && UniqueIds(r) && WellFormed(r) &&
      OthersKept(w.evs, r, k) && HasKind(r, k)
    decreases |w.list| - w.i
  {
    assert WellFormed(w.list);
    if w.i == |w.list| {
      PrunedRefl(w.evs);
      assert w.list[0] in w.list;
    } else {
      var next := ObsStep(w, timing, h);
      ObsStepSound(w, timing, h, k);
      ObsWalkSound(next, timing, h, k);
      PrunedTrans(w.evs, next.evs, ObsWalk(next, timing, h));
    }
  }

  lemma {:induction false} ObsGroupsSound(evs: seq<Event>, gs: seq<seq<Event>>, timing: seq<Span>, h: Helpers)
    requires UniqueIds(evs) && WellFormed(evs) && GroupsFit(evs, gs)
    ensures forall g :: 0 <= g < |gs| ==> WellFormed(gs[g])
    ensures var r := ObsGroups(evs, gs, timing, h);
      Pruned(evs, r) && UniqueIds(r) && WellFormed(r) &&
      forall kind :: HasKind(evs, kind) ==> HasKind(r, kind)
    decreases |gs|
  {
    assert forall g :: 0 <= g < |gs| ==> WellFormed(gs[g]) by {
      forall g | 0 <= g < |gs| ensures WellFormed(gs[g]) {
        assert Coherent(evs, gs[g], gs[g][0].kind);
      }
    }
    if gs == [] {
      PrunedRefl(evs);
    } else {
      var k := gs[0][0].kind;
      var w := Walk(evs, gs[0], 0);
      assert Coherent(evs, gs[0], k);
      var after := ObsWalk(w, timing, h);
      ObsWalkSound(w, timing, h, k);
      GroupsFitTail(evs, gs, after);
      ObsGroupsSound(after, gs[1..], timing, h);
      PrunedTrans(evs, after, ObsGroups(after, gs[1..], timing, h));
      forall kind | HasKind(evs, kind) ensures HasKind(after, kind) {
        if kind != k {
          var e :| e in evs && e.kind == kind;
          assert e in after;
        }
      }
    }
  }

  /** The pre-pass only deletes commands and rewrites end times and end values, keeping
      the order of the survivors (RemoveEvent is its only deletion). */
  lemma ObsoletePassPrunes(evs: seq<Event>, timing: seq<Span>, h: Helpers)
    requires UniqueIds(evs) && WellFormed(evs)
    ensures var r := ObsoletePass(evs, timing, h);
      Pruned(evs, r) && UniqueIds(r) && WellFormed(r)
  {
    if |timing| == 0 {
      PrunedRefl(evs);
    } else {
      GroupsFitInitial(evs);
      ObsGroupsSound(evs, Groups(evs), timing, h);
    }
  }

  /** The pre-pass never deletes the last remaining command of a kind: every kind
      present before is present after. */
  lemma ObsoletePassKeepsKinds(evs: seq<Event>, timing: seq<Span>, h: Helpers)
    requires UniqueIds(evs) && WellFormed(evs)
    ensures forall kind :: HasKind(evs, kind) ==> HasKind(ObsoletePass(evs, timing, h), kind)
  {
    if |timing| > 0 {
      GroupsFitInitial(evs);
      ObsGroupsSound(evs, Groups(evs), timing, h);
    }
  }

  /** A command on an obsolete-range boundary whose kind has a default value is neither
      removed nor edited in its iteration. */
  lemma ObsStepSkipsBoundary(w: Walk, timing: seq<Span>, h: Helpers)
    requires w.i < |w.list| && WellFormed(w.evs) && WellFormed(w.list)
    requires h.onObsoleteTimingRange(w.list[w.i], w.evs, timing)
    requires w.list[w.i].kind in h.unworthy
    ensures var r := ObsStep(w, timing, h);
      r.evs == w.evs && r.list == w.list && r.i == w.i + 1
  {
  }

  /** The last command of its kind stays as it is unless it ends obsolete. */
  lemma ObsStepKeepsLive(w: Walk, timing: seq<Span>, h: Helpers)
    requires w.i == |w.list| - 1 && WellFormed(w.evs) && WellFormed(w.list)
    requires !EndsObsolete(w.list[w.i], w.evs, timing, h)
    ensures var r := ObsStep(w, timing, h);
      r.evs == w.evs && r.list == w.list && r.i == w.i + 1
  {
  }

  /** A command with a successor, not an obsolete-range boundary of a kind with a
      default value, goes exactly when its span up to the successor's start lies in one
      obsolete range; the index then stays put, on the old successor. Otherwise the walk
      moves on and nothing changes. */
  lemma ObsStepDropsCovered(w: Walk, timing: seq<Span>, h: Helpers, k: EventType)
    requires Coherent(w.evs, w.list, k) && w.i + 1 < |w.list|
    requires !(h.onObsoleteTimingRange(w.list[w.i], w.evs, timing) && w.list[w.i].kind in h.unworthy)
    ensures WellFormed(w.list)
    ensures var now, r := w.list[w.i], ObsStep(w, timing, h);
      if h.containsTimingPoint(timing, now.startTime, now.endTime, w.list[w.i + 1].startTime) then
        r.i == w.i && r.list == w.list[..w.i] + w.list[w.i + 1..] && r.list[r.i] == w.list[w.i + 1] &&
        !HasId(r.evs, now.id) && |r.evs| == |w.evs| - 1
      else
        r == w.(i := w.i + 1)
  {
    CoherentWellFormed(w.evs, w.list, k);
    RemoveSlot(w.evs, w.list, k, w.i);
  }

  /** The last command of a kind that is not alone goes when it lies in an obsolete range
      lasting until the container ends; the loop then ends. */
  lemma ObsStepDropsLast(w: Walk, timing: seq<Span>, h: Helpers, k: EventType)
    requires Coherent(w.evs, w.list, k) && w.i == |w.list| - 1 && |w.list| > 1
    requires !(h.onObsoleteTimingRange(w.list[w.i], w.evs, timing) && w.list[w.i].kind in h.unworthy)
    requires EndsObsolete(w.list[w.i], w.evs, timing, h)
    ensures WellFormed(w.list)
    ensures var now, r := w.list[w.i], ObsStep(w, timing, h);
      r.i == w.i == |r.list| && r.list == w.list[..w.i] &&
      !HasId(r.evs, now.id) && |r.evs| == |w.evs| - 1
  {
    CoherentWellFormed(w.evs, w.list, k);
    RemoveSlot(w.evs, w.list, k, w.i);
    assert w.list[..w.i] + w.list[w.i + 1..] == w.list[..w.i];
  }

  /** A lone command of its kind is never deleted: it stays in the container with the
      same identity, kind, start time and start values; its end values are either kept
      or snapped, and its end time is either kept or collapsed to its start time. */
  lemma ObsStepKeepsLone(w: Walk, timing: seq<Span>, h: Helpers, k: EventType)
    requires Coherent(w.evs, w.list, k) && |w.list| == 1 && w.i == 0
    ensures WellFormed(w.list)
    ensures var r := ObsStep(w, timing, h); var now := w.list[0];
      |r.list| == 1 && r.i == 1 && |r.evs| == |w.evs| &&
      r.list[0] in r.evs && SameCommand(now, r.list[0]) &&
      (r.list[0].end == now.end || r.list[0].end == SnapEnd(now, h)) &&
      (r.list[0].endTime == now.endTime || r.list[0].endTime == now.startTime)
  {
    assert WellFormed(w.list) by {
      assert w.list[0] in w.list;
    }
    var r := ObsStep(w, timing, h);
    ObsStepSound(w, timing, h, k);
    assert r.list[0] in r.list;
  }

  /** A lone command, not an obsolete-range boundary of a kind with a default value,
      lying in an obsolete range that lasts until the container ends, is kept: its end
      values are snapped, and then its end time collapses to its start time exactly when
      it ends before the container's maximum time. */
  lemma ObsStepSnapsLone(w: Walk, timing: seq<Span>, h: Helpers, k: EventType)
    requires Coherent(w.evs, w.list, k) && |w.list| == 1 && w.i == 0
    requires !(h.onObsoleteTimingRange(w.list[0], w.evs, timing) && w.list[0].kind in h.unworthy)
    requires EndsObsolete(w.list[0], w.evs, timing, h)
    ensures WellFormed(w.list)
    ensures var now, r := w.list[0], ObsStep(w, timing, h);
      var snapped := now.(end := SnapEnd(now, h));
      var fin := if h.isSmallerThenMaxTime(snapped, Overwrite(w.evs, snapped))
                 then snapped.(endTime := snapped.startTime) else snapped;
      r.list == [fin] && fin in r.evs && r.i == 1 && |r.evs| == |w.evs|
  {
    var now := w.list[0];
    assert now in w.list;
    var snapped := now.(end := SnapEnd(now, h));
    CoherentOverwrite(w.evs, w.list, k, now, snapped);
  }
}
