/** Storyboard commands ("events") as the element compressor sees them, the list
    operations it performs on an element's command list, and the relations used to
    state what the two compression passes may do to such a list. */
module Events {

  /** The command kinds of a storyboard; the compressor singles out Move only. */
  datatype EventType = Fade | Move | MoveX | MoveY | Scale | Vector | Rotate | Color | Parameter

  /** A command parameter. The source stores doubles; the compressor only compares them,
      measures their formatted length (Helpers.fmtLen) and tests them for being whole
      numbers (Helpers.isIntegral). */
  type Param = real

  /** One command: kind, time interval and parameter vectors at start and at end.
      `id` stands for the identity of the command object: the source removes commands
      by reference and edits them through every list that holds them. */
  datatype Event = Event(id: nat, kind: EventType, startTime: int, endTime: int,
                         start: seq<Param>, end: seq<Param>)

  /** A time range: an obsolete range, or the extent of a loop or a trigger. */
  datatype Span = Span(startTime: int, endTime: int)

  datatype Option<T> = None | Some(value: T)

  /** An element's default position (its DefaultX and DefaultY). */
  datatype Position = Position(x: Param, y: Param)

  /** The predicates and measures the compressor calls on commands and containers but
      whose bodies belong to the command and container types. Each is given the
      container's current command list, the obsolete ranges, or the element's current
      default position, as its signature shows. */
  datatype Helpers = Helpers(
    isStatic: Event -> bool,
    isStaticAndDefault: Event -> bool,
    isSequent: (Event, Event) -> bool,
    isTimeInRange: (Event, seq<Event>) -> bool,
    isSmallerThenMaxTime: (Event, seq<Event>) -> bool,
    equalsMultiMinTime: (Event, seq<Event>) -> bool,
    equalsInitialPosition: (Event, Position) -> bool,
    onObsoleteTimingRange: (Event, seq<Event>, seq<Span>) -> bool,
    inObsoleteTimingRange: (Event, seq<Event>, seq<Span>) -> Option<Span>,
    containsTimingPoint: (seq<Span>, int, int, int) -> bool,
    maxTime: seq<Event> -> int,
    unworthy: set<EventType>,
    fmtLen: Param -> nat,
    isIntegral: Param -> bool)

  /** Shape every command has: as many end values as start values, and a move has two. */
  predicate WellFormedEvent(e: Event) {
    |e.end| == |e.start| && (e.kind == Move ==> |e.start| == 2)
  }

  predicate WellFormed(s: seq<Event>) {
    forall e :: e in s ==> WellFormedEvent(e)
  }

  /** No command object occurs twice in a list. */
  predicate UniqueIds(s: seq<Event>) {
    forall i, j :: 0 <= i < j < |s| ==> s[i].id != s[j].id
  }

  predicate HasId(s: seq<Event>, id: nat) {
    exists j :: 0 <= j < |s| && s[j].id == id
  }

  predicate HasKind(s: seq<Event>, k: EventType) {
    exists e :: e in s && e.kind == k
  }

  /** Position of the first command with the given identity, |s| when there is none. */
  function IndexOf(s: seq<Event>, id: nat): (k: nat)
    ensures k <= |s|
    ensures k < |s| ==> s[k].id == id
    ensures forall j :: 0 <= j < k ==> s[j].id != id
    ensures k == |s| <==> !HasId(s, id)
  {
    if s == [] then 0
    else if s[0].id == id then 0
    else 1 + IndexOf(s[1..], id)
  }

  /** List<T>.Remove: drops the first occurrence of the command, if any. */
  function Remove(s: seq<Event>, id: nat): (r: seq<Event>)
    ensures |r| == if HasId(s, id) then |s| - 1 else |s|
    ensures !HasId(s, id) ==> r == s
    ensures forall e :: e in r ==> e in s
    ensures forall e :: e in s && e.id != id ==> e in r
  {
    var k := IndexOf(s, id);
    if k == |s| then s else s[..k] + s[k + 1..]
  }

  /** A write to a field of a command object, seen through one list that holds it:
      every element with ev's identity now reads as ev. */
  function Overwrite(s: seq<Event>, ev: Event): (r: seq<Event>)
    ensures |r| == |s|
    ensures forall j :: 0 <= j < |s| ==> r[j].id == s[j].id
    ensures forall j :: 0 <= j < |s| && s[j].id != ev.id ==> r[j] == s[j]
    ensures forall j :: 0 <= j < |s| && s[j].id == ev.id ==> r[j] == ev
  {
    seq(|s|, j requires 0 <= j < |s| => if s[j].id == ev.id then ev else s[j])
  }

  /** After the write, a list holds only its old commands and the written one. */
  lemma OverwriteMember(s: seq<Event>, ev: Event, e: Event)
    requires e in Overwrite(s, ev)
    ensures e == ev || e in s
  {
    var j :| 0 <= j < |s| && Overwrite(s, ev)[j] == e;
    assert s[j] in s;
  }

  lemma OverwriteWellFormed(s: seq<Event>, ev: Event)
    requires WellFormed(s) && WellFormedEvent(ev)
    ensures WellFormed(Overwrite(s, ev))
  {
    var r := Overwrite(s, ev);
    forall e | e in r ensures WellFormedEvent(e) {
      var j :| 0 <= j < |r| && r[j] == e;
      assert s[j] in s;
    }
  }

  /** The parts of a command the compressor never edits: it only rewrites end times and
      end values. */
  predicate SameCommand(a: Event, b: Event) {
    a.id == b.id && a.kind == b.kind && a.startTime == b.startTime &&
    a.start == b.start && |a.end| == |b.end|
  }

  /** `cur` is `orig` with some commands deleted and, in the others, only end times and
      end values rewritten; the order of the survivors is kept. */
  predicate Pruned(orig: seq<Event>, cur: seq<Event>)
    decreases |orig|
  {
    if cur == [] then true
    else if orig == [] then false
    else (SameCommand(orig[0], cur[0]) && Pruned(orig[1..], cur[1..])) || Pruned(orig[1..], cur)
  }

  /** The command kinds of a list, each once, in order of first appearance
      (the keys of GroupBy(k => k.EventType)). */
  function Kinds(s: seq<Event>): (ks: seq<EventType>)
    ensures forall e :: e in s ==> e.kind in ks
    ensures forall k :: k in ks ==> HasKind(s, k)
    ensures forall a, b :: 0 <= a < b < |ks| ==> ks[a] != ks[b]
  {
    if s == [] then []
    else
      var ks := Kinds(s[..|s| - 1]);
      assert forall e :: e in s[..|s| - 1] ==> e in s;
      assert s == s[..|s| - 1] + [s[|s| - 1]];
      if s[|s| - 1].kind in ks then ks else ks + [s[|s| - 1].kind]
  }

  /** The commands of one kind, in list order (one group of the GroupBy). */
  function OfKind(s: seq<Event>, k: EventType): (r: seq<Event>)
    ensures forall e :: e in r <==> e in s && e.kind == k
    ensures Pruned(s, r)
  {
    if s == [] then []
    else
      assert forall e :: e in s <==> e == s[0] || e in s[1..];
      if s[0].kind == k then
        var r := [s[0]] + OfKind(s[1..], k);
        assert r[1..] == OfKind(s[1..], k);
        r
      else OfKind(s[1..], k)
  }

  /** Position of the first command of kind k, |s| when there is none. */
  function FirstOf(s: seq<Event>, k: EventType): (j: nat)
    ensures j <= |s|
    ensures j < |s| ==> s[j].kind == k
    ensures forall i :: 0 <= i < j ==> s[i].kind != k
  {
    if s == [] then 0
    else if s[0].kind == k then 0
    else 1 + FirstOf(s[1..], k)
  }

  /** A kind the list holds is found before the list's end. */
  lemma FirstOfFound(s: seq<Event>, k: EventType)
    requires HasKind(s, k)
    ensures FirstOf(s, k) < |s|
  {
    var e :| e in s && e.kind == k;
    var i :| 0 <= i < |s| && s[i] == e;
  }

  /** The first command of a kind present in a prefix is found in that prefix. */
  lemma FirstOfPrefix(s: seq<Event>, n: nat, k: EventType)
    requires n <= |s| && HasKind(s[..n], k)
    ensures FirstOf(s, k) == FirstOf(s[..n], k) < n
  {
    var p := s[..n];
    FirstOfFound(p, k);
    var j := FirstOf(p, k);
    var i := FirstOf(s, k);
    assert j < n;
    assert p[j] == s[j];
    assert i <= j;
    assert p[i] == s[i];
  }

  /** A kind that first appears in the last command is first found there. */
  lemma FirstOfNew(s: seq<Event>, k: EventType)
    requires |s| > 0 && s[|s| - 1].kind == k
    requires !HasKind(s[..|s| - 1], k)
    ensures FirstOf(s, k) == |s| - 1
  {
    var n := |s| - 1;
    assert s[n] in s;
    assert forall j :: 0 <= j < n ==> s[j] in s[..n];
  }

  /** Kinds grows by the last command's kind when that kind is new. */
  lemma KindsLast(s: seq<Event>)
    requires s != []
    ensures var kp, last := Kinds(s[..|s| - 1]), s[|s| - 1].kind;
      Kinds(s) == if last in kp then kp else kp + [last]
  {
  }

  /** The kinds `ks` are listed in order of their first command in `s`. */
  predicate InFirstOrder(s: seq<Event>, ks: seq<EventType>) {
    forall a, b :: 0 <= a < b < |ks| ==> FirstOf(s, ks[a]) < FirstOf(s, ks[b])
  }

  /** GroupBy lists its keys in order of first appearance: a kind listed earlier has
      its first command earlier in the list. */
  lemma {:induction false} KindsInOrder(s: seq<Event>)
    ensures InFirstOrder(s, Kinds(s))
    decreases |s|
  {
    if s != [] {
      var p := s[..|s| - 1];
      KindsInOrder(p);
      KindsLast(s);
      OrderExtends(s, Kinds(p));
    }
  }

  /** Kinds listed in order of first appearance in a list's prefix stay in order in the
      list, and so do they followed by the last command's kind when it is new. */
  lemma OrderExtends(s: seq<Event>, kp: seq<EventType>)
    requires s != []
    requires forall a :: 0 <= a < |kp| ==> HasKind(s[..|s| - 1], kp[a])
    requires forall e :: e in s[..|s| - 1] ==> e.kind in kp
    requires InFirstOrder(s[..|s| - 1], kp)
    ensures InFirstOrder(s, kp)
    ensures s[|s| - 1].kind !in kp ==> InFirstOrder(s, kp + [s[|s| - 1].kind])
  {
    var n := |s| - 1;
    FirstOfAllPrefix(s, kp);
    var last := s[n].kind;
    if last !in kp {
      assert !HasKind(s[..n], last);
      FirstOfNew(s, last);
      OrderAppend(s, kp, last);
    }
  }

  /** The kinds of a list's prefix are first found within that prefix. */
  lemma FirstOfAllPrefix(s: seq<Event>, kp: seq<EventType>)
    requires s != []
    requires forall a :: 0 <= a < |kp| ==> HasKind(s[..|s| - 1], kp[a])
    ensures forall a :: 0 <= a < |kp| ==>
      FirstOf(s, kp[a]) == FirstOf(s[..|s| - 1], kp[a]) < |s| - 1
  {
    forall a | 0 <= a < |kp|
      ensures FirstOf(s, kp[a]) == FirstOf(s[..|s| - 1], kp[a]) < |s| - 1
    {
      FirstOfPrefix(s, |s| - 1, kp[a]);
    }
  }

  lemma OrderAppend(s: seq<Event>, kp: seq<EventType>, last: EventType)
    requires forall a :: 0 <= a < |kp| ==> FirstOf(s, kp[a]) < FirstOf(s, last)
    requires InFirstOrder(s, kp)
    ensures InFirstOrder(s, kp + [last])
  {
    var ks := kp + [last];
    forall a, b | 0 <= a < b < |ks| ensures FirstOf(s, ks[a]) < FirstOf(s, ks[b]) {
      OrderAppendAt(s, kp, last, a, b);
    }
  }

  lemma OrderAppendAt(s: seq<Event>, kp: seq<EventType>, last: EventType, a: nat, b: nat)
    requires a < b <= |kp|
    requires a < |kp| ==> FirstOf(s, kp[a]) < FirstOf(s, last)
    requires b < |kp| ==> FirstOf(s, kp[a]) < FirstOf(s, kp[b])
    ensures FirstOf(s, (kp + [last])[a]) < FirstOf(s, (kp + [last])[b])
  {
    var ks := kp + [last];
    assert ks[a] == kp[a];
    if b < |kp| {
      assert ks[b] == kp[b];
    } else {
      assert ks[b] == last;
    }
  }

  lemma {:induction false} OfKindUnique(s: seq<Event>, k: EventType)
    requires UniqueIds(s)
    ensures UniqueIds(OfKind(s, k))
    decreases |s|
  {
    if s != [] {
      var rest := OfKind(s[1..], k);
      OfKindUnique(s[1..], k);
      forall e | e in rest ensures e.id != s[0].id {
        var j :| 0 <= j < |s[1..]| && s[1..][j] == e;
        assert s[j + 1] == e;
      }
      if s[0].kind == k {
        ConsUnique(s[0], rest);
      }
    }
  }

  lemma ConsUnique(x: Event, rest: seq<Event>)
    requires UniqueIds(rest) && forall e :: e in rest ==> e.id != x.id
    ensures UniqueIds([x] + rest)
  {
    var r := [x] + rest;
    forall a, b | 0 <= a < b < |r| ensures r[a].id != r[b].id {
      if a > 0 {
        assert r[a] == rest[a - 1] && r[b] == rest[b - 1];
      } else {
        assert r[b] in rest;
      }
    }
  }

  /** GroupBy(k => k.EventType) over a list: one group per kind, in order of first
      appearance, each in list order. */
  function Groups(s: seq<Event>): seq<seq<Event>> {
    var ks := Kinds(s);
    seq(|ks|, g requires 0 <= g < |ks| => OfKind(s, ks[g]))
  }

  /** The working group list of one pass over one kind: it holds the kind's commands
      only, each once, and each still belongs to the container. */
  predicate Coherent(evs: seq<Event>, list: seq<Event>, k: EventType) {
    UniqueIds(evs) && WellFormed(evs) && UniqueIds(list) &&
    forall e :: e in list ==> e in evs && e.kind == k
  }

  /** Every command of another kind than `k` is still in the list, unedited. */
  predicate OthersKept(before: seq<Event>, after: seq<Event>, k: EventType) {
    forall e :: e in before && e.kind != k ==> e in after
  }

  /** The groups still to be walked: non-empty, one kind each and distinct kinds, each
      group a duplicate-free list of commands still in the container. */
  predicate GroupsFit(evs: seq<Event>, gs: seq<seq<Event>>) {
    (forall g :: 0 <= g < |gs| ==> |gs[g]| > 0 && Coherent(evs, gs[g], gs[g][0].kind)) &&
    (forall a, b :: 0 <= a < b < |gs| ==> gs[a][0].kind != gs[b][0].kind)
  }

  lemma {:induction false} PrunedRefl(s: seq<Event>)
    ensures Pruned(s, s)
    decreases |s|
  {
    if s != [] {
      PrunedRefl(s[1..]);
    }
  }

  lemma {:induction false} PrunedTrans(a: seq<Event>, b: seq<Event>, c: seq<Event>)
    requires Pruned(a, b) && Pruned(b, c)
    ensures Pruned(a, c)
    decreases |a|
  {
    if c != [] {
      assert b != [] && a != [];
      if SameCommand(a[0], b[0]) && Pruned(a[1..], b[1..]) {
        if SameCommand(b[0], c[0]) && Pruned(b[1..], c[1..]) {
          PrunedTrans(a[1..], b[1..], c[1..]);
        } else {
          PrunedTrans(a[1..], b[1..], c);
        }
      } else {
        PrunedTrans(a[1..], b, c);
      }
    }
  }

  /** Deleting the command at one position prunes the list. */
  lemma {:induction false} PrunedDrop(s: seq<Event>, k: nat)
    requires k < |s|
    ensures Pruned(s, s[..k] + s[k + 1..])
    decreases k
  {
    if k == 0 {
      assert s[..k] + s[k + 1..] == s[1..];
      PrunedRefl(s[1..]);
    } else {
      var t := s[..k] + s[k + 1..];
      assert t[0] == s[0];
      assert t[1..] == s[1..][..k - 1] + s[1..][k..];
      PrunedDrop(s[1..], k - 1);
    }
  }

  /** RemoveEvent only ever deletes. */
  lemma RemovePrunes(s: seq<Event>, id: nat)
    ensures Pruned(s, Remove(s, id))
  {
    var k := IndexOf(s, id);
    if k == |s| {
      PrunedRefl(s);
    } else {
      PrunedDrop(s, k);
    }
  }

  lemma {:induction false} PrunedPointwise(s: seq<Event>, t: seq<Event>)
    requires |s| == |t|
    requires forall j :: 0 <= j < |s| ==> SameCommand(s[j], t[j])
    ensures Pruned(s, t)
    decreases |s|
  {
    if s != [] {
      PrunedPointwise(s[1..], t[1..]);
    }
  }

  /** An edit that keeps a command's identity, kind, start time and start values
      prunes the list. */
  lemma OverwritePrunes(s: seq<Event>, ev: Event)
    requires forall e :: e in s && e.id == ev.id ==> SameCommand(e, ev)
    ensures Pruned(s, Overwrite(s, ev))
  {
    var t := Overwrite(s, ev);
    forall j | 0 <= j < |s| ensures SameCommand(s[j], t[j]) {
      assert s[j] in s;
    }
    PrunedPointwise(s, t);
  }

  lemma RemoveUnique(s: seq<Event>, id: nat)
    requires UniqueIds(s)
    ensures UniqueIds(Remove(s, id)) && !HasId(Remove(s, id), id)
  {
    var k := IndexOf(s, id);
    if k < |s| {
      CutUnique(s, k);
    }
  }

  /** Cutting one slot out of a duplicate-free list leaves no duplicate and no command
      with the cut one's identity. */
  lemma CutUnique(s: seq<Event>, k: nat)
    requires UniqueIds(s) && k < |s|
    ensures var r := s[..k] + s[k + 1..];
      UniqueIds(r) && forall j :: 0 <= j < |r| ==> r[j].id != s[k].id
  {
    var r := s[..k] + s[k + 1..];
    assert |r| == |s| - 1;
    forall j | 0 <= j < |r| ensures r[j] == (if j < k then s[j] else s[j + 1]) {
    }
    forall a, b | 0 <= a < b < |r| ensures r[a].id != r[b].id {
      var a', b' := if a < k then a else a + 1, if b < k then b else b + 1;
      assert r[a] == s[a'] && r[b] == s[b'];
    }
    forall j | 0 <= j < |r| ensures r[j].id != s[k].id {
      var j' := if j < k then j else j + 1;
      assert r[j] == s[j'];
    }
  }

  /** With unique identities, removing the command at position i cuts exactly that slot. */
  lemma RemoveAtIndex(s: seq<Event>, i: nat)
    requires UniqueIds(s) && i < |s|
    ensures Remove(s, s[i].id) == s[..i] + s[i + 1..]
  {
    var k := IndexOf(s, s[i].id);
    assert k <= i;
    assert k == i;
  }

  /** Every command of `cur` has the end values of the command with its identity in
      `orig`: whatever was edited, the end values were not. */
  predicate EndsKept(orig: seq<Event>, cur: seq<Event>) {
    forall i :: 0 <= i < |cur| ==>
      HasId(orig, cur[i].id) && orig[IndexOf(orig, cur[i].id)].end == cur[i].end
  }

  /** A list of commands taken unedited from a duplicate-free list keeps its end values. */
  lemma EndsKeptSub(s: seq<Event>, cur: seq<Event>)
    requires UniqueIds(s) && forall e :: e in cur ==> e in s
    ensures EndsKept(s, cur)
  {
    forall i | 0 <= i < |cur|
      ensures HasId(s, cur[i].id) && s[IndexOf(s, cur[i].id)].end == cur[i].end
    {
      assert cur[i] in s;
      var j :| 0 <= j < |s| && s[j] == cur[i];
      assert HasId(s, cur[i].id);
      assert IndexOf(s, cur[i].id) == j;
    }
  }

  lemma EndsKeptTrans(a: seq<Event>, b: seq<Event>, c: seq<Event>)
    requires EndsKept(a, b) && EndsKept(b, c)
    ensures EndsKept(a, c)
  {
    forall i | 0 <= i < |c|
      ensures HasId(a, c[i].id) && a[IndexOf(a, c[i].id)].end == c[i].end
    {
      var j := IndexOf(b, c[i].id);
      assert b[j].id == c[i].id;
    }
  }

  /** A write that leaves the end values as they were keeps them. */
  lemma EndsKeptOverwrite(s: seq<Event>, ev: Event)
    requires UniqueIds(s)
    requires forall e :: e in s && e.id == ev.id ==> e.end == ev.end
    ensures EndsKept(s, Overwrite(s, ev))
  {
    var r := Overwrite(s, ev);
    forall i | 0 <= i < |r|
      ensures HasId(s, r[i].id) && s[IndexOf(s, r[i].id)].end == r[i].end
    {
      assert s[i] in s;
      assert HasId(s, r[i].id);
      assert IndexOf(s, r[i].id) == i;
    }
  }

  /** With unique identities, a command is determined by its identity. */
  lemma SameIdSameEvent(s: seq<Event>, a: Event, b: Event)
    requires UniqueIds(s) && a in s && b in s && a.id == b.id
    ensures a == b
  {
    var i :| 0 <= i < |s| && s[i] == a;
    var j :| 0 <= j < |s| && s[j] == b;
    assert i == j;
  }

  /** Every command of a coherent group list is well formed. */
  lemma CoherentWellFormed(evs: seq<Event>, list: seq<Event>, k: EventType)
    requires Coherent(evs, list, k)
    ensures WellFormed(list)
  {
  }

  /** Deleting the group command at slot i from both lists cuts exactly that slot from
      the group list and exactly that command from the container's list. */
  lemma RemoveSlot(evs: seq<Event>, list: seq<Event>, k: EventType, i: nat)
    requires Coherent(evs, list, k) && i < |list|
    ensures Remove(list, list[i].id) == list[..i] + list[i + 1..]
    ensures !HasId(Remove(evs, list[i].id), list[i].id)
    ensures |Remove(evs, list[i].id)| == |evs| - 1
  {
    assert list[i] in list;
    CoherentRemove(evs, list, k, list[i]);
    RemoveUnique(evs, list[i].id);
    RemoveAtIndex(list, i);
  }

  /** Deleting a command that is present from a list without duplicates keeps every
      other command and shortens the list by one. */
  lemma RemovePresent(s: seq<Event>, x: Event, e: Event)
    requires UniqueIds(s) && x in s && e in s && e.id != x.id
    ensures e in Remove(s, x.id) && !HasId(Remove(s, x.id), x.id)
    ensures |Remove(s, x.id)| == |s| - 1
  {
    RemoveUnique(s, x.id);
    var j :| 0 <= j < |s| && s[j] == x;
    assert HasId(s, x.id);
  }

  /** Deleting the command at slot i of a list without duplicates leaves the command
      before it in slot i-1, removes the identity entirely and shortens the list by
      one. */
  lemma RemoveSlotBefore(s: seq<Event>, i: nat)
    requires UniqueIds(s) && 1 <= i < |s|
    ensures Remove(s, s[i].id)[i - 1] == s[i - 1] && !HasId(Remove(s, s[i].id), s[i].id)
    ensures |Remove(s, s[i].id)| == |s| - 1
  {
    RemoveUnique(s, s[i].id);
    RemoveAtIndex(s, i);
  }

  /** Deleting a command of the group from both lists keeps them coherent and leaves
      the commands of other kinds alone. */
  lemma CoherentRemove(evs: seq<Event>, list: seq<Event>, k: EventType, x: Event)
    requires Coherent(evs, list, k) && x in list
    ensures Coherent(Remove(evs, x.id), Remove(list, x.id), k)
    ensures OthersKept(evs, Remove(evs, x.id), k)
    ensures Pruned(evs, Remove(evs, x.id))
    ensures |Remove(list, x.id)| == |list| - 1 && |Remove(evs, x.id)| == |evs| - 1
  {
    RemoveUnique(evs, x.id);
    RemoveUnique(list, x.id);
    RemovePrunes(evs, x.id);
    var i :| 0 <= i < |list| && list[i] == x;
    assert HasId(list, x.id);
    var j :| 0 <= j < |evs| && evs[j] == x;
    assert HasId(evs, x.id);
    forall e | e in Remove(list, x.id) ensures e in Remove(evs, x.id) && e.kind == k {
      assert e.id != x.id by {
        var m :| 0 <= m < |Remove(list, x.id)| && Remove(list, x.id)[m] == e;
      }
    }
    forall e | e in evs && e.kind != k ensures e in Remove(evs, x.id) {
      if e.id == x.id {
        SameIdSameEvent(evs, e, x);
      }
    }
  }

  /** Writing an edited group command through both lists keeps them coherent, keeps
      the other kinds, and only prunes. */
  lemma CoherentOverwrite(evs: seq<Event>, list: seq<Event>, k: EventType, x: Event, ev: Event)
    requires Coherent(evs, list, k) && x in list
    requires SameCommand(x, ev) && WellFormedEvent(ev)
    ensures Coherent(Overwrite(evs, ev), Overwrite(list, ev), k)
    ensures OthersKept(evs, Overwrite(evs, ev), k)
    ensures Pruned(evs, Overwrite(evs, ev))
    ensures ev in Overwrite(evs, ev)
  {
    var e2 := Overwrite(evs, ev);
    var l2 := Overwrite(list, ev);
    var j :| 0 <= j < |evs| && evs[j] == x;
    assert e2[j] == ev;
    forall e | e in evs && e.id == ev.id ensures SameCommand(e, ev) {
      SameIdSameEvent(evs, e, x);
    }
    OverwritePrunes(evs, ev);
    forall e | e in l2 ensures e in e2 && e.kind == k {
      var m :| 0 <= m < |l2| && l2[m] == e;
      if list[m].id != ev.id {
        assert list[m] in list;
        var n :| 0 <= n < |evs| && evs[n] == list[m];
        assert e2[n] == e;
      }
    }
    forall e | e in evs && e.kind != k ensures e in e2 {
      var n :| 0 <= n < |evs| && evs[n] == e;
      if e.id == ev.id {
        SameIdSameEvent(evs, e, x);
      }
      assert e2[n] == e;
    }
    forall e | e in e2 ensures WellFormedEvent(e) {
      var n :| 0 <= n < |e2| && e2[n] == e;
      assert evs[n] in evs;
    }
  }

  /** GroupBy over a duplicate-free, well-formed list yields groups that fit it. */
  lemma GroupsFitInitial(s: seq<Event>)
    requires UniqueIds(s) && WellFormed(s)
    ensures GroupsFit(s, Groups(s))
  {
    var ks := Kinds(s);
    var gs: seq<seq<Event>> := Groups(s);
    forall g | 0 <= g < |gs| ensures |gs[g]| > 0 && gs[g][0].kind == ks[g] && Coherent(s, gs[g], ks[g]) {
      assert ks[g] in ks;
      var e :| e in s && e.kind == ks[g];
      assert e in gs[g];
      assert gs[g][0] in gs[g];
      OfKindUnique(s, ks[g]);
    }
  }

  /** After the walk over the first group, the remaining groups still fit. */
  lemma GroupsFitTail(evs: seq<Event>, gs: seq<seq<Event>>, after: seq<Event>)
    requires GroupsFit(evs, gs) && |gs| > 0
    requires UniqueIds(after) && WellFormed(after)
    requires OthersKept(evs, after, gs[0][0].kind)
    ensures GroupsFit(after, gs[1..])
  {
    forall g | 0 <= g < |gs[1..]|
      ensures |gs[1..][g]| > 0 && Coherent(after, gs[1..][g], gs[1..][g][0].kind)
    {
      assert gs[1..][g] == gs[g + 1];
      assert gs[0][0].kind != gs[g + 1][0].kind;
      forall e | e in gs[g + 1] ensures e in after {
        assert e in evs && e.kind == gs[g + 1][0].kind;
      }
    }
  }
}
