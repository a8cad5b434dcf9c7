/** The collapsible "platform" panels of main.js: `openPlatform`,
    `closePlatform`, `togglePlatform`, the ARIA set-up done by
    `initializePlatforms`/`updatePlatformsAria`, and the global
    `scrollToPlatform` on the path where the page controller exists.

    The document is a map from a `.platform-content` element's id to the
    flags the code reads and writes. The deferred "hide" that `closePlatform`
    schedules is a queued event naming the panel it belongs to. */
module Panels {

  /** The content element's `style.display`: as the markup left it, `block`
      or `none`. */
  datatype Display = Initial | Block | Hidden

  /** One `.platform-content` element and the parts `togglePlatform` looks
      up: whether its previous sibling (the header) exists, whether that
      sibling carries the `.platform-header` class, and whether it holds a
      `.platform-arrow`; the content's `active` class, the arrow's `active`
      class, the header's `aria-expanded`, and the content's display. */
  datatype Panel = Panel(
    hasHeader: bool,
    platformHeader: bool,
    hasArrow: bool,
    active: bool,
    arrowActive: bool,
    expanded: bool,
    display: Display)

  type PanelMap = map<string, Panel>

  /** A panel that `openPlatform`/`closePlatform` act on: header and arrow
      both present. */
  predicate WellFormed(p: Panel) {
    p.hasHeader && p.hasArrow
  }

  /** A panel whose header the ARIA sync visits: the sync walks the
      `.platform-header` elements, so a previous sibling without that class
      keeps its `aria-expanded`. */
  predicate AriaTracked(p: Panel) {
    p.hasHeader && p.platformHeader
  }

  /** A well-formed panel whose content is `active`. */
  predicate IsOpen(p: Panel) {
    WellFormed(p) && p.active
  }

  /** Arrow `active` and `aria-expanded` agree with the content's `active`. */
  predicate InLockstep(p: Panel) {
    p.arrowActive == p.active && p.expanded == p.active
  }

  /** The group invariant: at most one well-formed panel is open. */
  ghost predicate AtMostOneOpen(m: PanelMap) {
    forall a, b :: a in m && b in m && IsOpen(m[a]) && IsOpen(m[b]) ==> a == b
  }

  /** Every well-formed panel's arrow and ARIA state match its content. */
  ghost predicate AllInLockstep(m: PanelMap) {
    forall k :: k in m && WellFormed(m[k]) ==> InLockstep(m[k])
  }

  /** `openPlatform` on the panel itself. */
  function Opened(p: Panel): Panel {
    p.(active := true, arrowActive := true, expanded := true, display := Block)
  }

  /** `closePlatform` on the panel itself (the display change is deferred). */
  function Closed(p: Panel): Panel {
    p.(active := false, arrowActive := false, expanded := false)
  }

  /** `openPlatform(id)`: a missing or partless panel is left alone. */
  function OpenAt(m: PanelMap, id: string): PanelMap {
    if id in m && WellFormed(m[id]) then m[id := Opened(m[id])] else m
  }

  /** `closePlatform(id)`, without its deferred hide. */
  function CloseAt(m: PanelMap, id: string): PanelMap {
    if id in m && WellFormed(m[id]) then m[id := Closed(m[id])] else m
  }

  /** The deferred hide that `closePlatform(id)` schedules, if it acts. */
  function HideQueuedBy(m: PanelMap, id: string): seq<string> {
    if id in m && WellFormed(m[id]) then [id] else []
  }

  /** The deferred hide of `id` firing: `display = none` only if the panel
      is still inactive. */
  function AfterHide(m: PanelMap, id: string): PanelMap {
    if id in m && !m[id].active then m[id := m[id].(display := Hidden)] else m
  }

  /** Whether `togglePlatform(id)`, opening, closes the panel `k`: another
      panel that is active and that `closePlatform` can act on. */
  predicate ClosesSibling(m: PanelMap, id: string, k: string) {
    k in m && k != id && m[k].active && WellFormed(m[k])
  }

  /** Every sibling that `togglePlatform(id)` closes, closed. */
  function SiblingsClosed(m: PanelMap, id: string): PanelMap {
    map k | k in m :: if ClosesSibling(m, id, k) then Closed(m[k]) else m[k]
  }

  /** `togglePlatform(id)`'s effect on the panels. */
  function Toggled(m: PanelMap, id: string): PanelMap {
    if id !in m || !WellFormed(m[id]) then m
    else if m[id].active then CloseAt(m, id)
    else OpenAt(SiblingsClosed(m, id), id)
  }

  /** The hides queued while closing siblings, in document order `ids`. */
  function SiblingHides(ids: seq<string>, m: PanelMap, id: string): seq<string> {
    if ids == [] then []
    else
      var last := ids[|ids| - 1];
      SiblingHides(ids[..|ids| - 1], m, id) + (if ClosesSibling(m, id, last) then [last] else [])
  }

  /** The hides `togglePlatform(id)` queues. */
  function ToggleHides(order: seq<string>, m: PanelMap, id: string): seq<string> {
    if id !in m || !WellFormed(m[id]) then []
    else if m[id].active then [id]
    else SiblingHides(order, m, id)
  }

  /** How `togglePlatform` ends: the two early returns (which only log an
      error), or the direction it went. */
  datatype ToggleOutcome = NotFound | PartsMissing | Opening | Closing

  function ToggleOutcomeOf(m: PanelMap, id: string): ToggleOutcome {
    if id !in m then NotFound
    else if !WellFormed(m[id]) then PartsMissing
    else if m[id].active then Closing
    else Opening
  }

  /** What `updatePlatformsAria` leaves: each `.platform-header`'s
      `aria-expanded` matches its content's `active`, a header without that
      class is left alone, and nothing else is written. */
  function AriaSynced(m: PanelMap): (r: PanelMap)
    ensures r.Keys == m.Keys
    ensures forall k :: k in r && AriaTracked(r[k]) ==> r[k].expanded == r[k].active
    ensures forall k :: k in m && !AriaTracked(m[k]) ==> r[k] == m[k]
    ensures forall k :: k in m ==> r[k].(expanded := m[k].expanded) == m[k]
  {
    map k | k in m :: if AriaTracked(m[k]) then m[k].(expanded := m[k].active) else m[k]
  }

  // ---------------------------------------------------------------------
  // Properties of the transitions
  // ---------------------------------------------------------------------

  /** An unknown id, or a panel without header or arrow, is a no-op. */
  lemma ToggleUnknownIsNoOp(m: PanelMap, id: string, order: seq<string>)
    requires id !in m || !WellFormed(m[id])
    ensures Toggled(m, id) == m && ToggleHides(order, m, id) == []
    ensures ToggleOutcomeOf(m, id) in {NotFound, PartsMissing}
  {
  }

  /** Opening through the toggle: the panel ends open and in lockstep, every
      other well-formed panel ends inactive, panels without header or arrow
      are untouched, and no panel appears or disappears. */
  lemma ToggleOpening(m: PanelMap, id: string)
    requires id in m && WellFormed(m[id]) && !m[id].active
    ensures Toggled(m, id).Keys == m.Keys
    ensures IsOpen(Toggled(m, id)[id]) && InLockstep(Toggled(m, id)[id])
    ensures forall k :: k in m && k != id && WellFormed(m[k]) ==> !Toggled(m, id)[k].active
    ensures forall k :: k in m && !WellFormed(m[k]) ==> Toggled(m, id)[k] == m[k]
  {
  }

  /** Closing through the toggle: the panel ends inactive and in lockstep and
      every other panel is unchanged. */
  lemma ToggleClosing(m: PanelMap, id: string)
    requires id in m && WellFormed(m[id]) && m[id].active
    ensures Toggled(m, id).Keys == m.Keys
    ensures !Toggled(m, id)[id].active && InLockstep(Toggled(m, id)[id])
    ensures Toggled(m, id)[id].display == m[id].display
    ensures forall k :: k in m && k != id ==> Toggled(m, id)[k] == m[k]
  {
  }

  /** The toggle preserves the group invariant. */
  lemma ToggleKeepsAtMostOneOpen(m: PanelMap, id: string)
    requires AtMostOneOpen(m)
    ensures AtMostOneOpen(Toggled(m, id))
  {
    if id in m && WellFormed(m[id]) && !m[id].active {
      ToggleOpening(m, id);
    } else if id in m && WellFormed(m[id]) {
      ToggleClosing(m, id);
    }
  }

  /** The toggle keeps every well-formed panel's arrow and ARIA state in
      step with its content. */
  lemma ToggleKeepsLockstep(m: PanelMap, id: string)
    requires AllInLockstep(m)
    ensures AllInLockstep(Toggled(m, id))
  {
  }

  /** Toggling a closed panel twice in a row leaves it closed again. */
  lemma ToggleTwiceCloses(m: PanelMap, id: string)
    requires id in m && WellFormed(m[id]) && !m[id].active
    ensures id in Toggled(Toggled(m, id), id)
    ensures !Toggled(Toggled(m, id), id)[id].active
    ensures ToggleHides([], Toggled(m, id), id) == [id]
  {
    ToggleOpening(m, id);
  }

  /** `closePlatform` keeps the group invariant (it only makes a panel
      inactive). */
  lemma CloseKeepsAtMostOneOpen(m: PanelMap, id: string)
    requires AtMostOneOpen(m)
    ensures AtMostOneOpen(CloseAt(m, id))
  {
  }

  /** `openPlatform` alone does not close siblings: from a state with one
      panel open, opening another leaves two open. This is the path
      `scrollToPlatform` takes. */
  lemma OpenCanBreakAtMostOneOpen()
    ensures var p := Panel(true, true, true, false, false, false, Initial);
            var m := map["a" := Opened(p), "b" := p];
            AtMostOneOpen(m) && !AtMostOneOpen(OpenAt(m, "b"))
  {
    var p := Panel(true, true, true, false, false, false, Initial);
    var m := map["a" := Opened(p), "b" := p];
    assert !IsOpen(m["b"]);
    var r := OpenAt(m, "b");
    assert IsOpen(r["a"]) && IsOpen(r["b"]);
  }

  /** Open and close set the arrow and `aria-expanded` in lockstep with the
      content and touch no other panel. */
  lemma OpenCloseLockstep(m: PanelMap, id: string)
    requires id in m && WellFormed(m[id])
    ensures OpenAt(m, id)[id].active && InLockstep(OpenAt(m, id)[id])
    ensures !CloseAt(m, id)[id].active && InLockstep(CloseAt(m, id)[id])
    ensures forall k :: k in m && k != id ==> OpenAt(m, id)[k] == m[k] && CloseAt(m, id)[k] == m[k]
    ensures OpenAt(m, id).Keys == m.Keys && CloseAt(m, id).Keys == m.Keys
  {
  }

  /** A deferred hide changes nothing but one panel's display, so it keeps
      the group invariant and the lockstep. */
  lemma HideOnlyChangesDisplay(m: PanelMap, id: string)
    ensures AfterHide(m, id).Keys == m.Keys
    ensures forall k :: k in m ==> AfterHide(m, id)[k].(display := m[k].display) == m[k]
    ensures AtMostOneOpen(m) ==> AtMostOneOpen(AfterHide(m, id))
    ensures AllInLockstep(m) ==> AllInLockstep(AfterHide(m, id))
  {
  }

  /** A panel closed and reopened before its hide fires stays displayed. */
  lemma HideSkippedAfterReopen(m: PanelMap, id: string)
    requires id in m && WellFormed(m[id])
    ensures AfterHide(OpenAt(CloseAt(m, id), id), id)[id].display == Block
    ensures AfterHide(OpenAt(CloseAt(m, id), id), id)[id].active
  {
  }

  /** A panel still closed when its hide fires is hidden. */
  lemma HideAppliesToClosedPanel(m: PanelMap, id: string)
    requires id in m && WellFormed(m[id])
    ensures AfterHide(CloseAt(m, id), id)[id].display == Hidden
  {
  }

  // ---------------------------------------------------------------------
  // The loop in togglePlatform
  // ---------------------------------------------------------------------

  /** No id occurs twice. */
  predicate Distinct(ids: seq<string>) {
    forall a, b :: 0 <= a < b < |ids| ==> ids[a] != ids[b]
  }

  /** One turn of the `forEach` of `togglePlatform(id)`: the panel `k` is
      passed to `closePlatform` when it is another active panel. */
  function ClosingStep(m: PanelMap, id: string, k: string): PanelMap {
    if k != id && k in m && m[k].active then CloseAt(m, k) else m
  }

  /** The hide queued in that turn, if any. */
  function ClosingHides(m: PanelMap, id: string, k: string): seq<string> {
    if k != id && k in m && m[k].active then HideQueuedBy(m, k) else []
  }

  /** The panels after the `forEach` of `togglePlatform(id)` has visited the
      ids in `done`, in that order: each visited panel other than `id` that
      is active at its turn is passed to `closePlatform`. */
  function CloseEach(m: PanelMap, id: string, done: seq<string>): PanelMap
    decreases |done|
  {
    if done == [] then m
    else
      ClosingStep(CloseEach(m, id, done[..|done| - 1]), id, done[|done| - 1])
  }

  /** The hides queued by that same walk. */
  function CloseEachHides(m: PanelMap, id: string, done: seq<string>): seq<string>
    decreases |done|
  {
    if done == [] then []
    else
      CloseEachHides(m, id, done[..|done| - 1])
        + ClosingHides(CloseEach(m, id, done[..|done| - 1]), id, done[|done| - 1])
  }

  /** The siblings among `done` closed, all at once. */
  function ClosedAmong(m: PanelMap, id: string, done: seq<string>): PanelMap {
    map k | k in m :: if k in done && ClosesSibling(m, id, k) then Closed(m[k]) else m[k]
  }

  /** Visiting a fresh id `k` closes it exactly when it is a sibling to close,
      since no earlier step touched it. */
  lemma ClosedAmongStep(m: PanelMap, id: string, done: seq<string>, k: string)
    requires k !in done
    ensures var cur := ClosedAmong(m, id, done);
      k != id && k in cur && cur[k].active ==>
        && CloseAt(cur, k) == ClosedAmong(m, id, done + [k])
        && HideQueuedBy(cur, k) == (if ClosesSibling(m, id, k) then [k] else [])
    ensures var cur := ClosedAmong(m, id, done);
      !(k != id && k in cur && cur[k].active) ==>
        && cur == ClosedAmong(m, id, done + [k])
        && !ClosesSibling(m, id, k)
  {
    var cur := ClosedAmong(m, id, done);
    var next := ClosedAmong(m, id, done + [k]);
    assert next.Keys == cur.Keys;
    if ClosesSibling(m, id, k) {
      assert forall j :: j in next ==> next[j] == cur[k := Closed(m[k])][j];
    } else {
      assert forall j :: j in next ==> next[j] == cur[j];
    }
  }

  /** Walking a list without repetitions one panel at a time, judging each by
      its state at its turn, closes the same panels and queues the same
      hides as judging them all on the initial state. */
  lemma {:induction false} CloseEachIsClosedAmong(m: PanelMap, id: string, done: seq<string>)
    requires Distinct(done)
    ensures CloseEach(m, id, done) == ClosedAmong(m, id, done)
    ensures CloseEachHides(m, id, done) == SiblingHides(done, m, id)
    decreases |done|
  {
    if done == [] {
      assert ClosedAmong(m, id, done) == m;
    } else {
      var pre := done[..|done| - 1];
      var k := done[|done| - 1];
      assert done == pre + [k];
      assert k !in pre by {
        forall a | 0 <= a < |pre| ensures pre[a] != k {
          assert pre[a] == done[a];
        }
      }
      assert Distinct(pre) by {
        forall a, b | 0 <= a < b < |pre| ensures pre[a] != pre[b] {
          assert pre[a] == done[a] && pre[b] == done[b];
        }
      }
      CloseEachIsClosedAmong(m, id, pre);
      ClosedAmongStep(m, id, pre, k);
    }
  }

  /** One more turn of the walk over `order`: the next panel is judged on
      the state the earlier turns left. */
  lemma CloseEachStep(m: PanelMap, id: string, order: seq<string>, i: nat)
    requires i < |order|
    ensures CloseEach(m, id, order[..i + 1]) == ClosingStep(CloseEach(m, id, order[..i]), id, order[i])
    ensures CloseEachHides(m, id, order[..i + 1]) ==
      CloseEachHides(m, id, order[..i]) + ClosingHides(CloseEach(m, id, order[..i]), id, order[i])
  {
    assert order[..i + 1][..i] == order[..i];
  }

  /** In a list without repetitions, an element does not occur before its
      own position. */
  lemma FreshInPrefix(order: seq<string>, i: nat)
    requires i < |order| && Distinct(order)
    ensures order[i] !in order[..i]
    ensures order[..i + 1] == order[..i] + [order[i]]
  {
    forall a | 0 <= a < i ensures order[..i][a] != order[i] {
      assert order[..i][a] == order[a];
    }
  }

  lemma ClosedAmongAll(m: PanelMap, id: string, order: seq<string>)
    requires forall k :: k in m ==> k in order
    ensures ClosedAmong(m, id, order) == SiblingsClosed(m, id)
  {
  }

  /** The panels after the aria sync has visited the ids in `done`. */
  function SyncedAmong(m: PanelMap, done: seq<string>): PanelMap {
    map k | k in m :: if k in done && AriaTracked(m[k]) then m[k].(expanded := m[k].active) else m[k]
  }

  /** One iteration of the aria sync: visiting `k` syncs its header only. */
  lemma SyncedAmongStep(m: PanelMap, done: seq<string>, k: string)
    requires k in m && k !in done
    ensures k in SyncedAmong(m, done) && SyncedAmong(m, done)[k] == m[k]
    ensures SyncedAmong(m, done + [k]) ==
      if AriaTracked(m[k]) then SyncedAmong(m, done)[k := m[k].(expanded := m[k].active)]
      else SyncedAmong(m, done)
  {
    var cur := SyncedAmong(m, done);
    var next := SyncedAmong(m, done + [k]);
    if AriaTracked(m[k]) {
      assert next.Keys == cur[k := m[k].(expanded := m[k].active)].Keys;
      assert forall j :: j in next ==> next[j] == cur[k := m[k].(expanded := m[k].active)][j];
    } else {
      assert next.Keys == cur.Keys;
      assert forall j :: j in next ==> next[j] == cur[j];
    }
  }

  /** Once every id is visited, the sync is complete. */
  lemma SyncedAmongAll(m: PanelMap, order: seq<string>)
    requires forall k :: k in m ==> k in order
    ensures SyncedAmong(m, order) == AriaSynced(m)
  {
  }

  /** The platform panels of the page, with the deferred hides still to
      fire and the ids of the `<id>-platform` cards `scrollToPlatform`
      looks for. */
  class PlatformManager {
    var panels: PanelMap
    const order: seq<string>
    var hides: seq<string>
    const cards: set<string>

    /** `order` lists every panel once, in document order; every queued hide
        names a panel. */
    ghost predicate Valid()
      reads this
    {
      && (forall i :: 0 <= i < |order| ==> order[i] in panels)
      && (forall k :: k in panels ==> k in order)
      && Distinct(order)
      && (forall i :: 0 <= i < |hides| ==> hides[i] in panels)
    }

    /** `initializePlatforms`: headers get `aria-expanded` from their
        content's `active` class (first reset to "false", then synced by
        `updatePlatformsAria`). */
    constructor (initial: PanelMap, order: seq<string>, cards: set<string>)
      requires forall i :: 0 <= i < |order| ==> order[i] in initial
      requires forall k :: k in initial ==> k in order
      requires Distinct(order)
      ensures Valid()
      ensures panels == AriaSynced(initial) && hides == []
      ensures this.order == order && this.cards == cards
    {
      var m := initial;
      var i := 0;
      while i < |order|
        invariant 0 <= i <= |order|
        invariant m == SyncedAmong(initial, order[..i])
      {
        var id := order[i];
        FreshInPrefix(order, i);
        SyncedAmongStep(initial, order[..i], id);
        if AriaTracked(m[id]) {
          m := m[id := m[id].(expanded := m[id].active)];
        }
        i := i + 1;
      }
      assert order[..|order|] == order;
      SyncedAmongAll(initial, order);
      panels := m;
      this.order := order;
      hides := [];
      this.cards := cards;
    }

    /** `openPlatform(id)`. */
    method Open(id: string)
      requires Valid()
      modifies this
      ensures Valid()
      ensures panels == OpenAt(old(panels), id) && hides == old(hides)
    {
      if id in panels && WellFormed(panels[id]) {
        panels := panels[id := Opened(panels[id])];
      }
    }

    /** `closePlatform(id)`: the hide it schedules is queued. */
    method Close(id: string)
      requires Valid()
      modifies this
      ensures Valid()
      ensures panels == CloseAt(old(panels), id)
      ensures hides == old(hides) + HideQueuedBy(old(panels), id)
    {
      if id in panels && WellFormed(panels[id]) {
        panels := panels[id := Closed(panels[id])];
        hides := hides + [id];
      }
    }

    /** The queued hide at position `k` fires. */
    method FireHide(k: nat)
      requires Valid() && k < |hides|
      modifies this
      ensures Valid()
      ensures panels == AfterHide(old(panels), old(hides)[k])
      ensures hides == old(hides)[..k] + old(hides)[k + 1..]
    {
      var id := hides[k];
      hides := hides[..k] + hides[k + 1..];
      if id in panels && !panels[id].active {
        panels := panels[id := panels[id].(display := Hidden)];
      }
    }

    /** The callback of that `forEach`, for the panel `other`: closed when it
        is not `id` and is active. */
    method Visit(id: string, other: string)
      requires Valid() && other in panels
      modifies this
      ensures Valid()
      ensures panels == ClosingStep(old(panels), id, other)
      ensures hides == old(hides) + ClosingHides(old(panels), id, other)
    {
      if other != id && panels[other].active {
        Close(other);
      }
    }

    /** The `forEach` over `.platform-content` in `togglePlatform(id)`:
        every other active panel, in document order, is passed to
        `closePlatform`. */
    method CloseSiblings(id: string)
      requires Valid()
      modifies this
      ensures Valid()
      ensures panels == SiblingsClosed(old(panels), id)
      ensures hides == old(hides) + SiblingHides(order, old(panels), id)
    {
      ghost var m0, h0 := panels, hides;
      var i := 0;
      while i < |order|
        invariant 0 <= i <= |order|
        invariant Valid()
        invariant panels == CloseEach(m0, id, order[..i])
        invariant hides == h0 + CloseEachHides(m0, id, order[..i])
      {
        CloseEachStep(m0, id, order, i);
        assert (h0 + CloseEachHides(m0, id, order[..i])) + ClosingHides(panels, id, order[i])
            == h0 + (CloseEachHides(m0, id, order[..i]) + ClosingHides(panels, id, order[i]));
        Visit(id, order[i]);
        i := i + 1;
      }
      assert order[..|order|] == order;
      CloseEachIsClosedAmong(m0, id, order);
      ClosedAmongAll(m0, id, order);
    }

    /** `togglePlatform(id)`: opening first closes every other active panel. */
    method Toggle(id: string) returns (outcome: ToggleOutcome)
      requires Valid()
      modifies this
      ensures Valid()
      ensures outcome == ToggleOutcomeOf(old(panels), id)
      ensures panels == Toggled(old(panels), id)
      ensures hides == old(hides) + ToggleHides(order, old(panels), id)
      ensures old(AtMostOneOpen(panels)) ==> AtMostOneOpen(panels)
    {
      if AtMostOneOpen(panels) {
        ToggleKeepsAtMostOneOpen(panels, id);
      }
      if id !in panels {
        return NotFound;
      }
      if !WellFormed(panels[id]) {
        return PartsMissing;
      }
      var isOpening := !panels[id].active;
      if isOpening {
        CloseSiblings(id);
        Open(id);
        outcome := Opening;
      } else {
        Close(id);
        outcome := Closing;
      }
    }

    /** The global `scrollToPlatform(id)` when the page controller exists:
        if the `<id>-platform` card is on the page, `openPlatform(id)` is
        called directly, without closing the other panels. */
    method ScrollTo(id: string) returns (found: bool)
      requires Valid()
      modifies this
      ensures Valid()
      ensures found == (id + "-platform" in cards)
      ensures panels == (if found then OpenAt(old(panels), id) else old(panels))
      ensures hides == old(hides)
    {
      found := id + "-platform" in cards;
      if found {
        Open(id);
      }
    }
  }
}
