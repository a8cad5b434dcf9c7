/** The toast notifications of main.js: `showNotification` and
    `getNotificationColor`. Each notification gets an id; its close button
    and its five-second auto-dismiss schedule timers tagged with that id, and
    those timers fire as discrete events in any order. */
module Notifications {
  import opened Wrappers

  const SuccessColor := "var(--success)"
  const ErrorColor := "var(--error)"
  const WarningColor := "var(--warning)"
  const InfoColor := "var(--info)"

  /** `getNotificationColor`: the colour for the four known types; any other
      type gets the info colour. */
  function ColorOf(kind: string): (c: string)
    ensures c in {SuccessColor, ErrorColor, WarningColor, InfoColor}
    ensures kind == "success" <==> c == SuccessColor
    ensures kind == "error" <==> c == ErrorColor
    ensures kind == "warning" <==> c == WarningColor
    ensures kind !in {"success", "error", "warning"} ==> c == InfoColor
  {
    if kind == "success" then SuccessColor
    else if kind == "error" then ErrorColor
    else if kind == "warning" then WarningColor
    else InfoColor
  }

  /** A `.notification` node: its id in this model, its message, its type
      and the background colour it was given. */
  datatype Notice = Notice(id: nat, message: string, kind: string, color: string)

  /** The timers a notification schedules: the 5 s auto-dismiss, and the
      300 ms removal that follows a close click or the auto-dismiss. */
  datatype Timer = AutoDismiss(id: nat) | Removal(id: nat)

  /** The notification slot: the notification in the document, if any; the
      timers not yet fired; the id the next notification gets. */
  datatype Slot = Slot(shown: Option<Notice>, timers: seq<Timer>, nextId: nat)

  /** Ids are handed out in increasing order: every shown notification and
      every timer belongs to a notification created before `nextId`. */
  ghost predicate WellTagged(s: Slot) {
    && (s.shown.Some? ==> s.shown.value.id < s.nextId)
    && forall i :: 0 <= i < |s.timers| ==> s.timers[i].id < s.nextId
  }

  /** Whether the notification with this id is the one in the document. */
  predicate IsShown(s: Slot, id: nat) {
    s.shown.Some? && s.shown.value.id == id
  }

  /** `showNotification(message, kind)`: any notification present is
      removed, the new one is appended and its auto-dismiss is scheduled. */
  function AfterShow(s: Slot, message: string, kind: string): Slot {
    var n := Notice(s.nextId, message, kind, ColorOf(kind));
    Slot(Some(n), s.timers + [AutoDismiss(n.id)], s.nextId + 1)
  }

  /** A click (or Enter/Space) on the shown notification's close button:
      its removal is scheduled. With nothing shown there is no button. */
  function AfterCloseClick(s: Slot): Slot {
    match s.shown
    case None => s
    case Some(n) => s.(timers := s.timers + [Removal(n.id)])
  }

  /** The timer at position `k` fires. An auto-dismiss acts only if its
      notification is still attached (`parentNode`), and then schedules the
      removal; a removal takes out its own node, which is a no-op when that
      node is already gone. */
  function AfterFire(s: Slot, k: nat): Slot
    requires k < |s.timers|
  {
    var rest := s.timers[..k] + s.timers[k + 1..];
    match s.timers[k]
    case AutoDismiss(id) =>
      if IsShown(s, id) then s.(timers := rest + [Removal(id)]) else s.(timers := rest)
    case Removal(id) =>
      if IsShown(s, id) then s.(shown := None, timers := rest) else s.(timers := rest)
  }

  // ---------------------------------------------------------------------
  // Properties
  // ---------------------------------------------------------------------

  /** After `showNotification` exactly one notification is present: the new
      one, with the new message and the colour of its type. */
  lemma ShowReplaces(s: Slot, message: string, kind: string)
    ensures AfterShow(s, message, kind).shown.Some?
    ensures AfterShow(s, message, kind).shown.value.message == message
    ensures AfterShow(s, message, kind).shown.value.color == ColorOf(kind)
    ensures s.shown.Some? && WellTagged(s) ==>
      AfterShow(s, message, kind).shown.value.id != s.shown.value.id
  {
  }

  /** Two notifications in a row leave the second one showing. */
  lemma ShowTwiceKeepsSecond(s: Slot, m1: string, k1: string, m2: string, k2: string)
    ensures AfterShow(AfterShow(s, m1, k1), m2, k2).shown.Some?
    ensures AfterShow(AfterShow(s, m1, k1), m2, k2).shown.value.message == m2
  {
  }

  /** Every transition keeps the ids well tagged. */
  lemma TransitionsKeepWellTagged(s: Slot, message: string, kind: string, k: nat)
    requires WellTagged(s)
    ensures WellTagged(AfterShow(s, message, kind))
    ensures WellTagged(AfterCloseClick(s))
    ensures k < |s.timers| ==> WellTagged(AfterFire(s, k))
  {
    if k < |s.timers| {
      var r := AfterFire(s, k);
      forall i | 0 <= i < |r.timers| ensures r.timers[i].id < r.nextId {
        if i < k {
          assert r.timers[i] == s.timers[i];
        } else if i < |s.timers| - 1 {
          assert r.timers[i] == s.timers[i + 1];
        }
      }
    }
  }

  /** A timer belonging to a notification that has been replaced never
      touches the current one: firing any timer that was pending before
      `showNotification` leaves the new notification in place. */
  lemma StaleTimerSparesNewNotice(s: Slot, message: string, kind: string, k: nat)
    requires WellTagged(s) && k < |s.timers|
    ensures AfterFire(AfterShow(s, message, kind), k).shown == AfterShow(s, message, kind).shown
  {
    var s1 := AfterShow(s, message, kind);
    assert s1.timers[k] == s.timers[k];
    assert s.timers[k].id < s.nextId;
  }

  /** More generally, only the shown notification's own timers can remove
      it; any other timer leaves the slot's contents alone. */
  lemma OnlyOwnTimerRemoves(s: Slot, k: nat)
    requires k < |s.timers|
    ensures AfterFire(s, k).shown != s.shown ==>
      s.timers[k].Removal? && IsShown(s, s.timers[k].id) && AfterFire(s, k).shown.None?
  {
  }

  /** The auto-dismiss runs its course: after `showNotification`, its
      auto-dismiss firing and then the removal it schedules firing take the
      notification out. */
  lemma AutoDismissRemoves(s: Slot, message: string, kind: string)
    ensures var s1 := AfterShow(s, message, kind);
            var s2 := AfterFire(s1, |s.timers|);
            && s2.timers == s.timers + [Removal(s.nextId)]
            && AfterFire(s2, |s.timers|).shown == None
  {
    var s1 := AfterShow(s, message, kind);
    assert s1.timers[..|s.timers|] == s.timers;
    var s2 := AfterFire(s1, |s.timers|);
    assert s2.timers[..|s.timers|] == s.timers;
  }

  /** A close click followed by its removal firing takes the notification
      out. */
  lemma CloseClickRemoves(s: Slot)
    requires s.shown.Some?
    ensures AfterFire(AfterCloseClick(s), |s.timers|).shown == None
  {
  }

  /** The notification area of the page. */
  class NotificationCenter {
    var shown: Option<Notice>
    var timers: seq<Timer>
    var nextId: nat

    function State(): Slot
      reads this
    {
      Slot(shown, timers, nextId)
    }

    ghost predicate Valid()
      reads this
    {
      WellTagged(State())
    }

    constructor ()
      ensures Valid() && State() == Slot(None, [], 0)
    {
      shown := None;
      timers := [];
      nextId := 0;
    }

    /** `showNotification(message, kind)`. */
    method Show(message: string, kind: string)
      requires Valid()
      modifies this
      ensures Valid()
      ensures State() == AfterShow(old(State()), message, kind)
    {
      TransitionsKeepWellTagged(State(), message, kind, 0);
      var n := Notice(nextId, message, kind, ColorOf(kind));
      shown := Some(n);
      timers := timers + [AutoDismiss(n.id)];
      nextId := nextId + 1;
    }

    /** The close button of the shown notification is activated. */
    method CloseClick()
      requires Valid()
      modifies this
      ensures Valid()
      ensures State() == AfterCloseClick(old(State()))
    {
      TransitionsKeepWellTagged(State(), "", "", 0);
      if shown.Some? {
        timers := timers + [Removal(shown.value.id)];
      }
    }

    /** The pending timer at position `k` fires. */
    method Fire(k: nat)
      requires Valid() && k < |timers|
      modifies this
      ensures Valid()
      ensures State() == AfterFire(old(State()), k)
    {
      TransitionsKeepWellTagged(State(), "", "", k);
      var t := timers[k];
      timers := timers[..k] + timers[k + 1..];
      if shown.Some? && shown.value.id == t.id {
        match t
        case AutoDismiss(id) => timers := timers + [Removal(id)];
        case Removal(_) => shown := None;
      }
    }
  }
}
