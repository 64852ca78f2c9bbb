/** The active-section tracker: an IntersectionObserver reports batches of
    `(section, isIntersecting)` entries and the page remembers the section
    of the last intersecting one. The navigation bar reads the result. */
module Sections {
  import opened Common
  import Viewport

  /** The four `<section>` elements of the page, by their `id`. */
  datatype Section = Home | Work | About | Contact

  /** One observer entry: its target section and whether it crossed the
      visibility threshold. */
  datatype Entry = Entry(target: Section, isIntersecting: bool)

  /** What the navigation bar reads: `activeSection` and `isMobile`. */
  datatype Nav = Nav(active: Section, mobile: bool)

  /** The first render: `home` is active and `isMobile` starts false. */
  const Initial: Nav := Nav(Home, false)

  /** The nav links, in the order they are rendered. */
  const NavLinks: seq<Section> := [Home, Work, About, Contact]

  /** The observer callback: walk the batch in order and overwrite the
      active section with every intersecting entry's target. */
  function ApplyBatch(active: Section, entries: seq<Entry>): (r: Section)
    ensures r == active || exists j :: 0 <= j < |entries| && entries[j].isIntersecting && entries[j].target == r
    decreases |entries|
  {
    if |entries| == 0 then active
    else
      var next := if entries[0].isIntersecting then entries[0].target else active;
      var r := ApplyBatch(next, entries[1..]);
      assert r != active && r != next ==> exists j :: 1 <= j < |entries| && entries[j].isIntersecting && entries[j].target == r by {
        if r != active && r != next {
          var j :| 0 <= j < |entries[1..]| && entries[1..][j].isIntersecting && entries[1..][j].target == r;
          assert entries[j + 1] == entries[1..][j];
        }
      }
      r
  }

  /** Reference reading of the batch, scanned from its end: the target of
      the last intersecting entry, if there is one. */
  function LastIntersecting(entries: seq<Entry>): (r: Option<Section>)
    ensures r.None? <==> forall j :: 0 <= j < |entries| ==> !entries[j].isIntersecting
    ensures r.Some? ==> exists j :: && 0 <= j < |entries|
                                    && entries[j].isIntersecting
                                    && entries[j].target == r.value
                                    && forall k :: j < k < |entries| ==> !entries[k].isIntersecting
    decreases |entries|
  {
    if |entries| == 0 then None
    else
      var last := entries[|entries| - 1];
      if last.isIntersecting then Some(last.target)
      else
        var init := entries[..|entries| - 1];
        var r := LastIntersecting(init);
        assert forall j :: 0 <= j < |init| ==> init[j] == entries[j];
        r
  }

  /** Looking at a batch from its front: the last intersecting entry is in
      the tail if the tail has one, else it is the head if that intersects. */
  lemma {:induction false} LastIntersectingFront(entries: seq<Entry>)
    requires |entries| > 0
    ensures LastIntersecting(entries)
            == if LastIntersecting(entries[1..]).Some? then LastIntersecting(entries[1..])
               else if entries[0].isIntersecting then Some(entries[0].target)
               else None
    decreases |entries|
  {
    var n := |entries|;
    if n > 1 && !entries[n - 1].isIntersecting {
      var init := entries[..n - 1];
      LastIntersectingFront(init);
      assert init[1..] == entries[1..][..n - 2];
      assert init[0] == entries[0];
    }
  }

  /** Last write wins: after a batch the active section is the target of the
      batch's last intersecting entry, and a batch without one changes
      nothing. */
  lemma {:induction false} BatchIsLastIntersecting(active: Section, entries: seq<Entry>)
    ensures ApplyBatch(active, entries) == LastIntersecting(entries).GetOr(active)
    decreases |entries|
  {
    if |entries| > 0 {
      var next := if entries[0].isIntersecting then entries[0].target else active;
      BatchIsLastIntersecting(next, entries[1..]);
      LastIntersectingFront(entries);
    }
  }

  /** Two sections reported together: the one reported last is active,
      whatever the document order. */
  lemma LastReportedWins(active: Section)
    ensures ApplyBatch(active, [Entry(Contact, true), Entry(About, true)]) == About
    ensures ApplyBatch(active, [Entry(About, true), Entry(Contact, true)]) == Contact
    ensures ApplyBatch(active, [Entry(About, true), Entry(Contact, false)]) == About
  {
  }

  /** Opacity of the nav bar and of the mobile menu button: hidden exactly on
      the home section of a mobile viewport. */
  function NavOpacity(n: Nav): (o: int)
    ensures o == 0 || o == 1
    ensures o == 0 <==> n.active == Home && n.mobile
  {
    if n.active == Home && n.mobile then 0 else 1
  }

  /** Whether a nav link is drawn in the highlight colour: a link is
      highlighted only while its section is the active one. */
  predicate Highlighted(n: Nav, link: Section)
    ensures Highlighted(n, link) ==> link == n.active
  {
    n.active == link
  }

  /** Exactly one nav link is highlighted at any time. */
  lemma ExactlyOneLinkHighlighted(n: Nav)
    ensures exists i :: 0 <= i < |NavLinks| && Highlighted(n, NavLinks[i])
    ensures forall i, j ::
              (0 <= i < |NavLinks| && 0 <= j < |NavLinks| &&
               Highlighted(n, NavLinks[i]) && Highlighted(n, NavLinks[j])) ==> i == j
  {
    var i := match n.active
      case Home => 0
      case Work => 1
      case About => 2
      case Contact => 3;
    assert Highlighted(n, NavLinks[i]);
  }

  /** The `isMobile` listener: only the mobile flag follows the width. */
  function OnResize(n: Nav, width: int): (r: Nav)
    ensures r.mobile <==> Viewport.IsMobile(width)
    ensures r.active == n.active
  {
    n.(mobile := Viewport.IsMobile(width))
  }

  /** The observer callback: only the active section follows the batch. */
  function OnBatch(n: Nav, entries: seq<Entry>): (r: Nav)
    ensures r.mobile == n.mobile
    ensures r.active == LastIntersecting(entries).GetOr(n.active)
    ensures (forall j :: 0 <= j < |entries| ==> !entries[j].isIntersecting) ==> r == n
  {
    BatchIsLastIntersecting(n.active, entries);
    n.(active := ApplyBatch(n.active, entries))
  }
}
