/** The section activation engine: a reducer over batches of intersection
    entries that keeps one active section id and highlights the navigation
    links pointing at it. */
module Navigation {
  import opened Options
  import opened ActiveMarks

  /** The section active before any entry intersects. */
  const InitialSection: string := "home"

  /** One intersection report: the observed section's id and whether it now intersects. */
  datatype Entry = Entry(targetId: string, isIntersecting: bool)

  /** A navigation link: its `href` attribute (`None` when absent) and its `active` flag. */
  type NavLink = Marked<Option<string>>

  /** The `href` a link must have to be highlighted for section `id`. */
  function Anchor(id: string): Option<string>
  {
    Some("#" + id)
  }

  /** The active section after a batch: entries are taken in delivery order
      and each intersecting one overwrites the previous value. */
  function ActiveAfter(current: string, entries: seq<Entry>): (r: string)
    ensures r == current || exists i :: 0 <= i < |entries| && entries[i].isIntersecting && r == entries[i].targetId
  {
    if entries == [] then current
    else
      var last := entries[|entries| - 1];
      if last.isIntersecting then last.targetId
      else ActiveAfter(current, entries[..|entries| - 1])
  }

  /** Whether some entry of the batch intersects. */
  predicate AnyIntersecting(entries: seq<Entry>)
  {
    exists i :: 0 <= i < |entries| && entries[i].isIntersecting
  }

  /** The last intersecting entry of a batch wins. */
  lemma {:induction false} LastIntersectingWins(current: string, entries: seq<Entry>, k: int)
    requires 0 <= k < |entries| && entries[k].isIntersecting
    requires forall j :: k < j < |entries| ==> !entries[j].isIntersecting
    ensures ActiveAfter(current, entries) == entries[k].targetId
  {
    if k < |entries| - 1 {
      LastIntersectingWins(current, entries[..|entries| - 1], k);
    }
  }

  /** A batch without an intersecting entry leaves the active section as it was. */
  lemma {:induction false} NoIntersectingKeepsSection(current: string, entries: seq<Entry>)
    requires !AnyIntersecting(entries)
    ensures ActiveAfter(current, entries) == current
  {
    if entries != [] {
      var init := entries[..|entries| - 1];
      assert !AnyIntersecting(init) by {
        forall i | 0 <= i < |init| ensures !init[i].isIntersecting {
          assert init[i] == entries[i];
        }
      }
      NoIntersectingKeepsSection(current, init);
    }
  }

  /** Once some entry of a batch intersects, the active section afterwards does
      not depend on the one before: the batch forgets the history. */
  lemma {:induction false} ActiveAfterForgetsHistory(a: string, b: string, entries: seq<Entry>)
    requires AnyIntersecting(entries)
    ensures ActiveAfter(a, entries) == ActiveAfter(b, entries)
  {
    var last := entries[|entries| - 1];
    if !last.isIntersecting {
      var init := entries[..|entries| - 1];
      var j :| 0 <= j < |entries| && entries[j].isIntersecting;
      assert init[j] == entries[j];
      ActiveAfterForgetsHistory(a, b, init);
    }
  }

  /** The navigation state (`NavigationManager`). */
  class NavigationManager {
    var activeSection: string
    /** The `.nav-link, .mobile-nav-link` elements, in document order. */
    var links: array<NavLink>

    /** Exactly the links whose `href` is `#activeSection` are active. */
    ghost predicate Highlighted()
      reads this, links
    {
      InSync(links[..], Anchor(activeSection))
    }

    /** Construction starts at "home" and leaves the links as the markup has them. */
    constructor (navLinks: seq<NavLink>)
      ensures activeSection == InitialSection
      ensures fresh(links) && links[..] == navLinks
    {
      activeSection := InitialSection;
      links := new NavLink[|navLinks|](i requires 0 <= i < |navLinks| => navLinks[i]);
    }

    /** `setActiveSection`: record the id and re-scan every link. */
    method SetActiveSection(sectionId: string)
      modifies this`activeSection, links
      ensures activeSection == sectionId
      ensures links[..] == MarkAll(old(links[..]), Anchor(sectionId))
      ensures Keys(links[..]) == Keys(old(links[..]))
      ensures Highlighted()
    {
      activeSection := sectionId;
      MarkInPlace(links, Anchor(sectionId));
      MarkAllKeepsKeys(old(links[..]), Anchor(sectionId));
    }

    /** The section observer's callback over one batch of entries. */
    method OnIntersections(entries: seq<Entry>)
      modifies this`activeSection, links
      ensures activeSection == ActiveAfter(old(activeSection), entries)
      ensures links[..] == if AnyIntersecting(entries)
                           then MarkAll(old(links[..]), Anchor(activeSection))
                           else old(links[..])
      ensures AnyIntersecting(entries) || old(Highlighted()) ==> Highlighted()
    {
      var i := 0;
      while i < |entries|
        invariant 0 <= i <= |entries|
        invariant activeSection == ActiveAfter(old(activeSection), entries[..i])
        invariant links[..] == if AnyIntersecting(entries[..i])
                               then MarkAll(old(links[..]), Anchor(activeSection))
                               else old(links[..])
      {
        assert entries[..i + 1][..i] == entries[..i];
        assert AnyIntersecting(entries[..i + 1]) <==>
               AnyIntersecting(entries[..i]) || entries[i].isIntersecting by {
          if AnyIntersecting(entries[..i + 1]) && !entries[i].isIntersecting {
            var j :| 0 <= j < i + 1 && entries[..i + 1][j].isIntersecting;
            assert entries[..i][j].isIntersecting;
          }
          if AnyIntersecting(entries[..i]) {
            var j :| 0 <= j < i && entries[..i][j].isIntersecting;
            assert entries[..i + 1][j].isIntersecting;
          }
          if entries[i].isIntersecting {
            assert entries[..i + 1][i].isIntersecting;
          }
        }
        if entries[i].isIntersecting {
          ghost var previous := activeSection;
          SetActiveSection(entries[i].targetId);
          if AnyIntersecting(entries[..i]) {
            MarkAllOverwrites(old(links[..]), Anchor(previous), Anchor(activeSection));
          }
        }
        i := i + 1;
      }
      assert entries[..i] == entries;
      if old(Highlighted()) && !AnyIntersecting(entries) {
        NoIntersectingKeepsSection(old(activeSection), entries);
      }
    }
  }
}
