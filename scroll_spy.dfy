/**
 * Scroll spy and the active navigation link: on every scroll event the page
 * picks the last section whose top (less a 200-pixel allowance) has been
 * scrolled past, and highlights exactly the nav links pointing at it.
 */
module ScrollSpy {

  /** How far above a section's top the section already counts as reached. */
  const Allowance := 200

  /** A `section[id]` element: its id and its distance from the top of the document. */
  datatype Section = Section(id: string, offsetTop: int)

  predicate Reached(s: Section, pageYOffset: int)
  {
    pageYOffset >= s.offsetTop - Allowance
  }

  /**
   * The index of the last section, in document order, reached at
   * `pageYOffset`, or -1 when no section is reached.
   */
  function LastReached(sections: seq<Section>, pageYOffset: int): (k: int)
    ensures -1 <= k < |sections|
    ensures k >= 0 ==> Reached(sections[k], pageYOffset)
    ensures forall j :: k < j < |sections| ==> !Reached(sections[j], pageYOffset)
  {
    if sections == [] then -1
    else if Reached(sections[|sections| - 1], pageYOffset) then |sections| - 1
    else LastReached(sections[..|sections| - 1], pageYOffset)
  }

  /** The id the scroll handler settles on: that of the last reached section, or '' when none is. */
  function Current(sections: seq<Section>, pageYOffset: int): (current: string)
    ensures (forall j :: 0 <= j < |sections| ==> !Reached(sections[j], pageYOffset)) ==> current == ""
    ensures (exists j :: 0 <= j < |sections| && Reached(sections[j], pageYOffset)) ==>
      exists k :: 0 <= k < |sections| && Reached(sections[k], pageYOffset) && current == sections[k].id &&
        forall j :: k < j < |sections| ==> !Reached(sections[j], pageYOffset)
  {
    var k := LastReached(sections, pageYOffset);
    if k < 0 then "" else sections[k].id
  }

  /** Whether a link's href makes it the active one once `current` is chosen. */
  predicate Points(href: string, current: string)
  {
    href == "#" + current
  }

  /** The active flags the scroll handler leaves on links with these hrefs. */
  function SpyFlags(hrefs: seq<string>, current: string): seq<bool>
  {
    seq(|hrefs|, i requires 0 <= i < |hrefs| => Points(hrefs[i], current))
  }

  /** The number of links flagged active. */
  function CountActive(flags: seq<bool>): nat
  {
    if flags == [] then 0
    else CountActive(flags[..|flags| - 1]) + (if flags[|flags| - 1] then 1 else 0)
  }

  predicate Distinct(hrefs: seq<string>)
  {
    forall i, j :: 0 <= i < j < |hrefs| ==> hrefs[i] != hrefs[j]
  }

  /**
   * When no two links share an href, scroll spy leaves at most one link
   * active, and exactly one when some link points at the current section.
   */
  lemma {:induction false} SpyActivatesAtMostOne(hrefs: seq<string>, current: string)
    requires Distinct(hrefs)
    ensures CountActive(SpyFlags(hrefs, current)) <= 1
    ensures CountActive(SpyFlags(hrefs, current)) == 1 <==> "#" + current in hrefs
  {
    if hrefs != [] {
      var init := hrefs[..|hrefs| - 1];
      SpyActivatesAtMostOne(init, current);
      assert SpyFlags(hrefs, current)[..|hrefs| - 1] == SpyFlags(init, current);
      if Points(hrefs[|hrefs| - 1], current) {
        NoneActive(init, current);
      }
    }
  }

  /** No link is flagged when none points at `current`. */
  lemma {:induction false} NoneActive(hrefs: seq<string>, current: string)
    requires "#" + current !in hrefs
    ensures CountActive(SpyFlags(hrefs, current)) == 0
  {
    if hrefs != [] {
      var init := hrefs[..|hrefs| - 1];
      NoneActive(init, current);
      assert SpyFlags(hrefs, current)[..|hrefs| - 1] == SpyFlags(init, current);
    }
  }

  /** The forEach over the sections, reassigning `current` whenever a section is reached. */
  method SelectCurrent(sections: seq<Section>, pageYOffset: int) returns (current: string)
    ensures current == Current(sections, pageYOffset)
  {
    current := "";
    ghost var last := -1;
    for i := 0 to |sections|
      invariant -1 <= last < i
      invariant last >= 0 ==> Reached(sections[last], pageYOffset)
      invariant forall j :: last < j < i ==> !Reached(sections[j], pageYOffset)
      invariant current == if last < 0 then "" else sections[last].id
    {
      if pageYOffset >= sections[i].offsetTop - Allowance {
        current := sections[i].id;
        last := i;
      }
    }
    LastReachedUnique(sections, pageYOffset, last);
  }

  /** The three properties in LastReached's contract determine its result. */
  lemma LastReachedUnique(sections: seq<Section>, pageYOffset: int, k: int)
    requires -1 <= k < |sections|
    requires k >= 0 ==> Reached(sections[k], pageYOffset)
    requires forall j :: k < j < |sections| ==> !Reached(sections[j], pageYOffset)
    ensures k == LastReached(sections, pageYOffset)
  {
  }

  /** The `.nav-link` elements: each one's href and whether it carries the `active` class. */
  class NavLinks {
    const hrefs: seq<string>
    const active: array<bool>

    ghost predicate Valid()
      reads this
    {
      active.Length == |hrefs|
    }

    constructor (hrefs: seq<string>, initiallyActive: seq<bool>)
      requires |initiallyActive| == |hrefs|
      ensures Valid() && fresh(active)
      ensures this.hrefs == hrefs && active[..] == initiallyActive
    {
      this.hrefs := hrefs;
      active := new bool[|hrefs|](i requires 0 <= i < |hrefs| reads {} => initiallyActive[i]);
    }

    /** Every link loses `active`; a link gains it again exactly when its href is '#' + current. */
    method MarkCurrent(current: string)
      requires Valid()
      modifies active
      ensures active[..] == SpyFlags(hrefs, current)
      ensures forall i :: 0 <= i < active.Length ==> (active[i] <==> hrefs[i] == "#" + current)
    {
      for i := 0 to active.Length
        invariant forall j :: 0 <= j < i ==> (active[j] <==> Points(hrefs[j], current))
      {
        active[i] := false;
        if hrefs[i] == "#" + current {
          active[i] := true;
        }
      }
    }

    /** One scroll event: choose the current section, then mark the links. */
    method OnScroll(sections: seq<Section>, pageYOffset: int)
      requires Valid()
      modifies active
      ensures active[..] == SpyFlags(hrefs, Current(sections, pageYOffset))
      ensures forall i :: 0 <= i < active.Length ==> (active[i] <==> hrefs[i] == "#" + Current(sections, pageYOffset))
      ensures (forall j :: 0 <= j < |sections| ==> !Reached(sections[j], pageYOffset)) ==>
        forall i :: 0 <= i < active.Length ==> (active[i] <==> hrefs[i] == "#")
    {
      var current := SelectCurrent(sections, pageYOffset);
      MarkCurrent(current);
    }

    /** A click on link `chosen`: every link loses `active`, then `chosen` gains it. */
    method Activate(chosen: nat)
      requires Valid() && chosen < active.Length
      modifies active
      ensures active[chosen]
      ensures forall i :: 0 <= i < active.Length && i != chosen ==> !active[i]
      ensures CountActive(active[..]) == 1
    {
      for i := 0 to active.Length
        invariant forall j :: 0 <= j < i ==> !active[j]
      {
        active[i] := false;
      }
      active[chosen] := true;
      OneActive(active[..], chosen);
    }
  }

  /** Flags with exactly one set entry count one active link. */
  lemma {:induction false} OneActive(flags: seq<bool>, chosen: nat)
    requires chosen < |flags| && flags[chosen]
    requires forall i :: 0 <= i < |flags| && i != chosen ==> !flags[i]
    ensures CountActive(flags) == 1
  {
    var init := flags[..|flags| - 1];
    if chosen == |flags| - 1 {
      NoFlags(init);
    } else {
      OneActive(init, chosen);
    }
  }

  /** Flags with no set entry count no active link. */
  lemma {:induction false} NoFlags(flags: seq<bool>)
    requires forall i :: 0 <= i < |flags| ==> !flags[i]
    ensures CountActive(flags) == 0
  {
    if flags != [] {
      NoFlags(flags[..|flags| - 1]);
    }
  }
}
