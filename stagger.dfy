/**
 * Staggered reveals: when a group of sibling elements is revealed, child
 * number `index` (counting from 0 in document order) is revealed
 * `index * step` milliseconds after the group, with a fixed step per group.
 * The tech tags of an experience card wait until the card's duty lines
 * have all been scheduled.
 */
module Stagger {

  /** The groups revealed one child at a time. */
  datatype Group =
    | HeroText         // the children of `.hero-text`, after the loading screen
    | SkillBars        // the `.skill-progress` bars of a skill category
    | CodeLines        // the `.code-line` rows of the typewriter
    | AchievementTags  // the `.achievement-tag`s of a timeline item
    | Duties           // the duty lines of an experience card

  /** Milliseconds between two consecutive children of a group. */
  function Step(g: Group): nat
  {
    match g
    case HeroText => 200
    case SkillBars => 200
    case CodeLines => 500
    case AchievementTags => 100
    case Duties => 150
  }

  /** Milliseconds between two consecutive tech tags of an experience card. */
  const TechTagStep := 50

  /** The timeout of child `index` of a group: `index * step`. */
  function Delay(g: Group, index: nat): nat
  {
    index * Step(g)
  }

  /**
   * The timeouts of the first `count` children of a group, in document order:
   * the first child goes at once and every later one exactly one step after
   * its predecessor, so each child goes strictly after all earlier ones.
   */
  function Schedule(g: Group, count: nat): (s: seq<nat>)
    ensures |s| == count
    ensures count > 0 ==> s[0] == 0
    ensures forall i :: 0 < i < count ==> s[i] == s[i - 1] + Step(g)
    ensures forall i, j :: 0 <= i < j < count ==> s[i] + Step(g) <= s[j]
  {
    if count == 0 then []
    else
      var s := Schedule(g, count - 1) + [Delay(g, count - 1)];
      assert count > 1 ==> Delay(g, count - 1) == Delay(g, count - 2) + Step(g);
      assert forall i :: 0 <= i < count - 1 ==> s[i] <= s[count - 2];
      s
  }

  /** Child `index` of a group is revealed exactly `index * step` milliseconds after the group. */
  lemma {:induction false} ScheduleAt(g: Group, count: nat, index: nat)
    requires index < count
    ensures Schedule(g, count)[index] == index * Step(g)
  {
    if index < count - 1 {
      ScheduleAt(g, count - 1, index);
    }
  }

  /** Three achievement tags go at 0, 100 and 200 milliseconds. */
  lemma ThreeAchievementTags()
    ensures Schedule(AchievementTags, 3) == [0, 100, 200]
  {
    ScheduleAt(AchievementTags, 3, 1);
    ScheduleAt(AchievementTags, 3, 2);
  }

  /** The timeout of tech tag `index` on a card with `dutyCount` duty lines. */
  function TechTagDelay(dutyCount: nat, index: nat): (d: nat)
    ensures d >= dutyCount * Step(Duties)
    ensures forall i :: 0 <= i < dutyCount ==> Delay(Duties, i) < d
  {
    dutyCount * Step(Duties) + index * TechTagStep
  }

  /** The timeouts of an experience card: its duty lines, then its tech tags. */
  function CardSchedule(dutyCount: nat, tagCount: nat): (s: seq<nat>)
    ensures |s| == dutyCount + tagCount
  {
    Schedule(Duties, dutyCount) + seq(tagCount, j requires 0 <= j => TechTagDelay(dutyCount, j))
  }

  /**
   * On an experience card every element is revealed strictly after the ones
   * before it: duties in order, then tech tags in order, the first tech tag
   * one duty step after the last duty line.
   */
  lemma CardScheduleInOrder(dutyCount: nat, tagCount: nat)
    ensures forall i, j :: 0 <= i < j < dutyCount + tagCount ==>
      CardSchedule(dutyCount, tagCount)[i] < CardSchedule(dutyCount, tagCount)[j]
    ensures dutyCount > 0 && tagCount > 0 ==>
      CardSchedule(dutyCount, tagCount)[dutyCount] == CardSchedule(dutyCount, tagCount)[dutyCount - 1] + Step(Duties)
  {
    var s := CardSchedule(dutyCount, tagCount);
    var duties := Schedule(Duties, dutyCount);
    forall i | 0 <= i < dutyCount
      ensures s[i] == i * Step(Duties)
    {
      ScheduleAt(Duties, dutyCount, i);
    }
  }
}
