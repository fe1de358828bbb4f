/**
 * The company accordion: a fixed list of past employers, at most one of which
 * is expanded at a time, toggled by its trigger button.
 */
module CompanyAccordion {
  import opened Options
  import opened ClassNames

  /** One employer entry; the localised period, location and prose are display text only. */
  datatype Experience = Experience(id: string, company: string, role: string, stack: seq<string>)

  /** `EXPERIENCES`, in display order. */
  const Experiences: seq<Experience> := [
    Experience("luxmed", "Luxmed", "Senior Frontend Engineer",
      ["TypeScript", "React", "Next.js", "Tailwind CSS", "WCAG 2.2"]),
    Experience("cloudflight", "Cloudflight / Divante", "Senior Frontend Engineer",
      ["TypeScript", "React", "Next.js", "Magento 2", "GraphQL"]),
    Experience("magecom", "Magecom", "Senior Frontend Developer",
      ["Magento 2", "JavaScript", "LESS", "Knockout.js"]),
    Experience("epam", "EPAM Systems", "Frontend Engineer",
      ["JavaScript", "TypeScript", "React", "Redux"]),
    Experience("mavenecommerce", "MavenEcommerce", "Frontend Developer",
      ["JavaScript", "jQuery", "HTML5", "CSS3"])
  ]

  /** The id opened on first render when the caller passes none. */
  const DefaultOpenId: string := "luxmed"

  predicate DistinctIds(items: seq<Experience>) {
    forall i, j :: 0 <= i < j < |items| ==> items[i].id != items[j].id
  }

  /** The five entries have five different ids, and the default one is among them. */
  lemma ExperiencesDistinct()
    ensures DistinctIds(Experiences)
    ensures exists i :: 0 <= i < |Experiences| && Experiences[i].id == DefaultOpenId
  {
    assert Experiences[0].id == DefaultOpenId;
  }

  // ---------------------------------------------------------------------------
  // Open state

  /** `current === id ? null : id`. */
  function Toggled(current: Option<string>, id: string): (r: Option<string>)
    ensures r == None <==> current == Some(id)
    ensures r != None ==> r == Some(id)
  {
    if current == Some(id) then None else Some(id)
  }

  /** `isOpen`: the entry's id equals `openId`. */
  predicate IsOpen(openId: Option<string>, id: string) {
    openId == Some(id)
  }

  /** After a toggle the toggled entry is open exactly when it was closed, and every other entry is closed. */
  lemma ToggleOpensOne(current: Option<string>, id: string, other: string)
    requires other != id
    ensures IsOpen(Toggled(current, id), id) <==> !IsOpen(current, id)
    ensures !IsOpen(Toggled(current, id), other)
  {
  }

  /** Toggling the same entry twice restores the state when nothing or that entry was open. */
  lemma ToggleTwice(current: Option<string>, id: string)
    requires current == None || current == Some(id)
    ensures Toggled(Toggled(current, id), id) == current
  {
  }

  /** Not otherwise: with another entry open, two toggles of `id` leave every entry closed. */
  lemma ToggleTwiceOther(other: string, id: string)
    requires other != id
    ensures Toggled(Toggled(Some(other), id), id) == None
  {
  }

  /** With distinct ids at most one entry of the list is open, whatever `openId` holds. */
  lemma AtMostOneOpen(items: seq<Experience>, openId: Option<string>, i: nat, j: nat)
    requires DistinctIds(items)
    requires i < |items| && j < |items|
    requires IsOpen(openId, items[i].id) && IsOpen(openId, items[j].id)
    ensures i == j
  {
  }

  class Accordion {
    const items: seq<Experience>
    var openId: Option<string>

    constructor(defaultOpenId: Option<string>)
      ensures items == Experiences
      ensures openId == Some(defaultOpenId.GetOr(DefaultOpenId))
    {
      items := Experiences;
      openId := Some(defaultOpenId.GetOr(DefaultOpenId));
    }

    /** `handleToggle(id)`. */
    method Toggle(id: string)
      modifies this
      ensures openId == Toggled(old(openId), id)
    {
      if openId == Some(id) {
        openId := None;
      } else {
        openId := Some(id);
      }
    }

    /** The `aria-expanded` value of each trigger, in list order. */
    function Expanded(): (r: seq<bool>)
      reads this
      ensures |r| == |items|
      ensures forall i :: 0 <= i < |items| ==> r[i] == IsOpen(openId, items[i].id)
    {
      var current := openId;
      seq(|items|, i requires 0 <= i < |items| => IsOpen(current, items[i].id))
    }
  }

  /** With no default given, the luxmed entry is the one expanded first. */
  lemma DefaultExpandsFirst(a: Accordion)
    requires a.items == Experiences && a.openId == Some(DefaultOpenId)
    ensures a.Expanded() == [true, false, false, false, false]
  {
  }

  // ---------------------------------------------------------------------------
  // Element ids

  const PanelPrefix: string := "company-panel-"
  const TriggerPrefix: string := "company-trigger-"

  function PanelId(id: string): string { PanelPrefix + id }
  function TriggerId(id: string): string { TriggerPrefix + id }

  /**
   * Different entries get different panel ids and different trigger ids, and
   * no panel id equals a trigger id, so `aria-controls`/`aria-labelledby` pair up.
   */
  lemma ElementIdsDistinct(a: string, b: string)
    ensures PanelId(a) == PanelId(b) <==> a == b
    ensures TriggerId(a) == TriggerId(b) <==> a == b
    ensures PanelId(a) != TriggerId(b)
  {
    if PanelId(a) == PanelId(b) {
      assert a == PanelId(a)[|PanelPrefix|..] == PanelId(b)[|PanelPrefix|..] == b;
    }
    if TriggerId(a) == TriggerId(b) {
      assert a == TriggerId(a)[|TriggerPrefix|..] == TriggerId(b)[|TriggerPrefix|..] == b;
    }
    assert PanelId(a)[8] == 'p' && TriggerId(b)[8] == 't';
  }

  // ---------------------------------------------------------------------------
  // Open-dependent classes

  const ChevronBase: seq<ClassArg> := [
    Name("shrink-0"), Name("mt-0.5 inline-flex items-center justify-center"),
    Name("rounded-full"), Name("h-8 w-8"),
    Name("bg-black/[0.04] dark:bg-white/[0.05]"),
    Name("text-[#2a2a2a] dark:text-[#e5e4e3]"),
    Name("transition-transform duration-200 ease-out")]

  /** The chevron's classes: `isOpen && "rotate-180"` as the last argument. */
  function ChevronClasses(isOpen: bool): string {
    Cx(ChevronBase + [if isOpen then Name("rotate-180") else False])
  }

  /** A conditional last class (`cond && s`) appends `s` when `cond` holds and nothing otherwise. */
  lemma ConditionalLast(base: seq<ClassArg>, k: nat, cond: bool, s: string)
    requires k < |base| && Truthy(base[k]) && s != ""
    ensures Cx(base + [if cond then Name(s) else False]) == if cond then Cx(base) + " " + s else Cx(base)
  {
    CxNonEmpty(base, k);
    if cond {
      CxConcat(base, [Name(s)]);
      CxSingle(s);
    } else {
      CxDropsFalsy(base, False, []);
      assert base + [False] + [] == base + [False];
      assert base + [] == base;
    }
  }

  /** An open entry's chevron has exactly the closed one's classes, then `rotate-180`. */
  lemma ChevronRotatesWhenOpen()
    ensures ChevronClasses(false) == Cx(ChevronBase)
    ensures ChevronClasses(true) == Cx(ChevronBase) + " " + "rotate-180"
  {
    ConditionalLast(ChevronBase, 0, true, "rotate-180");
    ConditionalLast(ChevronBase, 0, false, "rotate-180");
  }

  const PanelBase: seq<ClassArg> := [
    Name("grid overflow-hidden"),
    Name("transition-[grid-template-rows,opacity] duration-200 ease-out")]

  /** The panel's classes: collapsed rows and transparent when closed, full rows and opaque when open. */
  function PanelClasses(isOpen: bool): string {
    Cx(PanelBase + [Name(if isOpen then "grid-rows-[1fr] opacity-100" else "grid-rows-[0fr] opacity-0")])
  }

  lemma PanelClassesByState(isOpen: bool)
    ensures PanelClasses(isOpen) == Cx(PanelBase) + " " +
      (if isOpen then "grid-rows-[1fr] opacity-100" else "grid-rows-[0fr] opacity-0")
  {
    var last := if isOpen then "grid-rows-[1fr] opacity-100" else "grid-rows-[0fr] opacity-0";
    CxNonEmpty(PanelBase, 0);
    CxConcat(PanelBase, [Name(last)]);
    CxSingle(last);
  }
}
