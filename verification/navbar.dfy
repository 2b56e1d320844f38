/**
 The navigation bar (components/Navbar.tsx): everything it shows is a pure
 function of the active section it is handed, which at run time is a string.
 */
module Navbar {
  import opened Wrappers
  import opened Sections

  /** One nav button: the section it stands for and its caption. */
  datatype NavItem = NavItem(id: SectionId, caption: string)

  /** `navItems`, in the order the buttons are rendered. */
  const NavItems: seq<NavItem> := [
    NavItem(Home, "Home"),
    NavItem(About, "About"),
    NavItem(Skills, "Skills"),
    NavItem(Projects, "Projects"),
    NavItem(Others, "Others")
  ]

  /** The character for a single decimal digit. */
  function Digit(n: nat): (c: char)
    requires n <= 9
  {
    (48 + n) as char
  }

  /** `getPageNumber`: the pill label for the active section; any value the switch does not name falls to "Page 05". */
  function PageLabel(active: string): (r: string)
    ensures |r| == 7 && r[..6] == "Page 0" && Digit(1) <= r[6] <= Digit(5)
    ensures !IsSectionValue(active) ==> r == "Page 05"
  {
    if active == Value(Home) then "Page 01"
    else if active == Value(About) then "Page 02"
    else if active == Value(Skills) then "Page 03"
    else if active == Value(Projects) then "Page 04"
    else "Page 05"
  }

  /** The buttons stand for the registry's sections, in registry order, so each section has exactly one button. */
  lemma NavItemsFollowRegistry()
    ensures |NavItems| == |Registry()|
    ensures forall i :: 0 <= i < |NavItems| ==> NavItems[i].id == Registry()[i]
    ensures forall id: SectionId :: Ordinal(id) < |NavItems| && NavItems[Ordinal(id)].id == id
    ensures forall i, j :: 0 <= i < j < |NavItems| ==> NavItems[i].id != NavItems[j].id
  {
  }

  /** The number in the label is the 1-based position of the active section's button. */
  lemma PageNumberIsPosition(i: nat)
    requires i < |NavItems|
    ensures PageLabel(Value(NavItems[i].id)) == "Page 0" + [Digit(i + 1)]
  {
  }

  /** Distinct sections get distinct labels. */
  lemma PageLabelInjective(a: SectionId, b: SectionId)
    requires PageLabel(Value(a)) == PageLabel(Value(b))
    ensures a == b
  {
  }

  /** The highlight condition of one button: `activeSection === item.id`. */
  predicate IsHighlighted(active: string, item: NavItem)
  {
    active == Value(item.id)
  }

  /** Which of the rendered buttons carry the highlighted style, in button order: exactly those whose section `active` names. */
  function Highlights(active: string): (r: seq<bool>)
    ensures |r| == |NavItems|
    ensures forall i :: 0 <= i < |r| ==> (r[i] <==> Parse(active) == Some(NavItems[i].id))
  {
    seq(|NavItems|, i requires 0 <= i < |NavItems| => IsHighlighted(active, NavItems[i]))
  }

  /** How many entries of `bs` are true. */
  function CountTrue(bs: seq<bool>): nat
  {
    if |bs| == 0 then 0 else (if bs[0] then 1 else 0) + CountTrue(bs[1..])
  }

  /** A sequence with no true entry counts zero. */
  lemma {:induction false} CountNone(bs: seq<bool>)
    requires forall i :: 0 <= i < |bs| ==> !bs[i]
    ensures CountTrue(bs) == 0
  {
    if |bs| > 0 {
      CountNone(bs[1..]);
    }
  }

  /** A sequence whose only true entry is at `k` counts one. */
  lemma {:induction false} CountSingle(bs: seq<bool>, k: nat)
    requires k < |bs| && bs[k]
    requires forall i :: 0 <= i < |bs| && i != k ==> !bs[i]
    ensures CountTrue(bs) == 1
  {
    if k == 0 {
      CountNone(bs[1..]);
    } else {
      CountSingle(bs[1..], k - 1);
    }
  }

  /** For a section value exactly one button is highlighted: the one standing for that section. */
  lemma ExactlyOneHighlighted(id: SectionId)
    ensures CountTrue(Highlights(Value(id))) == 1
    ensures forall i :: 0 <= i < |NavItems| ==> (Highlights(Value(id))[i] <==> NavItems[i].id == id)
  {
    var h := Highlights(Value(id));
    forall i | 0 <= i < |NavItems|
      ensures h[i] <==> NavItems[i].id == id
    {
      if h[i] {
        ValueInjective(NavItems[i].id, id);
      }
    }
    NavItemsFollowRegistry();
    CountSingle(h, Ordinal(id));
  }

  /** A value outside the enumeration highlights no button at all (while the label still reads "Page 05"). */
  lemma NoneHighlightedOutsideEnum(active: string)
    requires !IsSectionValue(active)
    ensures CountTrue(Highlights(active)) == 0
  {
    CountNone(Highlights(active));
  }

  /** `onClick`: the section a click on the i-th button forwards to `scrollTo`, the one declared at that position. */
  function OnClick(i: nat): (r: SectionId)
    requires i < |NavItems|
    ensures Ordinal(r) == i
  {
    NavItems[i].id
  }

  /** No two buttons forward the same section. */
  lemma ClickForwardsOwnSection(i: nat, j: nat)
    requires i < |NavItems| && j < |NavItems|
    ensures OnClick(i) == OnClick(j) <==> i == j
  {
  }
}
