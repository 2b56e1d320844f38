/**
 The active-section tracker (App.tsx) as a state machine over explicit events:
 mount (the effect runs), a batch of visibility entries (one observer callback),
 and unmount (the effect's cleanup). The browser is replaced by data: the
 document is the set of element ids that currently exist, and the observer's
 entries are given as sequences in whatever order the host delivers them.
 */
module App {
  import opened Wrappers
  import opened Sections
  import Navbar

  /** A DOM element, known by its id. */
  datatype Element = Element(id: string)

  /** The rendered document: the ids of the elements that currently exist. */
  datatype Document = Document(ids: set<string>)

  /** `document.getElementById`: the element with that id, if there is one. */
  function GetElementById(doc: Document, id: string): (r: Option<Element>)
    ensures r.Some? <==> id in doc.ids
    ensures r.Some? ==> r.value.id == id
  {
    if id in doc.ids then Some(Element(id)) else None
  }

  /** One visibility entry: the observed element and whether it is past the threshold. */
  datatype Entry = Entry(target: Element, isIntersecting: bool)

  /**
   The tracker's state: the run-time value of `activeSection`, the elements the
   observer currently watches, and the `sections` array the effect captured at
   mount (one slot per registry entry, None where the element was missing).
   */
  datatype State = State(active: string, observed: set<Element>, captured: seq<Option<Element>>)

  /** `useState(SectionId.HOME)` before the effect has run: nothing observed, nothing captured. */
  function Init(): (r: State)
    ensures Parse(r.active) == Some(Home)
    ensures r.observed == {} && r.captured == []
  {
    State(Value(Home), {}, [])
  }

  /** `scrollToSection`: the element a smooth scroll is requested on, or None when nothing happens. */
  function ScrollToSection(doc: Document, id: SectionId): (r: Option<Element>)
    ensures r.Some? <==> Value(id) in doc.ids
    ensures r.Some? ==> r.value.id == Value(id)
  {
    GetElementById(doc, Value(id))
  }

  // ---------------------------------------------------------------------------
  // The observer callback

  /** One iteration of the callback's `forEach`: only an intersecting entry changes the active section, and then to its target's id. */
  function Step(active: string, e: Entry): (r: string)
    ensures r == active || r == e.target.id
    ensures r != active ==> e.isIntersecting
  {
    if e.isIntersecting then e.target.id else active
  }

  /** `i` is the last intersecting entry of `es`. */
  predicate IsLastHit(es: seq<Entry>, i: int)
  {
    0 <= i < |es| && es[i].isIntersecting && forall j :: i < j < |es| ==> !es[j].isIntersecting
  }

  /** No entry of `es` intersects. */
  predicate NoHit(es: seq<Entry>)
  {
    forall j :: 0 <= j < |es| ==> !es[j].isIntersecting
  }

  /** The callback applied to one batch: the `forEach` over the entries in delivery order. */
  function ApplyBatch(active: string, es: seq<Entry>): (r: string)
    ensures NoHit(es) ==> r == active
    decreases |es|
  {
    if |es| == 0 then active else ApplyBatch(Step(active, es[0]), es[1..])
  }

  /** Last writer wins: the last intersecting entry of a batch decides, and a batch without one leaves the state alone. */
  lemma {:induction false} LastWriterWins(active: string, es: seq<Entry>)
    ensures NoHit(es) ==> ApplyBatch(active, es) == active
    ensures forall i :: IsLastHit(es, i) ==> ApplyBatch(active, es) == es[i].target.id
    decreases |es|
  {
    if |es| > 0 {
      var rest := es[1..];
      LastWriterWins(Step(active, es[0]), rest);
      assert forall i :: IsLastHit(es, i) && i > 0 ==> IsLastHit(rest, i - 1);
      assert forall j :: 0 <= j < |rest| ==> rest[j] == es[j + 1];
    }
  }

  /** A batch only ever writes the target id of one of its intersecting entries. */
  lemma {:induction false} BatchWritesOnlyHits(active: string, es: seq<Entry>)
    ensures ApplyBatch(active, es) == active
         || exists i :: 0 <= i < |es| && es[i].isIntersecting && ApplyBatch(active, es) == es[i].target.id
    decreases |es|
  {
    if |es| > 0 {
      var rest := es[1..];
      var r := ApplyBatch(active, es);
      BatchWritesOnlyHits(Step(active, es[0]), rest);
      if r != Step(active, es[0]) {
        var k :| 0 <= k < |rest| && rest[k].isIntersecting && r == rest[k].target.id;
        assert es[k + 1] == rest[k];
      } else if r != active {
        assert es[0].isIntersecting;
      }
    }
  }

  /**
   The entries the observer reports: only those whose target it watches at
   delivery time, in the host's order. This idealises the host: entries queued
   before an `unobserve` are taken to be dropped with the target.
   */
  function Reported(observed: set<Element>, raw: seq<Entry>): (r: seq<Entry>)
    ensures forall e :: e in r <==> e in raw && e.target in observed
  {
    if |raw| == 0 then []
    else
      var tail := Reported(observed, raw[1..]);
      assert forall e :: e in raw <==> e == raw[0] || e in raw[1..];
      if raw[0].target in observed then [raw[0]] + tail else tail
  }

  /** One observer callback: the host reports the watched entries of `raw`, and the callback folds them into the state. */
  function Deliver(st: State, raw: seq<Entry>): (r: State)
    ensures r.observed == st.observed && r.captured == st.captured
  {
    st.(active := ApplyBatch(st.active, Reported(st.observed, raw)))
  }

  // ---------------------------------------------------------------------------
  // Mount and cleanup

  /** The elements present in a captured `sections` array (the non-null slots). */
  function Present(sections: seq<Option<Element>>): set<Element>
  {
    set i | 0 <= i < |sections| && sections[i].Some? :: sections[i].value
  }

  /** The elements of `doc` that stand for a section. */
  function SectionElements(doc: Document): set<Element>
  {
    set id | id in Registry() && Value(id) in doc.ids :: Element(Value(id))
  }

  /** `Object.values(SectionId).map(id => document.getElementById(id))`. */
  function Lookup(doc: Document): (r: seq<Option<Element>>)
    ensures |r| == |Registry()|
    ensures forall i :: 0 <= i < |r| ==> (r[i].Some? <==> Value(Registry()[i]) in doc.ids)
    ensures forall i :: 0 <= i < |r| && r[i].Some? ==> r[i].value == Element(Value(Registry()[i]))
  {
    seq(|Registry()|, i requires 0 <= i < |Registry()| => GetElementById(doc, Value(Registry()[i])))
  }

  /** The non-null slots of the mount-time lookup are exactly the section elements of the document. */
  lemma PresentLookup(doc: Document)
    ensures Present(Lookup(doc)) == SectionElements(doc)
  {
  }

  /** The mount `forEach`: `observer.observe` on each non-null slot, in order. */
  function ObserveEach(observed: set<Element>, sections: seq<Option<Element>>): (r: set<Element>)
    ensures r == observed + Present(sections)
    decreases |sections|
  {
    if |sections| == 0 then observed
    else
      var head := if sections[0].Some? then {sections[0].value} else {};
      ObserveEach(observed + head, sections[1..])
  }

  /** The cleanup `forEach`: `observer.unobserve` on each non-null slot, in order. */
  function UnobserveEach(observed: set<Element>, sections: seq<Option<Element>>): (r: set<Element>)
    ensures r == observed - Present(sections)
    decreases |sections|
  {
    if |sections| == 0 then observed
    else
      var head := if sections[0].Some? then {sections[0].value} else {};
      UnobserveEach(observed - head, sections[1..])
  }

  /** The effect body: look up every registered section, observe the ones that exist, and capture the lookup for cleanup. */
  function Mount(st: State, doc: Document): (r: State)
    ensures r.active == st.active
    ensures r.observed == st.observed + SectionElements(doc)
    ensures Present(r.captured) == SectionElements(doc)
  {
    var sections := Lookup(doc);
    PresentLookup(doc);
    State(st.active, ObserveEach(st.observed, sections), sections)
  }

  /** The effect's cleanup: unobserve exactly the elements captured at mount; the closure keeps its `sections`. */
  function Unmount(st: State): (r: State)
    ensures r.active == st.active && r.captured == st.captured
    ensures r.observed == st.observed - Present(st.captured)
  {
    st.(observed := UnobserveEach(st.observed, st.captured))
  }

  // ---------------------------------------------------------------------------
  // Properties of the callback

  /** Two batches in a row act as their concatenation, so splitting the host's delivery into batches does not matter. */
  lemma {:induction false} BatchesCompose(active: string, xs: seq<Entry>, ys: seq<Entry>)
    ensures ApplyBatch(ApplyBatch(active, xs), ys) == ApplyBatch(active, xs + ys)
    decreases |xs|
  {
    if |xs| == 0 {
      assert xs + ys == ys;
    } else {
      var zs := xs + ys;
      assert zs[0] == xs[0];
      assert zs[1..] == xs[1..] + ys;
      assert ApplyBatch(active, xs) == ApplyBatch(Step(active, xs[0]), xs[1..]);
      assert ApplyBatch(active, zs) == ApplyBatch(Step(active, xs[0]), xs[1..] + ys);
      BatchesCompose(Step(active, xs[0]), xs[1..], ys);
    }
  }

  /** An entry that is not intersecting never changes the active section, wherever it sits in the batch. */
  lemma NonIntersectingIgnored(active: string, xs: seq<Entry>, e: Entry, ys: seq<Entry>)
    requires !e.isIntersecting
    ensures ApplyBatch(active, xs + [e] + ys) == ApplyBatch(active, xs + ys)
  {
    BatchesCompose(active, xs + [e], ys);
    BatchesCompose(active, xs, [e]);
    BatchesCompose(active, xs, ys);
  }

  /** When every entry intersects, the last one delivered decides the active section. */
  lemma AllIntersectingLastWins(active: string, es: seq<Entry>)
    requires |es| > 0
    requires forall i :: 0 <= i < |es| ==> es[i].isIntersecting
    ensures ApplyBatch(active, es) == es[|es| - 1].target.id
  {
    assert IsLastHit(es, |es| - 1);
    LastWriterWins(active, es);
  }

  // ---------------------------------------------------------------------------
  // Properties of the subscription lifecycle

  /** At mount a section's element is observed exactly when it exists; missing ones are skipped and nothing else is watched. */
  lemma MountObservesPresentSections(doc: Document)
    ensures forall id: SectionId :: Element(Value(id)) in Mount(Init(), doc).observed <==> Value(id) in doc.ids
    ensures forall e :: e in Mount(Init(), doc).observed ==> IsSectionValue(e.id)
  {
  }

  /** An element that was absent at mount is neither observed by the mount nor unobserved by the cleanup. */
  lemma AbsentAtMountUntouched(st: State, doc: Document, e: Element, later: State)
    requires e.id !in doc.ids
    requires later.captured == Mount(st, doc).captured
    ensures e in Mount(st, doc).observed <==> e in st.observed
    ensures e in Unmount(later).observed <==> e in later.observed
  {
  }

  /** The cleanup after a mount releases every watch, however many callbacks ran in between: nothing is observed any more. */
  lemma UnmountReleasesAll(doc: Document, evs: seq<Event>)
    requires forall k :: 0 <= k < |evs| ==> evs[k].Observed?
    ensures Unmount(Mount(Init(), doc)).observed == {}
    ensures Unmount(Run(Mount(Init(), doc), evs)).observed == {}
  {
  }

  /** Running the cleanup twice is the same as running it once. */
  lemma UnmountIdempotent(st: State)
    ensures Unmount(Unmount(st)) == Unmount(st)
  {
  }

  /** Mounting again after the cleanup watches exactly the sections present at the second mount. */
  lemma RemountIsClean(d1: Document, d2: Document)
    ensures Mount(Unmount(Mount(Init(), d1)), d2).observed == SectionElements(d2)
  {
  }

  /** After the cleanup no entry reaches the callback, so the active section no longer changes. */
  lemma DeliverAfterUnmountIsNoOp(st: State, raw: seq<Entry>)
    requires st.observed <= Present(st.captured)
    ensures Deliver(Unmount(st), raw) == Unmount(st)
  {
  }

  // ---------------------------------------------------------------------------
  // The whole lifecycle

  /** What can happen to the tracker: the effect mounts, the observer fires once, or the effect is cleaned up. */
  datatype Event = Mounted(doc: Document) | Observed(raw: seq<Entry>) | Unmounted

  /** The tracker's response to one event: only an observer callback can change the active section, and it never touches the subscription. */
  function Apply(st: State, ev: Event): (r: State)
    ensures !ev.Observed? ==> r.active == st.active
    ensures ev.Observed? ==> r.observed == st.observed && r.captured == st.captured
  {
    match ev
    case Mounted(doc) => Mount(st, doc)
    case Observed(raw) => Deliver(st, raw)
    case Unmounted => Unmount(st)
  }

  /** The state after the events, in order. Callbacks alone never change the subscription; without callbacks the active section stays put. */
  function Run(st: State, evs: seq<Event>): (r: State)
    ensures (forall k :: 0 <= k < |evs| ==> evs[k].Observed?) ==> r.observed == st.observed && r.captured == st.captured
    ensures (forall k :: 0 <= k < |evs| ==> !evs[k].Observed?) ==> r.active == st.active
    decreases |evs|
  {
    if |evs| == 0 then st else Run(Apply(st, evs[0]), evs[1..])
  }

  /** The active section is a section's value, and every watched or captured element stands for a section. */
  predicate Valid(st: State)
  {
    && IsSectionValue(st.active)
    && (forall e :: e in st.observed ==> IsSectionValue(e.id))
    && (forall e :: e in Present(st.captured) ==> IsSectionValue(e.id))
  }

  /** Every event keeps the state valid; in particular a batch can only write ids of watched section elements. */
  lemma ApplyPreservesValid(st: State, ev: Event)
    requires Valid(st)
    ensures Valid(Apply(st, ev))
  {
    match ev
    case Mounted(doc) =>
    case Observed(raw) =>
      var rep := Reported(st.observed, raw);
      var r := ApplyBatch(st.active, rep);
      BatchWritesOnlyHits(st.active, rep);
      if r != st.active {
        var i :| 0 <= i < |rep| && rep[i].isIntersecting && r == rep[i].target.id;
        assert rep[i].target in st.observed;
      }
    case Unmounted =>
  }

  /** From the initial state, whatever happens, `activeSection` always holds one of the five section values. */
  lemma {:induction false} ActiveAlwaysSection(evs: seq<Event>)
    ensures Valid(Run(Init(), evs))
    ensures Parse(Run(Init(), evs).active).Some?
  {
    ParseValue(Home);
    RunPreservesValid(Init(), evs);
  }

  /** Validity holds after any sequence of events that starts in a valid state. */
  lemma {:induction false} RunPreservesValid(st: State, evs: seq<Event>)
    requires Valid(st)
    ensures Valid(Run(st, evs))
    decreases |evs|
  {
    if |evs| > 0 {
      ApplyPreservesValid(st, evs[0]);
      RunPreservesValid(Apply(st, evs[0]), evs[1..]);
    }
  }

  // ---------------------------------------------------------------------------
  // The navigation bar wired to the tracker

  /** A click on a nav button requests a scroll to that button's own section, and only when its element exists. */
  lemma ClickScrollsToOwnSection(doc: Document, i: nat)
    requires i < |Navbar.NavItems|
    ensures ScrollToSection(doc, Navbar.OnClick(i)).Some? <==> Value(Navbar.NavItems[i].id) in doc.ids
    ensures ScrollToSection(doc, Navbar.OnClick(i)).Some? ==>
              ScrollToSection(doc, Navbar.OnClick(i)).value == Element(Value(Navbar.NavItems[i].id))
    ensures forall j :: 0 <= j < |Navbar.NavItems| && j != i ==>
              Value(Navbar.OnClick(j)) != Value(Navbar.OnClick(i))
  {
  }

  /** All five sections rendered; the "skills" section crosses the threshold: it becomes active and the pill reads "Page 03". */
  lemma SkillsScenario(doc: Document)
    requires doc.ids == {"home", "about", "skills", "projects", "others"}
    ensures Deliver(Mount(Init(), doc), [Entry(Element("skills"), true)]).active == Value(Skills)
    ensures Navbar.PageLabel(Deliver(Mount(Init(), doc), [Entry(Element("skills"), true)]).active) == "Page 03"
  {
  }

  /** "home" then "about" intersect, then "home" leaves: "about" stays active, in one batch or in three. */
  lemma HomeAboutScenario(a: string)
    ensures var h := Entry(Element("home"), true);
            var b := Entry(Element("about"), true);
            var hOut := Entry(Element("home"), false);
            && ApplyBatch(a, [h, b, hOut]) == "about"
            && ApplyBatch(ApplyBatch(ApplyBatch(a, [h]), [b]), [hOut]) == "about"
  {
  }
}
