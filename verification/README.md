# Section navigation of a single-page portfolio, in Dafny

The portfolio is one scrolling page made of five sections: home, about, skills,
projects and others. A navigation bar highlights the section that is currently
in view. This project models the logic behind that bar.

- **Section registry** (`types.ts`). `Sections.SectionId` is the closed five-member
  enumeration. Its run-time string values are given by `Value`, and `Parse` reads
  a string back as a section. `Registry` is `Object.values(SectionId)`.
- **Active-section tracker** (`App.tsx`). This is a state record `App.State`. It holds
  the run-time value of `activeSection`, the set of elements the intersection
  observer watches, and the `sections` array the effect captured at mount. The
  React lifecycle becomes three explicit events on that record:
  - `Mount`: the effect body looks up every registered id and observes the elements that exist.
  - `Deliver`: one observer callback folds a batch of entries with `ApplyBatch`, whose last-writer-wins meaning is `LastWriterWins`.
  - `Unmount`: the effect's cleanup unobserves the captured elements.
  `ScrollToSection` returns the element a scroll is requested on, or `None`.
- **Navigation bar** (`components/Navbar.tsx`). `PageLabel` is `getPageNumber`.
  `Highlights` says which button gets the highlighted style. `OnClick` gives the
  id a button forwards to `scrollTo`.

The browser becomes plain data:
- the document is the set of element ids that exist (`App.Document`);
- an observer entry is a target element plus its `isIntersecting` flag (`App.Entry`);
- a batch is an arbitrary sequence of entries, in whatever order the host delivers them;
- the observer is taken to report entries only for targets it watches at delivery time (`App.Reported`, an idealisation of the host).

`activeSection` is kept as a string, not as a `SectionId`. TypeScript string enums are
strings at run time, and the callback stores `entry.target.id as SectionId`, which is
an unchecked cast. That the value is always one of the five section strings is
therefore a proved invariant (`App.ActiveAlwaysSection`), not a fact of the types. The
same choice gives the `default` branch of `getPageNumber` its meaning for non-enum
values.

## Model

| member | source | states |
|---|---|---|
| Sections.Parse | types.ts:10-16 | a string reads back as a section exactly when it is one of the five enum values, and then it is the value of that section; every other string is rejected |
| Sections.ParseValue | types.ts:10-16 | converting a section to its string and back gives the same section |
| Sections.ValueInjective | types.ts:11-15 | the five string values 'home', 'about', 'skills', 'projects', 'others' are pairwise distinct |
| Sections.Value | types.ts:11-15 | each member's run-time value is a non-empty lower-case word; that the five differ and that `Parse` inverts them is stated by `ValueInjective` and `Parse` |
| Sections.Registry | types.ts:10-16 | `Object.values(SectionId)` has five entries, each member at its declaration position and no member twice, so the enum has exactly five members |
| Navbar.PageLabel | components/Navbar.tsx:21-29 | the pill always reads "Page 0" plus a digit from 1 to 5, and any value that is not a section falls through to "Page 05" |
| Navbar.PageNumberIsPosition | components/Navbar.tsx:13-29 | the page number shown for a section is the 1-based position of its button in `navItems` |
| Navbar.PageLabelInjective | components/Navbar.tsx:22-27 | distinct sections get distinct page labels |
| Navbar.NavItemsFollowRegistry | components/Navbar.tsx:13-19 | `navItems` lists the registry's sections in registry order: every section once, no section twice |
| Navbar.Highlights | components/Navbar.tsx:45-53 | one flag per button, in button order; a button is highlighted exactly when the active value reads back as that button's section |
| Navbar.ExactlyOneHighlighted | components/Navbar.tsx:45-53 | for a section value exactly one button is highlighted, and it is that section's button |
| Navbar.NoneHighlightedOutsideEnum | components/Navbar.tsx:49 | for a value outside the enum no button is highlighted |
| Navbar.OnClick | components/Navbar.tsx:45-48 | a click on the button at position i forwards the section declared at position i |
| Navbar.ClickForwardsOwnSection | components/Navbar.tsx:45-48 | no two buttons forward the same section |
| App.Init | App.tsx:10 | the active section starts as HOME, with nothing observed or captured yet |
| App.GetElementById | App.tsx:13 | the lookup finds an element exactly when one with that id exists, and then the element with that id |
| App.ScrollToSection | App.tsx:12-17 | a scroll is requested if and only if an element with the section's id exists, and then on that element; otherwise nothing happens |
| App.Step | App.tsx:24-26 | one entry leaves the active section as it was or sets it to the entry's target id, and only an intersecting entry changes it |
| App.ApplyBatch | App.tsx:22-28 | the callback's `forEach` over a batch; a batch with no intersecting entry leaves the active section unchanged (its full meaning is `LastWriterWins`) |
| App.LastWriterWins | App.tsx:22-28 | after a batch the active section is the target id of the last intersecting entry, and with no intersecting entry it is unchanged |
| App.BatchWritesOnlyHits | App.tsx:23-26 | a batch leaves the active section as it was or sets it to the target id of one of its intersecting entries, never anything else |
| App.Reported | App.tsx:21-30 | the callback sees exactly the entries whose target the observer watches |
| App.Deliver | App.tsx:21-28 | an observer callback changes only the active section, never the watched set or the captured array |
| App.BatchesCompose | App.tsx:22-28 | two batches in a row have the effect of their concatenation, so how the host splits entries into batches does not matter |
| App.NonIntersectingIgnored | App.tsx:24-26 | an entry with `isIntersecting` false never changes the active section, wherever it sits in the batch |
| App.AllIntersectingLastWins | App.tsx:22-27 | when every entry of a non-empty batch intersects, the last one delivered decides |
| App.Lookup | App.tsx:32 | one slot per registered section, in registry order; a slot holds that section's element exactly when it exists in the document |
| App.PresentLookup | App.tsx:32 | looking up every registered id yields, in its non-null slots, exactly the section elements the document contains |
| App.ObserveEach | App.tsx:33-35 | the mount loop adds to the watched set exactly the non-null slots of the captured array |
| App.UnobserveEach | App.tsx:37-41 | the cleanup loop removes from the watched set exactly the non-null slots of the captured array |
| App.Mount | App.tsx:32-35 | mounting keeps the active section, adds the elements of the registered sections that exist to the watched set, and captures exactly those for cleanup |
| App.Unmount | App.tsx:37-41 | the cleanup keeps the active section and the captured array, and removes exactly the captured elements from the watched set |
| App.MountObservesPresentSections | App.tsx:32-35 | at mount a section's element is watched if and only if it exists; missing elements are skipped and nothing else is watched |
| App.AbsentAtMountUntouched | App.tsx:32-41 | an element absent at mount is neither observed by the mount nor unobserved by the cleanup |
| App.UnmountReleasesAll | App.tsx:37-41 | after mount, with any number of callbacks in between, the cleanup leaves nothing observed |
| App.UnmountIdempotent | App.tsx:37-41 | running the cleanup twice is the same as running it once |
| App.RemountIsClean | App.tsx:20-42 | mounting again after the cleanup watches exactly the sections present at the second mount, with nothing left over |
| App.DeliverAfterUnmountIsNoOp | App.tsx:37-41 | after the cleanup no callback changes the state |
| App.Apply | App.tsx:20-42 | only an observer callback changes the active section, and a callback never changes the watched set or the captured array |
| App.Run | App.tsx:20-42 | a run of callbacks alone keeps the watched set and the captured array; a run without callbacks keeps the active section |
| App.ApplyPreservesValid | App.tsx:25 | every event keeps the active section a section value and every watched or captured element a section element, so the cast in the callback is sound |
| App.RunPreservesValid | App.tsx:20-42 | any sequence of mounts, callbacks and cleanups keeps that invariant |
| App.ActiveAlwaysSection | App.tsx:10-42 | from the initial state, whatever happens, the active section is one of the five section values |
| App.ClickScrollsToOwnSection | components/Navbar.tsx:48 | clicking a button requests a scroll to that button's own section only when its element exists, and different buttons scroll to different elements |
| App.SkillsScenario | App.tsx:22-27 | with all sections rendered, an intersecting "skills" entry makes skills active and the pill read "Page 03" |
| App.HomeAboutScenario | App.tsx:22-27 | "home" in, "about" in, "home" out leaves "about" active, in one batch or in three |

## Left out

- The intersection threshold of 0.5 and the viewport geometry. These are floating-point and browser-defined, so an entry carries only its target and `isIntersecting`.
- `scrollIntoView({ behavior: 'smooth' })`. Host scrolling is not modelled; `ScrollToSection` only returns the element a scroll is requested on.
- React's scheduling (`useState`, `useEffect` with `[]`, re-rendering, batched state updates). These become the explicit `Mount`, `Deliver` and `Unmount` operations. Batched `setActiveSection` calls are taken to end with the last value set.
- Disconnecting the observer. The cleanup never calls `observer.disconnect()`; it only unobserves the captured elements (App.tsx:37-41), and the model follows that.
- Filtering unknown ids in the callback. The callback casts `entry.target.id` to `SectionId` without a check (App.tsx:25); the invariant holds because only section elements are ever watched.
- Entries queued before an `unobserve`. `App.Reported` is an idealisation of the host: it reports only entries whose target is watched at delivery time, so an entry the browser queued before the cleanup is taken to be dropped. `App.DeliverAfterUnmountIsNoOp` rests on this idealisation.
- Duplicate element ids in the document. `document.getElementById` returns the first match; a `Document` holds each id once.
- components/Hero.tsx and components/Skills.tsx: render trees, styling, animation, the scroll interpolation and the static skills table. These are presentation, not behaviour.
- The `Project` interface in types.ts carries no logic.
- components/About.tsx and components/Projects.tsx are not part of this model.
- Navbar button captions and the Tailwind classes. Only the choice of highlighted or not is modelled (`Navbar.Highlights`).
- App.Reported: states which entries reach the callback, but not that they keep the host's order. The body is an order-preserving filter.
