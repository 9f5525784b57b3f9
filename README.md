# Portfolio globe page: event and state logic

A Dafny model of the discrete event logic of an interactive 3D portfolio landing page. The page shows a globe with clickable location markers, tabs for the locations, a location box for a contact form, and a navigation bar. Three parts are modelled:

- `picking.dfy`, module `Picking` (DomMesh.js): the pointer-picking handlers of `DomMesh` and `DomSprite`. `MouseEnter` and `MouseLeave` each keep one captured flag (`entered`, `left`) and decide on every `pointermove` event whether to run their callback. `MouseDown` runs its callback on every `click` or `touchstart` whose ray hits the target. `Link` composes the three into highlight-on-hover, restore-on-leave and open-on-press. The ray test is abstracted to a boolean `hit` per event. `DomSprite` (DomMesh.js:236-381) repeats `DomMesh`'s handler code line for line, so one model covers both. Each listener is a class with a `PointerMove` method, tied through a ghost record of the samples seen to trace functions (`FlagAfter`, `Firings`). The edge-trigger and counting properties are lemmas about those functions.
- `page.dfy`, module `Page` (app.js): the exclusive tab selection over two arrays of class sets, the hemisphere label of a picked coordinate, and the shared location state (`locSet`, the box and `loc` classes, the hidden `location` input) updated by the right-click handler body and the box click handler.
- `navbar.dfy`, module `NavBar` (navbar.js): `adjustNavBar`, which moves `nav_style`/`nav_push` (wide screens) or `header`/`header_style`/`nav_push` (narrow screens) by scroll direction and then stores the position in `prevScrollPos`, and `menuButton`, which toggles a fixed set of classes.

Class lists are sets of class names. Scroll positions and coordinates are `real`. Callbacks, colours and URLs are opaque values.

On [miss, hit, hit, miss, hit] the enter callback runs on samples 1 and 4 and the leave callback on sample 3 (`PointerScript`); `left` tracks hits exactly like `entered` (`LeaveFiresAt`).

## Model

| member | source | states |
|---|---|---|
| `Picking.EnterTransition` | DomMesh.js:79-84 | the enter callback runs iff the sample hits while `entered` is false; afterwards `entered` equals the hit |
| `Picking.LeaveTransition` | DomMesh.js:122-127 | the leave callback runs iff the sample misses while `left` is true; afterwards `left` equals the hit |
| `Picking.Firings` | DomMesh.js:66-88 | one firing decision per pointer-move sample, in order |
| `Picking.FlagIsLastHit` | DomMesh.js:63-84 | after any samples, the captured flag (`entered`, and likewise `left`) is "the last sample was a hit"; it is false before any sample |
| `Picking.EnterFiresAt` | DomMesh.js:79-84 | enter fires on sample i iff i hits and is the first sample or follows a miss |
| `Picking.LeaveFiresAt` | DomMesh.js:122-127 | leave fires on sample i iff i misses and follows a hit (the hit→miss edge) |
| `Picking.EnterOncePerRun` | DomMesh.js:63-84 | within a run of consecutive hits, enter fires at most once, and never after the run's first sample |
| `Picking.LeaveNotBeforeFirstHit` | DomMesh.js:106-127 | before the first hit, leave never fires (`left` starts false and only a hit sets it, silently) |
| `Picking.FiringBalance` | DomMesh.js:63-127 | over any samples, enter firings equal leave firings plus 1 if the pointer is on the target, else plus 0 |
| `Picking.PointerScript` | DomMesh.js:79-127 | on [miss, hit, hit, miss, hit] enter fires on samples 1 and 4, leave on sample 3 |
| `Picking.PressFirings` | DomMesh.js:149-185 | a click or touchstart fires iff its own ray hits; no state is kept between presses |
| `Picking.EnterWatcher.constructor` | DomMesh.js:56-63 | a new enter listener has seen no samples and `entered` is false |
| `Picking.EnterWatcher.PointerMove` | DomMesh.js:66-86 | one pointermove: fires iff hit and not previously entered, sets `entered` to the hit, and agrees with the trace semantics |
| `Picking.LeaveWatcher.constructor` | DomMesh.js:99-106 | a new leave listener has seen no samples and `left` is false |
| `Picking.LeaveWatcher.PointerMove` | DomMesh.js:109-129 | one pointermove: fires iff miss and previously left-armed, sets `left` to the hit, and agrees with the trace semantics |
| `Picking.WrittenBeforeFirstHit` | DomMesh.js:197-199 | until the first hit, neither Link callback has run, so the colour (or cursor) keeps its initial value |
| `Picking.WrittenTracksHover` | DomMesh.js:197-199 | once any hit has occurred, the colour is the highlight colour if the last sample hit and the default colour otherwise (likewise pointer/default cursor) |
| `Picking.Link.constructor` | DomMesh.js:197-201 | linking keeps the material's colour and the page cursor (which may be unset, the empty inline style of a page that never set it), with no samples seen and nothing opened |
| `Picking.Link.PointerMove` | DomMesh.js:197-199 | after each pointermove: before any hit, colour and cursor are unchanged; afterwards, highlight colour and pointer cursor iff this sample hit, else default colour and default cursor |
| `Picking.Link.Press` | DomMesh.js:200 | a press opens the link's URL iff its ray hits, and leaves colour and cursor alone |
| `Page.Selected` | app.js:502-586 | after clicking tab i, pair i lacks "inactive", the other four of the first five have it, and no other class or element changes |
| `Page.OneActiveTab` | app.js:502-586 | after clicking tab i, exactly one of the five tabs (tab i) is without "inactive" |
| `Page.LastClickWins` | app.js:502-586 | the result of a click does not depend on the previous selection; repeating a click changes nothing |
| `Page.SelectTab` | app.js:502-586 | the click handler of tab i updates `tabs` and `texts` in place to their selected class lists |
| `Page.LabelOf` | app.js:258-272 | `NS` is 'N' iff latitude < 0, else 'S'; `WE` is 'W' iff longitude < 0, else 'E'; the label shows non-negative absolute values |
| `Page.LabelRoundTrip` | app.js:258-272 | the signed coordinates can be read back from the label |
| `Page.NodesLabelAsPlaces` | app.js:401-449 | the negated latitudes stored for the northern-hemisphere nodes label as the places' real N/E/W coordinates |
| `Page.LocationPicker.constructor` | app.js:243-246 | at load `locSet` is false and `coords` is undefined |
| `Page.LocationPicker.RightClick` | app.js:250-281 | moves the marker, stores the coordinates, sets the `loc` text to the label and adds "enabled" to `loc`, adds "active" and "enabled" to the box, sets `locSet`, and fills and checks the location input |
| `Page.LocationPicker.BoxClick` | app.js:286-306 | with `locSet`: removes "active", clears `locSet`, sets the input to "0" and unchecks it; without: adds "active", sets `locSet`, then throws (TypeError before any pick, ReferenceError after), leaving the input as it was |
| `Page.LocationPicker.BoxClickIntended` | app.js:286-306 | the corrected box toggle keeps the form consistent: the input is checked exactly while `locSet`, and it holds the picked label |
| `Page.BoxToggleScenario` | app.js:286-306 | after a right-click and two box clicks, the second throws ReferenceError, the form is inconsistent, and `locSet` is true while the input is unchecked |
| `Page.BoxToggleScenarioIntended` | app.js:286-306 | with the corrected toggle, the same clicks leave the form consistent and offer the picked label again |
| `NavBar.Scrolled` | navbar.js:98-129 | wide: scrolling up to non-zero gives nav "nav_style" and no "nav_push"; scrolling up to 0 gives neither; otherwise nav loses "nav_style" and gains "nav_push", and header is untouched. Narrow: scrolling up gives header "header" and "header_style" and removes "nav_push"; at 0 all three go; otherwise both header classes go and "nav_push" is added, and "nav_style" is untouched. No other class moves |
| `NavBar.LastScrollDecides` | navbar.js:90-151 | after a run of scroll events, the bar's managed classes do not depend on the class state before the run |
| `NavBar.LastTwoPositionsDecide` | navbar.js:90-151 | two runs of at least two scroll events that end on the same two positions leave the same managed classes, whatever their start, earlier positions and earlier class state |
| `NavBar.Toggle` | navbar.js:61-83 | `classList.toggle(c)` flips c and leaves every other class alone |
| `NavBar.ToggleTwice` | navbar.js:61-83 | toggling the same class twice restores the list |
| `NavBar.MenuToggled` | navbar.js:59-84 | menuButton flips "nav_dropdown_active" on nav, "header_style" on header if scrollY ≠ 0 and "header" if scrollY = 0, "change" on the button, "menuItems_active" and "menuItems_inactive" on the menuItems element, "menuItem_active" on every item, "tog" on html and "body_dropdown" on body; no other class of any of these elements moves |
| `NavBar.MenuTwiceRestores` | navbar.js:59-84 | two menuButton presses at the same scroll position restore every affected class list |
| `NavBar.Navigation.constructor` | navbar.js:90 | at load `prevScrollPos` is the current scroll position |
| `NavBar.Navigation.AdjustNavBar` | navbar.js:92-152 | a scroll event moves nav/header classes as `Scrolled` says, leaves the other elements alone, and ends with `prevScrollPos` equal to the current position |
| `NavBar.Navigation.MenuButton` | navbar.js:59-84 | a menu-button click updates every class list in place as `MenuToggled` says and keeps `prevScrollPos` |

## Findings

| source | as written | input that shows it | evidently intended | confidence | as-written member | corrected member |
|---|---|---|---|---|---|---|
| app.js:296-304 | when `locSet` is false, the box click adds "active" and sets `locSet`, then builds the label from `coords`, `NS` and `WE`. `NS` and `WE` are local to the right-click callback, so the handler throws ReferenceError (TypeError if nothing was picked yet) before it refills and checks the location input | given a working right-click registration (the imported DomMesh.js has no `RightMouseDown`): right-click a point, click the box (location cleared), click the box again: `locSet` is true and the box is "active", but the input holds "0" and is unchecked | turning the location back on restores the last picked label and checks the input | not executed | `Page.LocationPicker.BoxClick` (`Page.BoxToggleScenario`) | `Page.LocationPicker.BoxClickIntended` (`Page.BoxToggleScenarioIntended`) |

## Left out

- The ray test, the pointer-to-device-coordinate conversion and the touch rounding (DomMesh.js:70, 153). THREE's `Raycaster` is a foreign library doing float maths, so each event carries a boolean `hit` instead.
- The `DomMesh`/`DomSprite` constructors (DomMesh.js:33-42, 214-222) only store geometry, material and camera for the ray test, so they are not modelled.
- The listener registration with `window.addEventListener`. It is modelled as the watcher objects receiving events in registration order: enter before leave, as `Link` registers them.
- Picking.Link.PointerMove: the cursor clause holds only on a page with one Link. `document.body.style.cursor` (DomMesh.js:198-199) is one value for the whole page, and the model keeps it per Link. With several Links, another Link's leave callback can reset the cursor to the default while this Link is hovered. The colour clause is unaffected, because each target has its own material.
- Callback side effects are opaque. `Link`'s `material.color.set`, `document.body.style.cursor` and `window.open` are modelled as the fields `color`, `cursor` and `openedUrls`.
- The page's own node callbacks (app.js:598-705): camera tweens, and Safari detection with `window.confirm`. These are browser and library effects.
- The registration `Earth.RightMouseDown` (app.js:248). The DomMesh.js that app.js imports (app.js:14) defines no such method, so app.js:248 throws a TypeError while the module loads and nothing after it runs: the box listener (app.js:286), the location nodes (app.js:402-449) and the tab handlers (app.js:454-586) are never registered. The model treats those handlers as if registration had worked. Only the right-click handler body is modelled, with the picked point and its coordinates as inputs.
- The inverse mapping `EuclodcordToSphere` (app.js:738-746), the forward mapping `SphereToEuclodCord` (app.js:721-736), and the possibility of a NaN coordinate. These are floating-point trigonometry.
- Page.LabelOf: the label is kept as its parts (absolute latitude, N/S, absolute longitude, W/E). JavaScript's number-to-text formatting is not modelled.
- Page.LocationPicker.constructor: assumes the `location` input starts unchecked and the box starts without "active". The page's markup is not part of this model.
- Page.LocationPicker.BoxClick: assumes no element with id `NS` exists. A browser would otherwise expose such an element as a global named `NS`.
- Page.SelectTab: requires at least five tabs and five text panes, as the page's markup provides. With fewer, the handlers would throw; that case is not modelled.
- The tab `mouseover` handlers (app.js:457-500). They only start camera tweens.
- The shaders, the sun, moon, cloud and camera motion, textures, lens flare, orbit controls and the renderer. These are float rendering and library plumbing.
- The first `menuButton` declaration (navbar.js:14-41). The later declaration (navbar.js:59-84) replaces it when the script loads.
- `loader` (navbar.js:43-57), run on every load and resize. Its figcaption style string and its registration of the menu listener (navbar.js:46) are plumbing. Its removal of "header" from the header's class list when the window is at least as wide as it is tall (navbar.js:52) is not modelled, so the model does not capture that change to a class that `AdjustNavBar` and `MenuButton` also manage.
- NavBar.Navigation.AdjustNavBar: the figcaption/image layout (navbar.js:131-139) is left out as style strings and layout arithmetic. The model assumes the page has the `figure`, `captionImg` and `figcaption` elements. Without any of them that block throws before navbar.js:151, and `prevScrollPos` would not be updated.
- `window.scrollY` and `window.innerWidth` are parameters of the modelled handlers.
