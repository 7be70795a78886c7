# Logo annotation page — a Dafny model

This project models the logic of the logo-annotation page of Hunger Games
(`src/pages/logos/LogoAnnotation.jsx`). On this page a user reviews logos that the
Robotoff similarity search finds near a reference logo, selects some of them and
gives all selected logos one annotation (a type and a value). Under the React
rendering, the page holds five pieces of logic. The model covers each one:

- **URL parameter writer** (`getQuestionSearchParams`, module `QueryParams`). It writes
  the search state (`count`, `logo_id`, `index`) into the query string. The
  `URLSearchParams` object becomes a class over a list of name/value pairs. Its
  `delete` and `set` are the browser's: `delete` removes every pair with the name;
  `set` overwrites the first pair and drops the others, or appends a pair.
- **Logo loader** (`loadLogos`, module `LogoLoader`). It runs the self-inclusion
  fix-up, filters out ids that are already loaded, and joins the neighbours with the
  image metadata. The two remote calls become response parameters (`None` when the
  call is rejected). The two URL builders become uninterpreted function values.
- **Selection store** (module `Selection`). Toggle, select all, unselect all, the
  selection of a fresh load, `selectedIds`, and the rule that disables "unselect all".
  All of them are pure functions on the list of logo entries.
- **Annotation batch** (`request`, module `Annotations`).
- **Page state** (module `LogoPage`). The component's state is a class whose methods
  update its fields: the load when the search changes, refresh, "load more" with its
  counter, the selection buttons, and the submit.

The reference logo is the one whose id is the `logo_id` search parameter. The page
compares `id.toString()` with that string. The model writes the parameter as
`Option<int>`, where `None` is the empty parameter, which matches no logo.

Some behaviours of the code are easy to misread; the model follows the code as written:

- "Load more" caps the *extra* count at 500. With the default count of 50, the search
  can be asked for 550 logos, not 500 (`AddMoreLogos` returns the count sent, and
  `LoadMoreAsksFor` gives it press by press).
- A failed "load more" keeps the logos, but it leaves `isLoading` set. The `catch`
  at line 150 is empty.
- A failed first load or refresh puts back the default state. In that state
  `isLoading` is `true`.
- `request` dispatches nothing only for `null`/`undefined` form data. An empty type or
  value is still sent. The selection is reset after `request` returns, so the reset
  also happens when nothing was sent.
- The URL writer drops only falsy values. A value equal to its default (`count=50`)
  is still written.
- The bounding box comes from the logo's metadata record (`annotation.bounding_box`),
  not from its image.
- `additionalLogos` is not reset when the search parameters change.
- The self-inclusion fix-up looks only at the first neighbour's distance, not at the
  ids. When the first neighbour's distance is not 0 and the response already holds the
  target (also when the target itself is first at a non-zero distance), the target is
  put in front again and the load holds it twice, although the response has no repeat
  (`TargetLoadedTwice`).
- When the first load's first neighbour is another logo at distance 0, the fix-up does
  not fire, so the reference is loaded only if the search itself returns it. When it
  does not, A later "load more" can append it
  unselected. `toggleSelection` cannot select it, so it stays unselected until
  "select all", "unselect all" or the reset after a submit selects it
  (`ReferenceArrivesUnselected`).
- A load that holds the reference twice selects both records. `selectedIds` is then
  `[7, 7]`, so "unselect all" is enabled although pressing it changes nothing
  (`DuplicateReferenceEnablesNoopUnselectAll`).

## Model

| member | source | states |
|---|---|---|
| `QueryParams.QuestionSearchParams` | src/pages/logos/LogoAnnotation.jsx:25-39 | After the walk over `count`, `logo_id`, `index`, each key reads as its state value (stringified), or is absent when that value is falsy. The pairs of every other key are unchanged, in order. |
| `QueryParams.DeleteLeavesOthers` | src/pages/logos/LogoAnnotation.jsx:29-30 | After `delete(key)` the key is absent and every other key reads as before. |
| `QueryParams.UrlSearchParams.Delete` | src/pages/logos/LogoAnnotation.jsx:30 | `delete(key)` removes every pair with the key and keeps the other pairs in order. |
| `QueryParams.UrlSearchParams.Set` | src/pages/logos/LogoAnnotation.jsx:35 | `set(key, v)` gives the first pair with the key the value `v` and removes the other pairs with the key, or appends a pair when there is none. |
| `QueryParams.SetValueReads` | src/pages/logos/LogoAnnotation.jsx:31-36 | After `set(key, v)` the key reads as `v` and every other key reads as before. |
| `QueryParams.SetValueLeavesOthers` | src/pages/logos/LogoAnnotation.jsx:31-36 | `set` on a recognised key leaves the pairs of unrecognised keys, and their order, unchanged. |
| `QueryParams.ExceptAbsorbs` | src/pages/logos/LogoAnnotation.jsx:29-30 | `delete` on a recognised key leaves the pairs of unrecognised keys, and their order, unchanged. |
| `QueryParams.Lookup` | src/pages/logos/LogoAnnotation.jsx:29-33 | `get` gives the value of the first pair with the name, or nothing exactly when no pair has the name. |
| `LogoLoader.FixUp` | src/pages/logos/LogoAnnotation.jsx:57-62 | With a target set, an empty neighbour list fails, because the first neighbour is read. With a first distance other than 0, the list grows by one and starts with the target at distance 0. Otherwise the list is unchanged. |
| `LogoLoader.Unseen` | src/pages/logos/LogoAnnotation.jsx:64-68 | Keeps exactly the neighbours whose id is not among the seen ids. Repeats within one batch are kept. |
| `LogoLoader.UnseenAppend` | src/pages/logos/LogoAnnotation.jsx:68 | The filter keeps neighbour order: filtering a concatenation is concatenating the filtered parts. |
| `LogoLoader.UnseenNothingLoaded` | src/pages/logos/LogoAnnotation.jsx:51-68 | With nothing already loaded, the filter keeps every neighbour. |
| `LogoLoader.UnseenDistinct` | src/pages/logos/LogoAnnotation.jsx:68 | The filter adds no repeated id. |
| `LogoLoader.FindMeta` | src/pages/logos/LogoAnnotation.jsx:75 | `find` returns the first metadata record with the id, or nothing when no record has it. |
| `LogoLoader.MakeLogo` | src/pages/logos/LogoAnnotation.jsx:76-86 | The record for a neighbour has the metadata's id, source image and bounding box, the neighbour's distance, and the cropped-image URL built from the source image's URL and the bounding box. |
| `LogoLoader.Join` | src/pages/logos/LogoAnnotation.jsx:74-87 | Succeeds exactly when every neighbour has metadata. It then gives one record per neighbour, in order, built from that neighbour's distance and first matching metadata. Otherwise it fails on the first neighbour without metadata. |
| `LogoLoader.Loaded` | src/pages/logos/LogoAnnotation.jsx:47-90 | A rejected search fails first. Then a fix-up on an empty response fails. Then a rejected images request fails. Otherwise the result is the join of the fixed-up neighbours not already loaded. |
| `LogoLoader.LoadLogos` | src/pages/logos/LogoAnnotation.jsx:47-90 | The result is the search, fix-up, `seenIds` filter and join, in that order. The loop builds `seenIds` as exactly the ids of the already-loaded entries. |
| `LogoLoader.LoadedRecords` | src/pages/logos/LogoAnnotation.jsx:64-87 | A successful load has one record per fixed-up neighbour not already loaded, in neighbour order. Each record has that neighbour's id and distance. No record's id is already loaded. |
| `LogoLoader.MissingMetadataAborts` | src/pages/logos/LogoAnnotation.jsx:74-76 | A kept neighbour without metadata makes the whole load fail, with no partial result. |
| `LogoLoader.FreshLoadStartsWithTarget` | src/pages/logos/LogoAnnotation.jsx:57-62 | Take a fresh load for target `t` whose first neighbour is not at distance 0. It holds one record more than the search returned, and its first record is `t` at distance 0. |
| `LogoLoader.LoadedDistinct` | src/pages/logos/LogoAnnotation.jsx:57-87 | Take a response with no repeated id whose fix-up, when it fires, adds a target the response does not hold. Then the loaded records have no repeated id either. |
| `LogoLoader.TargetLoadedTwice` | src/pages/logos/LogoAnnotation.jsx:57-61 | A response `[7 at 0.5, 3 at 0.9]` for target 7 has no repeat, yet the load holds two records with id 7: the fix-up adds a target the response already holds. |
| `Selection.FirstIndex` | src/pages/logos/LogoAnnotation.jsx:194 | `findIndex` gives the position of the first entry with the id, or nothing when no entry has it. |
| `Selection.ToggleSelection` | src/pages/logos/LogoAnnotation.jsx:188-212 | A no-op for the reference id or for an id that is not loaded. Otherwise it flips `selected` on exactly the first entry with the id. Length, order and every other entry are unchanged. |
| `Selection.ToggleKeepsLogos` | src/pages/logos/LogoAnnotation.jsx:198-207 | Toggling changes no entry's logo, only the selection flags. |
| `Selection.FirstIndexFollowsIds` | src/pages/logos/LogoAnnotation.jsx:194 | The position `findIndex` finds depends only on the entries' logos, not on their selection. |
| `Selection.ToggleTwice` | src/pages/logos/LogoAnnotation.jsx:188-212 | Toggling the same id twice restores the list. |
| `Selection.SelectAll` | src/pages/logos/LogoAnnotation.jsx:214-219 | Every entry becomes selected. Logos, length and order are unchanged. |
| `Selection.UnselectAll` | src/pages/logos/LogoAnnotation.jsx:221-229 | Exactly the entries whose id is the reference stay selected. Without a reference, nothing is selected. Logos, length and order are unchanged. |
| `Selection.InitialSelection` | src/pages/logos/LogoAnnotation.jsx:163-168 | A fresh load or refresh keeps the loaded logos in order and selects exactly the reference logo. |
| `Selection.ReferenceLogo` | src/pages/logos/LogoAnnotation.jsx:169-172 | The reference logo of a load is the first loaded logo with the reference id. When there is none, it is the empty object. |
| `Selection.SelectionKeepsReferenceLocked` | src/pages/logos/LogoAnnotation.jsx:188-229 | If every loaded reference entry is selected, it stays selected after a toggle, "select all" or "unselect all". |
| `Selection.UnselectAllForgetsSelection` | src/pages/logos/LogoAnnotation.jsx:221-229 | "Unselect all" depends only on the logos, not on their earlier selection. |
| `Selection.PristineSelection` | src/pages/logos/LogoAnnotation.jsx:240-245 | A fresh load selects what "unselect all" would. "Unselect all" undoes any toggle or "select all". |
| `Selection.SelectedIds` | src/pages/logos/LogoAnnotation.jsx:258-260 | An id is among `selectedIds` exactly when some selected entry has it. There are no more ids than entries. |
| `Selection.UnselectAllDisabled` | src/pages/logos/LogoAnnotation.jsx:315-319 | "Unselect all" is disabled exactly when at most one id is selected and every selected id is the reference. |
| `Selection.SelectedIdsAppend` | src/pages/logos/LogoAnnotation.jsx:258-260 | `selectedIds` keeps list order: the selected ids of a concatenation are the concatenation of the parts' selected ids. |
| `Selection.SelectedIdsOfSelectAll` | src/pages/logos/LogoAnnotation.jsx:214-219 | After "select all", `selectedIds` is every id, in list order. |
| `Selection.NoSelectedIds` | src/pages/logos/LogoAnnotation.jsx:258-260 | With no entry selected, `selectedIds` is empty. |
| `Selection.SelectedIdsOfSingle` | src/pages/logos/LogoAnnotation.jsx:258-260 | Suppose ids are unique and exactly the entries with id `x` are selected. Then `selectedIds` is `[x]` when `x` is loaded, and empty otherwise. |
| `Selection.UnselectAllDisabledIffNoop` | src/pages/logos/LogoAnnotation.jsx:315-319 | Suppose ids are unique and the reference is locked. Then "unselect all" is disabled exactly when pressing it would change nothing. |
| `Annotations.Annotate` | src/pages/logos/LogoAnnotation.jsx:98-102 | One annotation per id, in order, each for that id with the form's type and value. |
| `Annotations.RequestBatch` | src/pages/logos/LogoAnnotation.jsx:92-102 | Nothing is dispatched exactly when the data is null or undefined. Otherwise there is one annotation per selected id, in order, each with the form's type and value. |
| `LogoPage.NextAdditional` | src/pages/logos/LogoAnnotation.jsx:123-127 | A request is refused exactly when the new counter would pass 500. An accepted counter grows by the amount asked and stays at most 500. |
| `LogoPage.AsUnselected` | src/pages/logos/LogoAnnotation.jsx:143-146 | Appended logos keep their order and are all unselected. |
| `LogoPage.LoadMoreAsksFor` | src/pages/logos/LogoAnnotation.jsx:124-137 | The `n`-th accepted press, up to the tenth, asks the search for its own count plus `50·n`. The tenth press asks for the count plus 500 (550 for the default count of 50), and later presses are refused. |
| `LogoPage.PressesReachCeiling` | src/pages/logos/LogoAnnotation.jsx:363-369 | Each press of "load more" adds 50 until the counter reaches 500 after ten presses. It then stays there, and from then on a further press is refused (the button is disabled). |
| `LogoPage.LoadMoreKeepsInvariants` | src/pages/logos/LogoAnnotation.jsx:131-148 | Take a "load more" whose response has no repeated id and whose fix-up adds no repeat. Appending it keeps the loaded ids unique. It also keeps the reference locked when the reference is already loaded. |
| `LogoPage.ReferenceArrivesUnselected` | src/pages/logos/LogoAnnotation.jsx:131-148 | A first load for target 7 whose only neighbour is logo 5 at distance 0 locks the reference vacuously. A "load more" then appends logo 7 unselected, the lock no longer holds, and toggling 7 is a no-op. "Unselect all" restores the lock. |
| `LogoPage.DuplicateReferenceEnablesNoopUnselectAll` | src/pages/logos/LogoAnnotation.jsx:315-319 | After the fresh load of `TargetLoadedTwice`, both records of the reference are selected and `selectedIds` is `[7, 7]`. "Unselect all" is enabled, yet pressing it changes nothing. |
| `LogoPage.LogoAnnotationPage.constructor` | src/pages/logos/LogoAnnotation.jsx:112-122 | The page starts in the default logo state (no logos, loading, no reference logo) with a counter of 0. |
| `LogoPage.LogoAnnotationPage.ApplyLoad` | src/pages/logos/LogoAnnotation.jsx:161-178 | A successful load gives the initial selection and the reference logo, and clears loading. A failed one gives the default state, which is still loading. |
| `LogoPage.LogoAnnotationPage.SearchChanged` | src/pages/logos/LogoAnnotation.jsx:153-186 | A new search loads its logos from scratch. The state is then the initial selection, or the default state on failure. The counter is kept. |
| `LogoPage.LogoAnnotationPage.Refresh` | src/pages/logos/LogoAnnotation.jsx:232-256 | Refresh loads the current search from scratch, with the same outcomes as a new search. |
| `LogoPage.LogoAnnotationPage.AddMoreLogos` | src/pages/logos/LogoAnnotation.jsx:123-151 | A request past the cap changes nothing and returns no count. An accepted one returns the count sent to the search, the search's count plus the new counter. A press of 50 while not loading is refused exactly when the button is disabled. Otherwise the counter grows. On success the new logos are appended unselected after the existing ones, which are untouched. On failure the list is kept and the page stays loading. The counter never passes 500. |
| `LogoPage.LogoAnnotationPage.ToggleSelection` | src/pages/logos/LogoAnnotation.jsx:188-212 | Applies `toggleSelection` with the page's reference id. Nothing else changes. |
| `LogoPage.LogoAnnotationPage.SelectAll` | src/pages/logos/LogoAnnotation.jsx:214-219 | Applies `selectAll`. Nothing else changes. |
| `LogoPage.LogoAnnotationPage.UnselectAll` | src/pages/logos/LogoAnnotation.jsx:221-229 | Applies `unselectAll` with the page's reference id. Nothing else changes. |
| `LogoPage.LogoAnnotationPage.LoadMoreDisabled` | src/pages/logos/LogoAnnotation.jsx:366 | "Load more" is disabled exactly while loading or once the counter is past 450. |
| `LogoPage.LogoAnnotationPage.SelectedIds` | src/pages/logos/LogoAnnotation.jsx:258-260 | An id is among the page's `selectedIds` exactly when some selected entry of the page has it. |
| `LogoPage.LogoAnnotationPage.UnselectAllDisabled` | src/pages/logos/LogoAnnotation.jsx:315-319 | The page's "unselect all" is disabled exactly when at most one id is selected and it is the reference. |
| `LogoPage.LogoAnnotationPage.LoadMoreDisabledAfterPresses` | src/pages/logos/LogoAnnotation.jsx:363-369 | After `n` presses from a fresh page, "load more" is disabled exactly while loading or from the tenth press on. |
| `LogoPage.LogoAnnotationPage.UnselectAllDisabledWhenNothingToReset` | src/pages/logos/LogoAnnotation.jsx:315-319 | With unique ids and the reference locked, the page's "unselect all" is disabled exactly when pressing it would leave the logos as they are. |
| `LogoPage.LogoAnnotationPage.Submit` | src/pages/logos/LogoAnnotation.jsx:293-304 | Dispatches the batch for the current `selectedIds`. Unless the annotation call fails, the selection is then reset to the reference logo. Nothing else changes. |

## Left out

- Rendering, styling, translated text, the router link and the back-to-top button: these are presentation only.
- The remote calls (`getLogoAnnotations`, `getLogosImages`, `annotateLogos`). Their responses and outcomes are parameters. The `index` of a search reaches only the neighbour search, so the model does not carry it into the loader. The count it is asked for is returned by `AddMoreLogos`, not passed to the loader.
- `getCroppedImageUrl` and `getImageUrl` are uninterpreted function values.
- `URLSearchParams.toString()` is left out: its percent-encoding is not modelled. The writer returns the list of pairs.
- Reading the search parameters from the URL (the `useUrlParams` hook) is not part of this model, so no round trip through the URL is stated.
- `logo_id` is modelled as an optional integer. A `logo_id` that is not the canonical decimal form of an integer (`"042"`, `"abc"`) is not modelled. For such values, `parseInt` and the comparison with `id.toString()` would disagree.
- Distances are real numbers compared with 0. Floating point, `NaN` and `-0` are not modelled. A `NaN` number in the search state is not modelled either.
- React's hook mechanics, the `isValid` token that discards the results of a stale load, and any interleaving of concurrent loads are left out. Every operation runs to completion, one after another.
- The development-mode branch of `request` (log and sleep instead of dispatching), the `isRefreshing` flag and the stray expression at lines 262-264 are left out.
- LoadedDistinct: promises distinct ids only for a response whose fix-up adds no repeat. The code does not ensure that, and `TargetLoadedTwice` shows the repeat.
- UnselectAllDisabledIffNoop: promises that the disabled rule matches a no-op reset only when ids are unique. The code does not ensure that, and `DuplicateReferenceEnablesNoopUnselectAll` shows the mismatch.
- LoadMoreKeepsInvariants: promises the reference lock only when the reference is already loaded. The code does not ensure that, and `ReferenceArrivesUnselected` shows the lock lost.
- The prefill of the annotation form from the reference logo's `annotation_type`/`annotation_value` is left out: it is form presentation. Metadata fields other than the id, source image and bounding box are not carried.
