# highlight-buddy: the highlight store

A Dafny model of `HighlightManager` from highlight-buddy, an editor extension that marks
spans of text with coloured, semi-transparent highlights and keeps them across sessions.

The model covers the manager's in-memory store. That store maps each document key to the
document's highlights, keyed by id. Each highlight (a *decoration*) has an id, a range of
(line, character) positions, one of four colours (red, blue, green, purple) and an opacity.

The modules are:

- `Positions`: positions ordered by line, then character. Ranges are rebuilt by the host's
  range constructor, which puts the earlier end first. Selections have an anchor and a
  cursor. `RangesOverlap` is the closed-interval overlap test.
- `Decorations`: the data model and the toggle-style `highlight` as functions of the
  document's highlights before the call (`Toggle`, `RemoveOverlapping`, `AddAll`), with
  their laws. It also holds the three loops of `highlight` as methods proved against those
  functions, and the stand-in for the random id generator.
- `Persistence`: the save projection to plain `{line, character}` records and the restore
  that rebuilds ranges from them, with both round trips.
- `Rendering`: the colour table, the style key (colour, opacity), and the loop that buckets
  ranges by style key, proved to partition the highlights. It also holds the lookup of
  decoration types that the finding below is about.
- `Manager`: the class `HighlightManager`. Its fields are the store, `lastColor` and
  `lastOpacity`. Its methods update them in place: the restoring constructor,
  `GetOrCreateEditorDecorations`, `Highlight`, `UpdateEditorDecorations`,
  `ClearAllHighlights`, `SaveDecorations` and the colour/opacity setters. A client method,
  `HighlightTwiceScenario`, walks through highlighting one line and then toggling it off.

Where the design description and the code disagree, the model follows the code:

- The code's overlap test counts both ends of a range (src/extension.ts:87-89). Ranges that
  only touch therefore overlap, although the design describes half-open spans where
  touching is allowed.
- `highlight` widens an empty selection to its whole line itself (src/extension.ts:126-133).
- Restoring does not skip malformed saved entries. A saved entry without a `range` or
  without its `start` or `end` makes the constructor throw. An entry without an `id`,
  `color` or `opacity` is restored with that field undefined (src/extension.ts:29-35). The
  model's saved records are typed, so they cannot be malformed.
- The design promises that no two highlights of a document overlap after any change. The
  code breaks this. Two cursors on the same line both widen to that whole line
  (src/extension.ts:127-130). Over a line without highlights both ranges are added, as two
  highlights with the same range (src/extension.ts:157-165). The model proves both sides.
  `ToggleKeepsDisjoint` shows the promise holds when the effective selections do not
  overlap one another. `TwoCursorsOnOneLineOverlap` shows the two-cursor case breaks it.
- Removing at a position, recolouring with splits, lookup by position and clearing every
  document are described in the design but do not exist in this code.

## Model

| member | source | states |
|---|---|---|
| Positions.IsBeforeIsStrictTotalOrder | src/extension.ts:88 | `isBefore` (line first, then character) is irreflexive, asymmetric, transitive and total |
| Positions.MakeRange | src/extension.ts:32-35 | building a range from two positions yields a well-formed range with those two ends, kept in place when already ordered |
| Positions.LineRange | src/extension.ts:129-130 | a line's range starts at character 0 and ends at the line's length, on that line |
| Positions.Selection.AsRange | src/extension.ts:161 | a selection's range is well-formed and has the anchor and the cursor as its ends |
| Positions.IsEmptyIffCursorOnAnchor | src/extension.ts:127 | a selection is empty exactly when the cursor sits on the anchor |
| Positions.RangesOverlap | src/extension.ts:87-89 | `rangesOverlap`: neither range ends before the other starts, both ends included |
| Positions.RangesOverlapSymmetric | src/extension.ts:87-89 | `rangesOverlap(a, b) == rangesOverlap(b, a)` |
| Positions.TouchingRangesOverlap | src/extension.ts:87-89 | two ranges where one ends where the other starts are reported as overlapping |
| Positions.RangeOverlapsItself | src/extension.ts:87-89 | a well-formed range overlaps itself |
| Positions.RangesOverlapIffSharedPosition | src/extension.ts:87-89 | for well-formed ranges the test holds exactly when some position lies in both ranges (the later start is one) |
| Wrappers.Option.GetOr | src/extension.ts:21-22 | a stored value is used when present, the default otherwise |
| Decorations.EffectiveRange | src/extension.ts:126-133 | a non-empty selection is kept; an empty one becomes its cursor line's whole range; the result is well-formed |
| Decorations.EffectiveSelections | src/extension.ts:126-137 | one effective range per selection, so only an empty selection list hits the early return; all are well-formed |
| Decorations.OverlappingIds | src/extension.ts:140-148 | the ids collected are exactly the stored ids whose range some effective selection overlaps |
| Decorations.RemoveOverlapping | src/extension.ts:150-153 | the highlights left once every hit one is deleted |
| Decorations.AddAll | src/extension.ts:155-166 | the highlights after one new entry per effective selection is added, in order, under the matching id |
| Decorations.Toggle | src/extension.ts:139-166 | what `highlight` leaves: the hit highlights removed if there were any, otherwise one new highlight per effective selection |
| Decorations.RemoveOverlappingSpec | src/extension.ts:150-153 | removal drops exactly the hit ids, the size shrinks by their number, survivors are unchanged |
| Decorations.AddAllKeys | src/extension.ts:156-166 | adding under fresh ids yields exactly the old ids plus the new ones, one more entry per selection |
| Decorations.AddAllKeepsOld | src/extension.ts:156-166 | adding leaves each earlier highlight unchanged |
| Decorations.AddAllNew | src/extension.ts:157-165 | the i-th new id holds the i-th selection's range with the given colour and opacity |
| Decorations.AddAllSpec | src/extension.ts:155-166 | the adding step in full: keys, size, earlier entries unchanged, new entries as built |
| Decorations.ToggleTurnsOff | src/extension.ts:140-166 | if some highlight is hit, every hit one is gone, no key is added, the size shrinks by the number hit |
| Decorations.ToggleTurnsOn | src/extension.ts:155-166 | if none is hit, exactly one entry per effective selection is added with its start, end, `lastColor` and `lastOpacity`, and all earlier entries are unchanged |
| Decorations.ToggleKeepsUntouched | src/extension.ts:143-153 | a highlight no effective selection overlaps keeps its id, range, colour and opacity, whichever branch is taken |
| Decorations.ToggleWithoutSelections | src/extension.ts:135-137 | with no selections nothing overlaps and the highlights are unchanged |
| Decorations.ToggleKeepsInvariants | src/extension.ts:158-164 | every range stays well-formed and every highlight stays filed under its own id |
| Decorations.ToggleTwice | src/extension.ts:122-166 | highlighting the same non-empty selections twice over unhighlighted text removes exactly the ids the first call added and restores the document |
| Decorations.ToggleKeepsDisjoint | src/extension.ts:139-166 | if no two highlights overlap and no two effective selections overlap, no two highlights overlap afterwards |
| Decorations.TwoCursorsOnOneLineOverlap | src/extension.ts:126-133 | two cursors on one line over an unhighlighted document yield two overlapping highlights, so the design's no-overlap promise does not hold as written |
| Decorations.FindOverlapping | src/extension.ts:139-148 | the first loop collects exactly the overlapping ids, and `hasExistingHighlight` is set exactly when there is one |
| Decorations.RemoveAll | src/extension.ts:150-153 | the deletion loop removes exactly the collected ids and leaves every other entry unchanged |
| Decorations.AddHighlights | src/extension.ts:155-166 | the adding loop draws pairwise distinct unused ids and builds the added entries that `AddAll` describes |
| Decorations.GenerateId | src/extension.ts:71-73 | the id stand-in returns an id that is not already in use |
| Persistence.DecorationFromRecord | src/extension.ts:30-36 | a restored highlight keeps the saved id, colour and opacity, and its rebuilt range is well-formed |
| Persistence.DecorationToRecord | src/extension.ts:96-102 | a saved highlight keeps the id, colour and opacity, and both range ends as plain records |
| Persistence.DocumentToRecord | src/extension.ts:95-103 | a saved document has exactly the ids of the document |
| Persistence.DocumentFromRecord | src/extension.ts:28-37 | a restored document has exactly the saved ids, all with well-formed ranges |
| Persistence.StoreToRecord | src/extension.ts:92-104 | the saved store has exactly the store's document keys |
| Persistence.StoreFromRecord | src/extension.ts:26-39 | the restored store has exactly the saved document keys, all with well-formed ranges |
| Persistence.DecorationRoundTrip | src/extension.ts:96-102 | one highlight survives save then restore unchanged |
| Persistence.RestoreAfterSave | src/extension.ts:92-104 | restoring the saved projection reproduces every document key, id, range end, colour and opacity |
| Persistence.SaveAfterRestore | src/extension.ts:26-39 | saving the restored store reproduces saved records whose ranges are ordered |
| Persistence.RestoreSwapsUnorderedEnds | src/extension.ts:32-35 | a saved range whose ends are out of order comes back swapped, so the other round trip needs ordered records |
| Persistence.SaveDocument | src/extension.ts:95-103 | the inner save loop yields the document's projection |
| Persistence.RestoreDocument | src/extension.ts:29-37 | the inner restore loop yields the restored document |
| Persistence.SaveStore | src/extension.ts:92-104 | the outer save loop yields the projection of the whole store |
| Persistence.RestoreStore | src/extension.ts:26-39 | the outer restore loop yields the restore of every saved document |
| Rendering.ColorRGB | src/extension.ts:58-65 | each colour's components are within 0..255 |
| Rendering.ColorRGBInjective | src/extension.ts:58-65 | distinct colours get distinct components |
| Rendering.DecorationKey | src/extension.ts:67-69 | the style key holds exactly the colour and the opacity |
| Rendering.DecorationKeyInjective | src/extension.ts:67-69 | two style keys are equal exactly when colour and opacity are |
| Rendering.GroupRanges | src/extension.ts:180-186 | the groups after visiting the highlights in order: an empty group is created the first time a key is seen, then the range is pushed onto it |
| Rendering.GroupRangesContents | src/extension.ts:180-186 | a key has a group exactly when some highlight has that colour and opacity, and the group holds, in visiting order, the ranges of exactly those highlights |
| Rendering.GroupsAreNonEmpty | src/extension.ts:182-185 | no group is empty |
| Rendering.GroupRangesTotal | src/extension.ts:180-186 | the group sizes add up to the number of highlights visited |
| Rendering.RangeInOwnGroup | src/extension.ts:180-186 | each highlight's range lands in the group of its own `color-opacity` key |
| Rendering.GroupRangesAppend | src/extension.ts:180-186 | visiting one more highlight creates its key's group if absent and pushes its range onto it |
| Rendering.GroupByStyle | src/extension.ts:174-186 | the grouping loop visits every highlight once and yields the grouping of that visit, whose sizes add up to the highlight count |
| Rendering.HasDecorationType | src/extension.ts:42-56 | a decoration type exists for every colour at the ten opacities 0.1 to 1.0 and no other |
| Rendering.PaintedGroups | src/extension.ts:188-193 | as written, a group is painted only if a decoration type exists for its exact key |
| Rendering.UnbucketedOpacityIsNotPainted | src/extension.ts:188-193 | a highlight at opacity 0.55 is grouped but never painted |
| Rendering.BucketKey | src/extension.ts:42-56 | corrected lookup key: it always has a decoration type, keeps the colour and any opacity already on a bucket, and its opacity is no farther from the highlight's opacity than any of the ten buckets |
| Manager.WithDocument | src/extension.ts:79-85 | the document gets an entry; an empty one is inserted only when the key is absent |
| Manager.WithDocumentIdempotent | src/extension.ts:79-85 | getting or creating a document's entry twice changes nothing more |
| Manager.WithDocumentKeepsOthers | src/extension.ts:79-85 | no other document's entry is added, removed or altered |
| Manager.ClearedStoreSavesWithoutDocument | src/extension.ts:196-204 | after clearing, the save drops that document and saves every other one as before |
| Manager.HighlightManager.constructor | src/extension.ts:19-40 | colour and opacity come from storage, falling back to blue and 0.8; the store is the restore of the saved records |
| Manager.HighlightManager.SetLastColor | src/extension.ts:108-111 | only `lastColor` changes, to the given colour |
| Manager.HighlightManager.GetLastColor | src/extension.ts:113-115 | returns `lastColor` |
| Manager.HighlightManager.SetLastOpacity | src/extension.ts:117-120 | only `lastOpacity` changes, to the given opacity |
| Manager.HighlightManager.GetOrCreateEditorDecorations | src/extension.ts:79-85 | returns the document's highlights (none if new); the store gains an empty entry only if the key was absent |
| Manager.HighlightManager.Highlight | src/extension.ts:122-170 | only the document's entry changes (created if absent, even with no selections); it becomes the toggle of its old highlights over the effective selections, with fresh ids when adding |
| Manager.HighlightManager.UpdateEditorDecorations | src/extension.ts:172-194 | creates the document's entry if absent and returns its highlights' ranges grouped by style key |
| Manager.HighlightManager.ClearAllHighlights | src/extension.ts:196-205 | only the active document's key is removed |
| Manager.HighlightManager.SaveDecorations | src/extension.ts:91-106 | the saved records are the projection of the whole store, and restoring them gives back the store |

## Findings

| source | as written | input that shows it | evidently intended | confidence | as-written member | corrected member |
|---|---|---|---|---|---|---|
| src/extension.ts:188-193 | a group is painted only if a decoration type exists for its exact `color-opacity` key. Types exist only for opacities 0.1 to 1.0 in steps of 0.1 (src/extension.ts:42-56). The opacity prompt accepts any number in [0, 1] (src/extension.ts:268-278) | highlight with opacity 0.55: the highlight is stored and saved but never painted | look up the decoration type of the opacity rounded to the nearest bucket | medium, not executed | Rendering.UnbucketedOpacityIsNotPainted | Rendering.BucketKey |

## Left out

- The editor host's API is not modelled. This covers creating decoration types, `setDecorations`, command registration in `activate`, and the listeners that repaint on editor or text changes. `UpdateEditorDecorations` returns every group it builds, before the lookup of decoration types drops those without one (`PaintedGroups`). Each line's length, which `lineAt` provides, is a function parameter.
- Reading and writing `globalState` is asynchronous, fire-and-forget I/O and is not modelled. The constructor takes the loaded colour, opacity and saved records as parameters. `SaveDecorations` returns the records that would be written. The setters do not model their storage writes.
- `ColorRGB` and `DecorationKeyInjective` document the abstraction rather than behaviour. The colour table is used only when decoration types are created, which is not modelled. The style key is a pair, standing in for the `color-opacity` string.
- `getEditorKey` (the document URI as a string) is not modelled. Operations take the document key as a string.
- Manager.HighlightManager.Highlight: ids come from `GenerateId`, which always returns an unused id. The source uses a random token. That token may collide with an id in use and overwrite it, and it may be empty. The model does not capture this. The ids added are a ghost result; the source returns nothing.
- Opacity is a real number. Floating-point representation, the `parseFloat` check of the opacity prompt, and the `color-opacity` key string are not modelled; the key is the pair of colour and opacity.
- Each document's map is a value in the outer map. The source shares one `Map` object between the store and the caller of `getOrCreateEditorDecorations`; that aliasing is not modelled.
- `Map` iteration order is insertion order in the source. The model's loops visit keys in an unspecified order. `GroupByStyle` returns the order it used as a ghost result, and the ranges within each group follow that order.
- The saved records are typed. A saved entry without `range`, `start` or `end` makes the source throw, and one without `id`, `color` or `opacity` is restored with that field undefined; the model can express neither.
