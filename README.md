# sswaystones core in Dafny

This project models three parts of the sswaystones server mod and proves properties of them.

- **Favourites** (`storage.dfy`, module `Storage`). A player's data holds the waystones they have discovered and an ordered list of favourite waystone hashes. The list is capped at 45 entries, one page of the viewer. `PlayerData` is a class whose `ToggleFavorite` changes its favourites list in place. Its behaviour is specified by the pure function `Toggle`.
- **The waystone viewer** (`gui.dfy`, module `Gui`). The viewer does the following:
  - it splits the accessible waystones into favourites and the rest, keeping their order;
  - it counts the pages, with page 0 reserved for the favourites when there are any;
  - it fills the 45 waystone slots of the current page;
  - its navigation wraps round;
  - a shift-click toggles a favourite and moves the waystone between the two lists;
  - any other click teleports, except on the waystone the viewer was opened from;
  - it shows a "claim" option to managers.

  The access-settings menu offers the global, team and server toggles the player is allowed. `JavaViewerGui` and `AccessSettingsGui` are classes whose fields the methods update. The page arithmetic is stated by the functions `PageCount`, `Page` and `Window`.
- **The web-map integration** (`integration.dfy`, module `Integration`). It covers the following:
  - HTML escaping of tooltip text;
  - the marker each global or server-owned waystone gets in the layer of its world;
  - the `initialized` / server lifecycle guards.

  `SquaremapIntegration` is a class over the integration's static state.

Shared pieces:
- `sequences.dfy` models the `ArrayList` operations the code relies on: `indexOf` and `remove(Object)`, which removes the first occurrence.
- `waystones.dfy` holds the parts of a waystone record that the core reads.
- `wrappers.dfy` holds `Option`.

## Model

| member | source | states |
|---|---|---|
| Sequences.RemoveFirst | src/main/java/lol/sylvie/sswaystones/storage/PlayerData.java:45 | removing an element takes exactly one copy of it out when present (length drops by one, multiset loses one occurrence) and changes nothing otherwise |
| Sequences.RemoveFirstAt | src/main/java/lol/sylvie/sswaystones/storage/PlayerData.java:44-46 | removing `x` whose first occurrence is at `k` is cutting index `k` out: every other entry keeps its relative order |
| Sequences.RemoveFirstNoDuplicates | src/main/java/lol/sylvie/sswaystones/storage/PlayerData.java:44-46 | on a duplicate-free list no copy of the removed element is left and the result is duplicate-free |
| Sequences.RemoveFirstKeepsOthers | src/main/java/lol/sylvie/sswaystones/storage/PlayerData.java:45 | removal does not change whether any other element is present |
| Sequences.RemoveFirstOfAppended | src/main/java/lol/sylvie/sswaystones/storage/PlayerData.java:45-48 | appending an absent element and removing it again restores the list |
| Sequences.IndexOf | src/main/java/lol/sylvie/sswaystones/storage/PlayerData.java:39-41 | the loop returns the first index holding `x`, or -1 exactly when `x` is absent (membership, as `contains`) |
| Sequences.Remove | src/main/java/lol/sylvie/sswaystones/gui/JavaViewerGui.java:272 | reports whether `x` was present and returns the list without its first occurrence |
| Storage.Toggle | src/main/java/lol/sylvie/sswaystones/storage/PlayerData.java:43-52 | the toggle reports an addition exactly when the hash was absent and there was room; the multiset loses the hash if present and gains it if added; an absent hash with the list full leaves the list as it was and reports `false` |
| Storage.CanAdd | src/main/java/lol/sylvie/sswaystones/storage/PlayerData.java:47-55 | room for one more favourite: fewer than `MAX_FAVORITES` (45) entries |
| Storage.ToggleRemoves | src/main/java/lol/sylvie/sswaystones/storage/PlayerData.java:44-46 | a present hash first found at `k` is cut out at `k`, the others keep their order, and the result is `false` |
| Storage.ToggleKeepsWellFormed | src/main/java/lol/sylvie/sswaystones/storage/PlayerData.java:43-52 | a list of at most 45 distinct hashes stays so after a toggle |
| Storage.ToggleAllKeepsWellFormed | src/main/java/lol/sylvie/sswaystones/storage/PlayerData.java:43-52 | the same after any sequence of toggles |
| Storage.ToggleTwiceAbsent | src/main/java/lol/sylvie/sswaystones/storage/PlayerData.java:47-49 | an absent hash with room is appended (`true`), and toggling it again restores the original list |
| Storage.ToggleTwicePresent | src/main/java/lol/sylvie/sswaystones/storage/PlayerData.java:43-52 | a present hash at position `k` toggled twice ends up at the end of the list, not back at `k` |
| Storage.ToggleFlipsFavorite | src/main/java/lol/sylvie/sswaystones/storage/PlayerData.java:39-52 | on a duplicate-free list a toggle that is not rejected flips membership; one rejected because the list is full changes nothing and returns `false` |
| Storage.PlayerData.constructor | src/main/java/lol/sylvie/sswaystones/storage/PlayerData.java:18-20 | a new player has no discovered waystones and no favourites |
| Storage.PlayerData.WithDiscovered | src/main/java/lol/sylvie/sswaystones/storage/PlayerData.java:22-24 | data from a discovered list has no favourites |
| Storage.PlayerData.WithLists | src/main/java/lol/sylvie/sswaystones/storage/PlayerData.java:26-29 | both lists are copied |
| Storage.PlayerData.Encode | src/main/java/lol/sylvie/sswaystones/storage/PlayerData.java:58-62 | the saved form carries the discovered list, and decodes back to the same favourites; the favourites field is written exactly when the list is not empty, since a field equal to its empty-list default is left out |
| Storage.PlayerData.IsFavorite | src/main/java/lol/sylvie/sswaystones/storage/PlayerData.java:39-41 | `isFavorite` is list membership |
| Storage.PlayerData.CanAddFavorite | src/main/java/lol/sylvie/sswaystones/storage/PlayerData.java:54-56 | true exactly when fewer than 45 favourites are stored |
| Storage.PlayerData.ToggleFavorite | src/main/java/lol/sylvie/sswaystones/storage/PlayerData.java:43-52 | the new favourites list and the result are those of `Toggle` on the old list, and a well-formed list stays well formed |
| Storage.Decode | src/main/java/lol/sylvie/sswaystones/storage/PlayerData.java:58-62 | decoding copies the discovered list; a missing favourites field gives no favourites; encoding the result gives the saved data back exactly when it did not spell out an empty favourites field |
| Storage.FavoritesOf | src/main/java/lol/sylvie/sswaystones/storage/PlayerData.java:60 | the favourites a saved form decodes to: the field, or the empty list when it is missing |
| Gui.Select | src/main/java/lol/sylvie/sswaystones/gui/JavaViewerGui.java:53-59 | selecting never yields more waystones than were accessible |
| Gui.SelectAppend | src/main/java/lol/sylvie/sswaystones/gui/JavaViewerGui.java:53-59 | the split keeps the accessible order: selecting from a concatenation is concatenating the selections |
| Gui.SelectMembers | src/main/java/lol/sylvie/sswaystones/gui/JavaViewerGui.java:53-59 | a waystone is in the favourites (non-favourites) list exactly when it is accessible and its hash is (is not) a favourite |
| Gui.SelectPartitions | src/main/java/lol/sylvie/sswaystones/gui/JavaViewerGui.java:53-59 | favourites followed by non-favourites is a permutation of the accessible list |
| Gui.SelectSplits | src/main/java/lol/sylvie/sswaystones/gui/JavaViewerGui.java:53-59 | every listed favourite has a favourite hash and every other listed waystone does not |
| Gui.SelectKeepsDistinct | src/main/java/lol/sylvie/sswaystones/gui/JavaViewerGui.java:53-59 | a split of waystones with distinct hashes has distinct hashes |
| Gui.FavoritesFitOnePage | src/main/java/lol/sylvie/sswaystones/storage/PlayerData.java:13 | with at most 45 distinct favourite hashes and accessible waystones of distinct hashes, at most 45 waystones are favourites and page 0 shows all of them |
| Gui.Partition | src/main/java/lol/sylvie/sswaystones/gui/JavaViewerGui.java:50-59 | the constructor's loop builds exactly the favourites and non-favourites selections |
| Gui.RegularPagesFit | src/main/java/lol/sylvie/sswaystones/gui/JavaViewerGui.java:65-66 | `max(ceilDiv(total, 45), 1)` pages hold all waystones and one page fewer would not, unless there are none |
| Gui.PageCount | src/main/java/lol/sylvie/sswaystones/gui/JavaViewerGui.java:63-67 | there is always at least one page, and at least two when there are favourites |
| Gui.Page | src/main/java/lol/sylvie/sswaystones/gui/JavaViewerGui.java:90-108 | no page shows more than 45 waystones; the favourites page shows the first 45 favourites (all of them when there are at most 45) |
| Gui.Offset | src/main/java/lol/sylvie/sswaystones/gui/JavaViewerGui.java:97-102 | the offset of a regular page is a multiple of 45, and `PageOf` of it gives back the page index: the page starting there is the page asked for |
| Gui.Window | src/main/java/lol/sylvie/sswaystones/gui/JavaViewerGui.java:104-108 | the window holds `min(45, size - offset)` waystones (none past the end), and its `s`-th is the list's `offset + s`-th |
| Gui.EveryWaystoneListed | src/main/java/lol/sylvie/sswaystones/gui/JavaViewerGui.java:97-108 | the `i`-th waystone of the regular list is on a regular page within the page count, at slot `i mod 45` |
| Gui.NoEmptyRegularPage | src/main/java/lol/sylvie/sswaystones/gui/JavaViewerGui.java:63-67 | no regular page within the count is empty unless there is nothing to show |
| Gui.NavigationWraps | src/main/java/lol/sylvie/sswaystones/gui/JavaViewerGui.java:162-178 | next and previous stay in `[0, maxPages)`, are `+1` and `-1` modulo the page count, and undo each other |
| Gui.NextIndex | src/main/java/lol/sylvie/sswaystones/gui/JavaViewerGui.java:171-176 | from a page in range the next index is in range, and it is 0 exactly when leaving the last page |
| Gui.PreviousIndex | src/main/java/lol/sylvie/sswaystones/gui/JavaViewerGui.java:162-167 | from a page in range the previous index is in range, and it is the last page exactly when leaving page 0 |
| Gui.AdvanceWraps | src/main/java/lol/sylvie/sswaystones/gui/JavaViewerGui.java:171-178 | pressing "next" `n` times moves `n` pages round the circle, and a full round comes back to the start |
| Gui.MoveOnShiftClick | src/main/java/lol/sylvie/sswaystones/gui/JavaViewerGui.java:269-283 | a favourite goes to the front of the non-favourites, a non-favourite with room to the end of the favourites, no waystone is lost or doubled, and with no room nothing moves |
| Gui.UnfavoriteKeepsSplit | src/main/java/lol/sylvie/sswaystones/gui/JavaViewerGui.java:269-273 | unmarking a listed favourite moves it to the front of the non-favourites, and the lists stay split by the favourites left |
| Gui.FavoriteKeepsSplit | src/main/java/lol/sylvie/sswaystones/gui/JavaViewerGui.java:274-278 | marking a listed non-favourite moves it to the end of the favourites, and the lists stay split by the favourites with its hash appended |
| Gui.ShiftClickKeepsSplit | src/main/java/lol/sylvie/sswaystones/gui/JavaViewerGui.java:263-283 | after a shift-click the two lists are again split by the player's toggled favourites, and no waystone is lost or duplicated |
| Gui.Teleports | src/main/java/lol/sylvie/sswaystones/gui/JavaViewerGui.java:287-293 | a plain click teleports unless the viewer was opened from a waystone with the clicked waystone's hash |
| Gui.ClaimOffered | src/main/java/lol/sylvie/sswaystones/gui/JavaViewerGui.java:134-136 | the claim option: the player may edit, holds the manager permission, and is not the owner |
| Gui.FillPage | src/main/java/lol/sylvie/sswaystones/gui/JavaViewerGui.java:104-113 | the slot loop puts the `s`-th waystone of the page window in slot `s`, and nothing else |
| Gui.JavaViewerGui.constructor | src/main/java/lol/sylvie/sswaystones/gui/JavaViewerGui.java:39-70 | the viewer opens on page 0 with the split lists, the favourites page exactly when there are favourites, the page count of `PageCount`, and a menu showing that page |
| Gui.JavaViewerGui.UpdateMenu | src/main/java/lol/sylvie/sswaystones/gui/JavaViewerGui.java:72-160 | the title carries the "★" or page-number label and the page count; the slots show the current page; claim appears only for an editor with the manager permission who does not own the waystone; the settings options appear for any editor |
| Gui.JavaViewerGui.PreviousPage | src/main/java/lol/sylvie/sswaystones/gui/JavaViewerGui.java:162-169 | the page index moves back one, from 0 to the last page, and the menu shows the new page |
| Gui.JavaViewerGui.NextPage | src/main/java/lol/sylvie/sswaystones/gui/JavaViewerGui.java:171-178 | the page index moves on one, from the last page to 0, and the menu shows the new page |
| Gui.JavaViewerGui.AllAccessible | src/main/java/lol/sylvie/sswaystones/gui/JavaViewerGui.java:180-185 | all accessible waystones are the favourites together with the rest |
| Gui.JavaViewerGui.Claim | src/main/java/lol/sylvie/sswaystones/gui/JavaViewerGui.java:137-142 | claiming makes the player the owner, and the redrawn menu no longer offers the claim |
| Gui.JavaViewerGui.ClickRecord | src/main/java/lol/sylvie/sswaystones/gui/JavaViewerGui.java:263-294 | a shift-click on a favourite toggles it and moves the waystone to the front of the non-favourites; on a non-favourite with room it toggles it and moves it to the end of the favourites; with no room nothing changes and the "favourites full" outcome results; a plain click teleports unless the waystone is the one the viewer was opened from, and changes no list |
| Gui.OfferedToggles | src/main/java/lol/sylvie/sswaystones/gui/JavaViewerGui.java:393-442 | the global toggle is offered exactly with its permission, the server toggle exactly with its permission, and the team toggle, with the player's team name, only for a player in a team with the team permission |
| Gui.SettingsLayout | src/main/java/lol/sylvie/sswaystones/gui/JavaViewerGui.java:394-455 | the `i`-th offered toggle sits in slot `10 + i` and no other slot is used; with none offered, only the back button at slot 13 |
| Gui.Apply | src/main/java/lol/sylvie/sswaystones/gui/JavaViewerGui.java:403-439 | the global toggle flips only the global flag, the server toggle only the server flag, and the team toggle only the team, which ends up set exactly when it was not set before (and the player's team name is not empty) |
| Gui.FlagTogglesUndo | src/main/java/lol/sylvie/sswaystones/gui/JavaViewerGui.java:403-439 | the global and server toggles negate their flags, so pressing one twice restores the settings |
| Gui.TeamToggleTwice | src/main/java/lol/sylvie/sswaystones/gui/JavaViewerGui.java:420-423 | the team toggle pressed twice restores the settings exactly when no team was set or the set team is the player's own |
| Gui.AccessSettingsGui.constructor | src/main/java/lol/sylvie/sswaystones/gui/JavaViewerGui.java:373-379 | the menu opens on the waystone's settings with the offered toggles laid out |
| Gui.AccessSettingsGui.UpdateMenu | src/main/java/lol/sylvie/sswaystones/gui/JavaViewerGui.java:381-456 | offered toggles fill consecutive slots from 10; with none offered a back button sits at slot 13 |
| Gui.AccessSettingsGui.Click | src/main/java/lol/sylvie/sswaystones/gui/JavaViewerGui.java:403-454 | a toggle changes the settings as `Apply` says and redraws the menu; the back button closes the menu and changes neither the settings nor the slots |
| Integration.EscapeChar | src/main/java/lol/sylvie/sswaystones/integration/SquaremapIntegration.java:226-227 | each of the five special characters becomes a longer entity; any other character is copied |
| Integration.EscapeEach | src/main/java/lol/sylvie/sswaystones/integration/SquaremapIntegration.java:226-227 | the escaped text has no `<`, `>`, `"` or `'`, is never shorter than the input, and is exactly as long when, and only when, the input has no special character |
| Integration.EscapeHtml | src/main/java/lol/sylvie/sswaystones/integration/SquaremapIntegration.java:223-228 | `null` gives the empty string; otherwise the result is the per-character escape |
| Integration.ReplaceAllIsPerCharacter | src/main/java/lol/sylvie/sswaystones/integration/SquaremapIntegration.java:226-227 | the chain of replacements, `&` first, equals escaping each character on its own: entities written by a later step are never escaped again |
| Integration.ReplaceAllAppend | src/main/java/lol/sylvie/sswaystones/integration/SquaremapIntegration.java:226-227 | the replacement chain distributes over concatenation |
| Integration.ReplaceAllOne | src/main/java/lol/sylvie/sswaystones/integration/SquaremapIntegration.java:226-227 | on a single character the replacement chain gives that character's entity |
| Integration.ReplaceAll | src/main/java/lol/sylvie/sswaystones/integration/SquaremapIntegration.java:226-227 | the five `replace` calls in the source's order, `&` first; `ReplaceAllIsPerCharacter` states what they come to |
| Integration.MarkerPlacement | src/main/java/lol/sylvie/sswaystones/integration/SquaremapIntegration.java:165-216 | after an update a waystone has a marker exactly when it is global or server-owned and its world has a layer; the marker is keyed by its storage key and placed at its x and z, with the server or player icon, title colour, escaped name and escaped owner line |
| Integration.TooltipsCarryNoMarkup | src/main/java/lol/sylvie/sswaystones/integration/SquaremapIntegration.java:195-207 | the name and owner line put in a tooltip contain no `<`, `>`, `"` or `'` |
| Integration.ShownOnMap | src/main/java/lol/sylvie/sswaystones/integration/SquaremapIntegration.java:174-177 | only global or server-owned waystones are drawn |
| Integration.MarkerFor | src/main/java/lol/sylvie/sswaystones/integration/SquaremapIntegration.java:188-216 | the marker sits at the waystone's x and z with the icon size; it has the server icon exactly for a server-owned waystone; its title is the escaped name, and neither tooltip text holds `<` or `>` |
| Integration.LayerMarkers | src/main/java/lol/sylvie/sswaystones/integration/SquaremapIntegration.java:171-216 | one world's markers after an update: a marker for each shown waystone of that world, keyed by its storage key |
| Integration.Rebuilt | src/main/java/lol/sylvie/sswaystones/integration/SquaremapIntegration.java:165-217 | every layer after an update, for exactly the worlds that have a layer |
| Integration.SquaremapIntegration.constructor | src/main/java/lol/sylvie/sswaystones/integration/SquaremapIntegration.java:32-34 | the integration starts not running, with no server and no layers |
| Integration.SquaremapIntegration.Initialize | src/main/java/lol/sylvie/sswaystones/integration/SquaremapIntegration.java:46-81 | without the map plugin nothing changes; with it, every map world gets a layer, the integration runs for the server, and the layers hold the markers of an update |
| Integration.SquaremapIntegration.Shutdown | src/main/java/lol/sylvie/sswaystones/integration/SquaremapIntegration.java:136-144 | a running integration forgets its layers and server and stops; otherwise nothing changes |
| Integration.SquaremapIntegration.UpdateMarkers | src/main/java/lol/sylvie/sswaystones/integration/SquaremapIntegration.java:150-160 | the update does nothing unless the integration is running with a server; then every layer is rebuilt |
| Integration.ClearLayers | src/main/java/lol/sylvie/sswaystones/integration/SquaremapIntegration.java:165-168 | every layer is emptied and no layer is added or removed |
| Integration.AddMarkers | src/main/java/lol/sylvie/sswaystones/integration/SquaremapIntegration.java:170-217 | starting from empty layers, each layer ends up holding exactly the markers of the shown waystones of its world, and the set of layers is unchanged |
| Integration.RestrictStep | src/main/java/lol/sylvie/sswaystones/integration/SquaremapIntegration.java:171-216 | going through one more stored key adds that key's marker to the partial layer exactly when the final layer has it |
| Integration.AddMarkerStep | src/main/java/lol/sylvie/sswaystones/integration/SquaremapIntegration.java:172-216 | one pass of the adding loop puts a shown waystone's marker in its own world's layer and leaves every other layer as it was |
| Integration.AllMarkersAdded | src/main/java/lol/sylvie/sswaystones/integration/SquaremapIntegration.java:171-217 | once every stored waystone has been gone through, each layer holds all the markers of its world |
| Integration.SquaremapIntegration.UpdateMarkersInternal | src/main/java/lol/sylvie/sswaystones/integration/SquaremapIntegration.java:162-218 | every existing layer is cleared and then holds exactly the markers of the shown waystones of its world; no layer is added or removed |

## Left out

- Rendering is not modelled: item builders, text styles, lore lines, glass-pane framing, skull icons, and the per-dimension item count and colour. A slot is modelled as an index-to-waystone map, and the title as a structured value instead of formatted text.
- `NameGui` and `IconGui` are not modelled. They edit a waystone through the anvil input and the player's live inventory.
- Reopening the viewer (`ViewerUtil.openJavaGui`) is client I/O and is not modelled. After a shift-click or a closed menu the real mod builds a new viewer. The model's `ClickRecord` keeps the in-place list update the callback makes before that.
- `WaystoneStorage.getAccessibleWaystones`, `WaystoneRecord.canPlayerEdit`, `handleTeleport` and `getXpCost` are not part of this model. The accessible list and the edit right are inputs, and a teleport is the `Teleported` outcome.
- `Permissions.check` is a foreign authorization call. The manager permission and the three `create.*` permissions are boolean inputs, so their defaults are not modelled: true for global and team, operator level 4 for manager and server.
- Waystone records are values, not shared objects. Claiming changes the viewer's copy of the waystone, and a settings toggle changes the menu's copy of the access settings. The write-through to the stored record, and to the same record in the viewer's lists, is not modelled.
- `setOwner` is modelled as setting the owner's id and name. `AccessSettings.hasTeam` is modelled as "the team name is not empty". Neither method is part of this model.
- Gui.AccessSettingsGui.Click: the server toggle's call to the map integration (`onWaystoneChanged`) is not modelled. That call redraws the markers, which `UpdateMarkers` models on its own.
- `ArrayList.remove(Object)` compares records with `equals`. `WaystoneRecord` is not part of this model, so records are compared as values.
- The tooltip HTML template and the `X: %d, Y: %d, Z: %d` coordinate text are not modelled. The tooltip is a structured value holding the colour, the escaped name, the escaped owner line and the position.
- Map plumbing is not modelled: AWT icon drawing, icon and layer registration, layer options, `Key` validation, and the marker options builder. Plugin detection (`isSquaremapAvailable`) is a boolean input, and the server's map worlds are a list input.
- Exceptions caught around initialisation and marker updates, and all logging, are not modelled. `WorldIdentifier.parse` of a world key is taken as the world's name.
- The `Codec` machinery is not modelled. `Decode` and `Encode` state only which fields are read and written, and the empty-list default of the favourites field. A field equal to its default is not written, which is how `optionalFieldOf` with a default is documented to behave. That library is not part of this model.
- A three-way toggle result is not modelled, because the code returns a plain boolean. `ToggleFavorite` follows the code. The viewer tells "removed" from "rejected, list full" by asking `CanAddFavorite` first.
