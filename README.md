# Flickr photo grid controller, modelled in Dafny

This project models the interaction state of `FlickrPhotosViewController`, the view
controller of the FlickrSearch app that shows Flickr search results as a grid of
thumbnails. Each search adds a section of photos. A tap expands one photo to full
width. A share button switches to a sharing mode in which photos are multi-selected
and exported. The controller keeps four pieces of state:

- `searches`: the search batches, newest first;
- `largePhotoIndexPath`: the expanded cell, if any;
- `sharing`: whether sharing mode is on;
- `selectedPhotos`: the selected photos, as a list.

The model adds one more field, `shareLabelText`, the text of the count label. It is
kept as state because the source updates the label only at particular moments.

UIKit is replaced by returned signals:

- the list of cells the grid is told to reload;
- whether the whole grid reloads;
- what a cell shows and whether it starts a large-image fetch;
- what a fetch completion does to its cell;
- what the share button leads to;
- the drag items.

Files:

- `photo_types.dfy` (module `FlickrTypes`): photos, search batches, cell addresses, `photo(for:)`.
- `label_text.dfy` (module `LabelText`): the count label's text, with decimal rendering of the count and its read-back.
- `grid_spec.dfy` (module `GridSpec`): the controller's state as a value (`Controller`), with one transition function per event.
- `photos_view_controller.dfy` (module `PhotosViewController`): the class `FlickrPhotosViewController`, whose fields and methods update state in place as the Swift class does. Every state-changing method is proved to perform its `GridSpec` transition: `State() == F(old(State()), …)`. `LargeImageLoaded` changes no state; its result is proved equal to `LargeImageFetchCompleted(State(), …)`.
- `grid_properties.dfy` (module `GridProperties`): lemmas about the transitions.

Inputs the source gets from UIKit are inputs of the model:

- `hasShareButton`: whether `navigationItem.rightBarButtonItems?.first` exists when `sharing` is assigned;
- `cellOnScreen`: whether `collectionView.cellForItem(at:)` returns the cell in `performLargeImageFetch`. When it does not, no fetch starts.

`FlickrPhoto.swift` is not part of this model. Its `==` is assumed to compare `photoID`,
and `firstIndex(of:)` compares photos that way.

The model follows the code as written; in particular:

- A new search result does not clear the expansion target (`SearchLeavesTargetInPlace`, `CatThenDogScenario`, `FetchAppliedAcrossNewBatch`). After a new batch, the target may address a different photo, or no photo at all. So the model states no "target is always valid" invariant.
- The selection is a list, not a set. Selecting appends, even a photo that is already selected. Deselecting removes only the first occurrence (`SelectionIsAList`).
- Two taps on the same cell restore the original target only when nothing was expanded or that cell was expanded. If another cell was expanded, two taps leave nothing expanded. The two taps reload the same cells, just the tapped one, exactly when nothing or that cell was expanded (`TapTwice`).
- Photos are selected only while sharing, and every selected photo belongs to some search batch. The initial state has this property and every transition preserves it (`SelectionInvariant` and the lemmas after it). So the `guard sharing` in `share(_:)` can never fire (`ShareNeverFindsSelectionOutsideSharing`).
- While sharing, the label shows the selection count (`LabelShowsCount`). This holds initially and every transition keeps it, provided the share button exists. Without the button, entering sharing mode leaves the label blank (`LabelLagsWithoutShareButton`). Leaving sharing mode through the share button does not clear the label: it still reads "0 photos selected". Only the share sheet's completion blanks it (`LeavingSharingKeepsLabel`, `ShareCompletionResets`).
- A target left behind by a new batch can address a cell that no longer exists. An example: search "cat" (A, B), expand (0, 1), search "dog" (C), then tap (0, 0). The tap reloads (0, 0) and (0, 1), and (0, 1) does not resolve. Pressing share from the same state reloads just (0, 1) (`StaleTargetReloaded`). The model passes on these reload lists as the observer builds them. What UIKit's `reloadItems(at:)` does with a path that does not resolve is not part of this model.
- Every assignment to `sharing` empties the selection. The rest of the observer runs only when the share button exists. That includes collapsing the expanded cell and refreshing the count label. A missing button therefore leaves the target in place even when sharing mode is entered.

## Model

| member | source | states |
|---|---|---|
| FlickrTypes.PhotoFor | FlickrSearch/FlickrPhotosViewController.swift:135-137 | the looked-up photo is one of the photos of the addressed batch; the address must resolve (section within `searches`, row within that batch), as the source traps otherwise |
| FlickrTypes.PhotoForAfterPrepend | FlickrSearch/FlickrPhotosViewController.swift:203 | after a batch is inserted at index 0, the photo that was at (s, r) is found at (s + 1, r) |
| LabelText.DecimalString | FlickrSearch/FlickrPhotosViewController.swift:169 | the count is rendered as a non-empty string of decimal digits without a leading zero |
| LabelText.ParseDecimalString | FlickrSearch/FlickrPhotosViewController.swift:169 | reading the rendered count back as a decimal number gives the count |
| LabelText.ShareLabelReadsBack | FlickrSearch/FlickrPhotosViewController.swift:167-172 | while sharing, the label is the count's digits followed by " photos selected", and the count can be read back from it |
| LabelText.ShareLabelDistinguishesCounts | FlickrSearch/FlickrPhotosViewController.swift:167-172 | outside sharing the label is empty; while sharing, two counts give the same label only if they are equal |
| GridSpec.ReloadedCells | FlickrSearch/FlickrPhotosViewController.swift:20-29 | the cells reloaded on a change of target are the new target (first, if any) and the old target (last, if any): one entry per present value, at most two, nothing else |
| GridSpec.AssignLargePhotoIndexPath | FlickrSearch/FlickrPhotosViewController.swift:20-29 | assigning the target changes only the target, and the observer reloads the new target first and the old one last |
| GridSpec.UpdateSharedPhotoCountLabel | FlickrSearch/FlickrPhotosViewController.swift:167-172 | only the label changes, to "<count> photos selected" while sharing and "" otherwise |
| GridSpec.FirstIndexOf | FlickrSearch/FlickrPhotosViewController.swift:364 | the result is the position of the first entry that is the same photo; none exactly when no entry is |
| GridSpec.RemoveAt | FlickrSearch/FlickrPhotosViewController.swift:365 | removing position i drops that entry and keeps the others in order |
| GridSpec.ExportedThumbnails | FlickrSearch/FlickrPhotosViewController.swift:105-111 | the export is no longer than the selection and holds only thumbnails of selected photos |
| GridSpec.LargeImageFetchCompleted | FlickrSearch/FlickrPhotosViewController.swift:155-162 | a fetch result is shown exactly when it is a successful load and the requested cell equals the target at completion time; the shown image is the loaded photo's large image |
| GridSpec.ItemsForBeginning | FlickrSearch/FlickrPhotosViewController.swift:376-386 | the drag payload is empty exactly when the photo has no thumbnail, and otherwise is one item carrying that thumbnail |
| LabelText.ShareLabelText | FlickrSearch/FlickrPhotosViewController.swift:167-172 | the label text is empty exactly when not sharing; while sharing it ends in " photos selected" |
| GridSpec.CellForItem | FlickrSearch/FlickrPhotosViewController.swift:230-260 | a cell starts a large-image fetch exactly when it is the target, its photo has no large image and the cell is on screen; it shows the large image exactly when it is the target and one is present, and the thumbnail otherwise |
| GridSpec.AssignSharing | FlickrSearch/FlickrPhotosViewController.swift:46-68 | after any assignment to `sharing` the flag holds the new value, the selection is empty, the searches are unchanged and at most one cell is reloaded |
| GridSpec.ShouldSelectItem | FlickrSearch/FlickrPhotosViewController.swift:329-342 | a tap answers true exactly while sharing, changes nothing but the target and reloads at most two cells |
| GridSpec.DidSelectItem | FlickrSearch/FlickrPhotosViewController.swift:344-353 | selecting keeps searches, target and sharing flag, and lengthens the selection by one exactly while sharing |
| GridSpec.DidDeselectItem | FlickrSearch/FlickrPhotosViewController.swift:356-368 | deselecting keeps searches, target and sharing flag, shortens the selection by at most one, and leaves only photos that were already selected |
| GridSpec.SearchCompleted | FlickrSearch/FlickrPhotosViewController.swift:198-205 | a search completion changes only `searches`, adds exactly one batch on a result and none on an error, and reloads the grid exactly on a result |
| GridSpec.Share | FlickrSearch/FlickrPhotosViewController.swift:90-117 | the share action never changes the searches, and changes the state only when it toggles sharing |
| GridSpec.ShareSheetCompleted | FlickrSearch/FlickrPhotosViewController.swift:119-123 | after the share sheet completes, sharing is off, the selection is empty and the label is blank, with searches and target untouched |
| PhotosViewController.FlickrPhotosViewController.constructor | FlickrSearch/FlickrPhotosViewController.swift:10-46 | a new controller has no searches, no target, sharing off, an empty selection and an empty label |
| PhotosViewController.FlickrPhotosViewController.SetLargePhotoIndexPath | FlickrSearch/FlickrPhotosViewController.swift:20-29 | assigning the target changes only the target and returns the new target followed by the old one, built by appending |
| PhotosViewController.FlickrPhotosViewController.UpdateSharedPhotoCountLabel | FlickrSearch/FlickrPhotosViewController.swift:167-172 | only the label changes, to the label text for the current sharing flag and selection count |
| PhotosViewController.FlickrPhotosViewController.SetSharing | FlickrSearch/FlickrPhotosViewController.swift:46-68 | assigning `sharing` performs the observer's transition: selection emptied; with the button present and sharing on, the target collapsed through its own observer and the label refreshed |
| PhotosViewController.FlickrPhotosViewController.ShareTapped | FlickrSearch/FlickrPhotosViewController.swift:90-117 | the share action performs the share decision tree and returns its outcome, presenting the exported thumbnails last |
| PhotosViewController.FlickrPhotosViewController.ShareCompleted | FlickrSearch/FlickrPhotosViewController.swift:119-123 | the share sheet's completion assigns sharing false, empties the selection and refreshes the label |
| PhotosViewController.FlickrPhotosViewController.SearchFinished | FlickrSearch/FlickrPhotosViewController.swift:198-205 | a search result is inserted at index 0 and the grid reloads; an error changes nothing |
| PhotosViewController.FlickrPhotosViewController.ShouldSelectItemAt | FlickrSearch/FlickrPhotosViewController.swift:329-342 | the tap handler performs the tap transition and returns its reloaded cells and its answer |
| PhotosViewController.FlickrPhotosViewController.DidSelectItemAt | FlickrSearch/FlickrPhotosViewController.swift:344-353 | the select handler performs the select transition; the cell must resolve only while sharing |
| PhotosViewController.FlickrPhotosViewController.DidDeselectItemAt | FlickrSearch/FlickrPhotosViewController.swift:356-368 | the deselect handler performs the deselect transition; the cell must resolve only while sharing |
| PhotosViewController.FlickrPhotosViewController.LargeImageLoaded | FlickrSearch/FlickrPhotosViewController.swift:149-162 | a fetch completion reads the target when it arrives, changes no controller state, and updates the cell exactly when the load succeeded and the requested cell is still the target |
| GridProperties.TapTogglesExpansion | FlickrSearch/FlickrPhotosViewController.swift:335-341 | outside sharing, a tap flips whether the tapped cell is expanded, leaves every other cell collapsed, answers false and changes nothing but the target |
| GridProperties.TapWhileSharing | FlickrSearch/FlickrPhotosViewController.swift:331-333 | while sharing, a tap answers true, reloads nothing and changes nothing |
| GridProperties.TapReloadsTappedAndPrevious | FlickrSearch/FlickrPhotosViewController.swift:20-29 | a tap reloads one or two cells: the tapped cell first, and the previously expanded cell; never any other cell |
| GridProperties.TapTwice | FlickrSearch/FlickrPhotosViewController.swift:335-339 | two taps on one cell restore the state exactly when nothing or that cell was expanded, and otherwise leave nothing expanded; the two taps reload the same cells (just that cell) under exactly the same condition |
| GridProperties.TapTwoCells | FlickrSearch/FlickrPhotosViewController.swift:20-29 | from no target, tapping a then b (a ≠ b) reloads [a] and then [b, a], and b ends up expanded |
| GridProperties.AssignSharingEmptiesSelection | FlickrSearch/FlickrPhotosViewController.swift:46-52 | every assignment to `sharing` stores the value and empties the selection, whatever the old and new values |
| GridProperties.EnterSharingCollapses | FlickrSearch/FlickrPhotosViewController.swift:59-68 | entering sharing with the button present leaves nothing expanded, reloads only the previously expanded cell, and the label shows a count of 0 |
| GridProperties.AssignSharingKeepsTarget | FlickrSearch/FlickrPhotosViewController.swift:54-62 | leaving sharing mode, or assigning without the share button, keeps the target and the label and reloads nothing |
| GridProperties.ReenteringSharingStartsClean | FlickrSearch/FlickrPhotosViewController.swift:46-52 | two selections followed by leaving and re-entering sharing mode end with sharing on and an empty selection |
| GridProperties.SelectionIgnoredOutsideSharing | FlickrSearch/FlickrPhotosViewController.swift:344-360 | outside sharing, select and deselect change nothing |
| GridProperties.SelectAppends | FlickrSearch/FlickrPhotosViewController.swift:350-352 | while sharing, select appends the photo at the end, duplicates included, sets the label to the new count and changes nothing else |
| GridProperties.DeselectRemovesFirstOccurrence | FlickrSearch/FlickrPhotosViewController.swift:363-367 | while sharing, deselecting an absent photo changes nothing; otherwise the first entry for it is removed, the rest keep their order, its count drops by one, the label shows the new count, and searches, target and sharing flag are unchanged |
| GridProperties.SelectThenDeselect | FlickrSearch/FlickrPhotosViewController.swift:344-368 | selecting a photo not yet selected and then deselecting it gives back the selection |
| GridProperties.SelectionIsAList | FlickrSearch/FlickrPhotosViewController.swift:351-365 | with [p, q] selected, selecting p again and deselecting it leaves [q, p]: the earlier entry goes, so the order changes |
| GridProperties.SearchPrependsBatch | FlickrSearch/FlickrPhotosViewController.swift:198-205 | a result becomes batch 0, old batch i becomes batch i + 1, nothing else changes and the grid reloads; an error changes nothing and reloads nothing |
| GridProperties.SearchLeavesTargetInPlace | FlickrSearch/FlickrPhotosViewController.swift:203-205 | after a new batch, the target keeps its address while the photo that was expanded has moved to the next section, which is not expanded |
| GridProperties.CatThenDogScenario | FlickrSearch/FlickrPhotosViewController.swift:198-205 | after "cat" [A, B], a tap on (0, 0) and then "dog" [C], (0, 0) is still expanded and now holds C, while A sits at (1, 0), collapsed |
| GridProperties.ExportedThumbnailsAppend | FlickrSearch/FlickrPhotosViewController.swift:105-111 | the export of two selections joined is the two exports joined |
| GridProperties.ExportedThumbnailsInSelectionOrder | FlickrSearch/FlickrPhotosViewController.swift:105-111 | adding a photo at the end of the selection adds its thumbnail, if any, at the end of the export |
| GridProperties.ExportedThumbnailsComplete | FlickrSearch/FlickrPhotosViewController.swift:105-111 | every selected photo with a thumbnail contributes it to the export |
| GridProperties.ExportedThumbnailsEmpty | FlickrSearch/FlickrPhotosViewController.swift:105-115 | the export is empty exactly when no selected photo has a thumbnail |
| GridProperties.ShareDecisions | FlickrSearch/FlickrPhotosViewController.swift:90-117 | share: no searches, nothing happens; empty selection, sharing toggles through the whole `sharing` observer (`AssignSharing`: target collapsed, label refreshed, the old target reloaded) and the selection stays empty; photos selected with sharing off, nothing happens; otherwise the state is unchanged, and the sheet is presented with the exported thumbnails exactly when some selected photo has a thumbnail |
| GridProperties.ShareEntersSharingAndCollapses | FlickrSearch/FlickrPhotosViewController.swift:95-98 | pressing share with nothing selected, sharing off and cell t expanded enters sharing, collapses t, reloads only t and shows a count of 0 |
| GridProperties.ShareCompletionResets | FlickrSearch/FlickrPhotosViewController.swift:119-123 | after the share sheet completes, sharing is off, the selection is empty and the label is blank, while the target and the searches are untouched |
| GridProperties.CollapsedCellShowsThumbnail | FlickrSearch/FlickrPhotosViewController.swift:242-245 | a cell that is not the target shows its thumbnail and starts no fetch |
| GridProperties.ExpandedCellDisplay | FlickrSearch/FlickrPhotosViewController.swift:247-257 | the target shows its large image if present; otherwise it shows its thumbnail and starts a fetch when the cell is on screen |
| GridProperties.OnlyTargetFetches | FlickrSearch/FlickrPhotosViewController.swift:242-257 | two cells that both start a fetch are the same cell, which is the target and lacks a large image |
| GridProperties.FetchErrorChangesNothing | FlickrSearch/FlickrPhotosViewController.swift:160-161 | a failed fetch never updates its cell |
| GridProperties.StaleFetchDroppedAfterTap | FlickrSearch/FlickrPhotosViewController.swift:155-159 | a fetch for a that completes after a tap on another cell b is dropped |
| GridProperties.StaleFetchDroppedAfterCollapse | FlickrSearch/FlickrPhotosViewController.swift:155-159 | a fetch for the expanded cell that completes after a second tap collapsed it is dropped |
| GridProperties.StaleFetchDroppedAfterSharing | FlickrSearch/FlickrPhotosViewController.swift:64-66 | once sharing mode is entered with the button present, every fetch still in flight is dropped |
| GridProperties.FetchAppliedAcrossNewBatch | FlickrSearch/FlickrPhotosViewController.swift:157 | a fetch for (0, 0) that completes after a new batch arrived is still applied, since the target was not cleared |
| GridProperties.InitialSelectionInvariant | FlickrSearch/FlickrPhotosViewController.swift:10-15 | a new controller keeps the selection invariant: photos are selected only while sharing, and every selected photo belongs to some search batch |
| GridProperties.TapKeepsSelectionInvariant | FlickrSearch/FlickrPhotosViewController.swift:329-342 | a tap keeps the selection invariant |
| GridProperties.AssignSharingKeepsSelectionInvariant | FlickrSearch/FlickrPhotosViewController.swift:46-52 | every assignment to `sharing` keeps the selection invariant |
| GridProperties.SelectKeepsSelectionInvariant | FlickrSearch/FlickrPhotosViewController.swift:344-352 | selecting keeps the selection invariant: appending happens only while sharing, and the appended photo comes from a batch |
| GridProperties.DeselectKeepsSelectionInvariant | FlickrSearch/FlickrPhotosViewController.swift:356-368 | deselecting keeps the selection invariant |
| GridProperties.SearchKeepsSelectionInvariant | FlickrSearch/FlickrPhotosViewController.swift:198-205 | a search completion keeps the selection invariant, since a selected photo in batch s is found in batch s + 1 afterwards |
| GridProperties.ShareKeepsSelectionInvariant | FlickrSearch/FlickrPhotosViewController.swift:90-117 | the share action keeps the selection invariant |
| GridProperties.ShareCompletionKeepsSelectionInvariant | FlickrSearch/FlickrPhotosViewController.swift:119-123 | the share sheet's completion keeps the selection invariant |
| GridProperties.ShareNeverFindsSelectionOutsideSharing | FlickrSearch/FlickrPhotosViewController.swift:100-102 | in every state keeping the selection invariant, the share action's `guard sharing` never fires, so it never yields `NotSharing` |
| GridProperties.InitialLabelShowsCount | FlickrSearch/FlickrPhotosViewController.swift:10-17 | a new controller is not sharing, so its label trivially agrees with the count |
| GridProperties.TapKeepsLabelShowsCount | FlickrSearch/FlickrPhotosViewController.swift:329-342 | a tap keeps the label in step with the count |
| GridProperties.AssignSharingKeepsLabelShowsCount | FlickrSearch/FlickrPhotosViewController.swift:46-68 | with the share button present, every assignment to `sharing` keeps the label in step with the count |
| GridProperties.SelectKeepsLabelShowsCount | FlickrSearch/FlickrPhotosViewController.swift:344-353 | selecting keeps the label in step with the count |
| GridProperties.DeselectKeepsLabelShowsCount | FlickrSearch/FlickrPhotosViewController.swift:356-368 | deselecting keeps the label in step with the count |
| GridProperties.SearchKeepsLabelShowsCount | FlickrSearch/FlickrPhotosViewController.swift:198-205 | a search completion keeps the label in step with the count |
| GridProperties.ShareKeepsLabelShowsCount | FlickrSearch/FlickrPhotosViewController.swift:90-117 | with the share button present, the share action keeps the label in step with the count |
| GridProperties.ShareCompletionKeepsLabelShowsCount | FlickrSearch/FlickrPhotosViewController.swift:119-123 | the share sheet's completion keeps the label in step with the count |
| GridProperties.LabelLagsWithoutShareButton | FlickrSearch/FlickrPhotosViewController.swift:54-56 | without the share button, entering sharing leaves the label "" while sharing is on, so the label does not show the count |
| GridProperties.LeavingSharingKeepsLabel | FlickrSearch/FlickrPhotosViewController.swift:58-62 | entering and then leaving sharing through the share button leaves the label reading "0 photos selected", not "" |
| GridProperties.StaleTargetReloaded | FlickrSearch/FlickrPhotosViewController.swift:20-33 | after "cat" [A, B], a tap on (0, 1) and "dog" [C], (0, 1) no longer resolves, yet a tap on (0, 0) reloads [(0, 0), (0, 1)] and pressing share reloads [(0, 1)] |

## Left out

- UIKit rendering: `performBatchUpdates`, `reloadItems`, `reloadData`, scrolling to the expanded cell, `allowsMultipleSelection`, `selectItem(at: nil)`, bar-button rearrangement, popover setup, presenting the activity sheet, activity indicators, label colour, and the label's sizing animation. These become returned signals or are dropped.
- Layout sizing (`sizeForItemAt`, insets, line spacing): this is `CGFloat` arithmetic on view geometry. The expanded branch calls `sizeToFillWidth`, which is defined in `FlickrPhoto.swift`, and that file is not part of this model.
- The section header (`viewForSupplementaryElementOfKind`), the section and item counts, and `viewDidLoad`'s drag setup: these only read state or configure UIKit.
- The network search (`Flickr.searchFlickr`) and `FlickrPhoto.loadLargeImage`: they are asynchronous foreign calls. Their completions are events with inputs: a `SearchOutcome`, and the requested cell with a `LargeImageResult`. The model never writes a photo's `largeImage`, since whether `loadLargeImage` caches it is not visible.
- The weak capture of `self` in the fetch completion: this is an object-lifetime concern.
- `LargeImageLoaded`: in the source, the image goes to the cell object captured when the fetch started. The model reports the update for the requested cell address, and does not model cell reuse.
- `textFieldShouldReturn`'s own effects (clearing the text field, resigning first responder, the `print` calls): these are UI and logging.
- A label whose text was never set is modelled as the empty string.
