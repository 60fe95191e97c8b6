/** What the controller's transitions guarantee, stated over the GridSpec functions. */
module GridProperties {
  import opened FlickrTypes
  import opened GridSpec
  import LabelText

  predicate IsExpanded(c: Controller, ip: IndexPath)
  {
    c.largePhotoIndexPath == Some(ip)
  }

  // ---------------------------------------------------------------------------
  // Taps

  /** Outside sharing mode a tap flips whether that cell is expanded, leaves every other cell collapsed, refuses selection and changes nothing else. */
  lemma TapTogglesExpansion(c: Controller, ip: IndexPath)
    requires !c.sharing
    ensures var r := ShouldSelectItem(c, ip);
      && !r.shouldSelect
      && (IsExpanded(r.after, ip) <==> !IsExpanded(c, ip))
      && (forall q :: q != ip ==> !IsExpanded(r.after, q))
      && r.after.(largePhotoIndexPath := c.largePhotoIndexPath) == c
  {
  }

  /** While sharing, a tap is allowed to select and leaves the state and the grid alone. */
  lemma TapWhileSharing(c: Controller, ip: IndexPath)
    requires c.sharing
    ensures ShouldSelectItem(c, ip) == TapResult(c, [], true)
  {
  }

  /** A tap reloads the tapped cell first, then the previously expanded cell if it was another one; never more than two cells. */
  lemma TapReloadsTappedAndPrevious(c: Controller, ip: IndexPath)
    requires !c.sharing
    ensures var cells := ShouldSelectItem(c, ip).reloaded;
      && 1 <= |cells| <= 2
      && cells[0] == ip
      && (forall q :: q in cells <==> q == ip || IsExpanded(c, q))
  {
  }

  /**
    Two taps on the same cell give back the original target exactly when nothing
    was expanded or the tapped cell was; when another cell was expanded, the second
    tap leaves nothing expanded. The two taps reload the same cells, that one
    cell, under the same condition.
   */
  lemma TapTwice(c: Controller, ip: IndexPath)
    requires !c.sharing
    ensures var first := ShouldSelectItem(c, ip);
      var second := ShouldSelectItem(first.after, ip);
      && (second.after == c <==> c.largePhotoIndexPath.None? || IsExpanded(c, ip))
      && (!(c.largePhotoIndexPath.None? || IsExpanded(c, ip)) ==> second.after == c.(largePhotoIndexPath := None))
      && (first.reloaded == second.reloaded <==> c.largePhotoIndexPath.None? || IsExpanded(c, ip))
      && (c.largePhotoIndexPath.None? || IsExpanded(c, ip) ==> first.reloaded == [ip])
  {
  }

  /** Starting from nothing expanded, tapping a and then another cell b reloads b and then a. */
  lemma TapTwoCells(c: Controller, a: IndexPath, b: IndexPath)
    requires !c.sharing && c.largePhotoIndexPath.None? && a != b
    ensures var first := ShouldSelectItem(c, a);
      var second := ShouldSelectItem(first.after, b);
      first.reloaded == [a] && second.reloaded == [b, a] && IsExpanded(second.after, b)
  {
  }

  // ---------------------------------------------------------------------------
  // The sharing flag

  /** Every assignment to `sharing` sets it and empties the selection, whatever the old and new values. */
  lemma AssignSharingEmptiesSelection(c: Controller, v: bool, hasShareButton: bool)
    ensures var a := AssignSharing(c, v, hasShareButton).after;
      a.sharing == v && a.selectedPhotos == [] && a.searches == c.searches
  {
  }

  /** Entering sharing mode with the share button present collapses the expanded cell (reloading only it) and shows a zero count. */
  lemma EnterSharingCollapses(c: Controller)
    ensures var s := AssignSharing(c, true, true);
      && s.after.largePhotoIndexPath.None?
      && (forall q :: q in s.reloaded <==> IsExpanded(c, q))
      && |s.reloaded| <= 1
      && s.after.shareLabelText == LabelText.ShareLabelText(true, 0)
  {
  }

  /** Leaving sharing mode, or any assignment while the share button is absent, leaves the target and the label alone and reloads nothing. */
  lemma AssignSharingKeepsTarget(c: Controller, v: bool, hasShareButton: bool)
    requires !v || !hasShareButton
    ensures var s := AssignSharing(c, v, hasShareButton);
      && s.after.largePhotoIndexPath == c.largePhotoIndexPath
      && s.after.shareLabelText == c.shareLabelText
      && s.reloaded == []
  {
  }

  /** Selecting photos and then leaving and re-entering sharing mode starts with an empty selection. */
  lemma ReenteringSharingStartsClean(c: Controller, p1: IndexPath, p2: IndexPath, hasShareButton: bool)
    requires c.sharing && ValidIndexPath(c.searches, p1) && ValidIndexPath(c.searches, p2)
    ensures var selected := DidSelectItem(DidSelectItem(c, p1), p2);
      var off := AssignSharing(selected, false, hasShareButton).after;
      var on := AssignSharing(off, true, hasShareButton).after;
      |selected.selectedPhotos| == |c.selectedPhotos| + 2 && on.sharing && on.selectedPhotos == []
  {
  }

  // ---------------------------------------------------------------------------
  // Selection and the count label

  /** Outside sharing mode, selecting and deselecting change nothing. */
  lemma SelectionIgnoredOutsideSharing(c: Controller, ip: IndexPath)
    requires !c.sharing
    ensures DidSelectItem(c, ip) == c && DidDeselectItem(c, ip) == c
  {
  }

  /** While sharing, selecting appends the photo at the end (duplicates kept) and the label shows the new count. */
  lemma SelectAppends(c: Controller, ip: IndexPath)
    requires c.sharing && ValidIndexPath(c.searches, ip)
    ensures var a := DidSelectItem(c, ip);
      && a.selectedPhotos == c.selectedPhotos + [PhotoFor(c.searches, ip)]
      && a.shareLabelText == LabelText.ShareLabelText(true, |c.selectedPhotos| + 1)
      && a.(selectedPhotos := c.selectedPhotos, shareLabelText := c.shareLabelText) == c
  {
  }

  /** How many entries of `s` are the same photo as `p`. */
  function Occurrences(s: seq<Photo>, p: Photo): (n: nat)
    ensures n <= |s|
  {
    if s == [] then 0 else (if SamePhoto(s[0], p) then 1 else 0) + Occurrences(s[1..], p)
  }

  lemma {:induction false} OccurrencesAppend(a: seq<Photo>, b: seq<Photo>, p: Photo)
    ensures Occurrences(a + b, p) == Occurrences(a, p) + Occurrences(b, p)
  {
    if a != [] {
      assert (a + b)[1..] == a[1..] + b;
      OccurrencesAppend(a[1..], b, p);
    } else {
      assert a + b == b;
    }
  }

  lemma {:induction false} OccurrencesNone(s: seq<Photo>, p: Photo)
    requires forall j :: 0 <= j < |s| ==> !SamePhoto(s[j], p)
    ensures Occurrences(s, p) == 0
  {
    if s != [] {
      OccurrencesNone(s[1..], p);
    }
  }

  /**
    While sharing, deselecting removes exactly one entry for the photo, the first
    one, keeping the order of the rest, and changes nothing but the selection and
    the label; when the photo is not selected nothing changes, label included.
   */
  lemma DeselectRemovesFirstOccurrence(c: Controller, ip: IndexPath)
    requires c.sharing && ValidIndexPath(c.searches, ip)
    ensures var p := PhotoFor(c.searches, ip);
      var a := DidDeselectItem(c, ip);
      var s := c.selectedPhotos;
      && (Occurrences(s, p) == 0 ==> a == c)
      && (Occurrences(s, p) > 0 ==>
            exists i :: 0 <= i < |s| && SamePhoto(s[i], p)
              && (forall j :: 0 <= j < i ==> !SamePhoto(s[j], p))
              && a.selectedPhotos == s[..i] + s[i + 1..]
              && Occurrences(a.selectedPhotos, p) == Occurrences(s, p) - 1
              && a.shareLabelText == LabelText.ShareLabelText(true, |s| - 1)
              && a.(selectedPhotos := s, shareLabelText := c.shareLabelText) == c)
  {
    var p := PhotoFor(c.searches, ip);
    var s := c.selectedPhotos;
    match FirstIndexOf(s, p)
    case None =>
      OccurrencesNone(s, p);
    case Some(i) =>
      assert s == s[..i] + [s[i]] + s[i + 1..];
      OccurrencesAppend(s[..i] + [s[i]], s[i + 1..], p);
      OccurrencesAppend(s[..i], [s[i]], p);
      OccurrencesAppend(s[..i], s[i + 1..], p);
      OccurrencesNone(s[..i], p);
      assert Occurrences([s[i]], p) == 1;
  }

  /** Selecting a photo that is not yet selected and then deselecting it gives back the selection. */
  lemma SelectThenDeselect(c: Controller, ip: IndexPath)
    requires c.sharing && ValidIndexPath(c.searches, ip)
    requires forall j :: 0 <= j < |c.selectedPhotos| ==> !SamePhoto(c.selectedPhotos[j], PhotoFor(c.searches, ip))
    ensures DidDeselectItem(DidSelectItem(c, ip), ip).selectedPhotos == c.selectedPhotos
  {
    var p := PhotoFor(c.searches, ip);
    var s := DidSelectItem(c, ip).selectedPhotos;
    assert s == c.selectedPhotos + [p];
    assert SamePhoto(s[|c.selectedPhotos|], p);
    assert forall j :: 0 <= j < |c.selectedPhotos| ==> s[j] == c.selectedPhotos[j];
    assert FirstIndexOf(s, p) == Some(|c.selectedPhotos|);
    assert s[..|c.selectedPhotos|] == c.selectedPhotos;
  }

  /** The selection is a list: re-selecting an already selected photo and deselecting it removes the earlier entry, so the order changes. */
  lemma SelectionIsAList(p: Photo, q: Photo)
    requires !SamePhoto(p, q)
    ensures var c := Controller([SearchResults("cat", [p, q])], None, true, [p, q], "");
      && SelectionInvariant(c)
      && DidDeselectItem(DidSelectItem(c, IndexPath(0, 0)), IndexPath(0, 0)).selectedPhotos == [q, p]
  {
    var c := Controller([SearchResults("cat", [p, q])], None, true, [p, q], "");
    assert InSearches(c.searches, p) && InSearches(c.searches, q) by {
      assert p in c.searches[0].searchResults && q in c.searches[0].searchResults;
    }
    assert DidSelectItem(c, IndexPath(0, 0)).selectedPhotos == [p, q, p];
    assert FirstIndexOf([p, q, p], p) == Some(0);
  }

  // ---------------------------------------------------------------------------
  // Search results

  /**
    A found batch becomes batch 0 and batch i becomes batch i + 1; the target, the
    sharing flag, the selection and the label are untouched and the grid reloads.
    An error changes nothing and reloads nothing.
   */
  lemma SearchPrependsBatch(c: Controller, outcome: SearchOutcome)
    ensures var r := SearchCompleted(c, outcome);
      && (outcome.SearchError? ==> r == SearchStep(c, false))
      && (outcome.SearchFound? ==>
            && r.reloadData
            && |r.after.searches| == |c.searches| + 1
            && r.after.searches[0] == outcome.results
            && (forall i :: 0 <= i < |c.searches| ==> r.after.searches[i + 1] == c.searches[i])
            && r.after.(searches := c.searches) == c)
  {
  }

  /**
    A new batch does not clear the target: the expanded address stays the same
    while the photo that was expanded moves one section down, so the target now
    addresses a different cell's photo.
   */
  lemma SearchLeavesTargetInPlace(c: Controller, results: SearchResults, t: IndexPath)
    requires c.largePhotoIndexPath == Some(t) && ValidIndexPath(c.searches, t)
    ensures var a := SearchCompleted(c, SearchFound(results)).after;
      && a.largePhotoIndexPath == Some(t)
      && ValidIndexPath(a.searches, IndexPath(t.section + 1, t.row))
      && PhotoFor(a.searches, IndexPath(t.section + 1, t.row)) == PhotoFor(c.searches, t)
      && !IsExpanded(a, IndexPath(t.section + 1, t.row))
  {
    PhotoForAfterPrepend(results, c.searches, t);
  }

  /** Searching "cat" (photos A, B), expanding (0, 0), then searching "dog" (photo C): (0, 0) stays expanded and now addresses C. */
  lemma CatThenDogScenario(a: Photo, b: Photo, cPhoto: Photo)
    ensures var s1 := SearchCompleted(Initial(), SearchFound(SearchResults("cat", [a, b])));
      var tap := ShouldSelectItem(s1.after, IndexPath(0, 0));
      var s2 := SearchCompleted(tap.after, SearchFound(SearchResults("dog", [cPhoto])));
      && tap.reloaded == [IndexPath(0, 0)]
      && s2.reloadData
      && IsExpanded(s2.after, IndexPath(0, 0))
      && !IsExpanded(s2.after, IndexPath(1, 0))
      && PhotoFor(s2.after.searches, IndexPath(0, 0)) == cPhoto
      && PhotoFor(s2.after.searches, IndexPath(1, 0)) == a
  {
  }

  // ---------------------------------------------------------------------------
  // Sharing the selection

  lemma {:induction false} ExportedThumbnailsAppend(a: seq<Photo>, b: seq<Photo>)
    ensures ExportedThumbnails(a + b) == ExportedThumbnails(a) + ExportedThumbnails(b)
  {
    if a != [] {
      assert (a + b)[1..] == a[1..] + b;
      ExportedThumbnailsAppend(a[1..], b);
    } else {
      assert a + b == b;
    }
  }

  /** The export of a selection with one more photo at the end is the old export plus that photo's thumbnail, if it has one: thumbnails come out in selection order. */
  lemma ExportedThumbnailsInSelectionOrder(photos: seq<Photo>, p: Photo)
    ensures ExportedThumbnails(photos + [p])
      == ExportedThumbnails(photos) + (if p.thumbnail.Some? then [p.thumbnail.value] else [])
  {
    ExportedThumbnailsAppend(photos, [p]);
    assert [p][1..] == [];
  }

  /** Every selected photo that has a thumbnail contributes it to the export. */
  lemma {:induction false} ExportedThumbnailsComplete(photos: seq<Photo>, k: nat)
    requires k < |photos| && photos[k].thumbnail.Some?
    ensures photos[k].thumbnail.value in ExportedThumbnails(photos)
  {
    if k > 0 {
      ExportedThumbnailsComplete(photos[1..], k - 1);
    }
  }

  /** The export is empty exactly when no photo has a thumbnail. */
  lemma ExportedThumbnailsEmpty(photos: seq<Photo>)
    ensures ExportedThumbnails(photos) == [] <==> forall j :: 0 <= j < |photos| ==> photos[j].thumbnail.None?
  {
    if exists j :: 0 <= j < |photos| && photos[j].thumbnail.Some? {
      var j :| 0 <= j < |photos| && photos[j].thumbnail.Some?;
      ExportedThumbnailsComplete(photos, j);
    }
  }

  /**
    The share button: with no searches nothing happens; with an empty selection it
    toggles sharing mode, running the whole `sharing` observer; with photos selected but sharing off nothing happens;
    otherwise it never changes the state, and presents the selected thumbnails
    exactly when at least one selected photo has a thumbnail.
   */
  lemma ShareDecisions(c: Controller, hasShareButton: bool)
    ensures var r := Share(c, hasShareButton);
      && (|c.searches| == 0 ==> r == ShareStep(c, NoSearches))
      && (|c.searches| > 0 && |c.selectedPhotos| == 0 ==>
            && r.after.sharing == !c.sharing && r.after.selectedPhotos == []
            && r.after == AssignSharing(c, !c.sharing, hasShareButton).after
            && r.outcome == ToggledSharing(AssignSharing(c, !c.sharing, hasShareButton).reloaded))
      && (|c.searches| > 0 && |c.selectedPhotos| > 0 && !c.sharing ==> r == ShareStep(c, NotSharing))
      && (|c.searches| > 0 && |c.selectedPhotos| > 0 && c.sharing ==>
            && r.after == c
            && (r.outcome.PresentShareSheet? <==> exists j :: 0 <= j < |c.selectedPhotos| && c.selectedPhotos[j].thumbnail.Some?)
            && (r.outcome.PresentShareSheet? ==> r.outcome.images == ExportedThumbnails(c.selectedPhotos))
            && (!r.outcome.PresentShareSheet? ==> r.outcome == NothingToShare))
  {
    ExportedThumbnailsEmpty(c.selectedPhotos);
  }

  /**
    Pressing share with nothing selected, sharing off and cell t expanded enters
    sharing mode, collapses t, reloads only t and shows a count of 0.
   */
  lemma ShareEntersSharingAndCollapses(c: Controller, t: IndexPath)
    requires |c.searches| > 0 && c.selectedPhotos == [] && !c.sharing && IsExpanded(c, t)
    ensures Share(c, true) == ShareStep(
      c.(sharing := true, largePhotoIndexPath := None, shareLabelText := LabelText.ShareLabelText(true, 0)),
      ToggledSharing([t]))
  {
  }

  /** After the share sheet completes, sharing is off, the selection is empty and the label is blank; the target is untouched. */
  lemma ShareCompletionResets(c: Controller, hasShareButton: bool)
    ensures var a := ShareSheetCompleted(c, hasShareButton);
      && !a.sharing && a.selectedPhotos == [] && a.shareLabelText == ""
      && a.largePhotoIndexPath == c.largePhotoIndexPath && a.searches == c.searches
  {
  }

  // ---------------------------------------------------------------------------
  // Cells and large-image fetches

  /** A cell that is not the target shows its thumbnail and starts nothing. */
  lemma CollapsedCellShowsThumbnail(c: Controller, ip: IndexPath, cellOnScreen: bool)
    requires ValidIndexPath(c.searches, ip) && !IsExpanded(c, ip)
    ensures CellForItem(c, ip, cellOnScreen) == CellDisplay(PhotoFor(c.searches, ip).thumbnail, false)
  {
  }

  /** The target shows its large image when it has one; otherwise it shows the thumbnail and starts a fetch if the cell is on screen. */
  lemma ExpandedCellDisplay(c: Controller, ip: IndexPath, cellOnScreen: bool)
    requires ValidIndexPath(c.searches, ip) && IsExpanded(c, ip)
    ensures var p := PhotoFor(c.searches, ip);
      var d := CellForItem(c, ip, cellOnScreen);
      && (p.largeImage.Some? ==> d == CellDisplay(p.largeImage, false))
      && (p.largeImage.None? ==> d == CellDisplay(p.thumbnail, cellOnScreen))
  {
  }

  /** At most one cell of the grid ever starts a fetch, and only the target. */
  lemma OnlyTargetFetches(c: Controller, a: IndexPath, b: IndexPath, onA: bool, onB: bool)
    requires ValidIndexPath(c.searches, a) && ValidIndexPath(c.searches, b)
    requires CellForItem(c, a, onA).startsLargeImageFetch
    requires CellForItem(c, b, onB).startsLargeImageFetch
    ensures a == b && IsExpanded(c, a) && PhotoFor(c.searches, a).largeImage.None?
  {
  }

  /** A failed fetch never changes the cell. */
  lemma FetchErrorChangesNothing(c: Controller, requested: IndexPath)
    ensures LargeImageFetchCompleted(c, requested, LoadFailed) == NoUpdate
  {
  }

  /** A fetch started for a, completing after a tap on another cell b, is dropped. */
  lemma StaleFetchDroppedAfterTap(c: Controller, a: IndexPath, b: IndexPath, result: LargeImageResult)
    requires !c.sharing && a != b
    ensures LargeImageFetchCompleted(ShouldSelectItem(c, b).after, a, result) == NoUpdate
  {
  }

  /** A fetch for the expanded cell, completing after that cell was collapsed by a second tap, is dropped. */
  lemma StaleFetchDroppedAfterCollapse(c: Controller, a: IndexPath, result: LargeImageResult)
    requires !c.sharing && IsExpanded(c, a)
    ensures LargeImageFetchCompleted(ShouldSelectItem(c, a).after, a, result) == NoUpdate
  {
  }

  /** Entering sharing mode with the share button present drops every fetch still in flight. */
  lemma StaleFetchDroppedAfterSharing(c: Controller, a: IndexPath, result: LargeImageResult)
    ensures LargeImageFetchCompleted(AssignSharing(c, true, true).after, a, result) == NoUpdate
  {
  }

  /** A fetch for (0, 0) completing after a new batch arrived is still applied, because the target was not cleared. */
  lemma FetchAppliedAcrossNewBatch(c: Controller, results: SearchResults, large: Option<Image>)
    requires IsExpanded(c, IndexPath(0, 0))
    ensures LargeImageFetchCompleted(SearchCompleted(c, SearchFound(results)).after, IndexPath(0, 0), Loaded(large))
      == ShowImage(large)
  {
  }

  // ---------------------------------------------------------------------------
  // The selection invariant

  /** `p` is one of the photos of some search batch. */
  predicate InSearches(searches: seq<SearchResults>, p: Photo)
  {
    exists s :: 0 <= s < |searches| && p in searches[s].searchResults
  }

  /**
    What every reachable state keeps: photos are selected only in sharing mode,
    and every selected photo is a photo of some batch.
   */
  predicate SelectionInvariant(c: Controller)
  {
    && (!c.sharing ==> c.selectedPhotos == [])
    && forall p :: p in c.selectedPhotos ==> InSearches(c.searches, p)
  }

  lemma InitialSelectionInvariant()
    ensures SelectionInvariant(Initial())
  {
  }

  lemma TapKeepsSelectionInvariant(c: Controller, ip: IndexPath)
    requires SelectionInvariant(c)
    ensures SelectionInvariant(ShouldSelectItem(c, ip).after)
  {
  }

  lemma AssignSharingKeepsSelectionInvariant(c: Controller, v: bool, hasShareButton: bool)
    requires SelectionInvariant(c)
    ensures SelectionInvariant(AssignSharing(c, v, hasShareButton).after)
  {
  }

  lemma SelectKeepsSelectionInvariant(c: Controller, ip: IndexPath)
    requires SelectionInvariant(c) && (c.sharing ==> ValidIndexPath(c.searches, ip))
    ensures SelectionInvariant(DidSelectItem(c, ip))
  {
    if c.sharing {
      var a := DidSelectItem(c, ip);
      assert a.selectedPhotos == c.selectedPhotos + [PhotoFor(c.searches, ip)];
      assert InSearches(c.searches, PhotoFor(c.searches, ip));
    }
  }

  lemma DeselectKeepsSelectionInvariant(c: Controller, ip: IndexPath)
    requires SelectionInvariant(c) && (c.sharing ==> ValidIndexPath(c.searches, ip))
    ensures SelectionInvariant(DidDeselectItem(c, ip))
  {
  }

  lemma SearchKeepsSelectionInvariant(c: Controller, outcome: SearchOutcome)
    requires SelectionInvariant(c)
    ensures SelectionInvariant(SearchCompleted(c, outcome).after)
  {
    if outcome.SearchFound? {
      var a := SearchCompleted(c, outcome).after;
      forall p | p in a.selectedPhotos ensures InSearches(a.searches, p) {
        var s :| 0 <= s < |c.searches| && p in c.searches[s].searchResults;
        assert a.searches[s + 1] == c.searches[s];
      }
    }
  }

  lemma ShareKeepsSelectionInvariant(c: Controller, hasShareButton: bool)
    requires SelectionInvariant(c)
    ensures SelectionInvariant(Share(c, hasShareButton).after)
  {
  }

  lemma ShareCompletionKeepsSelectionInvariant(c: Controller, hasShareButton: bool)
    requires SelectionInvariant(c)
    ensures SelectionInvariant(ShareSheetCompleted(c, hasShareButton))
  {
  }

  /** In every state that keeps the invariant, the `guard sharing` of the share action never fires. */
  lemma ShareNeverFindsSelectionOutsideSharing(c: Controller, hasShareButton: bool)
    requires SelectionInvariant(c)
    ensures Share(c, hasShareButton).outcome != NotSharing
  {
  }

  // ---------------------------------------------------------------------------
  // The count label

  /** While sharing, the label shows the number of selected photos. */
  predicate LabelShowsCount(c: Controller)
  {
    c.sharing ==> c.shareLabelText == LabelText.ShareLabelText(true, |c.selectedPhotos|)
  }

  lemma InitialLabelShowsCount()
    ensures LabelShowsCount(Initial())
  {
  }

  lemma TapKeepsLabelShowsCount(c: Controller, ip: IndexPath)
    requires LabelShowsCount(c)
    ensures LabelShowsCount(ShouldSelectItem(c, ip).after)
  {
  }

  /** With the share button present, every assignment to `sharing` keeps the label in step with the count. */
  lemma AssignSharingKeepsLabelShowsCount(c: Controller, v: bool)
    requires LabelShowsCount(c)
    ensures LabelShowsCount(AssignSharing(c, v, true).after)
  {
  }

  lemma SelectKeepsLabelShowsCount(c: Controller, ip: IndexPath)
    requires LabelShowsCount(c) && (c.sharing ==> ValidIndexPath(c.searches, ip))
    ensures LabelShowsCount(DidSelectItem(c, ip))
  {
  }

  lemma DeselectKeepsLabelShowsCount(c: Controller, ip: IndexPath)
    requires LabelShowsCount(c) && (c.sharing ==> ValidIndexPath(c.searches, ip))
    ensures LabelShowsCount(DidDeselectItem(c, ip))
  {
  }

  lemma SearchKeepsLabelShowsCount(c: Controller, outcome: SearchOutcome)
    requires LabelShowsCount(c)
    ensures LabelShowsCount(SearchCompleted(c, outcome).after)
  {
  }

  lemma ShareKeepsLabelShowsCount(c: Controller)
    requires LabelShowsCount(c)
    ensures LabelShowsCount(Share(c, true).after)
  {
  }

  lemma ShareCompletionKeepsLabelShowsCount(c: Controller, hasShareButton: bool)
    requires LabelShowsCount(c)
    ensures LabelShowsCount(ShareSheetCompleted(c, hasShareButton))
  {
  }

  /** Without the share button, entering sharing mode leaves the label blank although sharing is on. */
  lemma LabelLagsWithoutShareButton()
    ensures var a := AssignSharing(Initial(), true, false).after;
      a.sharing && a.shareLabelText == "" && !LabelShowsCount(a)
  {
  }

  /** Leaving sharing mode through the share button does not clear the label: it still reads the zero count. */
  lemma LeavingSharingKeepsLabel(c: Controller)
    requires |c.searches| > 0 && c.selectedPhotos == [] && !c.sharing
    ensures var on := Share(c, true).after;
      var off := Share(on, true).after;
      && on.sharing && !off.sharing
      && off.shareLabelText == LabelText.ShareLabelText(true, 0)
      && off.shareLabelText != ""
  {
  }

  // ---------------------------------------------------------------------------
  // A target left behind by a new batch

  /**
    Searching "cat" (A, B), expanding (0, 1), searching "dog" (C) and tapping (0, 0)
    reloads (0, 0) and (0, 1), and (0, 1) no longer addresses a photo. Entering
    sharing mode from the same state reloads just (0, 1).
   */
  lemma StaleTargetReloaded(a: Photo, b: Photo, cPhoto: Photo)
    ensures var s1 := SearchCompleted(Initial(), SearchFound(SearchResults("cat", [a, b]))).after;
      var expanded := ShouldSelectItem(s1, IndexPath(0, 1)).after;
      var s2 := SearchCompleted(expanded, SearchFound(SearchResults("dog", [cPhoto]))).after;
      && !ValidIndexPath(s2.searches, IndexPath(0, 1))
      && ShouldSelectItem(s2, IndexPath(0, 0)).reloaded == [IndexPath(0, 0), IndexPath(0, 1)]
      && Share(s2, true).outcome == ToggledSharing([IndexPath(0, 1)])
  {
  }
}
