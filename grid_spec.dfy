/**
  The photo grid controller as a value: its state and one transition function per
  event the controller handles. Rendering is replaced by returned signals (the cells
  to reload, what a cell shows, whether a fetch starts).
 */
module GridSpec {
  import opened FlickrTypes
  import LabelText

  /** The controller's state: search batches (newest first), the expanded cell, the sharing flag, the selected photos and the count label's text. */
  datatype Controller = Controller(
    searches: seq<SearchResults>,
    largePhotoIndexPath: Option<IndexPath>,
    sharing: bool,
    selectedPhotos: seq<Photo>,
    shareLabelText: string)

  /** The state when the controller is created: no searches, nothing expanded, not sharing. */
  function Initial(): (c: Controller)
  {
    Controller([], None, false, [], "")
  }

  /** A new state together with the cells the grid is told to reload. */
  datatype Step = Step(after: Controller, reloaded: seq<IndexPath>)

  // ---------------------------------------------------------------------------
  // Property observers

  /** The cells reloaded by the `largePhotoIndexPath` observer: the new target, then the old one. */
  function ReloadedCells(newValue: Option<IndexPath>, oldValue: Option<IndexPath>): (cells: seq<IndexPath>)
    ensures |cells| == (if newValue.Some? then 1 else 0) + (if oldValue.Some? then 1 else 0)
    ensures newValue.Some? ==> cells[0] == newValue.value
    ensures oldValue.Some? ==> cells[|cells| - 1] == oldValue.value
    ensures forall ip :: ip in cells <==> newValue == Some(ip) || oldValue == Some(ip)
  {
    (if newValue.Some? then [newValue.value] else []) + (if oldValue.Some? then [oldValue.value] else [])
  }

  /** Assigning `largePhotoIndexPath`; the observer runs on every assignment. */
  function AssignLargePhotoIndexPath(c: Controller, v: Option<IndexPath>): (r: Step)
    ensures r.after.largePhotoIndexPath == v
    ensures r.after.(largePhotoIndexPath := c.largePhotoIndexPath) == c
    ensures r.reloaded == ReloadedCells(v, c.largePhotoIndexPath)
  {
    Step(c.(largePhotoIndexPath := v), ReloadedCells(v, c.largePhotoIndexPath))
  }

  /** `updateSharedPhotoCountLabel`. */
  function UpdateSharedPhotoCountLabel(c: Controller): (r: Controller)
    ensures r.(shareLabelText := c.shareLabelText) == c
    ensures r.shareLabelText == LabelText.ShareLabelText(c.sharing, |c.selectedPhotos|)
  {
    c.(shareLabelText := LabelText.ShareLabelText(c.sharing, |c.selectedPhotos|))
  }

  /**
    Assigning `sharing`: the selection is always emptied; without a share button
    the observer stops there; leaving sharing mode stops there too; entering it
    collapses the expanded cell (if any) and refreshes the count label.
   */
  function AssignSharing(c: Controller, v: bool, hasShareButton: bool): (r: Step)
    ensures r.after.sharing == v && r.after.selectedPhotos == [] && r.after.searches == c.searches
    ensures |r.reloaded| <= 1
  {
    var cleared := c.(sharing := v, selectedPhotos := []);
    if !hasShareButton || !v then Step(cleared, [])
    else if cleared.largePhotoIndexPath.Some? then
      var collapse := AssignLargePhotoIndexPath(cleared, None);
      Step(UpdateSharedPhotoCountLabel(collapse.after), collapse.reloaded)
    else
      Step(UpdateSharedPhotoCountLabel(cleared), [])
  }

  // ---------------------------------------------------------------------------
  // Taps, selection, deselection

  datatype TapResult = TapResult(after: Controller, reloaded: seq<IndexPath>, shouldSelect: bool)

  /** `shouldSelectItemAt`: outside sharing mode a tap toggles expansion and refuses selection. */
  function ShouldSelectItem(c: Controller, ip: IndexPath): (r: TapResult)
    ensures r.shouldSelect == c.sharing
    ensures r.after.(largePhotoIndexPath := c.largePhotoIndexPath) == c
    ensures |r.reloaded| <= 2
  {
    if c.sharing then TapResult(c, [], true)
    else
      var s := AssignLargePhotoIndexPath(c, if c.largePhotoIndexPath == Some(ip) then None else Some(ip));
      TapResult(s.after, s.reloaded, false)
  }

  /** `didSelectItemAt`: while sharing, the photo is appended to the selection. */
  function DidSelectItem(c: Controller, ip: IndexPath): (r: Controller)
    requires c.sharing ==> ValidIndexPath(c.searches, ip)
    ensures r.searches == c.searches && r.largePhotoIndexPath == c.largePhotoIndexPath && r.sharing == c.sharing
    ensures |r.selectedPhotos| == |c.selectedPhotos| + (if c.sharing then 1 else 0)
  {
    if !c.sharing then c
    else UpdateSharedPhotoCountLabel(c.(selectedPhotos := c.selectedPhotos + [PhotoFor(c.searches, ip)]))
  }

  /** `firstIndex(of:)`: the first position holding the same photo, if any. */
  function FirstIndexOf(s: seq<Photo>, p: Photo): (r: Option<nat>)
    ensures r.Some? ==> r.value < |s| && SamePhoto(s[r.value], p)
    ensures r.Some? ==> forall j :: 0 <= j < r.value ==> !SamePhoto(s[j], p)
    ensures r.None? <==> forall j :: 0 <= j < |s| ==> !SamePhoto(s[j], p)
  {
    if s == [] then None
    else if SamePhoto(s[0], p) then Some(0)
    else match FirstIndexOf(s[1..], p)
      case None => None
      case Some(i) => Some(i + 1)
  }

  /** `remove(at:)`. */
  function RemoveAt<T>(s: seq<T>, i: nat): (r: seq<T>)
    requires i < |s|
    ensures |r| == |s| - 1
    ensures forall j :: 0 <= j < i ==> r[j] == s[j]
    ensures forall j :: i <= j < |r| ==> r[j] == s[j + 1]
    ensures forall x :: x in r ==> x in s
  {
    var r := s[..i] + s[i + 1..];
    assert forall x :: x in r ==> x in s by {
      forall x | x in r ensures x in s {
        var j :| 0 <= j < |r| && r[j] == x;
        if j < i { assert s[j] == x; } else { assert s[j + 1] == x; }
      }
    }
    r
  }

  /** `didDeselectItemAt`: while sharing, the first occurrence of the photo leaves the selection. */
  function DidDeselectItem(c: Controller, ip: IndexPath): (r: Controller)
    requires c.sharing ==> ValidIndexPath(c.searches, ip)
    ensures r.searches == c.searches && r.largePhotoIndexPath == c.largePhotoIndexPath && r.sharing == c.sharing
    ensures |c.selectedPhotos| - 1 <= |r.selectedPhotos| <= |c.selectedPhotos|
    ensures forall p :: p in r.selectedPhotos ==> p in c.selectedPhotos
  {
    if !c.sharing then c
    else match FirstIndexOf(c.selectedPhotos, PhotoFor(c.searches, ip))
      case None => c
      case Some(i) => UpdateSharedPhotoCountLabel(c.(selectedPhotos := RemoveAt(c.selectedPhotos, i)))
  }

  // ---------------------------------------------------------------------------
  // Search results

  /** What the search client delivers to the completion handler. */
  datatype SearchOutcome = SearchError(message: string) | SearchFound(results: SearchResults)

  datatype SearchStep = SearchStep(after: Controller, reloadData: bool)

  /** The completion handler in `textFieldShouldReturn`: a result is inserted at index 0 and the grid reloaded. */
  function SearchCompleted(c: Controller, outcome: SearchOutcome): (r: SearchStep)
    ensures r.after.(searches := c.searches) == c
    ensures r.reloadData <==> outcome.SearchFound?
    ensures |r.after.searches| == |c.searches| + (if outcome.SearchFound? then 1 else 0)
  {
    match outcome
    case SearchError(_) => SearchStep(c, false)
    case SearchFound(results) => SearchStep(c.(searches := [results] + c.searches), true)
  }

  // ---------------------------------------------------------------------------
  // Sharing

  /** The `compactMap` in `share(_:)`: the thumbnails of the photos, in order, skipping photos without one. */
  function ExportedThumbnails(photos: seq<Photo>): (images: seq<Image>)
    ensures |images| <= |photos|
    ensures forall im :: im in images ==> exists p :: p in photos && p.thumbnail == Some(im)
  {
    if photos == [] then []
    else
      (if photos[0].thumbnail.Some? then [photos[0].thumbnail.value] else [])
      + ExportedThumbnails(photos[1..])
  }

  /** What pressing the share button leads to. */
  datatype ShareOutcome =
    | NoSearches                                  // nothing has been searched yet
    | ToggledSharing(reloaded: seq<IndexPath>)    // the selection was empty: sharing is toggled
    | NotSharing                                  // photos are selected but sharing is off
    | NothingToShare                              // no selected photo has a thumbnail
    | PresentShareSheet(images: seq<Image>)       // the activity sheet is shown with these images

  datatype ShareStep = ShareStep(after: Controller, outcome: ShareOutcome)

  /** `share(_:)`. */
  function Share(c: Controller, hasShareButton: bool): (r: ShareStep)
    ensures r.after.searches == c.searches
    ensures r.after != c ==> r.outcome.ToggledSharing?
  {
    if |c.searches| == 0 then ShareStep(c, NoSearches)
    else if |c.selectedPhotos| == 0 then
      var s := AssignSharing(c, !c.sharing, hasShareButton);
      ShareStep(s.after, ToggledSharing(s.reloaded))
    else if !c.sharing then ShareStep(c, NotSharing)
    else
      var images := ExportedThumbnails(c.selectedPhotos);
      if images == [] then ShareStep(c, NothingToShare) else ShareStep(c, PresentShareSheet(images))
  }

  /** The share sheet's completion handler: sharing off, selection emptied, label refreshed. */
  function ShareSheetCompleted(c: Controller, hasShareButton: bool): (r: Controller)
    ensures !r.sharing && r.selectedPhotos == [] && r.shareLabelText == ""
    ensures r.searches == c.searches && r.largePhotoIndexPath == c.largePhotoIndexPath
  {
    var s := AssignSharing(c, false, hasShareButton);
    UpdateSharedPhotoCountLabel(s.after.(selectedPhotos := []))
  }

  // ---------------------------------------------------------------------------
  // Cells, large-image fetches, drag

  /** What `cellForItemAt` puts in a cell, and whether it starts a large-image fetch for it. */
  datatype CellDisplay = CellDisplay(image: Option<Image>, startsLargeImageFetch: bool)

  /**
    `cellForItemAt`. `cellOnScreen` stands for the grid handing back the cell in
    `performLargeImageFetch`; when it does not, no fetch is started.
   */
  function CellForItem(c: Controller, ip: IndexPath, cellOnScreen: bool): (d: CellDisplay)
    requires ValidIndexPath(c.searches, ip)
    ensures d.startsLargeImageFetch <==>
      c.largePhotoIndexPath == Some(ip) && PhotoFor(c.searches, ip).largeImage.None? && cellOnScreen
    ensures c.largePhotoIndexPath == Some(ip) && PhotoFor(c.searches, ip).largeImage.Some? ==>
      d.image == PhotoFor(c.searches, ip).largeImage
    ensures !(c.largePhotoIndexPath == Some(ip) && PhotoFor(c.searches, ip).largeImage.Some?) ==>
      d.image == PhotoFor(c.searches, ip).thumbnail
  {
    var photo := PhotoFor(c.searches, ip);
    if c.largePhotoIndexPath != Some(ip) then CellDisplay(photo.thumbnail, false)
    else if photo.largeImage.Some? then CellDisplay(photo.largeImage, false)
    else CellDisplay(photo.thumbnail, cellOnScreen)
  }

  /** The result `loadLargeImage` delivers: the photo's large image, or an error. */
  datatype LargeImageResult = Loaded(largeImage: Option<Image>) | LoadFailed

  /** What a fetch completion does to the cell it was started for. */
  datatype CellUpdate = NoUpdate | ShowImage(image: Option<Image>)

  /** The completion in `performLargeImageFetch`: applied only if the requested cell is still the target. */
  function LargeImageFetchCompleted(c: Controller, requested: IndexPath, result: LargeImageResult): (u: CellUpdate)
    ensures u.ShowImage? <==> result.Loaded? && c.largePhotoIndexPath == Some(requested)
    ensures u.ShowImage? ==> u.image == result.largeImage
  {
    match result
    case LoadFailed => NoUpdate
    case Loaded(large) => if c.largePhotoIndexPath == Some(requested) then ShowImage(large) else NoUpdate
  }

  /** `itemsForBeginning`: one drag item carrying the thumbnail, or none when there is no thumbnail. */
  function ItemsForBeginning(searches: seq<SearchResults>, ip: IndexPath): (items: seq<Image>)
    requires ValidIndexPath(searches, ip)
    ensures |items| <= 1
    ensures items == [] <==> PhotoFor(searches, ip).thumbnail.None?
    ensures forall im :: im in items ==> PhotoFor(searches, ip).thumbnail == Some(im)
  {
    match PhotoFor(searches, ip).thumbnail
    case None => []
    case Some(thumbnail) => [thumbnail]
  }
}
