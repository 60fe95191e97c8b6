/**
  The view controller's state and event handlers, updating its fields in place the
  way the Swift class does. Each handler is proved to perform the transition that
  the matching function of GridSpec describes.
 */
module PhotosViewController {
  import opened FlickrTypes
  import opened GridSpec
  import LabelText

  class FlickrPhotosViewController {
    var searches: seq<SearchResults>
    var largePhotoIndexPath: Option<IndexPath>
    var sharing: bool
    var selectedPhotos: seq<Photo>
    var shareLabelText: string

    /** The controller's fields as one value. */
    function State(): Controller
      reads this
    {
      Controller(searches, largePhotoIndexPath, sharing, selectedPhotos, shareLabelText)
    }

    constructor ()
      ensures State() == Initial()
    {
      searches := [];
      largePhotoIndexPath := None;
      sharing := false;
      selectedPhotos := [];
      shareLabelText := "";
    }

    /** Assignment to `largePhotoIndexPath` followed by its observer, which lists the cells to reload. */
    method SetLargePhotoIndexPath(v: Option<IndexPath>) returns (reloaded: seq<IndexPath>)
      modifies this
      ensures State() == AssignLargePhotoIndexPath(old(State()), v).after
      ensures reloaded == AssignLargePhotoIndexPath(old(State()), v).reloaded
    {
      var oldValue := largePhotoIndexPath;
      largePhotoIndexPath := v;
      reloaded := [];
      if largePhotoIndexPath.Some? {
        reloaded := reloaded + [largePhotoIndexPath.value];
      }
      if oldValue.Some? {
        reloaded := reloaded + [oldValue.value];
      }
    }

    method UpdateSharedPhotoCountLabel()
      modifies this
      ensures State() == GridSpec.UpdateSharedPhotoCountLabel(old(State()))
    {
      if sharing {
        shareLabelText := LabelText.DecimalString(|selectedPhotos|) + LabelText.Suffix;
      } else {
        shareLabelText := "";
      }
    }

    /** Assignment to `sharing` followed by its observer. */
    method SetSharing(v: bool, hasShareButton: bool) returns (reloaded: seq<IndexPath>)
      modifies this
      ensures State() == AssignSharing(old(State()), v, hasShareButton).after
      ensures reloaded == AssignSharing(old(State()), v, hasShareButton).reloaded
    {
      sharing := v;
      selectedPhotos := [];
      reloaded := [];
      if !hasShareButton {
        return;
      }
      if !sharing {
        return;
      }
      if largePhotoIndexPath.Some? {
        reloaded := SetLargePhotoIndexPath(None);
      }
      UpdateSharedPhotoCountLabel();
    }

    /** The `share(_:)` action of the share button. */
    method ShareTapped(hasShareButton: bool) returns (outcome: ShareOutcome)
      modifies this
      ensures State() == Share(old(State()), hasShareButton).after
      ensures outcome == Share(old(State()), hasShareButton).outcome
    {
      if |searches| == 0 {
        return NoSearches;
      }
      if |selectedPhotos| == 0 {
        var reloaded := SetSharing(!sharing, hasShareButton);
        return ToggledSharing(reloaded);
      }
      if !sharing {
        return NotSharing;
      }
      var images := ExportedThumbnails(selectedPhotos);
      if images == [] {
        return NothingToShare;
      }
      outcome := PresentShareSheet(images);
    }

    /** The share sheet's `completionWithItemsHandler`. */
    method ShareCompleted(hasShareButton: bool)
      modifies this
      ensures State() == ShareSheetCompleted(old(State()), hasShareButton)
    {
      var _ := SetSharing(false, hasShareButton);
      selectedPhotos := [];
      UpdateSharedPhotoCountLabel();
    }

    /** The search completion handler in `textFieldShouldReturn`; returns whether the grid reloads. */
    method SearchFinished(outcome: SearchOutcome) returns (reloadData: bool)
      modifies this
      ensures State() == SearchCompleted(old(State()), outcome).after
      ensures reloadData == SearchCompleted(old(State()), outcome).reloadData
    {
      match outcome
      case SearchError(_) =>
        reloadData := false;
      case SearchFound(results) =>
        searches := [results] + searches;
        reloadData := true;
    }

    /** `shouldSelectItemAt`. */
    method ShouldSelectItemAt(ip: IndexPath) returns (shouldSelect: bool, reloaded: seq<IndexPath>)
      modifies this
      ensures State() == ShouldSelectItem(old(State()), ip).after
      ensures reloaded == ShouldSelectItem(old(State()), ip).reloaded
      ensures shouldSelect == ShouldSelectItem(old(State()), ip).shouldSelect
    {
      if sharing {
        return true, [];
      }
      if largePhotoIndexPath == Some(ip) {
        reloaded := SetLargePhotoIndexPath(None);
      } else {
        reloaded := SetLargePhotoIndexPath(Some(ip));
      }
      shouldSelect := false;
    }

    /** `didSelectItemAt`. */
    method DidSelectItemAt(ip: IndexPath)
      requires sharing ==> ValidIndexPath(searches, ip)
      modifies this
      ensures State() == DidSelectItem(old(State()), ip)
    {
      if !sharing {
        return;
      }
      var photo := PhotoFor(searches, ip);
      selectedPhotos := selectedPhotos + [photo];
      UpdateSharedPhotoCountLabel();
    }

    /** `didDeselectItemAt`. */
    method DidDeselectItemAt(ip: IndexPath)
      requires sharing ==> ValidIndexPath(searches, ip)
      modifies this
      ensures State() == DidDeselectItem(old(State()), ip)
    {
      if !sharing {
        return;
      }
      var photo := PhotoFor(searches, ip);
      var index := FirstIndexOf(selectedPhotos, photo);
      if index.Some? {
        selectedPhotos := RemoveAt(selectedPhotos, index.value);
        UpdateSharedPhotoCountLabel();
      }
    }

    /**
      The completion of a large-image fetch started for `requested`: the controller's
      target is read when the result arrives, and the controller's state is left alone.
     */
    method LargeImageLoaded(requested: IndexPath, result: LargeImageResult) returns (update: CellUpdate)
      ensures update.ShowImage? <==> result.Loaded? && largePhotoIndexPath == Some(requested)
      ensures update == LargeImageFetchCompleted(State(), requested, result)
    {
      match result
      case LoadFailed =>
        update := NoUpdate;
      case Loaded(large) =>
        if largePhotoIndexPath == Some(requested) {
          update := ShowImage(large);
        } else {
          update := NoUpdate;
        }
    }
  }
}
