/** The values the photo grid works on: photos, search batches and cell addresses. */
module FlickrTypes {

  datatype Option<T> = None | Some(value: T)

  /** An image handle; pixel data and decoding are not modelled. */
  datatype Image = Image(handle: nat)

  /** A search result photo: its Flickr id and the images loaded for it so far. */
  datatype Photo = Photo(photoID: string, thumbnail: Option<Image>, largeImage: Option<Image>)

  /** Photos compare equal when their ids agree: `FlickrPhoto`'s `==` is assumed to compare `photoID`. */
  predicate SamePhoto(a: Photo, b: Photo)
  {
    a.photoID == b.photoID
  }

  /** One completed search: the term that was searched and the photos found, in result order. */
  datatype SearchResults = SearchResults(searchTerm: string, searchResults: seq<Photo>)

  /** A cell address in the grid: section = search batch, row = photo within that batch. */
  datatype IndexPath = IndexPath(section: nat, row: nat)

  /** `ip` resolves: its section indexes into `searches` and its row into that batch. */
  predicate ValidIndexPath(searches: seq<SearchResults>, ip: IndexPath)
  {
    ip.section < |searches| && ip.row < |searches[ip.section].searchResults|
  }

  /** `photo(for:)`: the photo shown at `ip`; an address that does not resolve traps in the source. */
  function PhotoFor(searches: seq<SearchResults>, ip: IndexPath): (p: Photo)
    requires ValidIndexPath(searches, ip)
    ensures p in searches[ip.section].searchResults
  {
    searches[ip.section].searchResults[ip.row]
  }

  /** Prepending a batch moves the photo at (s, r) to (s + 1, r). */
  lemma PhotoForAfterPrepend(batch: SearchResults, searches: seq<SearchResults>, ip: IndexPath)
    requires ValidIndexPath(searches, ip)
    ensures ValidIndexPath([batch] + searches, IndexPath(ip.section + 1, ip.row))
    ensures PhotoFor([batch] + searches, IndexPath(ip.section + 1, ip.row)) == PhotoFor(searches, ip)
  {
    assert ([batch] + searches)[ip.section + 1] == searches[ip.section];
  }
}
