/** The records returned by the Drive listing calls and the two listing
    helpers `list_subfolders` and `list_images_in_folder`.

    The Drive service itself (query construction, `files().list(...)`,
    `execute()`) is an injected oracle: a pair of functions from a folder id
    to either the listed records or an HTTP error. */
module Drive {
  import opened Wrappers

  /** An `HttpError` raised by the Drive client, reduced to its status code. */
  datatype HttpError = HttpError(status: nat)

  /** A product folder as listed with `fields='files(id, name)'`. */
  datatype Folder = Folder(id: string, name: string)

  /** An image file as listed with `fields='files(id, name, thumbnailLink,
      webViewLink)'`; Drive omits a link field that a file does not have. */
  datatype Image = Image(
    id: string,
    name: string,
    thumbnailLink: Option<string>,
    webViewLink: Option<string>)

  /** The remote listing service: the non-trashed child folders of a folder,
      and its non-trashed JPEG, PNG and WebP images (first page only). */
  datatype Service = Service(
    subfolders: string -> Result<seq<Folder>, HttpError>,
    images: string -> Result<seq<Image>, HttpError>)

  /** `list_subfolders`: any listing error degrades to the empty list. */
  function ListSubfolders(service: Service, parentId: string): (folders: seq<Folder>)
    ensures service.subfolders(parentId).Err? ==> folders == []
    ensures service.subfolders(parentId).Ok? ==> folders == service.subfolders(parentId).value
  {
    match service.subfolders(parentId)
    case Ok(listed) => listed
    case Err(_) => []
  }

  /** `list_images_in_folder`: any listing error degrades to the empty list. */
  function ListImages(service: Service, folderId: string): (images: seq<Image>)
    ensures service.images(folderId).Err? ==> images == []
    ensures service.images(folderId).Ok? ==> images == service.images(folderId).value
  {
    match service.images(folderId)
    case Ok(listed) => listed
    case Err(_) => []
  }
}
