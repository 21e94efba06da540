/** PostImageService: listing, uploading and deleting the images of a post.
    The file itself is written to or removed from the upload directory under
    its disk name; that I/O is not modelled, and its failures were only
    logged, so they change nothing below. */
module PostImages {
  import opened Wrappers
  import opened Strings
  import opened Entities
  import opened Store
  import opened Posts
  import opened Filenames

  /** `requireNonNull` on a missing original file name. */
  const NullFilename := Failure(NullPointer, "")
  const DeletionSuccessful := "deletion successful"

  function ImageNotFound(imageId: int): Failure
  {
    Failure(IllegalArgument, "image " + IntToString(imageId) + " not found")
  }

  /** `findAllByPostId`: the image rows of an existing post. */
  function FindAllByPostId(posts: map<int, Post>, images: map<int, PostImage>, postId: int): (r: Result<set<PostImage>>)
    ensures r.Err? <==> postId !in posts
    ensures r.Err? ==> r.error == PostNotFound
    ensures r.Ok? ==> forall im :: im in r.value ==> im in images.Values && im.postId == postId
    ensures r.Ok? ==> forall k :: k in images && images[k].postId == postId ==> images[k] in r.value
  {
    if postId !in posts then Err(PostNotFound)
    else Ok(set k | k in images && images[k].postId == postId :: images[k])
  }

  /** `uploadPostImage`: the row keeps the original name; the name must split
      into a name and an extension for the disk name to be computed.
      `fileCopied` is the outcome of copying the upload to `file`, the disk
      name; a failed copy is only logged, so the row is saved either way. */
  method UploadPostImage(db: Database, postId: int, filename: Option<string>, fileCopied: bool)
    returns (r: Result<PostImage>, file: Option<string>)
    requires db.Valid()
    modifies db`images, db`nextImageId
    ensures db.Valid()
    ensures postId !in old(db.posts) ==> r == Err(PostNotFound)
    ensures postId in old(db.posts) && filename.None? ==> r == Err(NullFilename)
    ensures postId in old(db.posts) && filename.Some? ==>
      && (r.Ok? <==> DiskName(filename.value).Ok?)
      && (DiskName(filename.value).Err? ==> r == Err(DiskName(filename.value).error))
    ensures r.Err? ==> db.images == old(db.images) && db.nextImageId == old(db.nextImageId)
    ensures r.Ok? ==>
      && filename.Some?
      && r.value == PostImage(old(db.nextImageId), postId, filename.value)
      && DiskName(r.value.filename).Ok?
      && r.value.id !in old(db.images)
      && db.images == old(db.images)[r.value.id := r.value]
      && db.nextImageId == old(db.nextImageId) + 1
    ensures r.Ok? <==> file.Some?
    ensures r.Ok? ==> file.value == DiskName(r.value.filename).value
  {
    file := None;
    var post := FindPostById(db.posts, postId);
    if post.Err? {
      return Err(post.error), file;
    }
    if filename.None? {
      return Err(NullFilename), file;
    }
    var diskName := DiskName(filename.value);
    if diskName.Err? {
      return Err(diskName.error), file;
    }
    file := Some(diskName.value);
    // whatever `fileCopied` says, the row is saved
    var image := PostImage(db.nextImageId, postId, filename.value);
    db.images := db.images[image.id := image];
    db.nextImageId := db.nextImageId + 1;
    return Ok(image), file;
  }

  /** `deleteImage`: the post must exist, then the image; the image is not
      checked to belong to that post. `file` is the disk name removed, which
      is the one the upload of the stored name wrote; a failed removal is
      only logged. */
  method DeleteImage(db: Database, postId: int, imageId: int) returns (r: Result<string>, file: Option<string>)
    requires db.Valid()
    modifies db`images
    ensures db.Valid()
    ensures postId !in old(db.posts) ==> r == Err(PostNotFound)
    ensures postId in old(db.posts) && imageId !in old(db.images) ==> r == Err(ImageNotFound(imageId))
    ensures postId in old(db.posts) && imageId in old(db.images) ==>
      && (r.Ok? <==> DiskName(old(db.images)[imageId].filename).Ok?)
      && (DiskName(old(db.images)[imageId].filename).Err? ==> r == Err(DiskName(old(db.images)[imageId].filename).error))
    ensures r.Err? ==> db.images == old(db.images)
    ensures r.Ok? ==> r.value == DeletionSuccessful && db.images == old(db.images) - {imageId}
    ensures r.Ok? <==> file.Some?
    ensures r.Ok? ==> file.value == DiskName(old(db.images)[imageId].filename).value
  {
    file := None;
    var post := FindPostById(db.posts, postId);
    if post.Err? {
      return Err(post.error), file;
    }
    if imageId !in db.images {
      return Err(ImageNotFound(imageId)), file;
    }
    var image := db.images[imageId];
    var diskName := DiskName(image.filename);
    if diskName.Err? {
      return Err(diskName.error), file;
    }
    file := Some(diskName.value);
    db.images := db.images - {imageId};
    return Ok(DeletionSuccessful), file;
  }
}
