/** The image store the routes upload to and delete from (Cloudinary). It is
    an external service: the model records which calls were made, in order,
    and takes the URL and public id an upload returns as part of the file
    handed to it. */
module Storage {

  import opened Common

  /** What an upload returns: `secure_url` and `public_id`. */
  datatype Asset = Asset(url: string, publicId: string)

  /** A file staged by the upload middleware: its temporary path, its size in
      bytes, and the asset the image store returns when it is uploaded. */
  datatype ImageFile = ImageFile(tempFilePath: string, size: nat, stored: Asset)

  /** The asset an optional upload produces. */
  function StoredAsset(image: Option<ImageFile>): (a: Option<Asset>)
    ensures a.Some? <==> image.Some?
    ensures a.Some? ==> a.value == image.value.stored
  {
    match image
    case None => None
    case Some(f) => Some(f.stored)
  }

  /** The temporary paths an optional upload sends to the image store. */
  function UploadedPaths(image: Option<ImageFile>): (paths: seq<string>)
    ensures |paths| <= 1
    ensures image.None? ==> paths == []
    ensures image.Some? ==> paths == [image.value.tempFilePath]
  {
    match image
    case None => []
    case Some(f) => [f.tempFilePath]
  }

  class MediaStore {
    /** Temporary paths passed to `uploader.upload`, oldest first. */
    var uploaded: seq<string>
    /** Public ids passed to `uploader.destroy`, oldest first. */
    var destroyed: seq<string>

    constructor ()
      ensures uploaded == [] && destroyed == []
    {
      uploaded := [];
      destroyed := [];
    }

    /** `cloudinary.uploader.upload(file.tempFilePath)`. */
    method Upload(file: ImageFile) returns (a: Asset)
      modifies this
      ensures a == file.stored
      ensures uploaded == old(uploaded) + [file.tempFilePath]
      ensures destroyed == old(destroyed)
    {
      uploaded := uploaded + [file.tempFilePath];
      a := file.stored;
    }

    /** Uploads the file when there is one: the routes' `if (req.files?.x)`
        branch around `uploader.upload`. */
    method UploadIfAny(image: Option<ImageFile>) returns (a: Option<Asset>)
      modifies this
      ensures a == StoredAsset(image)
      ensures uploaded == old(uploaded) + UploadedPaths(image)
      ensures destroyed == old(destroyed)
    {
      a := None;
      if image.Some? {
        var stored := Upload(image.value);
        a := Some(stored);
      }
    }

    /** `cloudinary.uploader.destroy(publicId)`. */
    method Destroy(publicId: string)
      modifies this
      ensures destroyed == old(destroyed) + [publicId]
      ensures uploaded == old(uploaded)
    {
      destroyed := destroyed + [publicId];
    }
  }
}
