/** The controller's check of an uploaded image, run by both the create and
    the update handler before anything is stored: first the declared content
    type, then the size. */
module Upload {
  import opened Text

  /** Content types accepted as images. */
  const ImagePrefix: string := "image/"

  /** The largest accepted upload, 5 MiB, in bytes. */
  const MaxSize: nat := 5 * 1024 * 1024

  const InvalidTypeMessage: string := "Invalid file type. Only images allowed."
  const TooLargeMessage: string := "File too large. Max 5MB."

  /** The outcome of the check; a rejection carries the 400 body. */
  datatype Verdict = Accepted | Rejected(message: string)

  /** The content type names an image, stated by slicing rather than by the
      scanner `StartsWith` uses. */
  ghost predicate IsImageType(contentType: string) {
    |ImagePrefix| <= |contentType| && contentType[..|ImagePrefix|] == ImagePrefix
  }

  /** The upload check for a file of `size` bytes declared as `contentType`.
      The type is tested first, so a non-image is refused as such whatever
      its size; the size limit is inclusive. */
  function Validate(contentType: string, size: nat): (v: Verdict)
    ensures v.Accepted? <==> IsImageType(contentType) && size <= MaxSize
    ensures !IsImageType(contentType) ==> v == Rejected(InvalidTypeMessage)
    ensures IsImageType(contentType) && MaxSize < size ==> v == Rejected(TooLargeMessage)
  {
    OccursAtIff(contentType, ImagePrefix, 0);
    if !StartsWith(contentType, ImagePrefix) then Rejected(InvalidTypeMessage)
    else if size > MaxSize then Rejected(TooLargeMessage)
    else Accepted
  }

  /** An image of exactly 5242880 bytes passes; one byte more is refused as
      too large. */
  lemma SizeLimitIsInclusive(contentType: string)
    requires IsImageType(contentType)
    ensures Validate(contentType, 5242880) == Accepted
    ensures Validate(contentType, 5242881) == Rejected(TooLargeMessage)
  {
  }

  /** The type check wins: a non-image is refused for its type even when it
      is also too large. */
  lemma TypeCheckedFirst(contentType: string, size: nat)
    requires !IsImageType(contentType) && MaxSize < size
    ensures Validate(contentType, size) == Rejected(InvalidTypeMessage)
  {
  }
}
