/** Per-image metadata (`extract_image_metadata`): the position and the capture
    date decoded from one image's tag dictionary. Reading the file and decoding
    the raw tag numbers into names is outside the model; an image's tags
    arrive as an `Exif` record. */
module Metadata {
  import opened Wrappers
  import opened Errors
  import opened Gps
  import opened CaptureDate

  /** The two parts of an image's decoded tag dictionary the report reads:
      the `GPSInfo` block (empty when the image has none) and the
      `DateTimeOriginal` text. */
  datatype Exif = Exif(gpsInfo: GpsInfo, dateTimeOriginal: Option<string>)

  /** What the report records for one image. */
  datatype ImageMeta = ImageMeta(gps: Option<Coord>, date: Option<Date>)

  /** Decodes both values; a malformed coordinate raises, a bad date does not. */
  function ExtractMetadata(exif: Exif): (r: Result<ImageMeta, Error>)
    ensures r.Failure? <==> GpsLocation(exif.gpsInfo).Failure?
    ensures r.Success? ==> Success(r.value.gps) == GpsLocation(exif.gpsInfo)
    ensures r.Success? ==> r.value.date == ImageDate(exif.dateTimeOriginal)
    ensures r.Success? ==> r.value.gps.Some? ==> HasPosition(exif.gpsInfo)
    ensures r.Success? ==> r.value.date.Some? ==>
              exists t :: Valid(t) && exif.dateTimeOriginal == Some(Format(t)) && r.value.date.value == DateOf(t)
  {
    var gps :- GpsLocation(exif.gpsInfo);
    Success(ImageMeta(gps, ImageDate(exif.dateTimeOriginal)))
  }

  /** An image without any tags has neither a position nor a date. */
  lemma NoTagsNoMetadata()
    ensures ExtractMetadata(Exif(map[], None)) == Success(ImageMeta(None, None))
  {
  }
}
