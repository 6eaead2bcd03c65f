/** What the two pipelines write to the outside world, and the
    collaborators they consult. Blob storage and the database are not
    modelled as stores; each write is an event appended to a log, in the
    order the pipeline performs it. */
module Effects {
  import opened Wrappers
  import opened EmbeddingCodec
  import opened FaceRecognition

  /** A point in time read from a photo's EXIF data; the pipelines only
      pass it on. */
  datatype DateTime = DateTime(ticks: int)

  /** A row of the PhotoMetaData table. */
  datatype PhotoMetaData = PhotoMetaData(
    peopleIdentified: string,
    photoName: string,
    blobUrl: string,
    dateTaken: Option<DateTime>)

  /** One write to blob storage or to the database. */
  datatype Effect =
    | SaveKnownFaces(name: string, encodings: seq<Embedding>)  // upsert of a KnownFaces row
    | UploadConverted(key: string, source: string)              // WebP conversion of `source`, stored at `key`
    | SavePhotoMetaData(metaData: PhotoMetaData)                // insert of a PhotoMetaData row
    | StartCopy(key: string, source: string)                    // server-side copy of `source` to `key`
    | DeleteBlob(key: string)

  /** The collaborators: the container's URI, Dlib's face encoder, the
      descriptor distance and the EXIF reader, each as a function of the
      blob key. */
  datatype Services = Services(
    containerUri: string,
    encoder: Encoder,
    distance: Distance,
    dateTaken: string -> Option<DateTime>)
}
