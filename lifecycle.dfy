/** The consistency the image routes try to keep between the records of a
    collection (projects, clients) and the uploads directory: every record's
    reference names a file that exists, and no file is named by two records.
    `image` reads a record's reference; the route modules pass their own. */
module ImageLifecycle {
  import opened Common
  import opened FileSystem
  import opened Uploads
  import opened ImageProcessor

  /** Every record's image reference resolves to an existing file. */
  ghost predicate ImagesOnDisk<R>(records: map<Id, R>, image: R -> string, files: map<string, Content>)
  {
    forall id :: id in records ==> DiskPathOf(image(records[id])) in files
  }

  /** No two records reference the same file. */
  ghost predicate ImagesUnshared<R>(records: map<Id, R>, image: R -> string)
  {
    forall a, b :: a in records && b in records && a != b ==>
      DiskPathOf(image(records[a])) != DiskPathOf(image(records[b]))
  }

  /** No record references the file at `path`. */
  ghost predicate Unreferenced<R>(records: map<Id, R>, image: R -> string, path: string)
  {
    forall id :: id in records ==> DiskPathOf(image(records[id])) != path
  }

  /** A successful create keeps both properties, provided the middleware's
      upload and the name derived from it are not already in use. */
  lemma CreateKeepsImages<R>(records: map<Id, R>, image: R -> string, files: map<string, Content>,
                             id: Id, record: R, upload: Upload)
    requires ImagesOnDisk(records, image, files) && ImagesUnshared(records, image)
    requires image(record) == ImageUrl(upload.filename)
    requires Processable(files, upload.path, ProcessedDiskPath(upload.filename))
    requires Unreferenced(records, image, upload.path)
    requires Unreferenced(records, image, ProcessedDiskPath(upload.filename))
    ensures var after := AfterTransform(files, upload.path, ProcessedDiskPath(upload.filename));
      ImagesOnDisk(records[id := record], image, after) && ImagesUnshared(records[id := record], image)
  {
    ReferenceNamesWrittenFile(upload.filename);
  }

  /** A successful image replacement (old file removed, new one written,
      reference repointed) keeps both properties under the same freshness
      condition. */
  lemma ReplaceKeepsImages<R>(records: map<Id, R>, image: R -> string, files: map<string, Content>,
                              id: Id, record: R, upload: Upload)
    requires ImagesOnDisk(records, image, files) && ImagesUnshared(records, image)
    requires id in records
    requires image(record) == ImageUrl(upload.filename)
    requires var cleared := files - {DiskPathOf(image(records[id]))};
      Processable(cleared, upload.path, ProcessedDiskPath(upload.filename))
    requires Unreferenced(records, image, upload.path)
    requires Unreferenced(records, image, ProcessedDiskPath(upload.filename))
    ensures var cleared := files - {DiskPathOf(image(records[id]))};
      var after := AfterTransform(cleared, upload.path, ProcessedDiskPath(upload.filename));
      ImagesOnDisk(records[id := record], image, after) && ImagesUnshared(records[id := record], image)
  {
    ReferenceNamesWrittenFile(upload.filename);
  }

  /** Deleting a record together with its file keeps both properties for
      the records that remain. */
  lemma DeleteKeepsImages<R>(records: map<Id, R>, image: R -> string, files: map<string, Content>, id: Id)
    requires ImagesOnDisk(records, image, files) && ImagesUnshared(records, image)
    requires id in records
    ensures ImagesOnDisk(records - {id}, image, files - {DiskPathOf(image(records[id]))})
    ensures ImagesUnshared(records - {id}, image)
  {
  }
}
