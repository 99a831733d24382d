/** How the image routes name files: the upload handle the multer middleware
    passes in, the `processed-` file the transform writes next to it, and the
    public `/uploads/...` reference stored in the record (the directory that
    server.js serves under that prefix). */
module Uploads {

  /** `req.file`: where the middleware stored the raw bytes and the file name
      it generated for them. */
  datatype Upload = Upload(path: string, filename: string)

  /** The URL prefix under which server.js serves the uploads directory. */
  const PublicPrefix: string := "/uploads"

  /** The uploads directory, relative to the backend directory. */
  const UploadsDir: string := "uploads"

  /** Marks a file as transform output, as opposed to a raw upload. */
  const ProcessedMarker: string := "processed-"

  function ProcessedName(filename: string): string
  {
    ProcessedMarker + filename
  }

  /** `path.join(routesDir, '../uploads/', processedFileName)`: where the
      transform writes. */
  function ProcessedDiskPath(filename: string): string
  {
    UploadsDir + "/" + ProcessedName(filename)
  }

  /** `` `/uploads/${processedFileName}` ``: the reference the record stores. */
  function ImageUrl(filename: string): string
  {
    PublicPrefix + "/" + ProcessedName(filename)
  }

  /** `path.join(routesDir, '..', image)`: the file a stored reference names,
      relative to the backend directory (joining drops leading slashes). */
  function DiskPathOf(image: string): string
  {
    if |image| > 0 && image[0] == '/' then DiskPathOf(image[1..]) else image
  }

  /** The file that update and delete remove for a record is the very file
      that create (or the last update) wrote for it. */
  lemma ReferenceNamesWrittenFile(filename: string)
    ensures DiskPathOf(ImageUrl(filename)) == ProcessedDiskPath(filename)
  {
    var url := ImageUrl(filename);
    assert url[0] == '/';
    assert url[1..] == ProcessedDiskPath(filename);
    assert url[1..][0] == 'u';
  }

  /** Distinct upload names give distinct processed files and distinct
      references. */
  lemma ProcessedPathsDistinct(f: string, g: string)
    requires f != g
    ensures ProcessedDiskPath(f) != ProcessedDiskPath(g)
    ensures ImageUrl(f) != ImageUrl(g)
  {
    var prefix := UploadsDir + "/" + ProcessedMarker;
    assert ProcessedDiskPath(f) == prefix + f && ProcessedDiskPath(g) == prefix + g;
    assert (prefix + f)[|prefix|..] == f && (prefix + g)[|prefix|..] == g;
    var urlPrefix := PublicPrefix + "/" + ProcessedMarker;
    assert ImageUrl(f) == urlPrefix + f && ImageUrl(g) == urlPrefix + g;
    assert (urlPrefix + f)[|urlPrefix|..] == f && (urlPrefix + g)[|urlPrefix|..] == g;
  }
}
