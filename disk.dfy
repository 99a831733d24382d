/** The backend's uploads directory, seen through the only calls the core
    makes on it: `existsSync`, `unlinkSync`, and the write `sharp` performs in
    `toFile`. Paths are relative to the backend directory. */
module FileSystem {

  /** A positive pixel count. */
  type Pixels = n: int | n >= 1 witness 1

  /** What a file holds, as far as the core can tell: a picture `sharp` can
      decode (only its size matters here), or bytes it cannot decode. */
  datatype Content = Picture(width: Pixels, height: Pixels) | Undecodable

  class Disk {
    var files: map<string, Content>

    constructor (initial: map<string, Content>)
      ensures files == initial
    {
      files := initial;
    }

    /** `fs.existsSync(path)`. */
    predicate Exists(path: string)
      reads this
    {
      path in files
    }

    /** `fs.unlinkSync(path)`; it throws on a missing file, which every
        caller in the core rules out first. */
    method Unlink(path: string)
      requires path in files
      modifies this
      ensures files == old(files) - {path}
    {
      files := files - {path};
    }

    /** Creates or replaces the file at `path`. */
    method Write(path: string, content: Content)
      modifies this
      ensures files == old(files)[path := content]
    {
      files := files[path := content];
    }
  }
}
