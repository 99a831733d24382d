/** `cropAndResizeImage(inputPath, outputPath)`: read the source's size,
    extract the centred crop, cover-resize it to 450 x 350, write it to the
    output path, delete the source. Pixel work belongs to `sharp` and is
    reduced here to the size of the picture it produces. */
module ImageProcessor {
  import opened Common
  import opened CropGeometry
  import opened FileSystem

  /** Why the transform throws: `metadata()` on a missing source, `metadata()`
      on bytes `sharp` cannot decode, `toFile` given the input path as output,
      or the output write itself failing (full disk, permissions). */
  datatype ProcessError = SourceMissing | DecodeError | SameFile | WriteError

  /** `extract({ left, top, width, height })`, which `sharp` rejects unless
      the area is non-empty and inside the picture. */
  function Extract(source: Content, area: Rect): Content
    requires source.Picture? && InsideSource(area, source.width, source.height)
  {
    Picture(area.width, area.height)
  }

  /** `resize(450, 350, { fit: 'cover', position: 'center' })`: the output
      size is fixed, whatever the region's size. */
  function CoverResize(region: Content): Content
    requires region.Picture?
  {
    Picture(TargetWidth, TargetHeight)
  }

  /** The transform can succeed on these files: the source exists, decodes,
      and is not also the destination. */
  predicate Processable(files: map<string, Content>, input: string, output: string)
  {
    input in files && files[input].Picture? && input != output
  }

  /** The directory after a successful transform. */
  function AfterTransform(files: map<string, Content>, input: string, output: string): (after: map<string, Content>)
    requires input != output
    ensures output in after && after[output] == Picture(TargetWidth, TargetHeight)
    ensures input !in after
    ensures forall path :: path != input && path != output ==>
      (path in after <==> path in files) && (path in files ==> after[path] == files[path])
  {
    files[output := Picture(TargetWidth, TargetHeight)] - {input}
  }

  /** One run of the transform; `writeFails` stands for the outcome of the
      disk write, which the model cannot predict. On success the output holds
      a 450 x 350 picture, the source is gone and the output path is returned;
      on any failure the error is passed on and no file has changed, so the
      raw upload is still there. */
  method CropAndResize(disk: Disk, input: string, output: string, writeFails: bool)
    returns (r: Result<string, ProcessError>)
    modifies disk
    ensures r.Success? <==> Processable(old(disk.files), input, output) && !writeFails
    ensures r.Success? ==> r.value == output && disk.files == AfterTransform(old(disk.files), input, output)
    ensures r.Failure? ==> disk.files == old(disk.files)
    ensures input !in old(disk.files) ==> r == Failure(SourceMissing)
    ensures input in old(disk.files) && old(disk.files)[input].Undecodable? ==> r == Failure(DecodeError)
    ensures input in old(disk.files) && old(disk.files)[input].Picture? && input == output ==> r == Failure(SameFile)
    ensures Processable(old(disk.files), input, output) && writeFails ==> r == Failure(WriteError)
  {
    if !disk.Exists(input) {
      return Failure(SourceMissing);
    }
    var source := disk.files[input];
    if source.Undecodable? {
      return Failure(DecodeError);
    }
    var area := CropRect(source.width, source.height);
    CropInsideSource(source.width, source.height);
    var resized := CoverResize(Extract(source, area));
    if input == output {
      return Failure(SameFile);
    }
    if writeFails {
      return Failure(WriteError);
    }
    disk.Write(output, resized);
    disk.Unlink(input);
    return Success(output);
  }
}
