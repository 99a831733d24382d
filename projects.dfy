/** The project routes: a collection of project records, each pointing at one
    processed picture in the uploads directory, and the handlers that create,
    read, edit and delete them. Each handler runs as one sequential step. */
module Projects {
  import opened Common
  import opened Http
  import opened FileSystem
  import opened Uploads
  import opened ImageProcessor
  import opened ImageLifecycle
  import Listing

  datatype Project = Project(id: Id, name: string, description: string, image: string, createdAt: int)

  function ImageOf(p: Project): string
  {
    p.image
  }

  function CreatedAtOf(p: Project): int
  {
    p.createdAt
  }

  const ImageRequiredMessage: string := "Image is required"
  const FieldsRequiredMessage: string := "Name and description are required"
  const NotFoundMessage: string := "Project not found"
  const DeletedMessage: string := "Project deleted successfully"

  class ProjectRoutes {
    /** The project collection, by id. */
    var records: map<Id, Project>
    /** The next fresh id. */
    var nextId: Id
    /** The uploads directory, shared with every other image route. */
    const disk: Disk

    ghost predicate Valid()
      reads this
    {
      forall id :: id in records ==> records[id].id == id && id < nextId
    }

    constructor (disk: Disk)
      ensures Valid() && this.disk == disk && records == map[] && nextId == 0
    {
      this.disk := disk;
      records := map[];
      nextId := 0;
    }

    /** GET /: every project, each exactly once, newest first. */
    method List() returns (r: seq<Project>)
      requires Valid()
      ensures |r| == |records| && Listing.Distinct(r)
      ensures forall id :: id in records ==> records[id] in r
      ensures forall p :: p in r ==> p.id in records && records[p.id] == p
      ensures Listing.NewestFirst(r, CreatedAtOf)
    {
      var all, keys := Listing.ValuesOf(records);
      assert Listing.Distinct(all) by {
        forall i, j | 0 <= i < j < |all|
          ensures all[i] != all[j]
        {
          assert all[i].id == keys[i] && all[j].id == keys[j];
        }
      }
      r := Listing.SortNewestFirst(all, CreatedAtOf);
      Listing.DistinctPermutation(all, r);
      assert forall p :: p in r <==> p in multiset(all);
      assert |r| == |multiset(r)| == |all|;
      forall id | id in records
        ensures records[id] in r
      {
        var i :| 0 <= i < |keys| && keys[i] == id;
        assert all[i] in multiset(all);
      }
      forall p | p in r
        ensures p.id in records && records[p.id] == p
      {
        assert p in multiset(all);
        var i :| 0 <= i < |all| && all[i] == p;
      }
    }

    /** GET /:id. */
    method Get(id: Id) returns (reply: Reply<Project>)
      ensures id in records ==> reply == Ok(records[id])
      ensures id !in records ==> reply == NotFound(NotFoundMessage)
    {
      if id !in records {
        return NotFound(NotFoundMessage);
      }
      return Ok(records[id]);
    }

    /** POST / with an optional upload. The upload is checked before the
        fields, and a field failure leaves the raw upload on disk; after a
        transform failure nothing is stored and the raw upload stays too. On
        success the record references the processed file the transform just
        wrote. */
    method Create(file: Option<Upload>, name: Option<string>, description: Option<string>,
                  now: int, writeFails: bool) returns (reply: Reply<Project>)
      requires Valid()
      modifies this, disk
      ensures Valid()
      ensures file.None? ==>
        reply == BadRequest(ImageRequiredMessage) && records == old(records) && disk.files == old(disk.files)
        && nextId == old(nextId)
      ensures file.Some? && !(Truthy(name) && Truthy(description)) ==>
        reply == BadRequest(FieldsRequiredMessage) && records == old(records) && disk.files == old(disk.files)
        && nextId == old(nextId)
      ensures file.Some? && Truthy(name) && Truthy(description) ==>
        var target := ProcessedDiskPath(file.value.filename);
        if Processable(old(disk.files), file.value.path, target) && !writeFails then
          && reply == Created(Project(old(nextId), name.value, description.value, ImageUrl(file.value.filename), now))
          && records == old(records)[old(nextId) := reply.value] && nextId == old(nextId) + 1
          && disk.files == AfterTransform(old(disk.files), file.value.path, target)
        else
          && reply.ServerError? && reply.fault.ImageFault?
          && records == old(records) && disk.files == old(disk.files) && nextId == old(nextId)
      ensures file.Some? && old(ImagesOnDisk(records, ImageOf, disk.files)) && old(ImagesUnshared(records, ImageOf))
        && old(Unreferenced(records, ImageOf, file.value.path))
        && old(Unreferenced(records, ImageOf, ProcessedDiskPath(file.value.filename)))
        ==> ImagesOnDisk(records, ImageOf, disk.files) && ImagesUnshared(records, ImageOf)
    {
      if file.None? {
        return BadRequest(ImageRequiredMessage);
      }
      if !Truthy(name) || !Truthy(description) {
        return BadRequest(FieldsRequiredMessage);
      }
      var upload := file.value;
      var target := ProcessedDiskPath(upload.filename);
      ghost var filesBefore := disk.files;
      var processed := CropAndResize(disk, upload.path, target, writeFails);
      if processed.Failure? {
        return ServerError(ImageFault(processed.error));
      }
      var project := Project(nextId, name.value, description.value, ImageUrl(upload.filename), now);
      if ImagesOnDisk(records, ImageOf, filesBefore) && ImagesUnshared(records, ImageOf)
        && Unreferenced(records, ImageOf, upload.path) && Unreferenced(records, ImageOf, target)
      {
        CreateKeepsImages(records, ImageOf, filesBefore, nextId, project, upload);
      }
      records := records[nextId := project];
      nextId := nextId + 1;
      return Created(project);
    }

    /** PUT /:id. Name and description change only when the new value is
        truthy. With an upload, the old picture is deleted FIRST and the
        transform runs after; if the transform throws, nothing is saved, so
        the record keeps its old reference while its file is already gone. */
    method Update(id: Id, file: Option<Upload>, name: Option<string>, description: Option<string>,
                  writeFails: bool) returns (reply: Reply<Project>)
      requires Valid()
      modifies this, disk
      ensures Valid() && nextId == old(nextId)
      ensures id !in old(records) ==>
        reply == NotFound(NotFoundMessage) && records == old(records) && disk.files == old(disk.files)
      ensures id in old(records) && reply.Ok? ==>
        var before := old(records)[id];
        && records == old(records)[id := reply.value]
        && reply.value.id == id && reply.value.createdAt == before.createdAt
        && reply.value.name == (if Truthy(name) then name.value else before.name)
        && reply.value.description == (if Truthy(description) then description.value else before.description)
        && reply.value.image == (if file.Some? then ImageUrl(file.value.filename) else before.image)
      ensures id in old(records) && file.None? ==> reply.Ok? && disk.files == old(disk.files)
      ensures id in old(records) && file.Some? ==>
        var stale := DiskPathOf(old(records)[id].image);
        var cleared := old(disk.files) - {stale};
        var target := ProcessedDiskPath(file.value.filename);
        && (reply.Ok? <==> Processable(cleared, file.value.path, target) && !writeFails)
        && (reply.Ok? ==> disk.files == AfterTransform(cleared, file.value.path, target))
        && (!reply.Ok? ==>
              && reply.ServerError? && reply.fault.ImageFault?
              && records == old(records) && disk.files == cleared
              && DiskPathOf(records[id].image) !in disk.files)
    {
      if id !in records {
        return NotFound(NotFoundMessage);
      }
      var project := records[id];
      if Truthy(name) {
        project := project.(name := name.value);
      }
      if Truthy(description) {
        project := project.(description := description.value);
      }
      if file.Some? {
        var replaced := ReplaceImage(project, file.value, writeFails);
        if replaced.Failure? {
          return ServerError(ImageFault(replaced.error));
        }
        project := replaced.value;
      }
      records := records[id := project];
      return Ok(project);
    }

    /** The image half of PUT /:id: delete the picture the record references
        if it exists, then transform the upload and repoint the record. */
    method ReplaceImage(project: Project, upload: Upload, writeFails: bool)
      returns (r: Result<Project, ProcessError>)
      modifies disk
      ensures var cleared := old(disk.files) - {DiskPathOf(project.image)};
        var target := ProcessedDiskPath(upload.filename);
        && (r.Success? <==> Processable(cleared, upload.path, target) && !writeFails)
        && (r.Success? ==> r.value == project.(image := ImageUrl(upload.filename))
                           && disk.files == AfterTransform(cleared, upload.path, target))
        && (r.Failure? ==> disk.files == cleared)
    {
      var stale := DiskPathOf(project.image);
      if disk.Exists(stale) {
        disk.Unlink(stale);
      }
      assert disk.files == old(disk.files) - {stale};
      var processed := CropAndResize(disk, upload.path, ProcessedDiskPath(upload.filename), writeFails);
      if processed.Failure? {
        return Failure(processed.error);
      }
      return Success(project.(image := ImageUrl(upload.filename)));
    }

    /** DELETE /:id: the picture goes first (a missing file is tolerated),
        then the record. */
    method Delete(id: Id) returns (reply: Reply<string>)
      requires Valid()
      modifies this, disk
      ensures Valid() && nextId == old(nextId)
      ensures id !in old(records) ==>
        reply == NotFound(NotFoundMessage) && records == old(records) && disk.files == old(disk.files)
      ensures id in old(records) ==>
        && reply == Ok(DeletedMessage)
        && records == old(records) - {id}
        && disk.files == old(disk.files) - {DiskPathOf(old(records)[id].image)}
      ensures old(ImagesOnDisk(records, ImageOf, disk.files)) && old(ImagesUnshared(records, ImageOf))
        ==> ImagesOnDisk(records, ImageOf, disk.files) && ImagesUnshared(records, ImageOf)
    {
      if id !in records {
        return NotFound(NotFoundMessage);
      }
      var path := DiskPathOf(records[id].image);
      ghost var filesBefore := disk.files;
      if disk.Exists(path) {
        disk.Unlink(path);
      }
      if ImagesOnDisk(records, ImageOf, filesBefore) && ImagesUnshared(records, ImageOf) {
        DeleteKeepsImages(records, ImageOf, filesBefore, id);
      }
      records := records - {id};
      return Ok(DeletedMessage);
    }
  }
}
