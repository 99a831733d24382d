/** Concrete runs of the handlers on a fresh uploads directory and fresh
    collections: the documented create / update / delete cases, the crop of
    a 1200 x 600 photo, the dangling reference left by a failed update, and
    a duplicate subscription written in another case. */
module Scenarios {
  import opened Common
  import opened Http
  import opened CropGeometry
  import opened FileSystem
  import opened Uploads
  import opened Projects
  import Newsletters
  import ImageProcessor

  /** A 1200 x 600 photo loses 429 columns: 215 on the left (the half
      rounds up) and 214 on the right. */
  lemma CropOfWidePhoto()
    ensures CropRect(1200, 600) == Rect(215, 0, 771, 600)
  {
    RoundUnique(600 * TargetWidth, TargetHeight, 771);
    RoundUnique(1200 - 771, 2, 215);
  }

  /** Creating "Apollo" from a 1200 x 600 upload stores a record whose
      reference names a 450 x 350 file; the raw upload is gone. */
  method CreateApollo() returns (reply: Reply<Project>, rawGone: bool, output: Content)
    ensures reply == Created(Project(0, "Apollo", "Lunar lander", "/uploads/processed-a.jpg", 7))
    ensures rawGone
    ensures output == Picture(450, 350)
  {
    var disk := new Disk(map["tmp/a.jpg" := Picture(1200, 600)]);
    var routes := new ProjectRoutes(disk);
    assert ProcessedDiskPath("a.jpg") == "uploads/processed-a.jpg";
    assert ImageUrl("a.jpg") == "/uploads/processed-a.jpg";
    reply := routes.Create(Some(Upload("tmp/a.jpg", "a.jpg")), Some("Apollo"), Some("Lunar lander"), 7, false);
    rawGone := !disk.Exists("tmp/a.jpg");
    output := disk.files["uploads/processed-a.jpg"];
  }

  /** Without an upload nothing is created and no file changes. */
  method CreateWithoutImage() returns (reply: Reply<Project>, stored: nat)
    ensures reply == BadRequest("Image is required")
    ensures stored == 0
  {
    var disk := new Disk(map[]);
    var routes := new ProjectRoutes(disk);
    reply := routes.Create(None, Some("Apollo"), Some("Lunar lander"), 7, false);
    stored := |routes.records|;
  }

  /** With an upload but no description, the 400 leaves the raw upload in
      the directory with nothing referencing it. */
  method CreateWithoutDescription() returns (reply: Reply<Project>, rawKept: bool)
    ensures reply == BadRequest("Name and description are required")
    ensures rawKept
  {
    var disk := new Disk(map["tmp/a.jpg" := Picture(1200, 600)]);
    var routes := new ProjectRoutes(disk);
    reply := routes.Create(Some(Upload("tmp/a.jpg", "a.jpg")), Some("Apollo"), None, 7, false);
    rawKept := disk.Exists("tmp/a.jpg") && routes.records == map[];
  }

  /** A collection holding "Apollo" (id 0), whose picture is on disk, with
      the raw uploads `extra` beside it. */
  method SeedApollo(extra: map<string, Content>) returns (routes: ProjectRoutes)
    requires ApolloFile !in extra
    ensures fresh(routes) && fresh(routes.disk) && routes.Valid()
    ensures routes.records == map[0 := Apollo] && routes.nextId == 1
    ensures routes.disk.files == extra[ApolloFile := Picture(450, 350)]
  {
    var disk := new Disk(extra[ApolloFile := Picture(450, 350)]);
    routes := new ProjectRoutes(disk);
    routes.records := map[0 := Apollo];
    routes.nextId := 1;
  }

  const Apollo: Project := Project(0, "Apollo", "Lunar lander", "/uploads/processed-a.jpg", 7)
  const ApolloFile: string := "uploads/processed-a.jpg"

  lemma ApolloPaths()
    ensures DiskPathOf(Apollo.image) == ApolloFile
    ensures ProcessedDiskPath("b.jpg") == "uploads/processed-b.jpg"
    ensures ImageUrl("b.jpg") == "/uploads/processed-b.jpg"
  {
    assert Apollo.image[1..] == ApolloFile;
  }

  /** A new picture for an existing project: the old file is gone, the new
      one exists, and the record references the new one. */
  method ReplacePicture() returns (oldGone: bool, newKept: bool, image: string)
    ensures oldGone && newKept
    ensures image == "/uploads/processed-b.jpg"
  {
    var routes := SeedApollo(map["tmp/b.jpg" := Picture(350, 450)]);
    ApolloPaths();
    ghost var cleared := routes.disk.files - {ApolloFile};
    assert cleared == map["tmp/b.jpg" := Picture(350, 450)];
    assert ImageProcessor.Processable(cleared, "tmp/b.jpg", "uploads/processed-b.jpg");
    var updated := routes.Update(0, Some(Upload("tmp/b.jpg", "b.jpg")), None, None, false);
    assert updated.Ok?;
    assert routes.disk.files == ImageProcessor.AfterTransform(cleared, "tmp/b.jpg", "uploads/processed-b.jpg");
    oldGone := !routes.disk.Exists(ApolloFile);
    newKept := routes.disk.Exists("uploads/processed-b.jpg");
    image := routes.records[0].image;
  }

  /** Changing only the description keeps the reference and its file. */
  method EditDescriptionOnly() returns (fileKept: bool, image: string, description: string)
    ensures fileKept
    ensures image == "/uploads/processed-a.jpg"
    ensures description == "Crewed lander"
  {
    var routes := SeedApollo(map[]);
    var updated := routes.Update(0, None, None, Some("Crewed lander"), false);
    fileKept := routes.disk.Exists(ApolloFile);
    image := routes.records[0].image;
    description := routes.records[0].description;
  }

  /** Deleting a project removes its file and its record. */
  method DeleteProject() returns (fileGone: bool, recordGone: bool)
    ensures fileGone && recordGone
  {
    var routes := SeedApollo(map[]);
    ApolloPaths();
    var deleted := routes.Delete(0);
    fileGone := !routes.disk.Exists(ApolloFile);
    recordGone := 0 !in routes.records;
  }

  /** The update deletes the old picture before it transforms the new one:
      when the new upload cannot be decoded, the answer is 500, the record
      is unchanged, and the file it references no longer exists. */
  method FailedReplaceDangles() returns (reply: Reply<Project>, image: string, fileExists: bool)
    ensures reply.ServerError? && reply.fault.ImageFault?
    ensures image == "/uploads/processed-a.jpg"
    ensures !fileExists
  {
    var routes := SeedApollo(map["tmp/b.jpg" := Undecodable]);
    ApolloPaths();
    reply := routes.Update(0, Some(Upload("tmp/b.jpg", "b.jpg")), Some("Apollo 11"), None, false);
    image := routes.records[0].image;
    fileExists := routes.disk.Exists(DiskPathOf(image));
  }

  /** The stored forms of the two addresses below. */
  lemma StoredForms()
    ensures Normalize("ann@example.com") == "ann@example.com"
    ensures Normalize("  ANN@example.COM ") == "ann@example.com"
  {
    TrimmedForms();
    LowerForms();
  }

  lemma TrimmedForms()
    ensures Trim("ann@example.com") == "ann@example.com"
    ensures Trim("  ANN@example.COM ") == "ANN@example.COM"
  {
    LeadingBlanks();
    NoMoreLeadingBlanks();
    TrailingBlank();
  }

  lemma LeadingBlanks()
    ensures TrimStart("  ANN@example.COM ") == TrimStart(" ANN@example.COM ")
    ensures TrimStart(" ANN@example.COM ") == TrimStart("ANN@example.COM ")
  {
    assert "  ANN@example.COM "[1..] == " ANN@example.COM ";
    assert " ANN@example.COM "[1..] == "ANN@example.COM ";
  }

  lemma NoMoreLeadingBlanks()
    ensures TrimStart("ANN@example.COM ") == "ANN@example.COM "
  {
  }

  lemma TrailingBlank()
    ensures TrimEnd("ANN@example.COM ") == "ANN@example.COM"
  {
    assert "ANN@example.COM "[..15] == "ANN@example.COM";
  }

  lemma LowerForms()
    ensures Lower("ann@example.com") == "ann@example.com"
    ensures Lower("ANN@example.COM") == "ann@example.com"
  {
  }

  /** The first subscription of "ann@example.com" is stored as given. */
  method SubscribeFresh() returns (reply: Reply<Newsletters.Subscription>, count: nat)
    ensures reply == Created(Newsletters.Subscription(0, "ann@example.com", 1))
    ensures count == 1
  {
    var table := new Newsletters.NewsletterTable();
    StoredForms();
    reply := table.Subscribe(Some("ann@example.com"), 1);
    count := |table.rows|;
  }

  /** "  ANN@example.COM " is the address "ann@example.com" already holds:
      the lookup runs on the stored form and refuses it. */
  method DuplicateInOtherCase() returns (reply: Reply<Newsletters.Subscription>, count: nat)
    ensures reply == BadRequest("Email already subscribed")
    ensures count == 1
  {
    var table := new Newsletters.NewsletterTable();
    StoredForms();
    var ann := Newsletters.Subscription(0, "ann@example.com", 1);
    assert Newsletters.StoredForm(ann.email);
    table.rows := [ann];
    table.nextId := 1;
    assert table.rows[0].email == Normalize("  ANN@example.COM ");
    reply := table.Subscribe(Some("  ANN@example.COM "), 2);
    count := |table.rows|;
  }
}
