# Project-management backend: image lifecycle and lead capture in Dafny

This project models the core of the Express/MongoDB backend of a small
portfolio site. The core has three parts.

- **The image transform** (`cropAndResizeImage`) reads a source picture's
  size and computes a centred crop at the fixed 450:350 shape. It extracts
  that region, cover-resizes it to 450 x 350, writes the result and deletes
  the source.
- **The project and client routes** are two collections of records. Each
  record references one processed picture in the uploads directory. Create,
  update and delete change the record collection and the directory step by
  step: the raw upload is transformed into `processed-<filename>`, an old
  picture is unlinked, and the record is repointed.
- **The lead-capture routes** store contact-form submissions and newsletter
  subscriptions. Contact fields are checked, defaulted and stored through the
  schema's setters. A newsletter address is trimmed and lower-cased, then
  refused if an existing subscription already holds it.

The modules follow that structure:

- `CropGeometry` (`crop.dfy`) is the pure crop computation.
- `FileSystem` (`disk.dfy`) is the uploads directory, a `Disk` class whose
  `files` map is changed in place.
- `ImageProcessor` (`image_processor.dfy`) holds the transform as a method on
  a `Disk`.
- `Uploads` (`uploads.dfy`) holds the file-naming conventions.
- `ImageLifecycle` (`lifecycle.dfy`) holds the consistency the image routes
  try to keep between records and files.
- `Projects` (`projects.dfy`) and `Clients` (`clients.dfy`) hold the route
  handlers as classes over a record map and the shared `Disk`.
- `Contacts` (`contacts.dfy`) and `Newsletters` (`newsletters.dfy`) hold the
  lead-capture tables as classes over sequences.
- `Tables` (`tables.dfy`) and `Listing` (`listing.dfy`) hold the collection
  queries those handlers run.
- `Common` (`common.dfy`) holds truthiness and the schema setters; `Http`
  (`http.dfy`) holds the answers.
- `Scenarios` (`scenarios.dfy`) holds concrete runs of the handlers.

Modelling choices:

- **Exact arithmetic.** The ratio test `width / height > 450 / 350` is the
  exact test `width * 350 > height * 450`. `Math.round(p / q)` is
  `floor(p / q + 1/2)`, written `(2p + q) / (2q)`.
- **Nondeterminism as parameters.** The transform's write can fail for
  reasons the model cannot see (full disk, permissions), so that outcome is a
  `writeFails` parameter. Time is a `now` parameter.
- **Email equality.** Two addresses are the same subscriber when their
  stored forms are equal. The stored form is trimmed (ECMAScript white space)
  and then lower-cased. The setters apply to documents and to query filters
  alike, so the explicit duplicate lookup also runs on the stored form.
- **Validation order.** The `required` validators run after the setters. A
  field made only of blanks passes the route's truthiness check and is then
  rejected by `save()` with a 500.
- **Update ordering.** Update deletes the old picture *before* it runs the
  transform on the new one, as `backend/routes/projects.js:87-97` and
  `backend/routes/clients.js:89-99` do. The safer order (old file removed
  only once the new one is in place) is not what the code does, and the
  model follows the code. `Update` proves that a failed transform leaves the
  record pointing at a file that no longer exists.

## Model

| member | source | states |
|---|---|---|
| CropGeometry.Round | backend/utils/imageProcessor.js:28-33 | `Math.round(p / q)` on exact rationals; what it means is stated by `RoundBounds` (within one half, halves up) and `RoundUnique` (the only such integer) |
| CropGeometry.RoundBounds | backend/utils/imageProcessor.js:28-33 | `Math.round(p / q)` is within one half of p / q, and an exact half rounds up |
| CropGeometry.RoundUnique | backend/utils/imageProcessor.js:28-33 | the only integer within one half of p / q (halves going up) is `Math.round(p / q)` |
| CropGeometry.CropRect | backend/utils/imageProcessor.js:20-34 | the crop rectangle; `CropWhenWider` and `CropWhenNotWider` pin each branch down through `RoundUnique`, and `CropInsideSource`, `CropCentred`, `CropMatchesTargetRatio` and `CropIdentityAtTargetRatio` state its properties |
| CropGeometry.CropWhenWider | backend/utils/imageProcessor.js:26-29 | a source wider than 450:350 keeps its full height with top 0; the crop width is the integer nearest to height * 450 / 350, and the left offset is half of the discarded width, rounded half up |
| CropGeometry.CropWhenNotWider | backend/utils/imageProcessor.js:30-34 | any other source keeps its full width with left 0; the crop height is the integer nearest to width * 350 / 450, and the top offset is half of the discarded height, rounded half up |
| CropGeometry.CropInsideSource | backend/utils/imageProcessor.js:21-38 | for every source of at least 1 x 1 pixels the crop is non-empty and lies inside the picture, as `extract` demands |
| CropGeometry.CropCentred | backend/utils/imageProcessor.js:26-34 | the margin cut before the crop equals the margin cut after it, or exceeds it by one pixel, on both axes |
| CropGeometry.CropMatchesTargetRatio | backend/utils/imageProcessor.js:20-34 | the crop has the 450:350 shape up to rounding: width * 350 and height * 450 differ by at most 225 |
| CropGeometry.CropIdentityAtTargetRatio | backend/utils/imageProcessor.js:26-34 | a source already at 450:350 (450 x 350, 900 x 700, ...) is not cropped at all |
| ImageProcessor.Extract | backend/utils/imageProcessor.js:37-38 | `extract` accepts only a non-empty region inside the picture (its precondition `InsideSource`, which `CropInsideSource` discharges for every real picture) and yields a picture of the region's size |
| ImageProcessor.CoverResize | backend/utils/imageProcessor.js:39-42 | the cover resize yields 450 x 350 whatever the region; `AfterTransform` records that picture at the output path |
| ImageProcessor.AfterTransform | backend/utils/imageProcessor.js:37-46 | after a successful transform the output path holds a 450 x 350 picture, whatever the source size; the source is gone; every other file is unchanged |
| ImageProcessor.CropAndResize | backend/utils/imageProcessor.js:9-53 | the transform succeeds exactly when the source exists, decodes, differs from the output and the write succeeds. On success it returns the output path and the directory is `AfterTransform`. On each failure (missing source, undecodable source, output equal to input, failed write) the matching error is passed on and no file changes, so the source is not deleted |
| FileSystem.Disk.Exists | backend/routes/projects.js:88 | `existsSync`: whether the directory holds that path; `Delete` and `ReplaceImage` unlink only after it holds |
| FileSystem.Disk.Unlink | backend/utils/imageProcessor.js:46 | `unlinkSync` removes exactly that path |
| FileSystem.Disk.Write | backend/utils/imageProcessor.js:43 | `toFile` creates or replaces exactly that path |
| Uploads.ProcessedDiskPath | backend/routes/projects.js:52-53 | where the transform writes, `uploads/processed-<filename>`; `ReferenceNamesWrittenFile` and `ProcessedPathsDistinct` state its properties |
| Uploads.ImageUrl | backend/routes/projects.js:57 | the stored reference `/uploads/processed-<filename>`; `ReferenceNamesWrittenFile` ties it to `ProcessedDiskPath`, and `ProcessedPathsDistinct` shows it is injective |
| Uploads.DiskPathOf | backend/routes/projects.js:87 | `join(routesDir, '..', image)` relative to the backend directory (the leading `/` dropped); `ReferenceNamesWrittenFile` shows it maps a stored reference back to the written file |
| Uploads.ReferenceNamesWrittenFile | backend/routes/clients.js:53-57 | the file that update and delete remove for a record (`join(routesDir, '..', image)`, lines 89 and 120) is the file that create or update wrote for it (`join(routesDir, '../uploads/', processedFileName)`) |
| Uploads.ProcessedPathsDistinct | backend/routes/projects.js:52-57 | distinct upload names give distinct processed files and distinct stored references |
| ImageLifecycle.CreateKeepsImages | backend/routes/projects.js:51-66 | a successful create keeps two facts, provided the upload and its processed name are not already referenced: every record's picture exists, and no two records share a picture |
| ImageLifecycle.ReplaceKeepsImages | backend/routes/projects.js:85-101 | a successful update with a new picture (old file removed, new one written, reference repointed, which is the new state `Update` ensures) keeps both facts under the same freshness condition |
| ImageLifecycle.DeleteKeepsImages | backend/routes/projects.js:117-123 | deleting a record together with its picture keeps both facts for the records that remain |
| Projects.ProjectRoutes.List | backend/routes/projects.js:15-22 | lists every project exactly once: as many entries as records, no entry twice, each record present, each entry the record stored under its id; newest first |
| Projects.ProjectRoutes.Get | backend/routes/projects.js:25-35 | answers the record with that id, or 404 "Project not found" |
| Projects.ProjectRoutes.Create | backend/routes/projects.js:38-70 | Without an upload: 400 "Image is required", nothing changes. With a falsy name or description: 400, no record, and the raw upload stays on disk. Otherwise: 201 with a fresh record whose image is `/uploads/processed-<filename>`, and the directory is the transform's result; or, if the transform fails, a 500 with nothing stored. Success keeps both lifecycle facts |
| Projects.ProjectRoutes.Update | backend/routes/projects.js:73-106 | An unknown id gives 404 and nothing changes. Name and description are overwritten only by truthy values; id and timestamp are kept. Without an upload the reference and its file are untouched. With an upload the old picture is removed first; on success the reference names the new processed file; if the transform fails the answer is 500, the record is unchanged, and the file it references no longer exists |
| Projects.ProjectRoutes.ReplaceImage | backend/routes/projects.js:85-99 | removes the referenced picture if present, then transforms the upload and repoints the reference; on failure only the removal has happened |
| Projects.ProjectRoutes.Delete | backend/routes/projects.js:109-128 | an unknown id gives 404 and nothing changes; otherwise the record's picture is removed (a missing file is tolerated), then the record, and both lifecycle facts are kept |
| Clients.ClientRoutes.List | backend/routes/clients.js:15-22 | lists every client exactly once: as many entries as records, no entry twice, each record present, each entry the record stored under its id; newest first |
| Clients.ClientRoutes.Get | backend/routes/clients.js:25-35 | answers the record with that id, or 404 "Client not found" |
| Clients.ClientRoutes.Create | backend/routes/clients.js:38-71 | as for projects, with name, designation and description all required to be truthy (otherwise a 400 that leaves the raw upload on disk) |
| Clients.ClientRoutes.Update | backend/routes/clients.js:74-108 | as for projects: 404 for an unknown id; name, designation and description are overwritten only by truthy values; the old picture is removed before the transform, and a failed transform leaves a dangling reference |
| Clients.ClientRoutes.ReplaceImage | backend/routes/clients.js:87-101 | removes the referenced picture if present, then transforms the upload and repoints the reference |
| Clients.ClientRoutes.Delete | backend/routes/clients.js:111-130 | 404 for an unknown id; otherwise the picture, then the record, goes, and both lifecycle facts are kept |
| Contacts.Document | backend/routes/contacts.js:25-31 | the document `new Contact({...})` builds after the schema setters (every field trimmed, the email also lower-cased); `ContactTable.Create` appends exactly this document |
| Contacts.MissingPaths | backend/models/Contact.js:4-29 | the `required` validators pass exactly when full name, email, mobile and city are non-empty after the setters; `message` is never required |
| Contacts.AppendKeepsConsistent | backend/routes/contacts.js:25-33 | appending a document under the counter's fresh id keeps ids distinct and below the counter |
| Contacts.RemoveKeepsConsistent | backend/routes/contacts.js:43 | removing one document keeps the table consistent |
| Contacts.DeleteFound | backend/routes/contacts.js:43 | ids are distinct, so deleting by an id found at one position removes exactly that submission |
| Contacts.ContactTable.List | backend/routes/contacts.js:7-14 | returns the same submissions (as a multiset), newest first by `createdAt` |
| Contacts.ContactTable.Create | backend/routes/contacts.js:17-38 | a falsy full name, email, mobile or city gives 400 and stores nothing. Otherwise the document is built with every field trimmed, the email also lower-cased, and a missing or empty message stored as "". A document the validators reject gives 500 and stores nothing; else exactly that one document is appended and earlier rows stay as they were |
| Contacts.ContactTable.Delete | backend/routes/contacts.js:41-48 | always answers "Contact submission deleted successfully"; the table afterwards is the old table without the submission with that id, if any |
| Newsletters.SaveReply | backend/routes/newsletters.js:32-38 | a saved document gives 201; a duplicate-key failure (code 11000) gives 400 "Email already subscribed"; any other failure gives 500, each in both directions |
| Newsletters.AppendKeepsConsistent | backend/routes/newsletters.js:26-33 | appending a subscription with a fresh id and an unused stored address keeps ids distinct, addresses distinct, and every address in stored form |
| Newsletters.RemoveKeepsConsistent | backend/routes/newsletters.js:45 | removing one subscription keeps the table consistent |
| Newsletters.DeleteFound | backend/routes/newsletters.js:45 | deleting by an id found at one position removes exactly that subscription |
| Newsletters.NewsletterTable.List | backend/routes/newsletters.js:7-14 | returns the same subscriptions (as a multiset), newest first |
| Newsletters.NewsletterTable.Save | backend/models/Newsletter.js:3-13 | `save()` stores the trimmed, lower-cased address. An empty stored form fails the `required` validator. An address already held fails the unique index. Otherwise exactly one subscription is appended, and no two subscriptions share an address |
| Newsletters.NewsletterTable.Subscribe | backend/routes/newsletters.js:17-40 | a falsy email gives 400 "Email is required". An address whose stored form is already subscribed gives 400 "Email already subscribed" and changes nothing. A blank address gives 500. Otherwise 201 with exactly one new subscription |
| Newsletters.NewsletterTable.Delete | backend/routes/newsletters.js:43-50 | always succeeds; the table afterwards is the old table without the subscription with that id, if any |
| Tables.FindFirst | backend/routes/newsletters.js:26 | `findOne`: the first position whose key matches, or -1 exactly when no element matches |
| Tables.Without | backend/routes/contacts.js:43 | `findByIdAndDelete` as a set of survivors: nothing with the key is kept, everything else is kept, nothing is added |
| Tables.WithoutAbsent | backend/routes/contacts.js:43 | deleting an id that is not present changes nothing |
| Tables.WithoutAt | backend/routes/contacts.js:43 | when the key occurs only at position i, deleting by it cuts out exactly that element, order kept |
| Tables.RemoveAtKeepsDistinct | backend/routes/newsletters.js:45 | removing one element keeps every key distinct |
| Tables.AppendKeepsDistinct | backend/routes/newsletters.js:31-32 | appending an element with a new key keeps every key distinct |
| Listing.SortNewestFirst | backend/routes/contacts.js:9 | `sort({ createdAt: -1 })`: a permutation of the input ordered by `createdAt`, largest first |
| Listing.InsertNewestFirst | backend/routes/contacts.js:9 | inserting one element into an ordered sequence keeps it ordered and adds exactly that element |
| Listing.ValuesOf | backend/routes/projects.js:17 | `find()` on a keyed collection: one entry per key, each the value stored under a distinct key, every key used, so every stored value appears and nothing else does |
| Listing.DistinctPermutation | backend/routes/projects.js:17 | reordering a listing without repetitions (the newest-first sort) keeps it without repetitions |
| Common.Truthy | backend/routes/contacts.js:21 | `if (!field)` on a request-body string: absent and "" are falsy, any other string (even blanks) is truthy; every handler's refusal clauses are stated with it |
| Common.Trim | backend/models/Contact.js:7 | the `trim` setter; `TrimStartShape`, `TrimEndShape`, `TrimIsCore` and `TrimIdempotent` state what it keeps and drops |
| Common.Lower | backend/models/Contact.js:13 | the `lowercase` setter: same length, each character lower-cased (ASCII letters only) |
| Common.Normalize | backend/models/Newsletter.js:7-8 | the stored form of an address, trimmed then lower-cased; `NormalizeIdempotent` and `TrimLowerCommute` state its properties |
| Common.TrimStartShape | backend/models/Contact.js:7 | the leading part of `trim` keeps a suffix that does not start with white space and drops only white space |
| Common.TrimEndShape | backend/models/Contact.js:7 | the trailing part of `trim` keeps a prefix that does not end with white space and drops only white space |
| Common.TrimIsCore | backend/models/Contact.js:7 | `trim` keeps one contiguous piece of the input, with white space only around it and none at its ends |
| Common.TrimIdempotent | backend/models/Contact.js:7 | trimming twice is trimming once |
| Common.TrimLowerCommute | backend/models/Newsletter.js:7-8 | the `trim` and `lowercase` setters commute |
| Common.NormalizeIdempotent | backend/models/Newsletter.js:7-8 | storing an already stored address changes nothing, so each address has one stored form |
| Scenarios.CropOfWidePhoto | backend/utils/imageProcessor.js:26-29 | a 1200 x 600 photo is cropped to 771 x 600 at left offset 215 (the odd pixel of the 429 discarded columns goes to the left) |
| Scenarios.CreateApollo | backend/routes/projects.js:38-66 | a create from a 1200 x 600 upload answers 201 with reference `/uploads/processed-a.jpg`; that file holds a 450 x 350 picture and the raw upload is gone |
| Scenarios.CreateWithoutImage | backend/routes/projects.js:40-42 | a create without an upload answers 400 "Image is required" and stores nothing |
| Scenarios.CreateWithoutDescription | backend/routes/projects.js:44-48 | a create without a description answers 400 and leaves the raw upload on disk, referenced by no record |
| Scenarios.ReplacePicture | backend/routes/projects.js:85-99 | replacing a picture removes the old processed file, writes the new one and repoints the record |
| Scenarios.EditDescriptionOnly | backend/routes/projects.js:82-101 | an update without an upload changes the description and keeps the reference and its file |
| Scenarios.DeleteProject | backend/routes/projects.js:117-124 | deleting a project removes its picture and its record |
| Scenarios.FailedReplaceDangles | backend/routes/projects.js:87-97 | when the new upload cannot be decoded, the answer is 500, the record still references the old picture, and that file no longer exists |
| Scenarios.StoredForms | backend/models/Newsletter.js:7-8 | "  ANN@example.COM " and "ann@example.com" have the same stored form |
| Scenarios.SubscribeFresh | backend/routes/newsletters.js:31-33 | a first subscription answers 201 with the stored address |
| Scenarios.DuplicateInOtherCase | backend/routes/newsletters.js:26-29 | the same address in another case and with blanks is refused with 400 "Email already subscribed" and nothing is added |

## Left out

- `Common.Truthy`, `Contacts.ContactTable.Create` and `Newsletters.NewsletterTable.Subscribe` model only string or absent request-body fields. A JSON body can also carry a number (which passes the route's check and is cast to a string on save), an array or object (which fails the String cast with a 500), or an object in the `findOne({ email })` filter, which could act as a query operator and match an existing subscription. None of these is modelled.
- Pixel work (`metadata` decoding, `extract`, the cover resize, encoding) belongs to the `sharp` library. A picture is reduced to its size. Decoding failure is an `Undecodable` file, and a failed write is the `writeFails` parameter.
- A failed write is assumed to leave no partial output file.
- The upload middleware (`middleware/upload.js`) is not part of this model. An upload is an opaque path and file name supplied by the caller. That no record already references them is a hypothesis of the lifecycle lemmas, not a proved fact.
- Directory layout: `path.join` and the routes directory are not modelled beyond dropping the leading `/` of a stored reference. Every path is relative to the backend directory, and `..` segments inside a reference are not normalised.
- `models/Project.js` and `models/Client.js` are not part of this model. Their `save()` is taken to succeed once the route's own checks pass.
- Database failures, and `CastError` for malformed ids, are not modelled. The 500 answers these cause in every handler are left out; ids are natural numbers from a counter.
- `toLowerCase` is modelled on the ASCII letters only. Other letters are kept as they are.
- Concurrency between requests is not modelled; each handler is one sequential step. A duplicate-key failure (code 11000) can therefore only come from the unique index in `Save`, never after the route's own lookup has passed. `SaveReply` still maps it as the route does.
- JavaScript doubles are not modelled. The ratio test and rounding are exact, and for 9H/7 and 7W/9 they agree with the double computation.
- `Projects.ProjectRoutes.Update` and `Clients.ClientRoutes.Update` do not state the lifecycle facts in their own contract. Their contracts state the exact new records and files. `ImageLifecycle.ReplaceKeepsImages` proves the facts for exactly that new state.
- The server wiring, CORS and static serving are not modelled. Only the `/uploads` prefix (`backend/server.js:31`) is used. The frontend is not part of this model.
