# Photo asset lifecycle of photo-blog, in Dafny

photo-blog is an Express application that keeps a gallery of uploaded photos.
Each photo has a catalog document in MongoDB (stored file name, client file
name, tags) and three files under `./public/images/uploads/`. The original is
written by multer. A thumbnail and a preview are written by the external
`epg-prep` tool. This project models the lifecycle of those assets as they
are handled in `routes/index.js`:

- **Upload** (`POST /upload`):
  - multer's extension filter;
  - multer's rule for the stored file name;
  - the tag tokeniser;
  - the catalog insert;
  - the thumbnail run.
- **Delete** (`POST /delete`):
  - field validation;
  - catalog removal by id;
  - three chained unlinks that stop at the first failure.
- **Gallery (read side)**:
  - the tag vocabulary of `GET /photos`;
  - the `$in` tag filter of `POST /photos`.

Files and modules:

- `options.dfy` (`Options`): the optional value used for absent form fields.
- `decimal.dfy` (`Numerals`): decimal text of the millisecond clock reading, with its reading-back round trip.
- `filenames.dfy` (`Filenames`): the extension filter, JavaScript `indexOf`/`substring`, the stored-name rule and its properties.
- `tags.dfy` (`Tags`): `split(/[ ,]+/).filter(Boolean)`, `join()` and `Array.from(new Set(..))`, with their algebra.
- `catalog.dfy` (`Catalog`): the `Photo` record, the vocabulary loop (a method proved against a specification function) and the tag filter.
- `lifecycle.dfy` (`Lifecycle`): the `PhotoStore` class. Its fields are the catalog (`map<Id, Photo>`), the set of paths present on disk, a fresh-id counter and a ghost trace of side effects. It has `Upload` and `Delete` methods; the unlink chain is specified by the pure function `Cascade`.

How the environment is represented:

- **Represented by parameters:**
  - the clock reading (`now`);
  - whether the disk write, `Photo.create`, `findByIdAndRemove` and `epg-prep` succeed;
  - the set of paths whose unlink fails even though the file is present.
- **The database listing:** the read-side functions take the listing the database returns, in its order.
- **Error statuses:** an error carries the status the route assigns, or `None` where it assigns none. Express's default handler then answers 500.

Where the code and its own comments or documentation disagree, the model
follows the code:

- The stored name keeps everything from the FIRST period of the client's
  name. For `a.b.png` that is `.b.png`, not just the last extension. The
  comment on line 27 speaks of removing the extension, but the
  extension is kept.
- The filter is case-sensitive: `cat.JPG` is rejected.
- The comment on line 116 speaks of splitting on commas and "one or more
  whitespace", but the class `[ ,]` holds only the space and the comma: a tab
  or a newline stays inside a token (`Tags.IsSeparator`).

## Model

| member | source | states |
|---|---|---|
| `Numerals.Decimal` | routes/index.js:25 | the text `Date.now()` contributes is a non-empty string of digits without a leading zero |
| `Numerals.ValueOfDecimal` | routes/index.js:25 | reading the timestamp text back yields the clock reading: the rendering loses nothing |
| `Numerals.DecimalInjective` | routes/index.js:28 | different clock readings give different timestamp texts |
| `Filenames.IndexOf` | routes/index.js:23 | the first position of the character, or -1 exactly when it is absent |
| `Filenames.Substring` | routes/index.js:25-28 | with bounds inside the string and in order, `substring` is the slice between them |
| `Filenames.ImageFilter` | routes/index.js:34-39 | the filter itself (the name ends in a period and one of the four extensions); its meaning is stated by `Filenames.ImageFilterByExtension` and `Filenames.ImageFilterExamples` |
| `Filenames.ImageFilterByExtension` | routes/index.js:34-39 | a file is accepted if and only if its name has a period and the text after the last period is exactly `jpg`, `jpeg`, `png` or `gif`; letter case matters |
| `Filenames.ImageFilterExamples` | routes/index.js:35 | `cat.jpg`, `cat.jpeg`, `cat.png`, `a.b.gif` are accepted; `cat.JPG`, `cat.jpg.exe`, `jpg`, `cat.jpgx` are rejected |
| `Filenames.ImageFilterHasPeriod` | routes/index.js:21-39 | every accepted name has a period, so after the filter the callback always finds one |
| `Filenames.StoredFilename` | routes/index.js:21-30 | the multer `filename` callback, both branches, with the clock reading as a parameter; its result is stated by `Filenames.StoredFilenameShape`, `Filenames.StoredFilenameWithoutPeriod` and the lemmas below |
| `Filenames.StoredFilenameShape` | routes/index.js:21-30 | the stored name is the first min(4, i) characters, a hyphen, the timestamp, then the client's name from its first period (position i) on |
| `Filenames.StoredFilenameWithoutPeriod` | routes/index.js:23-28 | with no period (`indexOf` gives -1) the stored name is a hyphen, the timestamp and the whole client's name |
| `Filenames.StoredFilenameAffixes` | routes/index.js:21-30 | the stored name starts with at most four characters of the base and a hyphen, and ends with the client's name from its first period on |
| `Filenames.StoredFilenameKeepsExtension` | routes/index.js:25-28 | the stored name has a period, and the text after its last period equals the client's |
| `Filenames.StoredFilenameIsImage` | routes/index.js:21-39 | a name the filter accepts is still accepted after renaming |
| `Filenames.StoredFilenamesDistinct` | routes/index.js:25-28 | the same client name uploaded at two different instants is stored under two different names |
| `Tags.Tokenize` | routes/index.js:117 | every token is non-empty and contains no space and no comma |
| `Tags.SplitFrom` | routes/index.js:117 | `split(/[ ,]+/)` from a position: at least one piece; what the pieces are is stated by `Tags.SplitFromWeave` and `Tags.SplitFromPieces` |
| `Tags.Split` | routes/index.js:117 | `split(/[ ,]+/)` on the whole text; its pieces are stated by `Tags.SplitFromWeave`, `Tags.SplitFromPieces` and `Tags.SplitEdgeCases` |
| `Tags.Compact` | routes/index.js:117 | `filter(Boolean)`: no element of the result is empty, and a value is kept exactly when it is in the input and not empty; `Tags.CompactAppend` states that it keeps order and multiplicity |
| `Tags.TokenizeAppend` | routes/index.js:117 | tokenising text around a space or comma is tokenising each side: the separators split and leave nothing |
| `Tags.TokenizeWord` | routes/index.js:117 | text without separators is one token, or none when empty; with `Tags.TokenizeAppend` this pins the tokeniser down on every input |
| `Tags.TokenizeEmpty` | routes/index.js:115-118 | the empty field has no tokens |
| `Tags.TokenizeSeparatorRuns` | routes/index.js:117 | a comma and a space, or two spaces, between tokens a, b, c give exactly a, b, c (so `"cat, dog  fox"` gives `cat`, `dog`, `fox`) |
| `Tags.SplitFromPieces` | routes/index.js:117 | no piece of the split contains a space or a comma |
| `Tags.SplitFromWeave` | routes/index.js:117 | the separator runs the split removes, put back between the pieces, give the text back; each run is a non-empty stretch of spaces and commas and every inner piece is non-empty, so the pieces are exactly the maximal separator-free stretches |
| `Tags.SplitEdgeCases` | routes/index.js:117 | the empty text splits into one empty piece, a leading run gives an empty first piece and a trailing run an empty last piece |
| `Tags.CompactAppend` | routes/index.js:117 | `filter(Boolean)` of two arrays put together is the filter of each, put together: order and multiplicity are kept |
| `Tags.TokenizeJoin` | routes/index.js:297 | joining with commas and tokenising again gives each element's tokens, element by element |
| `Tags.Join` | routes/index.js:297 | `join()` with its default comma; `Tags.TokenizeJoin` states what re-tokenising its result gives |
| `Tags.RetokenizeIsIdentity` | routes/index.js:323 | the second tokenising pass of the filter route changes nothing |
| `Tags.TokensOfTokens` | routes/index.js:297 | on a list of tokens the re-tokenising pass is the identity |
| `Tags.TokensOfAllMembers` | routes/index.js:297 | a value is among the re-tokenised tags exactly when it is a token of one of them |
| `Tags.Dedup` | routes/index.js:298 | `new Set` keeps each value once and drops none |
| `Tags.DedupFirstAppearance` | routes/index.js:298 | the kept values are in the order of their first occurrence |
| `Tags.DedupDistinct` | routes/index.js:326 | a list without repeats passes through `new Set` unchanged |
| `Catalog.TagVocabulary` | routes/index.js:288-298 | the push loop plus join, split, filter and `new Set` compute the vocabulary of the listing |
| `Catalog.Vocabulary` | routes/index.js:288-298 | the specification of the vocabulary loop: each photo's tags in listing order, re-tokenised, each value once; its meaning is stated by `Catalog.VocabularyMembers` and `Catalog.VocabularyOrder` |
| `Catalog.AllTagsMembers` | routes/index.js:289-295 | the pushed list holds exactly the tags of the listed photos |
| `Catalog.VocabularyMembers` | routes/index.js:288-298 | a value is in the vocabulary exactly when it is a token of some tag of some photo; every value is a token and none repeats |
| `Catalog.VocabularyOrder` | routes/index.js:297-298 | the vocabulary lists values in order of first occurrence |
| `Catalog.VocabularyOfTokenTags` | routes/index.js:117 | for tags as the upload route stores them, the vocabulary is the stored tags without repeats |
| `Catalog.VocabularyOfOverlappingTags` | routes/index.js:288-298 | tag lists {a, b}, {b, c}, {} of distinct tokens give the vocabulary a, b, c |
| `Catalog.SelectByTags` | routes/index.js:311 | the `$in` query keeps a listed photo, as often as it is listed, exactly when one of its tags is requested |
| `Catalog.FilterByTagList` | routes/index.js:306-333 | POST /photos: a redirect when `tagList` is absent or empty, otherwise the `$in` selection and the request's deduplicated tokens; stated by `Catalog.FilterByTagListSelects` and `Catalog.FilterBySingleTag` |
| `Catalog.FilterByTagListSelects` | routes/index.js:306-333 | with a non-empty tag list a photo is shown exactly when one of its tags is a requested token (logical OR); the rendered tags are the requested tokens once each, in request order |
| `Catalog.SelectByTagsUnion` | routes/index.js:311 | the selection for a combined request is the union of the selections for its parts |
| `Catalog.FilterBySingleTag` | routes/index.js:306-333 | requesting one tag shows exactly the photos carrying it, and only that tag is rendered |
| `Lifecycle.VariantPaths` | routes/index.js:247-249 | the original, thumbnail and preview paths of a name are three distinct paths |
| `Lifecycle.OriginalPath` | routes/index.js:247 | the original's path: the upload directory followed by the name; `Lifecycle.VariantPaths` states the three paths are distinct |
| `Lifecycle.ThumbPath` | routes/index.js:248 | the thumbnail's path under `thumbs/`; see `Lifecycle.VariantPaths` |
| `Lifecycle.PreviewPath` | routes/index.js:249 | the preview's path under `previews/`; see `Lifecycle.VariantPaths` |
| `Lifecycle.Derivatives` | routes/index.js:132 | the thumbnail and preview of every original directly in the upload directory; stated by `Lifecycle.DerivativesAreNotOriginals` and `Lifecycle.GenerateCovers` |
| `Lifecycle.Generate` | routes/index.js:132 | the file set after a successful `epg-prep` run: the old files plus their derivatives; stated by `Lifecycle.GenerateIdempotent` and `Lifecycle.GenerateCovers` |
| `Lifecycle.GenerateIdempotent` | routes/index.js:132 | running `epg-prep` again on its own output creates nothing new |
| `Lifecycle.GenerateCovers` | routes/index.js:132 | after a run, a stored original with no `/` in its name has its thumbnail and preview |
| `Lifecycle.DerivativesAreNotOriginals` | routes/index.js:132 | derivatives lie in subdirectories, never directly in the upload directory |
| `Lifecycle.UploadTags` | routes/index.js:112-118 | the stored tags are the tokens of the `tags` field, or none when it is absent; all are tokens |
| `Lifecycle.Cascade` | routes/index.js:250-268 | the unlinked paths are a prefix of the three; the run fails exactly when not all were unlinked; the failing path is the next one; remaining files are the old ones minus the unlinked |
| `Lifecycle.CascadeStopsAtFirstFailure` | routes/index.js:250-268 | each unlinked path was present and removable; the failing one was missing or faulty; later paths are untouched |
| `Lifecycle.CascadeRemovesAll` | routes/index.js:250-262 | when all three files are present and removable, all are removed and the route redirects |
| `Lifecycle.InsertKeepsBacked` | routes/index.js:120-126 | inserting a record whose original was stored keeps every record backed by its original file |
| `Lifecycle.DeleteOwnNameKeepsBacked` | routes/index.js:233-268 | deleting a record under its own stored name keeps the other records backed, given distinct, slash-free stored names |
| `Lifecycle.DeleteForeignNameBreaksBacked` | routes/index.js:247-250 | deleting with another record's stored name removes that record's original while the record stays |
| `Lifecycle.PhotoStore.constructor` | routes/index.js:17-19 | an empty catalog and an empty upload tree |
| `Lifecycle.PhotoStore.Unlink` | routes/index.js:250 | `fs.unlink` succeeds exactly when the path is present and not faulty, and then removes only that path |
| `Lifecycle.PhotoStore.UnlinkVariants` | routes/index.js:250-268 | the chained unlinks leave the state `Cascade` describes and report its failing path |
| `Lifecycle.PhotoStore.Upload` | routes/index.js:110-151 | no file: 400, nothing changes; rejected: an unstated status, nothing changes; failed write: nothing changes; failed insert: the original stays with no record; otherwise one fresh record with the stored name and the field's tokens; a failed thumbnail run answers 500 and keeps record and original (no rollback); the effects come in order |
| `Lifecycle.PhotoStore.Delete` | routes/index.js:233-275 | a missing field, a lookup error or an unknown id (404) changes nothing; otherwise the record is removed first and the three paths built from the CALLER's name are unlinked fail-fast, with no restore on failure |

## Left out

- Authentication (`mid.requiresLogin`, sessions, login, register, profile, logout) is not modelled; the model assumes a logged-in caller.
- `GET /{:photoId}`, `GET /delete`, `GET /upload` and `GET /` only read and render, and are not modelled.
- The database error and the "no photos" checks of `GET /photos` and `POST /photos` (lines 279-287, 313-321) lie outside the two query functions, which take the listing as given. `Photo.find` always returns a list, so the "no photos" branch does not arise.
- `Catalog.TagVocabulary`: the `if(photos[i].tags)` check on line 290 is dropped. A stored tag list is always an array, so the check is always true.
- The real clock is a parameter of the stored-name rule. `Date.now()` is taken to render in plain decimal digits, true of every millisecond timestamp; the exponent form JavaScript uses for numbers beyond 10^21 is not modelled.
- `Filenames.StoredFilename` (with `Filenames.IndexOf` and `Filenames.Substring`) counts positions in Unicode code points, since a Dafny `char` is one, whereas JavaScript's `indexOf` and `substring` count UTF-16 code units. The two agree when no character outside the Basic Multilingual Plane comes before the first period. Otherwise they differ: for `ab😀cd.jpg` at clock 7, JavaScript stores `ab😀-7.jpg` (the emoji counts as two units) while the model gives `ab😀c-7.jpg`; for `abc😀.jpg` JavaScript keeps half of the surrogate pair and the model keeps the whole emoji.
- The internals of multer and `epg-prep` are not modelled. The write is one success flag. A successful thumbnail run adds a thumbnail and a preview for every original directly in the upload directory; a failed run is taken to add nothing.
- Mongo ids are modelled as a counter. Form-field parsing is not modelled: an id that is absent or empty is `None`, and a malformed id is a lookup error.
- Rendering and the success message are not modelled. Because `+` binds tighter than `||`, the `'(none)'` fall-back on line 140 can never apply.
- `Lifecycle.PhotoStore.Delete`: the missing-fields branch answers with no stated status. That branch sets 404 and then calls `res.next`, which Express does not define, so Express's default 500 results.
- `Lifecycle.PhotoStore.Delete` (with `Lifecycle.PhotoStore.Unlink` and `Lifecycle.Cascade`) compares paths as text and does not resolve them as the file system does. A name whose path differs in text from a stored file's path but resolves to it deletes that file in the source and fails at the first unlink in the model: `./cat-1.jpg`, `/cat-1.jpg` (giving `uploads//cat-1.jpg`) or `x/../cat-1.jpg` for the stored `cat-1.jpg`. Likewise a name containing `../` reaches outside the upload directory in the source and is only a string here.
- Concurrency between requests, asynchronous interleaving and logging are not modelled; each request runs alone.
