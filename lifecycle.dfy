/** The two request pipelines that change state: POST /upload (multer's filter
    and disk write, then the handler's catalog insert and the external
    thumbnail generator; routes/index.js lines 17-45 and 110-151) and POST
    /delete (catalog removal, then three chained unlinks; lines 233-275). The
    catalog and the upload directory tree are the fields of one store object;
    the database, the disk and the `epg-prep` process are represented only by
    their effect on those fields, their success or failure being parameters. */
module Lifecycle {
  import opened Options
  import opened Filenames
  import opened Tags
  import opened Catalog

  /** Catalog document ids. The database issues fresh ones; the model draws
      them from a counter. */
  type Id = nat

  const UPLOAD_DIR: string := "./public/images/uploads/"

  /** Where multer writes the original and where `epg-prep` puts the two
      derivatives of a stored name. */
  function OriginalPath(name: string): string { UPLOAD_DIR + name }
  function ThumbPath(name: string): string { UPLOAD_DIR + "thumbs/" + name }
  function PreviewPath(name: string): string { UPLOAD_DIR + "previews/" + name }

  /** The three variants in the order the delete route unlinks them. */
  function VariantPaths(name: string): (paths: seq<string>)
    ensures |paths| == 3 && NoDuplicates(paths)
  {
    [OriginalPath(name), ThumbPath(name), PreviewPath(name)]
  }

  /** A file directly inside the upload directory (not in a subdirectory). */
  predicate IsOriginal(path: string)
  {
    |UPLOAD_DIR| < |path| && path[..|UPLOAD_DIR|] == UPLOAD_DIR && '/' !in path[|UPLOAD_DIR|..]
  }

  /** What a successful `epg-prep public/images/uploads/` run creates: a
      thumbnail and a preview for every original in the directory. */
  function Derivatives(files: set<string>): set<string>
  {
    (set p | p in files && IsOriginal(p) :: ThumbPath(p[|UPLOAD_DIR|..])) +
    (set p | p in files && IsOriginal(p) :: PreviewPath(p[|UPLOAD_DIR|..]))
  }

  function Generate(files: set<string>): set<string>
  {
    files + Derivatives(files)
  }

  /** Derivatives are not originals: they sit in subdirectories. */
  lemma DerivativesAreNotOriginals(files: set<string>)
    ensures forall p :: p in Derivatives(files) ==> !IsOriginal(p)
  {
    forall p | p in Derivatives(files)
      ensures !IsOriginal(p)
    {
      var q :| q in files && IsOriginal(q) &&
        (p == ThumbPath(q[|UPLOAD_DIR|..]) || p == PreviewPath(q[|UPLOAD_DIR|..]));
      var name := q[|UPLOAD_DIR|..];
      if p == ThumbPath(name) {
        assert p[|UPLOAD_DIR|..] == "thumbs/" + name;
        assert p[|UPLOAD_DIR|..][6] == '/';
      } else {
        assert p[|UPLOAD_DIR|..] == "previews/" + name;
        assert p[|UPLOAD_DIR|..][8] == '/';
      }
    }
  }

  /** Running the generator again on its own output creates nothing new. */
  lemma GenerateIdempotent(files: set<string>)
    ensures Generate(Generate(files)) == Generate(files)
  {
    DerivativesAreNotOriginals(files);
    var g := Generate(files);
    assert forall p :: p in g && IsOriginal(p) <==> p in files && IsOriginal(p);
    assert Derivatives(g) == Derivatives(files);
  }

  /** A successful run gives a plain stored name both of its derivatives. */
  lemma GenerateCovers(files: set<string>, name: string)
    requires OriginalPath(name) in files && name != "" && '/' !in name
    ensures ThumbPath(name) in Generate(files) && PreviewPath(name) in Generate(files)
  {
    var p := OriginalPath(name);
    assert p[..|UPLOAD_DIR|] == UPLOAD_DIR && p[|UPLOAD_DIR|..] == name;
    assert IsOriginal(p);
  }

  /** The tag list the upload handler stores: the tokens of the `tags` field,
      or none when the field is absent or empty. */
  function UploadTags(field: Option<string>): (tags: seq<string>)
    ensures field.None? ==> tags == []
    ensures field.Some? ==> tags == Tokenize(field.value)
    ensures forall k :: 0 <= k < |tags| ==> IsToken(tags[k])
  {
    TokenizeEmpty();
    if field.Some? && field.value != "" then Tokenize(field.value) else []
  }

  /** How a request ends. An error's status is the one the route assigns, or
      None where it assigns none (Express then answers 500). */
  datatype ErrorKind =
    | NoFile | NotAnImage | StorageFailed | PersistenceFailed | ThumbnailsFailed
    | MissingFields | LookupFailed | NotFound | UnlinkFailed(path: string)
  datatype Reply = Done | Failed(kind: ErrorKind, status: Option<int>)

  /** The side effects, in the order they happen. */
  datatype Effect = Stored(path: string) | Inserted(id: Id) | Generated | Removed(id: Id) | Unlinked(path: string)

  function UnlinkEffects(paths: seq<string>): (effects: seq<Effect>)
    ensures |effects| == |paths|
    ensures forall k :: 0 <= k < |paths| ==> effects[k] == Unlinked(paths[k])
  {
    if paths == [] then [] else [Unlinked(paths[0])] + UnlinkEffects(paths[1..])
  }

  /** The outcome of unlinking paths one after another, stopping at the first
      failure: the files left, the paths removed, the path that failed. */
  datatype CascadeResult = CascadeResult(remaining: set<string>, unlinked: seq<string>, failed: Option<string>)

  /** `fs.unlink` of each path in turn, each in the callback of the one before.
      An unlink fails when the path is not there or when it is in `faulty`. */
  function Cascade(files: set<string>, paths: seq<string>, faulty: set<string>): (r: CascadeResult)
    ensures |r.unlinked| <= |paths| && r.unlinked == paths[..|r.unlinked|]
    ensures r.failed.None? <==> |r.unlinked| == |paths|
    ensures r.failed.Some? ==> r.failed.value == paths[|r.unlinked|]
    ensures r.remaining == files - set p | p in r.unlinked
  {
    if paths == [] then CascadeResult(files, [], None)
    else if paths[0] !in files || paths[0] in faulty then CascadeResult(files, [], Some(paths[0]))
    else
      var rest := Cascade(files - {paths[0]}, paths[1..], faulty);
      CascadeResult(rest.remaining, [paths[0]] + rest.unlinked, rest.failed)
  }

  /** For distinct paths: every path before the failure was present and
      removable, the failing one was missing or faulty, and the paths after it
      are exactly as present as before. */
  lemma {:induction false} CascadeStopsAtFirstFailure(files: set<string>, paths: seq<string>, faulty: set<string>)
    requires NoDuplicates(paths)
    ensures var r := Cascade(files, paths, faulty);
      && (forall k :: 0 <= k < |r.unlinked| ==> paths[k] in files && paths[k] !in faulty)
      && (r.failed.Some? ==> r.failed.value !in files || r.failed.value in faulty)
      && (forall k :: |r.unlinked| <= k < |paths| ==> (paths[k] in r.remaining <==> paths[k] in files))
    decreases |paths|
  {
    if paths != [] && paths[0] in files && paths[0] !in faulty {
      var tail := paths[1..];
      CascadeStopsAtFirstFailure(files - {paths[0]}, tail, faulty);
      var r := Cascade(files, paths, faulty);
      var rest := Cascade(files - {paths[0]}, tail, faulty);
      assert forall k :: 0 <= k < |tail| ==> tail[k] != paths[0];
      forall k | 0 <= k < |r.unlinked|
        ensures paths[k] in files && paths[k] !in faulty
      {
        if k > 0 {
          assert paths[k] == tail[k - 1];
        }
      }
      forall k | |r.unlinked| <= k < |paths|
        ensures paths[k] in r.remaining <==> paths[k] in files
      {
        assert paths[k] == tail[k - 1];
      }
    }
  }

  /** When every path is present and none is faulty, all are removed and the
      cascade reports success. */
  lemma {:induction false} CascadeRemovesAll(files: set<string>, paths: seq<string>, faulty: set<string>)
    requires NoDuplicates(paths)
    requires forall k :: 0 <= k < |paths| ==> paths[k] in files && paths[k] !in faulty
    ensures var r := Cascade(files, paths, faulty);
      r.failed == None && r.remaining == files - set p | p in paths
    decreases |paths|
  {
    if paths != [] {
      var tail := paths[1..];
      forall k | 0 <= k < |tail|
        ensures tail[k] in files - {paths[0]} && tail[k] !in faulty
      {
        assert tail[k] == paths[k + 1] != paths[0];
      }
      CascadeRemovesAll(files - {paths[0]}, tail, faulty);
      assert paths == [paths[0]] + tail;
      assert (set p | p in paths) == {paths[0]} + set p | p in tail;
    }
  }

  /** One step of the cascade. */
  lemma CascadeCons(files: set<string>, p: string, rest: seq<string>, faulty: set<string>)
    ensures Cascade(files, [p] + rest, faulty) ==
      if p !in files || p in faulty then CascadeResult(files, [], Some(p))
      else
        var r := Cascade(files - {p}, rest, faulty);
        CascadeResult(r.remaining, [p] + r.unlinked, r.failed)
  {
    assert ([p] + rest)[1..] == rest;
  }

  /** The cascade over three paths, case by case. */
  lemma CascadeThree(files: set<string>, a: string, b: string, c: string, faulty: set<string>)
    ensures var r := Cascade(files, [a, b, c], faulty);
      if a !in files || a in faulty then
        r == CascadeResult(files, [], Some(a))
      else if b !in files - {a} || b in faulty then
        r == CascadeResult(files - {a}, [a], Some(b))
      else if c !in files - {a} - {b} || c in faulty then
        r == CascadeResult(files - {a} - {b}, [a, b], Some(c))
      else
        r == CascadeResult(files - {a} - {b} - {c}, [a, b, c], None)
  {
    assert [a, b, c] == [a] + [b, c];
    assert [b, c] == [b] + [c];
    assert [c] == [c] + [];
    CascadeCons(files, a, [b, c], faulty);
    CascadeCons(files - {a}, b, [c], faulty);
    CascadeCons(files - {a} - {b}, c, [], faulty);
  }

  /** The intended catalog invariant: every record's original is on disk. */
  ghost predicate Backed(catalog: map<Id, Photo>, files: set<string>)
  {
    forall id :: id in catalog ==> OriginalPath(catalog[id].filename) in files
  }

  /** Inserting a record whose original has been stored keeps the catalog
      backed, as does any later growth of the file set. */
  lemma InsertKeepsBacked(catalog: map<Id, Photo>, files: set<string>, more: set<string>, id: Id, record: Photo)
    requires Backed(catalog, files)
    requires files <= more && OriginalPath(record.filename) in more
    ensures Backed(catalog[id := record], more)
  {
  }

  /** Deleting a record with its own stored name keeps the other records
      backed, provided stored names are distinct and contain no '/'. */
  lemma DeleteOwnNameKeepsBacked(catalog: map<Id, Photo>, files: set<string>, id: Id, faulty: set<string>)
    requires Backed(catalog, files) && id in catalog
    requires forall other :: other in catalog && other != id ==>
      catalog[other].filename != catalog[id].filename && '/' !in catalog[other].filename
    ensures Backed(catalog - {id}, Cascade(files, VariantPaths(catalog[id].filename), faulty).remaining)
  {
    var name := catalog[id].filename;
    var r := Cascade(files, VariantPaths(name), faulty);
    forall other | other in catalog - {id}
      ensures OriginalPath(catalog[other].filename) in r.remaining
    {
      var g := catalog[other].filename;
      var p := OriginalPath(g);
      assert p != OriginalPath(name) by {
        assert p[|UPLOAD_DIR|..] == g;
        assert OriginalPath(name)[|UPLOAD_DIR|..] == name;
      }
      assert p != ThumbPath(name) by {
        if |p| == |ThumbPath(name)| {
          assert p[|UPLOAD_DIR| + 6] == g[6] != '/';
          assert ThumbPath(name)[|UPLOAD_DIR| + 6] == '/';
        }
      }
      assert p != PreviewPath(name) by {
        if |p| == |PreviewPath(name)| {
          assert p[|UPLOAD_DIR| + 8] == g[8] != '/';
          assert PreviewPath(name)[|UPLOAD_DIR| + 8] == '/';
        }
      }
      assert p !in r.unlinked;
    }
  }

  /** Deleting with another record's stored name (the route trusts the
      caller's `filename`) removes that record's original while the record
      stays: the catalog is no longer backed. */
  lemma DeleteForeignNameBreaksBacked(catalog: map<Id, Photo>, files: set<string>, id: Id, other: Id, faulty: set<string>)
    requires id in catalog && other in catalog && other != id
    requires OriginalPath(catalog[other].filename) in files
    requires OriginalPath(catalog[other].filename) !in faulty
    ensures !Backed(catalog - {id}, Cascade(files, VariantPaths(catalog[other].filename), faulty).remaining)
  {
    var name := catalog[other].filename;
    var paths := VariantPaths(name);
    var r := Cascade(files, paths, faulty);
    var rest := Cascade(files - {paths[0]}, paths[1..], faulty);
    assert r.unlinked == [OriginalPath(name)] + rest.unlinked;
    assert OriginalPath(name) !in r.remaining;
    assert other in catalog - {id} && (catalog - {id})[other].filename == name;
  }

  /** The catalog (document id to record) and the upload directory tree (the
      set of paths present), shared by the two pipelines. */
  class PhotoStore {
    var catalog: map<Id, Photo>
    var files: set<string>
    var nextId: Id
    ghost var trace: seq<Effect>

    ghost predicate Valid()
      reads this
    {
      forall id :: id in catalog ==> id < nextId
    }

    constructor ()
      ensures Valid()
      ensures catalog == map[] && files == {} && nextId == 0 && trace == []
    {
      catalog := map[];
      files := {};
      nextId := 0;
      trace := [];
    }

    /** `fs.unlink(path)`. */
    method Unlink(path: string, faulty: set<string>) returns (ok: bool)
      modifies this`files, this`trace
      ensures ok == (path in old(files) && path !in faulty)
      ensures files == if ok then old(files) - {path} else old(files)
      ensures trace == if ok then old(trace) + [Unlinked(path)] else old(trace)
    {
      ok := path in files && path !in faulty;
      if ok {
        files := files - {path};
        trace := trace + [Unlinked(path)];
      }
    }

    /** The delete route's callback chain: the original, then the thumbnail,
        then the preview, each unlinked only once the previous one succeeded;
        the path that failed, if any. */
    method UnlinkVariants(name: string, faulty: set<string>) returns (failed: Option<string>)
      modifies this`files, this`trace
      ensures var c := Cascade(old(files), VariantPaths(name), faulty);
        && files == c.remaining
        && failed == c.failed
        && trace == old(trace) + UnlinkEffects(c.unlinked)
    {
      var original, thumb, preview := OriginalPath(name), ThumbPath(name), PreviewPath(name);
      ghost var f0, t0 := files, trace;
      CascadeThree(f0, original, thumb, preview, faulty);
      var ok := Unlink(original, faulty);
      if !ok {
        return Some(original);
      }
      ok := Unlink(thumb, faulty);
      if !ok {
        return Some(thumb);
      }
      ok := Unlink(preview, faulty);
      if !ok {
        return Some(preview);
      }
      failed := None;
    }

    /** POST /upload with multer in front: `file` is the client's name of the
        uploaded file, if any; `now` is the clock reading multer's `filename`
        callback takes; `writeOk`, `createOk` and `generatorOk` are the
        outcomes of the disk write, of `Photo.create` and of `epg-prep`. */
    method Upload(file: Option<string>, tagsField: Option<string>, now: nat,
                  writeOk: bool, createOk: bool, generatorOk: bool) returns (reply: Reply)
      requires Valid()
      modifies this
      ensures Valid()
      ensures file.None? ==> reply == Failed(NoFile, Some(400)) && unchanged(this)
      ensures file.Some? && !ImageFilter(file.value) ==>
        reply == Failed(NotAnImage, None) && unchanged(this)
      ensures file.Some? && ImageFilter(file.value) && !writeOk ==>
        reply == Failed(StorageFailed, None) && unchanged(this)
      ensures file.Some? && ImageFilter(file.value) && writeOk && !createOk ==>
        var original := OriginalPath(StoredFilename(file.value, now));
        && reply == Failed(PersistenceFailed, None)
        && catalog == old(catalog) && nextId == old(nextId)
        && files == old(files) + {original}
        && trace == old(trace) + [Stored(original)]
      ensures file.Some? && ImageFilter(file.value) && writeOk && createOk ==>
        var stored := StoredFilename(file.value, now);
        var original := OriginalPath(stored);
        var id := old(nextId);
        && id !in old(catalog)
        && catalog == old(catalog)[id := Photo(stored, file.value, UploadTags(tagsField))]
        && nextId == id + 1
        && (generatorOk ==>
              && reply == Done
              && files == Generate(old(files) + {original})
              && trace == old(trace) + [Stored(original), Inserted(id), Generated])
        && (!generatorOk ==>
              && reply == Failed(ThumbnailsFailed, Some(500))
              && files == old(files) + {original}
              && trace == old(trace) + [Stored(original), Inserted(id)])
    {
      if file.None? {
        return Failed(NoFile, Some(400));
      }
      var name := file.value;
      // multer: fileFilter, then the storage's filename callback and the write
      if !ImageFilter(name) {
        return Failed(NotAnImage, None);
      }
      var stored := StoredFilename(name, now);
      var original := OriginalPath(stored);
      if !writeOk {
        return Failed(StorageFailed, None);
      }
      files := files + {original};
      trace := trace + [Stored(original)];
      // the route handler
      var tagArray := UploadTags(tagsField);
      if !createOk {
        return Failed(PersistenceFailed, None);
      }
      var id := nextId;
      catalog := catalog[id := Photo(stored, name, tagArray)];
      nextId := nextId + 1;
      trace := trace + [Inserted(id)];
      if !generatorOk {
        return Failed(ThumbnailsFailed, Some(500));
      }
      files := Generate(files);
      trace := trace + [Generated];
      reply := Done;
    }

    /** POST /delete: `photoId` and `filename` are the form fields (None or
        the empty name when missing), `lookupOk` is whether
        `findByIdAndRemove` answers without error, and `faulty` holds the
        paths whose unlink fails although present. */
    method Delete(photoId: Option<Id>, filename: Option<string>, lookupOk: bool,
                  faulty: set<string>) returns (reply: Reply)
      requires Valid()
      modifies this
      ensures Valid()
      ensures (photoId.None? || filename.None? || filename.value == "") ==>
        reply == Failed(MissingFields, None) && unchanged(this)
      ensures (photoId.Some? && filename.Some? && filename.value != "" && !lookupOk) ==>
        reply == Failed(LookupFailed, None) && unchanged(this)
      ensures (photoId.Some? && filename.Some? && filename.value != "" && lookupOk &&
               photoId.value !in old(catalog)) ==>
        reply == Failed(NotFound, Some(404)) && unchanged(this)
      ensures (photoId.Some? && filename.Some? && filename.value != "" && lookupOk &&
               photoId.value in old(catalog)) ==>
        var c := Cascade(old(files), VariantPaths(filename.value), faulty);
        && catalog == old(catalog) - {photoId.value}
        && nextId == old(nextId)
        && files == c.remaining
        && reply == (if c.failed.None? then Done else Failed(UnlinkFailed(c.failed.value), None))
        && trace == old(trace) + [Removed(photoId.value)] + UnlinkEffects(c.unlinked)
    {
      if photoId.None? || filename.None? || filename.value == "" {
        return Failed(MissingFields, None);
      }
      if !lookupOk {
        return Failed(LookupFailed, None);
      }
      var id := photoId.value;
      if id !in catalog {
        return Failed(NotFound, Some(404));
      }
      catalog := catalog - {id};
      trace := trace + [Removed(id)];
      var failed := UnlinkVariants(filename.value, faulty);
      reply := if failed.None? then Done else Failed(UnlinkFailed(failed.value), None);
    }
  }
}
