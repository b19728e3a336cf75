/** The photo record and the two read-side views of the catalog: the tag
    vocabulary shown with the gallery (GET /photos, routes/index.js lines
    288-300) and the tag filter (POST /photos, lines 306-333). Both take the
    listing the database hands back, in the order it hands it back. */
module Catalog {
  import opened Options
  import opened Tags

  /** A catalog document: the stored name, the client's name and the tags. */
  datatype Photo = Photo(filename: string, originalname: string, tags: seq<string>)

  /** Every photo's tags, photo by photo, in listing order. */
  function AllTags(photos: seq<Photo>): seq<string>
  {
    if photos == [] then [] else AllTags(photos[..|photos| - 1]) + photos[|photos| - 1].tags
  }

  /** The tag vocabulary: all tags re-tokenised, each value once, in the order
      of first appearance. */
  function Vocabulary(photos: seq<Photo>): seq<string>
  {
    Dedup(TokensOfAll(AllTags(photos)))
  }

  /** The loop of GET /photos: push every photo's tags, join with commas, split
      on runs of spaces and commas, drop empty pieces, then keep one copy of
      each value. */
  method TagVocabulary(photos: seq<Photo>) returns (uniqueTags: seq<string>)
    ensures uniqueTags == Vocabulary(photos)
  {
    var allTags: seq<string> := [];
    for i := 0 to |photos|
      invariant allTags == AllTags(photos[..i])
    {
      var tags := photos[i].tags;
      for j := 0 to |tags|
        invariant allTags == AllTags(photos[..i]) + tags[..j]
      {
        allTags := allTags + [tags[j]];
      }
      assert photos[..i + 1][..i] == photos[..i];
    }
    assert photos[..|photos|] == photos;
    TokenizeJoin(allTags);
    allTags := Tokenize(Join(allTags));
    uniqueTags := Dedup(allTags);
  }

  lemma {:induction false} AllTagsMembers(photos: seq<Photo>, t: string)
    ensures t in AllTags(photos) <==> exists i :: 0 <= i < |photos| && t in photos[i].tags
    decreases |photos|
  {
    if photos != [] {
      var init := photos[..|photos| - 1];
      AllTagsMembers(init, t);
      if exists i :: 0 <= i < |photos| && t in photos[i].tags {
        var i :| 0 <= i < |photos| && t in photos[i].tags;
        if i < |init| {
          assert t in init[i].tags;
        }
      }
    }
  }

  /** The vocabulary holds exactly the tokens of the photos' tags: a value is
      in it if and only if it is a token of some tag of some photo. Every value
      is non-empty and free of spaces and commas, and none is repeated. */
  lemma VocabularyMembers(photos: seq<Photo>, x: string)
    ensures x in Vocabulary(photos) <==>
      exists i, t :: 0 <= i < |photos| && t in photos[i].tags && x in Tokenize(t)
    ensures x in Vocabulary(photos) ==> IsToken(x)
    ensures NoDuplicates(Vocabulary(photos))
  {
    var all := AllTags(photos);
    TokensOfAllMembers(all, x);
    if x in Vocabulary(photos) {
      var t :| t in all && x in Tokenize(t);
      AllTagsMembers(photos, t);
      var k :| 0 <= k < |Tokenize(t)| && Tokenize(t)[k] == x;
    }
    if exists i, t :: 0 <= i < |photos| && t in photos[i].tags && x in Tokenize(t) {
      var i, t :| 0 <= i < |photos| && t in photos[i].tags && x in Tokenize(t);
      AllTagsMembers(photos, t);
    }
  }

  /** The vocabulary lists values in the order in which they first occur among
      the tokens of the photos' tags. */
  lemma VocabularyOrder(photos: seq<Photo>)
    ensures var tokens := TokensOfAll(AllTags(photos));
      var vocab := Vocabulary(photos);
      forall i, j :: 0 <= i < j < |vocab| ==>
        FirstIndex(tokens, vocab[i]) < FirstIndex(tokens, vocab[j])
  {
    DedupFirstAppearance(TokensOfAll(AllTags(photos)));
  }

  /** For tag lists as the upload route stores them (tokens only), the
      re-tokenising pass is inert and the vocabulary is the set of stored tags
      in first-appearance order. */
  lemma VocabularyOfTokenTags(photos: seq<Photo>)
    requires forall i, k :: 0 <= i < |photos| && 0 <= k < |photos[i].tags| ==> IsToken(photos[i].tags[k])
    ensures Vocabulary(photos) == Dedup(AllTags(photos))
  {
    var all := AllTags(photos);
    forall k | 0 <= k < |all|
      ensures IsToken(all[k])
    {
      AllTagsMembers(photos, all[k]);
      var i :| 0 <= i < |photos| && all[k] in photos[i].tags;
      var m :| 0 <= m < |photos[i].tags| && photos[i].tags[m] == all[k];
    }
    TokensOfTokens(all);
  }

  /** Mongo's `{ tags: { $in: requested } }`: the photo has at least one tag
      that is among the requested ones. */
  predicate SharesTag(p: Photo, requested: seq<string>)
  {
    exists j :: 0 <= j < |p.tags| && p.tags[j] in requested
  }

  /** The photos of the listing that match the `$in` query, each as often as
      it occurs in the listing. */
  function SelectByTags(listing: seq<Photo>, requested: seq<string>): (r: seq<Photo>)
    ensures forall p :: multiset(r)[p] == if SharesTag(p, requested) then multiset(listing)[p] else 0
    ensures forall p :: p in r <==> p in listing && SharesTag(p, requested)
  {
    if listing == [] then []
    else
      var rest := SelectByTags(listing[1..], requested);
      assert listing == [listing[0]] + listing[1..];
      if SharesTag(listing[0], requested) then [listing[0]] + rest else rest
  }

  /** What POST /photos renders: nothing but a redirect when the tag list is
      absent or empty, otherwise the matching photos and the requested tags. */
  datatype GalleryView = Redirect | Gallery(photos: seq<Photo>, tags: seq<string>)

  /** POST /photos. */
  function FilterByTagList(listing: seq<Photo>, tagList: Option<string>): GalleryView
  {
    if tagList.None? || tagList.value == "" then Redirect
    else
      var tagArray := Tokenize(tagList.value);
      var photos := SelectByTags(listing, tagArray);
      Gallery(photos, Dedup(Tokenize(Join(tagArray))))
  }

  /** The filter selects a photo exactly when one of its tags is one of the
      requested tokens (logical OR), and the tags it renders are the requested
      tokens, each once, in request order: not the photos' own tags. */
  lemma FilterByTagListSelects(listing: seq<Photo>, tagList: string)
    requires tagList != ""
    ensures var view := FilterByTagList(listing, Some(tagList));
      && view.Gallery?
      && (forall p :: p in view.photos <==>
            p in listing && exists t :: t in p.tags && t in Tokenize(tagList))
      && view.tags == Dedup(Tokenize(tagList))
  {
    var requested := Tokenize(tagList);
    RetokenizeIsIdentity(tagList);
    forall p
      ensures SharesTag(p, requested) <==> exists t :: t in p.tags && t in requested
    {
      if exists t :: t in p.tags && t in requested {
        var t :| t in p.tags && t in requested;
        var j :| 0 <= j < |p.tags| && p.tags[j] == t;
      }
    }
  }

  /** Requesting more tags never loses a photo: the selection for a combined
      request is the union of the selections for its parts. */
  lemma SelectByTagsUnion(listing: seq<Photo>, r1: seq<string>, r2: seq<string>)
    ensures forall p :: p in SelectByTags(listing, r1 + r2) <==>
      p in SelectByTags(listing, r1) || p in SelectByTags(listing, r2)
  {
    forall p
      ensures SharesTag(p, r1 + r2) <==> SharesTag(p, r1) || SharesTag(p, r2)
    {
      if SharesTag(p, r1 + r2) {
        var j :| 0 <= j < |p.tags| && p.tags[j] in r1 + r2;
      }
    }
  }

  /** A request for one tag returns exactly the photos carrying it, whatever
      their other tags. */
  lemma FilterBySingleTag(listing: seq<Photo>, tag: string)
    requires IsToken(tag)
    ensures var view := FilterByTagList(listing, Some(tag));
      && view.Gallery?
      && (forall p :: p in view.photos <==> p in listing && tag in p.tags)
      && view.tags == [tag]
  {
    TokenizeToken(tag);
    FilterByTagListSelects(listing, tag);
    DedupDistinct([tag]);
  }

  lemma AllTagsOfThree(p: Photo, q: Photo, r: Photo)
    ensures AllTags([p, q, r]) == p.tags + q.tags + r.tags
  {
    var photos := [p, q, r];
    assert photos[..2][..1] == [p];
    assert photos[..2] == [p, q];
    assert photos[..1][..0] == [];
    assert AllTags([p]) == p.tags;
    assert AllTags([p, q]) == p.tags + q.tags;
  }

  lemma DedupOfRepeat(a: string, b: string, c: string)
    requires a != b && b != c && a != c
    ensures Dedup([a, b, b, c]) == [a, b, c]
  {
    var all := [a, b, b, c];
    assert all[..3][..2][..1][..0] == [];
    assert all[..3][..2][..1] == [a];
    assert all[..3][..2] == [a, b];
    assert all[..3] == [a, b, b];
    assert Dedup([a]) == [a];
    assert Dedup([a, b]) == [a, b];
    assert Dedup([a, b, b]) == [a, b];
  }

  /** Tag lists {a, b}, {b, c} and {} give the vocabulary a, b, c: the shared
      tag once, at its first place, and the empty list contributes nothing. */
  lemma VocabularyOfOverlappingTags(p: Photo, q: Photo, r: Photo, a: string, b: string, c: string)
    requires IsToken(a) && IsToken(b) && IsToken(c)
    requires a != b && b != c && a != c
    requires p.tags == [a, b] && q.tags == [b, c] && r.tags == []
    ensures Vocabulary([p, q, r]) == [a, b, c]
  {
    AllTagsOfThree(p, q, r);
    var all := [a, b, b, c];
    assert AllTags([p, q, r]) == all;
    TokensOfTokens(all);
    DedupOfRepeat(a, b, c);
  }
}
