// The vision-API side: the shape of a tags response and ImaggaService.getObjectsInImage, which
// reduces a response to the ordered list of English tag names.

module Imagga {
  import opened Wrappers

  // ---------------------------------------------------------------------------
  // ImaggaTagsResponse (every reference may be null, hence the Options)
  // ---------------------------------------------------------------------------

  datatype Tag = Tag(en: Option<string>)

  datatype TagConfidence = TagConfidence(confidence: real, tag: Option<Tag>)

  datatype TagsResult = TagsResult(tags: Option<seq<Option<TagConfidence>>>)

  datatype TagsResponse = TagsResponse(result: Option<TagsResult>)

  /** ApiException(statusCode, message), the one failure the client raises. */
  datatype ApiError = ApiError(statusCode: int, message: string)

  /** ImaggaApiClient.getTags: the HTTP call and JSON decoding, abstracted. A success may still
      be the null response. */
  type TagsClient = string -> Result<Option<TagsResponse>, ApiError>

  // ---------------------------------------------------------------------------
  // The filter/map over the tag list
  // ---------------------------------------------------------------------------

  /** The stream filter: the entry, its tag and the tag's English name are all non-null. */
  predicate Survives(e: Option<TagConfidence>) {
    e.Some? && e.value.tag.Some? && e.value.tag.value.en.Some?
  }

  /** The stream map: the English name of a surviving entry. */
  function EnglishName(e: Option<TagConfidence>): string
    requires Survives(e)
  {
    e.value.tag.value.en.value
  }

  /** filter(Survives).map(EnglishName).collect(toList()). */
  function EnglishNames(tags: seq<Option<TagConfidence>>): (names: seq<string>)
    ensures |names| <= |tags|
    ensures forall i :: 0 <= i < |tags| && Survives(tags[i]) ==> EnglishName(tags[i]) in names
    ensures forall n :: n in names ==> exists i :: 0 <= i < |tags| && Survives(tags[i]) && EnglishName(tags[i]) == n
  {
    if tags == [] then []
    else
      var rest := EnglishNames(tags[1..]);
      assert forall i :: 1 <= i < |tags| ==> tags[i] == tags[1..][i - 1];
      if Survives(tags[0]) then [EnglishName(tags[0])] + rest else rest
  }

  /** The names of a concatenation are the names of each part, in order: with EnglishNamesOne
      this pins the result down entry by entry and fixes its order. */
  lemma {:induction false} EnglishNamesAppend(a: seq<Option<TagConfidence>>, b: seq<Option<TagConfidence>>)
    ensures EnglishNames(a + b) == EnglishNames(a) + EnglishNames(b)
    decreases |a|
  {
    if a == [] {
      assert a + b == b;
    } else {
      assert (a + b)[0] == a[0] && (a + b)[1..] == a[1..] + b;
      EnglishNamesAppend(a[1..], b);
    }
  }

  /** One entry contributes its English name when it survives the filter and nothing otherwise. */
  lemma EnglishNamesOne(e: Option<TagConfidence>)
    ensures Survives(e) ==> EnglishNames([e]) == [EnglishName(e)]
    ensures !Survives(e) ==> EnglishNames([e]) == []
  {
    assert [e][1..] == [];
  }

  /** A dropped entry anywhere in the list changes nothing. */
  lemma DroppedEntryIgnored(a: seq<Option<TagConfidence>>, e: Option<TagConfidence>, b: seq<Option<TagConfidence>>)
    requires !Survives(e)
    ensures EnglishNames(a + [e] + b) == EnglishNames(a + b)
  {
    EnglishNamesAppend(a + [e], b);
    EnglishNamesAppend(a, [e]);
    EnglishNamesAppend(a, b);
    EnglishNamesOne(e);
  }

  /** Nothing is dropped exactly when every entry survives, and then the names line up with
      the entries one for one. */
  lemma {:induction false} EnglishNamesKeepsAll(tags: seq<Option<TagConfidence>>)
    ensures |EnglishNames(tags)| == |tags| <==> forall i :: 0 <= i < |tags| ==> Survives(tags[i])
    ensures (forall i :: 0 <= i < |tags| ==> Survives(tags[i])) ==>
      forall i :: 0 <= i < |tags| ==> EnglishNames(tags)[i] == EnglishName(tags[i])
  {
    if tags != [] {
      EnglishNamesKeepsAll(tags[1..]);
      assert forall i :: 1 <= i < |tags| ==> tags[i] == tags[1..][i - 1];
      if !Survives(tags[0]) {
        assert |EnglishNames(tags)| <= |tags[1..]|;
      }
    }
  }

  /** Two entries carrying the same tag, whatever their confidences. */
  predicate SameTag(a: Option<TagConfidence>, b: Option<TagConfidence>) {
    (a.None? && b.None?) || (a.Some? && b.Some? && a.value.tag == b.value.tag)
  }

  /** Confidence values play no part in the result. */
  lemma {:induction false} ConfidenceIrrelevant(tags1: seq<Option<TagConfidence>>, tags2: seq<Option<TagConfidence>>)
    requires |tags1| == |tags2|
    requires forall i :: 0 <= i < |tags1| ==> SameTag(tags1[i], tags2[i])
    ensures EnglishNames(tags1) == EnglishNames(tags2)
  {
    if tags1 != [] {
      assert forall i :: 1 <= i < |tags1| ==> tags1[i] == tags1[1..][i - 1] && tags2[i] == tags2[1..][i - 1];
      ConfidenceIrrelevant(tags1[1..], tags2[1..]);
    }
  }

  // ---------------------------------------------------------------------------
  // ImaggaService.getObjectsInImage
  // ---------------------------------------------------------------------------

  /** The tag list of a response, when neither the response, its result nor its list is null. */
  predicate HasTagList(response: Option<TagsResponse>) {
    response.Some? && response.value.result.Some? && response.value.result.value.tags.Some?
  }

  /** getObjectsInImage after the client call: the null guards, then the filter/map. */
  function ObjectsOfResponse(response: Option<TagsResponse>): (objects: seq<string>)
    ensures !HasTagList(response) ==> objects == []
    ensures HasTagList(response) ==> objects == EnglishNames(response.value.result.value.tags.value)
  {
    if response.None? || response.value.result.None? || response.value.result.value.tags.None? then []
    else EnglishNames(response.value.result.value.tags.value)
  }

  /** getObjectsInImage: an ApiException of the client propagates unchanged; any response becomes
      the list of English names of its surviving entries, in response order. */
  function GetObjectsInImage(client: TagsClient, imageUrl: string): (objects: Result<seq<string>, ApiError>)
    ensures objects.Failure? <==> client(imageUrl).Failure?
    ensures objects.Failure? ==> objects.error == client(imageUrl).error
    ensures objects.Success? ==> objects.value == ObjectsOfResponse(client(imageUrl).value)
  {
    match client(imageUrl)
    case Failure(e) => Failure(e)
    case Success(response) => Success(ObjectsOfResponse(response))
  }
}
