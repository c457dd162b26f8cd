// ImageService: upload with object detection and label precedence, and the three read paths
// (all images, one by id, by comma-separated objects).

module Service {
  import opened Wrappers
  import opened JavaText
  import opened LabelGenerator
  import opened Imagga
  import opened Model
  import opened Repository

  /** Why an upload stops before anything is saved: the detection call raised an ApiException, or
      label synthesis threw because there was neither an object nor a usable file name. */
  datatype UploadError = DetectionFailed(error: ApiError) | LabelNotGenerated

  /** What an upload stores besides the URL: the chosen label and the detected objects. */
  datatype Upload = Upload(labelText: string, objectsInImage: seq<string>)

  // ---------------------------------------------------------------------------
  // Label precedence
  // ---------------------------------------------------------------------------

  /** A caller label that is neither null nor empty wins verbatim (even a blank one); otherwise
      a label is synthesised from the URL and the detected objects. */
  function ChooseLabel(parseHost: HostParser, url: string, callerLabel: Option<string>, objects: seq<string>)
    : (chosen: Option<string>)
    ensures callerLabel.Some? && callerLabel.value != "" ==> chosen == callerLabel
    ensures callerLabel.None? || callerLabel.value == "" ==> chosen == GenerateLabel(parseHost, url, Some(objects))
    ensures chosen.None? <==> (callerLabel.None? || callerLabel.value == "") && objects == [] && ExtractImageName(url).None?
  {
    if callerLabel.None? || callerLabel.value == "" then GenerateLabel(parseHost, url, Some(objects))
    else callerLabel
  }

  /** The outcome of uploadImageMetadata before the save: detection runs first, whatever the
      label, and its failure or a failed synthesis stops the upload. */
  function PlanUpload(client: TagsClient, parseHost: HostParser, imageDto: ImageDto): (plan: Result<Upload, UploadError>)
    ensures plan.Failure? <==>
      GetObjectsInImage(client, imageDto.url).Failure? ||
      ChooseLabel(parseHost, imageDto.url, imageDto.labelText, GetObjectsInImage(client, imageDto.url).value).None?
    ensures GetObjectsInImage(client, imageDto.url).Failure? ==>
      plan == Failure(DetectionFailed(GetObjectsInImage(client, imageDto.url).error))
    ensures plan.Success? ==>
      plan.value.objectsInImage == GetObjectsInImage(client, imageDto.url).value &&
      Some(plan.value.labelText) == ChooseLabel(parseHost, imageDto.url, imageDto.labelText, plan.value.objectsInImage)
  {
    match GetObjectsInImage(client, imageDto.url)
    case Failure(e) => Failure(DetectionFailed(e))
    case Success(objects) =>
      match ChooseLabel(parseHost, imageDto.url, imageDto.labelText, objects)
      case None => Failure(LabelNotGenerated)
      case Some(l) => Success(Upload(l, objects))
  }

  // ---------------------------------------------------------------------------
  // The objects query: split on ',' and trim each piece
  // ---------------------------------------------------------------------------

  /** Arrays.stream(objects.split(",")).map(String::trim): one token per piece, in order. */
  function SplitObjects(objects: string): (tokens: seq<string>)
    ensures |tokens| == |Split(objects, ',')|
    ensures forall k :: 0 <= k < |tokens| ==> ',' !in tokens[k] && tokens[k] == Trim(Split(objects, ',')[k])
  {
    var pieces := Split(objects, ',');
    seq(|pieces|, k requires 0 <= k < |pieces| => Trim(pieces[k]))
  }

  /** "object1,object2": two tokens, each kept as it is when it has no surrounding blanks. */
  lemma SplitObjectsTwo(a: string, b: string)
    requires ',' !in a && ',' !in b && b != ""
    requires a != [] ==> !IsTrimmable(a[0]) && !IsTrimmable(a[|a| - 1])
    requires !IsTrimmable(b[0]) && !IsTrimmable(b[|b| - 1])
    ensures SplitObjects(a + "," + b) == [a, b]
  {
    assert a + "," + b == a + [','] + b;
    SplitTwoPieces(a, b, ',');
    TrimmedPieces(a, b);
  }

  /** "a,b,": the trailing comma adds no token. */
  lemma SplitObjectsTrailingComma(a: string, b: string)
    requires ',' !in a && ',' !in b && b != ""
    requires a != [] ==> !IsTrimmable(a[0]) && !IsTrimmable(a[|a| - 1])
    requires !IsTrimmable(b[0]) && !IsTrimmable(b[|b| - 1])
    ensures SplitObjects(a + "," + b + ",") == [a, b]
  {
    assert a + "," + b + "," == a + [','] + b + [','];
    SplitTwoPiecesTrailing(a, b, ',');
    TrimmedPieces(a, b);
  }

  /** Pieces with no blank at either end are their own trim. */
  lemma TrimmedPieces(a: string, b: string)
    requires a != [] ==> !IsTrimmable(a[0]) && !IsTrimmable(a[|a| - 1])
    requires b != [] && !IsTrimmable(b[0]) && !IsTrimmable(b[|b| - 1])
    ensures Trim(a) == a && Trim(b) == b
  {
  }

  /** "," gives no token at all. */
  lemma SplitObjectsComma()
    ensures SplitObjects(",") == []
  {
    SplitSeparatorOnly(',');
  }

  /** " , " is two blank pieces, so two empty tokens. */
  lemma SplitObjectsSpacedComma()
    ensures SplitObjects(" , ") == ["", ""]
  {
    assert " , " == " " + [','] + " ";
    SplitTwoPieces(" ", " ", ',');
  }

  /** The empty string has no comma, so it is one empty token. */
  lemma SplitObjectsEmpty()
    ensures SplitObjects("") == [""]
  {
  }

  // ---------------------------------------------------------------------------
  // The service
  // ---------------------------------------------------------------------------

  /** The service holds its repository, the detection client and the host parser used by label
      synthesis; `detections` records, in order, the URLs sent to detection. */
  class ImageService {
    const repository: ImageRepository
    const client: TagsClient
    const parseHost: HostParser
    ghost var detections: seq<string>

    constructor (repository: ImageRepository, client: TagsClient, parseHost: HostParser)
      ensures this.repository == repository && this.client == client && this.parseHost == parseHost
      ensures detections == []
    {
      this.repository := repository;
      this.client := client;
      this.parseHost := parseHost;
      detections := [];
    }

    /** uploadImageMetadata: detect once, choose the label, save one image and return it as a DTO.
        A failure leaves the table as it was. */
    method UploadImageMetadata(imageDto: ImageDto) returns (result: Result<ImageDto, UploadError>)
      requires repository.Valid()
      modifies this, repository
      ensures repository.Valid()
      ensures detections == old(detections) + [imageDto.url]
      ensures match PlanUpload(client, parseHost, imageDto)
        case Failure(e) =>
          result == Failure(e) && repository.images == old(repository.images) && repository.nextId == old(repository.nextId)
        case Success(u) =>
          var saved := Image(old(repository.nextId), imageDto.url, u.labelText, u.objectsInImage);
          repository.images == old(repository.images) + [saved] && repository.nextId == old(repository.nextId) + 1 &&
          result == Success(ConvertToDto(saved))
    {
      var detected := GetObjectsInImage(client, imageDto.url);
      detections := detections + [imageDto.url];
      if detected.Failure? {
        return Failure(DetectionFailed(detected.error));
      }
      var objectsInImage := detected.value;
      var chosen := ChooseLabel(parseHost, imageDto.url, imageDto.labelText, objectsInImage);
      if chosen.None? {
        return Failure(LabelNotGenerated);
      }
      var savedImage := repository.Save(imageDto.url, chosen.value, objectsInImage);
      result := Success(ImageDto(Some(savedImage.id), savedImage.url, Some(savedImage.labelText), Some(savedImage.objectsInImage)));
    }

    /** getAllImages: every stored image as a DTO, in table order. */
    function GetAllImages(): (dtos: seq<ImageDto>)
      reads repository
      ensures |dtos| == |repository.images|
      ensures forall k :: 0 <= k < |dtos| ==> StoredImage(dtos[k]) == Some(repository.images[k])
    {
      ConvertAll(repository.images)
    }

    /** getImageById: empty exactly when no stored image has the id; otherwise that image. */
    function GetImageById(imageId: int): (dto: Option<ImageDto>)
      reads repository
      ensures dto.None? <==> forall k :: 0 <= k < |repository.images| ==> repository.images[k].id != imageId
      ensures dto.Some? ==>
        StoredImage(dto.value).Some? && StoredImage(dto.value).value in repository.images &&
        StoredImage(dto.value).value.id == imageId
    {
      match FindById(repository.images, imageId)
      case None => None
      case Some(image) => Some(ConvertToDto(image))
    }

    /** getImagesByObjects: the images having an object equal to one of the trimmed tokens, each
        once and in table order, as DTOs. */
    function GetImagesByObjects(objects: string): (dtos: seq<ImageDto>)
      reads repository
      ensures var found := ContainingObjects(repository.images, SplitObjects(objects));
        |dtos| == |found| && forall k :: 0 <= k < |dtos| ==> StoredImage(dtos[k]) == Some(found[k])
    {
      ConvertAll(ContainingObjects(repository.images, SplitObjects(objects)))
    }
  }
}
