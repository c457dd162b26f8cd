// ImageController: the /images endpoints' decisions. A success is an ApiResponse with status 200;
// the exceptions the controller raises are the failures of a Result.

module Controller {
  import opened Wrappers
  import opened JavaText
  import opened Model
  import opened Repository
  import opened Service

  /** ApiResponse(status, message, data); the wall-clock timestamp is not modelled. */
  datatype ApiResponse<T> = ApiResponse(status: int, message: string, data: T)

  /** The exceptions thrown from the endpoints: IllegalArgumentException,
      ResourceNotFoundException, and whatever the upload raised. */
  datatype ControllerError =
    | IllegalArgument(message: string)
    | ResourceNotFound(message: string)
    | UploadFailed(cause: UploadError)

  /** HttpStatus.OK. */
  const Ok: int := 200

  const EmptyObjectsMessage: string := "Objects parameter cannot be empty"
  const FoundMessage: string := "Image(s) retrieved successfully"
  const NoImagesMessage: string := "No images uploaded yet in the system."
  const NoMatchPrefix: string := "No images found containing the specified objects: "
  const NotFoundPrefix: string := "Image not found with id: "
  const RetrievedMessage: string := "Image retrieved successfully"
  const SavedMessage: string := "Image metadata saved successfully"

  // ---------------------------------------------------------------------------
  // GET /images and GET /images?objects=
  // ---------------------------------------------------------------------------

  /** The message of a retrieval: the success text exactly when something was found; otherwise
      it says whether the store is empty or nothing matched the query. */
  function RetrievalMessage(objects: Option<string>, images: seq<ImageDto>): (message: string)
    ensures message == FoundMessage <==> images != []
    ensures images == [] && objects.None? ==> message == NoImagesMessage
    ensures images == [] && objects.Some? ==> message == NoMatchPrefix + objects.value
  {
    if images != [] then FoundMessage
    else if objects.None? then NoImagesMessage
    else NoMatchPrefix + objects.value
  }

  /** getImages: a present but blank `objects` is refused before the service is asked; an absent
      one lists everything; a present one is handed to the query unmodified. */
  function GetImages(service: ImageService, objects: Option<string>)
    : (response: Result<ApiResponse<seq<ImageDto>>, ControllerError>)
    reads service.repository
    ensures response.Failure? <==> objects.Some? && IsBlank(objects.value)
    ensures response.Failure? ==> response.error == IllegalArgument(EmptyObjectsMessage)
    ensures response.Success? ==>
      response.value.status == Ok &&
      response.value.data == (if objects.None? then service.GetAllImages() else service.GetImagesByObjects(objects.value)) &&
      response.value.message == RetrievalMessage(objects, response.value.data)
  {
    if objects.Some? && IsBlank(objects.value) then Failure(IllegalArgument(EmptyObjectsMessage))
    else
      var images := if objects.None? then service.GetAllImages() else service.GetImagesByObjects(objects.value);
      Success(ApiResponse(Ok, RetrievalMessage(objects, images), images))
  }

  /** " , " is not blank (it trims to ","), so it is not refused: it becomes the query for two
      empty tokens. */
  lemma SpacedCommaNotRejected(service: ImageService)
    ensures GetImages(service, Some(" , ")).Success?
    ensures SplitObjects(" , ") == ["", ""]
  {
    assert !IsTrimmable(" , "[1]);
    SplitObjectsSpacedComma();
  }

  // ---------------------------------------------------------------------------
  // GET /images/{imageId}
  // ---------------------------------------------------------------------------

  /** getImageById: not found exactly when no stored image has the id, with the id in the
      message; otherwise the image with the fixed success message. */
  function GetImageById(service: ImageService, imageId: int)
    : (response: Result<ApiResponse<ImageDto>, ControllerError>)
    reads service.repository
    ensures response.Failure? <==>
      forall k :: 0 <= k < |service.repository.images| ==> service.repository.images[k].id != imageId
    ensures response.Failure? ==> response.error == ResourceNotFound(NotFoundPrefix + DecimalString(imageId))
    ensures response.Success? ==>
      response.value.status == Ok && response.value.message == RetrievedMessage &&
      Some(response.value.data) == service.GetImageById(imageId)
  {
    match service.GetImageById(imageId)
    case None => Failure(ResourceNotFound(NotFoundPrefix + DecimalString(imageId)))
    case Some(dto) => Success(ApiResponse(Ok, RetrievedMessage, dto))
  }

  // ---------------------------------------------------------------------------
  // POST /images
  // ---------------------------------------------------------------------------

  /** uploadImageMetadata: the service's DTO with status 200 and the saved message; a failure of
      the service passes through and saves nothing. */
  method UploadImageMetadata(service: ImageService, imageDto: ImageDto)
    returns (response: Result<ApiResponse<ImageDto>, ControllerError>)
    requires service.repository.Valid()
    modifies service, service.repository
    ensures service.repository.Valid()
    ensures service.detections == old(service.detections) + [imageDto.url]
    ensures match PlanUpload(service.client, service.parseHost, imageDto)
      case Failure(e) =>
        response == Failure(UploadFailed(e)) &&
        service.repository.images == old(service.repository.images) &&
        service.repository.nextId == old(service.repository.nextId)
      case Success(u) =>
        var saved := Image(old(service.repository.nextId), imageDto.url, u.labelText, u.objectsInImage);
        service.repository.images == old(service.repository.images) + [saved] &&
        response == Success(ApiResponse(Ok, SavedMessage, ConvertToDto(saved)))
  {
    var result := service.UploadImageMetadata(imageDto);
    match result
    case Failure(e) =>
      response := Failure(UploadFailed(e));
    case Success(dto) =>
      response := Success(ApiResponse(Ok, SavedMessage, dto));
  }
}
