// The two records the services pass around: the stored Image entity and the ImageDto that
// crosses the HTTP boundary.

module Model {
  import opened Wrappers

  /** A stored Image: its IDENTITY-generated id, the URL, the label and the detected objects in
      detection order. Only saved images exist in the model, so the id is always present. */
  datatype Image = Image(id: int, url: string, labelText: string, objectsInImage: seq<string>)

  /** ImageDto: every field may be null on the way in. The URL is required by bean validation
      before any service code runs, so it is a plain string here. */
  datatype ImageDto = ImageDto(id: Option<int>, url: string, labelText: Option<string>, objectsInImage: Option<seq<string>>)

  /** ImageService.convertToDto: field for field. */
  function ConvertToDto(image: Image): (dto: ImageDto)
    ensures dto.id.Some? && dto.labelText.Some? && dto.objectsInImage.Some?
    ensures StoredImage(dto) == Some(image)
  {
    ImageDto(Some(image.id), image.url, Some(image.labelText), Some(image.objectsInImage))
  }

  /** Reads a DTO back as an Image, field for field, so that it inverts convertToDto; None when
      a field is missing. The service has no such method: the model uses it to say which stored
      image a returned DTO describes. */
  function StoredImage(dto: ImageDto): (image: Option<Image>)
    ensures image.Some? <==> dto.id.Some? && dto.labelText.Some? && dto.objectsInImage.Some?
    ensures image.Some? ==> image.value.url == dto.url
  {
    if dto.id.Some? && dto.labelText.Some? && dto.objectsInImage.Some? then
      Some(Image(dto.id.value, dto.url, dto.labelText.value, dto.objectsInImage.value))
    else None
  }

  /** The stream map(convertToDto).collect(toList()): one DTO per image, in order. */
  function ConvertAll(images: seq<Image>): (dtos: seq<ImageDto>)
    ensures |dtos| == |images|
    ensures forall k :: 0 <= k < |images| ==> StoredImage(dtos[k]) == Some(images[k])
  {
    seq(|images|, k requires 0 <= k < |images| => ConvertToDto(images[k]))
  }
}
