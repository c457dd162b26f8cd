# ImageInsight label synthesis and image retrieval, in Dafny

ImageInsight is a Spring Boot service that stores image metadata: an image URL, a label and the
objects that a vision API (Imagga) detects in the image. This project models its core and
proves properties of the model.

1. **Label synthesis** (`ImageLabelGenerator`). The URL's host is reduced to a domain: the
   first `www.` is removed, then one trailing `.com`/`.org`/`.net`/`.gov`. The
   component is the first detected object, or else the file name. It is cleaned by
   `formatLabel`: lower-cased, spaces to `_`, digits deleted, `-` to `_`, runs of
   `_` collapsed, and leading and trailing `_`/`-` stripped. Domain and component are
   joined by `_`.
2. **Tag extraction** (`ImaggaService.getObjectsInImage`). The null guards, then a
   filter/map from the tags response to the ordered list of English tag names.
3. **The store** (`ImageRepository`). A class holding the table of images in insertion
   order and the next IDENTITY value. `save` appends one row with a fresh id. `findById`
   and the JPQL `findImagesContainingObjects` are functions over the table.
4. **The service** (`ImageService`). Upload runs detection once, then applies label
   precedence: a non-empty caller label wins, otherwise one is synthesised. Then it saves. The
   read paths convert field for field. The objects query is split on `,` and each piece is
   trimmed.
5. **The controller** (`ImageController`). The blank check on `objects`, the branch
   between listing and querying, the three response messages, the not-found rule, and the
   status 200 on success.

Files, one module each:
- `wrappers.dfy`: `Option` (Java null) and `Result` (exceptions).
- `java_text.dfy`: the `java.lang.String` and regex operations the code relies on.
- `label_generator.dfy`, `imagga.dfy`, `model.dfy`, `repository.dfy`, `service.dfy`,
  `controller.dfy`: the components above.

Two things are inputs to the model rather than part of it:
- **URL parsing.** `new URL(u).getHost()` is a function `HostParser` from URL to an
  optional host. None is a `MalformedURLException`.
- **The Imagga HTTP client.** It is a function `TagsClient` from URL to either a possibly
  null response or an `ApiError`, which stands for an `ApiException`.

The unit tests' examples are proved as parametric families, without fixing the literal
strings:
- "Test Image_123" is `FormatLabelWordsAndNumber` with a = "Test", b = "Image", d = "123".
- ".../images/cat_123.jpg" is `GenerateLabelFromFileName` with w = "cat", d = "123",
  ext = "jpg".
- The host "www.example.com" is `ExtractDomainWwwName` with name = "example",
  tld = ".com"; "example.com" is `ExtractDomainNameTld`.
- "object1,object2" and "a,b," are `SplitObjectsTwo` and `SplitObjectsTrailingComma`.

Where the code and a natural reading of its design differ, the model follows the code:
- **`www.` removal.** It uses `replaceFirst`, which is not anchored: the first `www.`
  anywhere in the host is removed, not only a leading one (`ExtractDomainDropsFirstWww`).
- **formatLabel is not idempotent.** `"_" + c + "_"`, for a control character c, formats
  to c, which formats to "". Java's `$` without MULTILINE also matches before a final line
  terminator. So w + "_\n_" formats to w + "_\n", and that formats to w + "\n".
  Idempotence is proved only for outputs that are empty, or non-blank with no line terminator.
- **Synthesis can throw on a well-formed URL.** When no object was detected and the last
  path segment has no `.`, `extractImageName` throws (`GenerateLabelWithoutExtension`).
  The upload then fails before anything is saved.
- **Query matching is OR.** An image matches when some stored tag equals some query token.
  Each match appears once, in table order.

## Model

| member | source | states |
|---|---|---|
| `JavaText.TrimStartFrom` | src/main/java/com/leena/imageinsight/service/ImageService.java:60 | the first index from `st` on that does not hold a code unit at most U+0020 (or the length), with only such code units before it |
| `JavaText.TrimEndFrom` | src/main/java/com/leena/imageinsight/service/ImageService.java:60 | moving `len` back over trailing code units at most U+0020, never below `st`: everything from the result to `len` is such a code unit, and the one before the result is not (unless it stopped at `st`) |
| `JavaText.Trim` | src/main/java/com/leena/imageinsight/service/ImageService.java:60 | `String.trim`: the slice of the input that starts at the first code unit above U+0020; everything before and after that slice is at most U+0020, and the slice neither starts nor ends with such a code unit; empty iff every code unit is at most U+0020; text without blank ends is unchanged |
| `JavaText.BlankIffAllTrimmable` | src/main/java/com/leena/imageinsight/util/ImageLabelGenerator.java:54 | `trim().isEmpty()` holds exactly when all characters are at most U+0020 |
| `JavaText.ToLowerCase` | src/main/java/com/leena/imageinsight/util/ImageLabelGenerator.java:59 | same length; each character is lower-cased (ASCII letters only) in place |
| `JavaText.ReplaceChar` | src/main/java/com/leena/imageinsight/util/ImageLabelGenerator.java:60 | same length; every occurrence of the one character is replaced, all others stay in place |
| `JavaText.RemoveDigits` | src/main/java/com/leena/imageinsight/util/ImageLabelGenerator.java:61 | `replaceAll("\\d+", "")`: no digit remains, no longer than the input, digit-free text unchanged |
| `JavaText.RemoveDigitsAppend` | src/main/java/com/leena/imageinsight/util/ImageLabelGenerator.java:61 | removing digits distributes over concatenation |
| `JavaText.RemoveDigitsAllDigits` | src/main/java/com/leena/imageinsight/util/ImageLabelGenerator.java:61 | an all-digit text becomes "" |
| `JavaText.CollapseUnderscores` | src/main/java/com/leena/imageinsight/util/ImageLabelGenerator.java:63 | `replaceAll("_+", "_")`: empty iff the input is, first and last character kept, no longer than the input |
| `JavaText.CollapseAppend` | src/main/java/com/leena/imageinsight/util/ImageLabelGenerator.java:63 | collapsing distributes over a concatenation whose cut does not fall between two "_" |
| `JavaText.CollapseRun` | src/main/java/com/leena/imageinsight/util/ImageLabelGenerator.java:63 | a run of one or more "_" collapses to exactly one "_" (with CollapseAppend, this fixes the result on every input) |
| `JavaText.CollapseNoDouble` | src/main/java/com/leena/imageinsight/util/ImageLabelGenerator.java:63 | the result has no "__", and text without "__" is unchanged |
| `JavaText.StripLeadingSeps` | src/main/java/com/leena/imageinsight/util/ImageLabelGenerator.java:66 | `replaceAll("^[_-]+", "")`: a suffix of the input, what was removed is all `_`/`-`, and the result does not start with one |
| `JavaText.DropTrailingSeps` | src/main/java/com/leena/imageinsight/util/ImageLabelGenerator.java:66 | a prefix of the input, what was removed is all `_`/`-`, and the result does not end with one |
| `JavaText.EndAnchorSuffix` | src/main/java/com/leena/imageinsight/util/ImageLabelGenerator.java:66 | where `$` matches: the length of the final line terminator, all of whose characters are line terminators; 2 exactly when the text ends in "\r\n"; 0 exactly when the text does not end in a line terminator |
| `JavaText.StripTrailingSeps` | src/main/java/com/leena/imageinsight/util/ImageLabelGenerator.java:66 | `replaceAll("[_-]+$", "")`: the run of `_`/`-` before the final line terminator is removed and the terminator kept; without terminators it is DropTrailingSeps |
| `JavaText.RemoveFirst` | src/main/java/com/leena/imageinsight/util/ImageLabelGenerator.java:25 | `replaceFirst` of a literal: text without an occurrence is unchanged; otherwise exactly the first occurrence is cut out |
| `JavaText.LastIndexOf` | src/main/java/com/leena/imageinsight/util/ImageLabelGenerator.java:49 | -1 or an index holding the character, with no occurrence after it |
| `JavaText.Substring` | src/main/java/com/leena/imageinsight/util/ImageLabelGenerator.java:49 | defined exactly when 0 <= begin <= end <= length (otherwise the exception), and then the characters between |
| `JavaText.SplitAll` | src/main/java/com/leena/imageinsight/service/ImageService.java:59 | the pieces contain no separator, joining them back gives the input, and at least one piece exists |
| `JavaText.Split` | src/main/java/com/leena/imageinsight/service/ImageService.java:59 | `split(",")`: no piece contains the separator; "" gives [""]; otherwise the last piece is non-empty; joining the pieces gives a prefix of the input; the rest is separators only (the dropped trailing empties) |
| `JavaText.SplitAllAfterPiece` | src/main/java/com/leena/imageinsight/service/ImageService.java:59 | a separator-free piece followed by a separator is split off first |
| `JavaText.SplitTwoPieces` | src/main/java/com/leena/imageinsight/service/ImageService.java:59 | "a,b" with b non-empty splits into exactly [a, b] |
| `JavaText.SplitTwoPiecesTrailing` | src/main/java/com/leena/imageinsight/service/ImageService.java:59 | "a,b," also yields [a, b]: the trailing empty piece is dropped |
| `JavaText.SplitSeparatorOnly` | src/main/java/com/leena/imageinsight/service/ImageService.java:59 | "," yields no piece at all |
| `JavaText.DecimalStringRoundTrip` | src/main/java/com/leena/imageinsight/controller/ImageController.java:45 | the id printed in the not-found message is non-empty and reads back as the same number |
| `LabelGenerator.StripTld` | src/main/java/com/leena/imageinsight/util/ImageLabelGenerator.java:26 | `replaceAll("\\.(com\|org\|net\|gov)$", "")`: the host is unchanged iff no recognised TLD ends the text before the end anchor; otherwise exactly those four characters are cut out and a final line terminator is kept; on text without line terminators, exactly one trailing `.com`/`.org`/`.net`/`.gov` is removed when present |
| `LabelGenerator.ExtractDomain` | src/main/java/com/leena/imageinsight/util/ImageLabelGenerator.java:20-32 | "" when the URL does not parse; never longer than the host; a host without "www." and without line terminators loses exactly one recognised TLD, and any other TLD is kept |
| `LabelGenerator.ExtractDomainDropsFirstWww` | src/main/java/com/leena/imageinsight/util/ImageLabelGenerator.java:25-26 | with "www." first occurring at any index i, the domain is the host with those four characters cut out, then TLD-stripped |
| `LabelGenerator.ExtractDomainWwwName` | src/test/java/com/leena/imageinsight/util/ImageLabelGeneratorTest.java:32-37 | "www." + name + a recognised TLD gives name (the test's "www.example.com" gives "example") |
| `LabelGenerator.ExtractDomainNameTld` | src/main/java/com/leena/imageinsight/util/ImageLabelGenerator.java:25-26 | a name without "w" followed by a recognised TLD gives the name ("example.com" gives "example") |
| `LabelGenerator.FormatLabel` | src/main/java/com/leena/imageinsight/util/ImageLabelGenerator.java:52-67 | "" for null or blank text; never longer than the text; the result has the label shape (no digit, "-", space or upper-case ASCII letter, no "__", no "_" at either end) |
| `LabelGenerator.FormatLabelSeparatorJoin` | src/main/java/com/leena/imageinsight/util/ImageLabelGenerator.java:52-67 | two non-blank words without line terminators, each holding a character that is not a digit, space, "-" or "_", joined by one space, "-" or "_", format to their own formats joined by one "_" |
| `LabelGenerator.FormatLabelPlainWord` | src/main/java/com/leena/imageinsight/util/ImageLabelGenerator.java:52-67 | a non-blank word without digits, spaces, "-", "_" or line terminators formats to its lower-case form |
| `LabelGenerator.RewriteAppend` | src/main/java/com/leena/imageinsight/util/ImageLabelGenerator.java:59-62 | the lower-casing, the two replacements by "_" and the digit removal together distribute over concatenation |
| `LabelGenerator.TidyJoin` | src/main/java/com/leena/imageinsight/util/ImageLabelGenerator.java:63-66 | collapsing "_" runs and stripping both ends, on two words without "-" or line terminators that each hold a character other than "_", joined by "_": each word is tidied on its own and the two are joined by one "_" |
| `LabelGenerator.CleanShape` | src/main/java/com/leena/imageinsight/util/ImageLabelGenerator.java:59-66 | the rewrite chain alone already yields the label shape and never lengthens the text |
| `LabelGenerator.FormatLabelKeepsLetters` | src/main/java/com/leena/imageinsight/util/ImageLabelGenerator.java:59-66 | apart from digits, spaces, "-" and "_", the label holds exactly the lower-cased text's characters, in order |
| `LabelGenerator.FormatLabelDigitsOnly` | src/test/java/com/leena/imageinsight/util/ImageLabelGeneratorTest.java:61-66 | an all-digit text such as "123456" is not blank, yet formats to "" |
| `LabelGenerator.FormatLabelWordsAndNumber` | src/test/java/com/leena/imageinsight/util/ImageLabelGeneratorTest.java:39-45 | word + " " + word + "_" + digits formats to the lower-cased words joined by "_" ("Test Image_123" gives "test_image") |
| `LabelGenerator.FormatLabelWordAndNumber` | src/main/java/com/leena/imageinsight/util/ImageLabelGenerator.java:59-66 | a lower-case word + "_" + digits formats to the word ("cat_123" gives "cat") |
| `LabelGenerator.FormatLabelLowerWord` | src/main/java/com/leena/imageinsight/util/ImageLabelGenerator.java:59-66 | a lower-case word formats to itself |
| `LabelGenerator.FormatLabelIdempotent` | src/main/java/com/leena/imageinsight/util/ImageLabelGenerator.java:52-67 | formatting an output again changes nothing when the output is empty, or non-blank and free of line terminators |
| `LabelGenerator.CleanFixesLabels` | src/main/java/com/leena/imageinsight/util/ImageLabelGenerator.java:59-66 | a string with the label shape and no line terminator is a fixed point of the rewrite chain |
| `LabelGenerator.FormatLabelNotIdempotentBlank` | src/main/java/com/leena/imageinsight/util/ImageLabelGenerator.java:54-66 | "_" + c + "_", for a control character c, formats to c, which formats to "" |
| `LabelGenerator.FormatLabelNotIdempotentNewline` | src/main/java/com/leena/imageinsight/util/ImageLabelGenerator.java:66 | w + "_\n_" formats to w + "_\n", which formats to w + "\n", because `$` also matches before a final line terminator |
| `LabelGenerator.JoinLabel` | src/main/java/com/leena/imageinsight/util/ImageLabelGenerator.java:69-83 | "" iff both parts are empty; otherwise it starts with the domain and ends with the component, with exactly one "_" between them when both are present |
| `LabelGenerator.ExtractImageName` | src/main/java/com/leena/imageinsight/util/ImageLabelGenerator.java:47-50 | defined exactly when the last "." comes after the last "/" (otherwise substring throws); the name contains no "/" |
| `LabelGenerator.ExtractImageNameOfPath` | src/main/java/com/leena/imageinsight/util/ImageLabelGenerator.java:49 | dir + name + "." + ext, with dir ending in "/" and no "/" or "." in ext, gives exactly name |
| `LabelGenerator.GenerateLabelWithoutExtension` | src/main/java/com/leena/imageinsight/util/ImageLabelGenerator.java:47-50 | a last path segment without "." has no file name, and without objects generateLabel throws |
| `LabelGenerator.FormatLabelFromImageName` | src/main/java/com/leena/imageinsight/util/ImageLabelGenerator.java:42-45 | fails exactly when extractImageName does; otherwise it is the formatted file name |
| `LabelGenerator.CreateLabelComponent` | src/main/java/com/leena/imageinsight/util/ImageLabelGenerator.java:34-40 | fails exactly when there are no objects (null or empty) and there is no file name |
| `LabelGenerator.GenerateLabel` | src/main/java/com/leena/imageinsight/util/ImageLabelGenerator.java:12-18 | fails exactly when there are no objects and there is no file name |
| `LabelGenerator.FirstObjectDecides` | src/main/java/com/leena/imageinsight/util/ImageLabelGenerator.java:35-36 | with objects, the component is the formatted first object; neither the URL nor later objects matter |
| `LabelGenerator.LaterObjectsIgnored` | src/main/java/com/leena/imageinsight/util/ImageLabelGenerator.java:12-18 | two object lists with the same first element give the same label, which always exists |
| `LabelGenerator.NoObjectsUsesFileName` | src/main/java/com/leena/imageinsight/util/ImageLabelGenerator.java:35-39 | a null and an empty object list behave alike, and both use the file name |
| `LabelGenerator.GeneratedLabelParts` | src/main/java/com/leena/imageinsight/util/ImageLabelGenerator.java:12-18 | a generated label is domain + "_" + component when both are non-empty, otherwise the non-empty one of the two, and "" iff both are empty |
| `LabelGenerator.GenerateLabelFromFileName` | src/test/java/com/leena/imageinsight/util/ImageLabelGeneratorTest.java:21-29 | with no objects, ".../w_digits.ext" is labelled as domain joined with w (the test's "example_cat") |
| `LabelGenerator.GenerateLabelFromFirstObject` | src/test/java/com/leena/imageinsight/util/ImageLabelGeneratorTest.java:11-19 | a first object that is a lower-case word is the component whatever the URL and later objects (["cat", "dog"] gives "example_cat") |
| `Imagga.EnglishNames` | src/main/java/com/leena/imageinsight/externalapi/ImaggaService.java:28-31 | no longer than the input; every surviving entry's English name is in the output, and every output string is the English name of some surviving entry |
| `Imagga.EnglishNamesAppend` | src/main/java/com/leena/imageinsight/externalapi/ImaggaService.java:28-31 | the names of a concatenation are the names of each part, in order: input order is preserved |
| `Imagga.EnglishNamesOne` | src/main/java/com/leena/imageinsight/externalapi/ImaggaService.java:29-30 | an entry contributes its name iff it and its tag and its `en` are non-null |
| `Imagga.DroppedEntryIgnored` | src/main/java/com/leena/imageinsight/externalapi/ImaggaService.java:29 | removing a null entry, or one with a null tag or null `en`, anywhere changes nothing |
| `Imagga.EnglishNamesKeepsAll` | src/main/java/com/leena/imageinsight/externalapi/ImaggaService.java:28-31 | the output is as long as the input iff every entry survives, and then it lists the names entry by entry |
| `Imagga.ConfidenceIrrelevant` | src/main/java/com/leena/imageinsight/externalapi/ImaggaService.java:30 | entries that differ only in confidence give the same output |
| `Imagga.ObjectsOfResponse` | src/main/java/com/leena/imageinsight/externalapi/ImaggaService.java:23-31 | a null response, result or tag list gives the empty list; otherwise the filter/map of the tag list |
| `Imagga.GetObjectsInImage` | src/main/java/com/leena/imageinsight/externalapi/ImaggaService.java:19-32 | a client ApiException propagates unchanged; otherwise the objects of the response |
| `Model.ConvertToDto` | src/main/java/com/leena/imageinsight/service/ImageService.java:70-77 | the DTO has every field set and describes exactly the image (StoredImage gives it back) |
| `Model.StoredImage` | src/main/java/com/leena/imageinsight/service/ImageService.java:70-77 | the field-for-field reading of a DTO as an Image, the inverse of `convertToDto` (the service has no such method): defined exactly when id, label and objects are present, and keeps the URL |
| `Model.ConvertAll` | src/main/java/com/leena/imageinsight/service/ImageService.java:45-47 | one DTO per image, in order, each describing its image |
| `Repository.ImageRepository.constructor` | src/main/java/com/leena/imageinsight/model/entity/Image.java:18-20 | an empty table whose identity column starts at 1 |
| `Repository.ImageRepository.Save` | src/main/java/com/leena/imageinsight/service/ImageService.java:37 | appends exactly one row carrying the next identity value and the given fields; no other row changes; the id differs from every earlier one; ids keep increasing |
| `Repository.FindById` | src/main/java/com/leena/imageinsight/service/ImageService.java:52 | empty iff no stored image has the id; otherwise a stored image with that id |
| `Repository.FindByIdStored` | src/main/java/com/leena/imageinsight/service/ImageService.java:52 | with ids unique, looking up a stored image's id gives back that very image |
| `Repository.FindByIdAfterSave` | src/main/java/com/leena/imageinsight/service/ImageService.java:37 | after a save, the new image is found by its id |
| `Repository.ContainingObjects` | src/main/java/com/leena/imageinsight/repository/ImageRepository.java:10-11 | an image is returned iff one of its objects equals one of the tokens; an image without objects and an empty token list never match; never longer than the table |
| `Repository.ContainingObjectsAppend` | src/main/java/com/leena/imageinsight/repository/ImageRepository.java:10-11 | querying two parts of a table gives both results in order: each row is decided alone |
| `Repository.ContainingObjectsAfterSave` | src/main/java/com/leena/imageinsight/repository/ImageRepository.java:10-11 | after a save the query gives the old answer, then the new image when it matches |
| `Repository.ContainingObjectsCount` | src/main/java/com/leena/imageinsight/repository/ImageRepository.java:10-11 | a matching row appears exactly as often as stored, a non-matching one never: several matching objects still give one result |
| `Repository.ContainingObjectsSubsequence` | src/test/java/com/leena/imageinsight/service/ImageServiceIT.java:100-113 | the result is a subsequence of the table, so insertion order is kept |
| `Repository.ContainingObjectsIdsIncreasing` | src/test/java/com/leena/imageinsight/service/ImageServiceIT.java:100-113 | on a table with increasing ids the result's ids increase: each image once, in insertion order |
| `Service.ChooseLabel` | src/main/java/com/leena/imageinsight/service/ImageService.java:32-34 | a non-null, non-empty caller label is kept verbatim; otherwise the generated label; no label exactly when a synthesis is needed and fails |
| `Service.PlanUpload` | src/main/java/com/leena/imageinsight/service/ImageService.java:29-34 | fails exactly when detection fails (with its error) or no label can be chosen; otherwise it carries the detected objects and the chosen label |
| `Service.SplitObjects` | src/main/java/com/leena/imageinsight/service/ImageService.java:59-61 | one token per piece of `split(",")`, in order, each the trimmed piece, none containing "," |
| `Service.SplitObjectsTwo` | src/test/java/com/leena/imageinsight/service/ImageServiceTest.java:103-115 | "a,b", with no blanks at the ends of a and b, gives [a, b] ("object1,object2") |
| `Service.SplitObjectsTrailingComma` | src/main/java/com/leena/imageinsight/service/ImageService.java:59 | "a,b," gives [a, b] |
| `Service.SplitObjectsComma` | src/main/java/com/leena/imageinsight/service/ImageService.java:59 | "," gives no token |
| `Service.SplitObjectsEmpty` | src/main/java/com/leena/imageinsight/service/ImageService.java:59-61 | "" has no comma, so it gives one empty token |
| `Service.SplitObjectsSpacedComma` | src/main/java/com/leena/imageinsight/service/ImageService.java:59-61 | " , " gives two empty tokens |
| `Service.ImageService.constructor` | src/main/java/com/leena/imageinsight/service/ImageService.java:21-24 | the service holds the given repository, client and host parser, and no detection has run |
| `Service.ImageService.UploadImageMetadata` | src/main/java/com/leena/imageinsight/service/ImageService.java:27-40 | detection runs exactly once; on any failure the table is unchanged; otherwise exactly one image with the input URL, the chosen label and the detected objects (in detection order) is appended under the next id and returned as its DTO |
| `Service.ImageService.GetAllImages` | src/main/java/com/leena/imageinsight/service/ImageService.java:43-48 | one DTO per stored image, in table order, field for field |
| `Service.ImageService.GetImageById` | src/main/java/com/leena/imageinsight/service/ImageService.java:51-54 | empty iff no stored image has the id; otherwise the DTO of a stored image with that id |
| `Service.ImageService.GetImagesByObjects` | src/main/java/com/leena/imageinsight/service/ImageService.java:57-67 | the DTOs, in order, of the query result for the split and trimmed tokens |
| `Controller.RetrievalMessage` | src/main/java/com/leena/imageinsight/controller/ImageController.java:80-85 | "Image(s) retrieved successfully" iff images were found; otherwise "No images uploaded yet in the system." without objects, or "No images found containing the specified objects: " + objects |
| `Controller.GetImages` | src/main/java/com/leena/imageinsight/controller/ImageController.java:64-93 | refused with "Objects parameter cannot be empty" iff objects is present and blank; otherwise status 200, all images when it is absent or the query for the unmodified value, and the matching message |
| `Controller.SpacedCommaNotRejected` | src/main/java/com/leena/imageinsight/controller/ImageController.java:67 | " , " is accepted (it trims to ",") and becomes two empty tokens |
| `Controller.GetImageById` | src/main/java/com/leena/imageinsight/controller/ImageController.java:42-54 | not found, with "Image not found with id: " + id, iff no stored image has the id; otherwise status 200, "Image retrieved successfully" and the service's DTO |
| `Controller.UploadImageMetadata` | src/main/java/com/leena/imageinsight/controller/ImageController.java:28-39 | a service failure passes through and saves nothing; otherwise the appended image's DTO with status 200 and "Image metadata saved successfully" |

## Left out

- URL parsing (`java.net.URL`): the host is an input function (`HostParser`). Only the `www.`/TLD normalisation of the host is modelled.
- ImaggaApiClient: the HTTP call, Jackson decoding and the Base64 key. These are network I/O and foreign libraries. The client is an input function whose failure is an `ApiError`.
- `toLowerCase` is locale-aware Unicode lowercasing in Java. The model lowercases the ASCII letters A-Z only. `\d` matches ASCII digits only, and `trim` removes the characters up to U+0020, as in Java.
- The ApiResponse timestamp comes from the wall clock, and the `errors` field of error responses is not modelled.
- GlobalExceptionHandler: the mapping of exceptions to HTTP status codes and error bodies is framework glue. Controller failures are returned as `ControllerError` values.
- Bean validation of ImageDto (`@NotNull`, `@URL`) runs before any service code, so the DTO's URL is a plain string.
- Null elements inside the object list are not modelled. The detected list holds strings, because the tag filter drops null names.
- `Long` ids are unbounded integers: identity overflow is not modelled.
- Whether the JPQL inner join could return an image once per matching object is Hibernate behaviour and not modelled. The query is a deduplicated filter, as the integration test expects. An empty token list matches nothing.
- Matching uses exact, case-sensitive string equality. Database collation is not modelled.
- `Repository.ImageRepository` has no `findAll` member: the service reads the table sequence directly, which is `findAll`'s result in insertion order.
- Spring wiring, ImageInsightApplication and concurrency are not modelled.
- The tests' examples are proved for parametric families rather than for their literal strings, as listed above.
