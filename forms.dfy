/**
 * The two input forms. `TweetForm` declares its text field itself
 * (`CharField(max_length=280)`); `ReplyForm` takes it from the model field.
 * Both carry the same `clean_image`: the size is checked first, then the
 * `content_type` the upload carries when `clean_image` reads it, against a
 * four-entry whitelist.
 */
module Forms {
  import opened Wrappers
  import opened Models

  const AllowedImageTypes: seq<string> := ["image/jpeg", "image/png", "image/gif", "image/webp"]
  const BadImageTypeMessage: string := "Only JPEG, PNG, GIF and WebP images are allowed"

  datatype FormKind = TweetForm | ReplyForm

  /** A `CharField`'s length rule: `max_length`, and whether it is required. */
  datatype TextFieldRule = TextFieldRule(maxLength: nat, required: bool)

  /**
   * `TweetForm.text` is declared with `max_length=280`; `ReplyForm.text` is
   * generated from `Tweet.text` (`max_length=280`, not blank). Both required.
   */
  function TextRule(kind: FormKind): TextFieldRule {
    match kind
    case TweetForm => TextFieldRule(280, true)
    case ReplyForm => TextFieldRule(TextMaxLength, true)
  }

  datatype TextError = TextRequired | TextTooLong(length: nat)

  /** The text field's own cleaning: required first, then `max_length`. */
  function CleanText(rule: TextFieldRule, text: string): (r: Result<string, TextError>)
    ensures r.Ok? <==> (text != [] || !rule.required) && |text| <= rule.maxLength
    ensures r.Ok? ==> r.value == text
    ensures rule.required && text == [] ==> r == Err(TextRequired)
  {
    if rule.required && text == [] then Err(TextRequired)
    else if |text| > rule.maxLength then Err(TextTooLong(|text|))
    else Ok(text)
  }

  datatype ImageError = ImageTooBig | ImageTypeNotAllowed

  function ImageErrorMessage(e: ImageError): string {
    match e
    case ImageTooBig => ImageTooLargeMessage
    case ImageTypeNotAllowed => BadImageTypeMessage
  }

  /** An image the forms let through: none at all, or small enough and of an allowed type. */
  predicate ImageAcceptable(image: Option<Image>) {
    image.None? || (image.value.size <= MaxImageBytes && image.value.contentType in AllowedImageTypes)
  }

  /**
   * `clean_image` (identical in both forms): no image passes as `None`; an
   * oversized one fails on size whatever its type; otherwise a type outside
   * the whitelist fails; an accepted image comes back unchanged.
   */
  function CleanImage(image: Option<Image>): (r: Result<Option<Image>, ImageError>)
    ensures r.Ok? <==> ImageAcceptable(image)
    ensures r.Ok? ==> r.value == image
    ensures r == Err(ImageTooBig) <==> image.Some? && image.value.size > MaxImageBytes
    ensures r == Err(ImageTypeNotAllowed) <==>
      image.Some? && image.value.size <= MaxImageBytes && image.value.contentType !in AllowedImageTypes
  {
    match image
    case None => Ok(None)
    case Some(img) =>
      if img.size > MaxImageBytes then Err(ImageTooBig)
      else if img.contentType !in AllowedImageTypes then Err(ImageTypeNotAllowed)
      else Ok(image)
  }

  /** `form.errors`, by field: at most one text error, and the image errors in order. */
  datatype FormErrors = FormErrors(text: Option<TextError>, image: seq<ImageError>)

  datatype FormResult = Valid(text: string, image: Option<Image>) | Invalid(errors: FormErrors)

  /**
   * `form.is_valid()` with its `cleaned_data` or `errors`: every field is
   * cleaned and all their errors are collected.
   */
  function Validate(kind: FormKind, text: string, image: Option<Image>): (r: FormResult)
    ensures r.Valid? <==> 1 <= |text| <= TextMaxLength && ImageAcceptable(image)
    ensures r.Valid? ==> r.text == text && r.image == image
    ensures r.Invalid? ==> (r.errors.text.Some? <==> !(1 <= |text| <= TextMaxLength))
    ensures r.Invalid? ==> |r.errors.image| <= 1
    ensures r.Invalid? ==> (r.errors.image == [] <==> ImageAcceptable(image))
    ensures r.Invalid? && image.Some? && image.value.size > MaxImageBytes ==> r.errors.image == [ImageTooBig]
  {
    var t := CleanText(TextRule(kind), text);
    var i := CleanImage(image);
    if t.Ok? && i.Ok? then Valid(t.value, i.value)
    else Invalid(FormErrors(
      if t.Err? then Some(t.error) else None,
      if i.Err? then [i.error] else []))
  }

  /** The boundaries the form tests pin down: "" and 281 characters fail, 1 and 280 pass. */
  lemma TextBoundaries(kind: FormKind, s: string)
    ensures Validate(kind, "", None).Invalid?
    ensures |s| == 281 ==> Validate(kind, s, None).Invalid?
    ensures 1 <= |s| <= 280 ==> Validate(kind, s, None) == Valid(s, None)
  {
  }

  /** And for the image: exactly 5,242,880 bytes of JPEG pass; one byte more fails on size. */
  lemma ImageBoundaries(kind: FormKind, s: string, ct: string)
    requires 1 <= |s| <= 280
    ensures Validate(kind, s, Some(Image(MaxImageBytes, "image/jpeg"))).Valid?
    ensures Validate(kind, s, Some(Image(MaxImageBytes + 1, ct))) ==
      Invalid(FormErrors(None, [ImageTooBig]))
    ensures Validate(kind, s, Some(Image(1, "text/plain"))) ==
      Invalid(FormErrors(None, [ImageTypeNotAllowed]))
  {
    assert "image/jpeg" == AllowedImageTypes[0];
    assert "text/plain" !in AllowedImageTypes by {
      assert "text/plain"[0] != "image/jpeg"[0];
    }
  }

  /** Both forms decide every input alike. */
  lemma FormsAgree(text: string, image: Option<Image>)
    ensures Validate(TweetForm, text, image) == Validate(ReplyForm, text, image)
  {
  }

  /** What the forms accept, the model's `clean` accepts too. */
  lemma FormImplies(kind: FormKind, text: string, image: Option<Image>, t: Tweet)
    requires Validate(kind, text, image).Valid? && t.image == image
    ensures Clean(t).None?
  {
  }
}
