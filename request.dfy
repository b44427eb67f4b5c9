/** The `/generate` endpoint's reading of the request body: defaults for
    missing fields, the two 400 rejections, and the replacement of a
    non-positive width or height by 800. */
module Request {
  import opened Text
  import opened Terms

  /** The JSON body's fields; `None` is a missing key. Values are taken as
      already having the type the code expects. */
  datatype Body = Body(
    text: Option<string>,
    shape: Option<string>,
    width: Option<int>,
    height: Option<int>,
    backgroundColour: Option<string>,
    imageData: Option<string>,
    useImageColours: Option<bool>,
    fontName: Option<string>,
    colourTheme: Option<string>)

  /** The arguments `create_wordcloud` is called with. */
  datatype Params = Params(
    text: string,
    shape: string,
    width: int,
    height: int,
    backgroundColour: string,
    imageData: Option<string>,
    useImageColours: bool,
    fontName: string,
    colourTheme: string)

  datatype Outcome = BadRequest(message: string) | Accepted(params: Params)

  const BlankTextMessage := "请输入词汇内容"
  const MissingImageMessage := "请上传自定义图片模板"
  const DefaultSide := 800

  /** `data.get(key, default)`. */
  function Get<T>(v: Option<T>, default: T): T {
    if v.Some? then v.value else default
  }

  /** `not image_data`: no value, or the empty string. */
  predicate HasImage(imageData: Option<string>) {
    imageData.Some? && imageData.value != ""
  }

  /** `width if width > 0 else 800`. */
  function Side(n: int): (s: int)
    ensures s > 0
    ensures n > 0 ==> s == n
    ensures n <= 0 ==> s == DefaultSide
  {
    if n > 0 then n else DefaultSide
  }

  function Validate(body: Body): (o: Outcome)
    ensures o.BadRequest? <==>
      AllSpace(Get(body.text, "")) || (Get(body.shape, "circle") == "custom" && !HasImage(body.imageData))
    ensures o.BadRequest? ==>
      (o.message == BlankTextMessage <==> AllSpace(Get(body.text, "")))
    ensures o.BadRequest? && !AllSpace(Get(body.text, "")) ==> o.message == MissingImageMessage
    ensures o.Accepted? ==> var p := o.params;
      p.text == Get(body.text, "") && p.shape == Get(body.shape, "circle")
      && p.width == Side(Get(body.width, 800)) && p.height == Side(Get(body.height, 400))
      && p.backgroundColour == Get(body.backgroundColour, "white")
      && p.imageData == body.imageData
      && p.useImageColours == Get(body.useImageColours, false)
      && p.fontName == Get(body.fontName, "default")
      && p.colourTheme == Get(body.colourTheme, "viridis")
  {
    var text := Get(body.text, "");
    var shape := Get(body.shape, "circle");
    StripEmptyIffAllSpace(text);
    if Strip(text) == "" then BadRequest(BlankTextMessage)
    else if shape == "custom" && !HasImage(body.imageData) then BadRequest(MissingImageMessage)
    else Accepted(Params(text, shape, Side(Get(body.width, 800)), Side(Get(body.height, 400)),
      Get(body.backgroundColour, "white"), body.imageData, Get(body.useImageColours, false),
      Get(body.fontName, "default"), Get(body.colourTheme, "viridis")))
  }

  const EmptyBody := Body(None, None, None, None, None, None, None, None, None)

  /** With only some text given, the canvas is 800 x 400 and the shape a
      circle; an explicit non-positive height becomes 800, not the default
      400. */
  lemma Defaults(text: string, height: int)
    requires !AllSpace(text) && height <= 0
    ensures Validate(EmptyBody.(text := Some(text))) ==
      Accepted(Params(text, "circle", 800, 400, "white", None, false, "default", "viridis"))
    ensures Validate(EmptyBody.(text := Some(text), height := Some(height))).params.height == 800
  {
  }

  /** A custom shape whose image data is blank is rejected even when an
      image-colour request accompanies it; blank text wins over that. */
  lemma CustomNeedsImage(text: string)
    ensures Validate(EmptyBody.(text := Some(text), shape := Some("custom"), imageData := Some(""), useImageColours := Some(true))).BadRequest?
    ensures AllSpace(text) ==>
      Validate(EmptyBody.(text := Some(text), shape := Some("custom"))) == BadRequest(BlankTextMessage)
  {
  }

  lemma SplitComma()
    ensures Split(",", ',') == ["", ""]
  {
    assert Join(["", ""], ',') == ",";
    SplitJoin(["", ""], ',');
  }

  /** Text made of commas alone passes validation, yet its weighting has no
      entry: every token is blank. */
  lemma CommaOnlyText(freq: map<string, int>)
    requires IsTermWeighting(",", freq)
    ensures Validate(EmptyBody.(text := Some(","))).Accepted?
    ensures freq == map[]
  {
    assert !IsSpace(","[0]);
    SplitComma();
    assert StripAll(["", ""]) == ["", ""];
  }
}
