/** `IconMedia`: a custom icon on its way to the canvas. The constructor
    fetches the icon; when the response's `content-type` header names SVG,
    the body is parsed, recoloured to the target colour and replaced by an
    object URL of the result, and the promise resolves with that URL;
    otherwise it resolves with the URL the icon was created with. The
    `color` setter stores a new target colour and, for an SVG icon,
    recolours the document again.

    The network, the parser and `URL.createObjectURL` are outside the
    model: a response is given as a value, the parser as a function, and an
    object URL as an opaque token carrying the document it was made from. */
module IconMedia {
  import opened Js
  import Svg

  datatype IconType = SvgIcon | ImageIcon

  /** The value of the `url` field: the URL the icon was created with, or an
      object URL for a blob holding a serialised document. Object URLs are
      opaque and never repeat; `serial` numbers the ones an icon mints. */
  datatype IconUrl = Given(href: string) | ObjectUrl(serial: nat, content: Svg.Document)

  /** The fields of an `IconMedia` instance: `url`, `type` (unset until the
      fetch responds), the private target colour, `document` (unset until
      the body is parsed), and the number of object URLs minted so far. */
  datatype Icon = Icon(
    url: IconUrl,
    kind: Option<IconType>,
    targetColor: string,
    document: Option<Svg.Document>,
    minted: nat)

  /** The TypeErrors `#updateSvgColor` raises by reading through a missing
      value: no parsed document yet, no `svg` element in it, or an element
      without a `style` object. */
  datatype TypeError = DocumentUnset | NoSvgElement | NoStyle

  /** An HTTP response: its status, its `content-type` header (`None` when
      the header is absent) and its body text. */
  datatype Response = Response(status: int, contentType: Option<string>, body: string)

  /** What a call that may throw leaves behind: the instance, and the error
      it threw if any. */
  datatype Step = Step(icon: Icon, thrown: Option<TypeError>)

  /** How the constructor's promise ends: resolved with a URL, or never
      settled (the fetch rejected, or recolouring threw inside a callback). */
  datatype Settlement = Resolved(url: IconUrl) | Unsettled

  datatype Loaded = Loaded(icon: Icon, settlement: Settlement)

  const SvgMime := "image/svg+xml"

  /** `response.headers.get("content-type")?.includes("image/svg+xml")`:
      the header is present and contains the exact, case-sensitive text. */
  function IsSvgContentType(contentType: Option<string>): (r: bool)
    ensures r <==> contentType.Some? && exists i :: OccursAt(contentType.value, SvgMime, i)
  {
    contentType.Some? && Includes(contentType.value, SvgMime)
  }

  /** The synchronous part of `new IconMedia(url, color)`. */
  function New(url: string, color: string): (r: Icon)
    ensures r.url == Given(url) && r.targetColor == color
    ensures r.kind.None? && r.document.None? && r.minted == 0
  {
    Icon(Given(url), None, color, None, 0)
  }

  /** `#updateSvgColor()`: recolour the stored document in place and point
      `url` at a fresh object URL of it. It throws exactly when the document
      cannot be recoloured to the end; the URL changes only when it does
      not throw, but a throw past the `svg` lookup keeps the changes made
      to the document before it. */
  function UpdateSvgColor(icon: Icon): (r: Step)
    ensures r.thrown.None? <==> icon.document.Some? && Svg.Recolourable(icon.document.value)
    ensures icon.document.None? ==> r == Step(icon, Some(DocumentUnset))
    ensures icon.document.Some? ==>
      match Svg.Recolour(icon.document.value, icon.targetColor)
      case MissingRoot => r == Step(icon, Some(NoSvgElement))
      case Interrupted(partial) => r == Step(icon.(document := Some(partial)), Some(NoStyle))
      case Recoloured(doc) =>
        r == Step(icon.(url := ObjectUrl(icon.minted, doc), document := Some(doc), minted := icon.minted + 1), None)
  {
    match icon.document
    case None => Step(icon, Some(DocumentUnset))
    case Some(d) =>
      match Svg.Recolour(d, icon.targetColor)
      case MissingRoot => Step(icon, Some(NoSvgElement))
      case Interrupted(partial) => Step(icon.(document := Some(partial)), Some(NoStyle))
      case Recoloured(doc) =>
        Step(icon.(url := ObjectUrl(icon.minted, doc), document := Some(doc), minted := icon.minted + 1), None)
  }

  /** The `color` getter. */
  function GetColor(icon: Icon): string {
    icon.targetColor
  }

  /** The `color` setter: store the colour, then recolour if the icon is an
      SVG. The colour is stored before anything can throw, and a throw
      leaves the URL alone. */
  function SetColor(icon: Icon, color: string): (r: Step)
    ensures GetColor(r.icon) == color
    ensures icon.kind != Some(SvgIcon) ==> r == Step(icon.(targetColor := color), None)
    ensures r.thrown.Some? ==> r.icon == icon.(targetColor := color, document := r.icon.document)
  {
    var stored := icon.(targetColor := color);
    if stored.kind == Some(SvgIcon) then UpdateSvgColor(stored) else Step(stored, None)
  }

  /** The setter called with each colour in turn, each throw caught. */
  function SetColors(icon: Icon, colors: seq<string>): Icon
    decreases |colors|
  {
    if colors == [] then icon else SetColors(SetColor(icon, colors[0]).icon, colors[1..])
  }

  /** The fetch has responded: record the icon's type from its header. */
  function OnResponse(icon: Icon, contentType: Option<string>): (r: Icon)
    ensures r.kind == Some(if IsSvgContentType(contentType) then SvgIcon else ImageIcon)
    ensures r == icon.(kind := r.kind)
  {
    icon.(kind := Some(if IsSvgContentType(contentType) then SvgIcon else ImageIcon))
  }

  /** The body text has arrived: an SVG icon parses and recolours it and
      resolves with the new URL; any other icon resolves with its URL as it
      stands. */
  function OnText(icon: Icon, text: string, parse: string -> Svg.Document): (r: Loaded)
    ensures icon.kind != Some(SvgIcon) ==> r == Loaded(icon, Resolved(icon.url))
    ensures icon.kind == Some(SvgIcon) ==>
      && (r.settlement.Resolved? <==> Svg.Recolourable(parse(text)))
      && (Svg.Recolourable(parse(text)) ==>
            r.settlement == Resolved(r.icon.url)
            && r.icon.url == ObjectUrl(icon.minted, Svg.Recolour(parse(text), icon.targetColor).doc))
      && (!Svg.Recolourable(parse(text)) ==> r.icon.url == icon.url)
    ensures r.icon.targetColor == icon.targetColor && r.icon.kind == icon.kind
  {
    if icon.kind == Some(SvgIcon) then
      var updated := UpdateSvgColor(icon.(document := Some(parse(text))));
      if updated.thrown.None? then Loaded(updated.icon, Resolved(updated.icon.url))
      else Loaded(updated.icon, Unsettled)
    else
      Loaded(icon, Resolved(icon.url))
  }

  /** The whole constructor: `response` is `None` when the fetch rejects.
      The promise resolves exactly when the fetch responds and the icon is
      either not an SVG or an SVG that can be recoloured to the end. */
  function Load(url: string, color: string, response: Option<Response>, parse: string -> Svg.Document): (r: Loaded)
    ensures response.None? ==> r == Loaded(New(url, color), Unsettled)
    ensures r.settlement.Resolved? <==>
      response.Some? && (!IsSvgContentType(response.value.contentType) || Svg.Recolourable(parse(response.value.body)))
    ensures GetColor(r.icon) == color
  {
    match response
    case None => Loaded(New(url, color), Unsettled)
    case Some(resp) => OnText(OnResponse(New(url, color), resp.contentType), resp.body, parse)
  }

  /** A non-SVG icon resolves to the URL it was created with, whatever its
      status and body; only the header decides. */
  lemma LoadNonSvg(url: string, color: string, resp: Response, parse: string -> Svg.Document)
    requires !IsSvgContentType(resp.contentType)
    ensures Load(url, color, Some(resp), parse).settlement == Resolved(Given(url))
    ensures Load(url, color, Some(resp), parse).icon.document.None?
  {
  }

  /** An SVG icon whose document can be recoloured resolves to a fresh
      object URL of the document recoloured to the target colour. */
  lemma LoadSvg(url: string, color: string, resp: Response, parse: string -> Svg.Document)
    requires IsSvgContentType(resp.contentType)
    requires Svg.Recolourable(parse(resp.body))
    ensures Load(url, color, Some(resp), parse).settlement
         == Resolved(ObjectUrl(0, Svg.Recolour(parse(resp.body), color).doc))
  {
  }

  /** An SVG icon whose document lacks an `svg` element, or has a target
      without a style, never settles: the TypeError is thrown inside a
      callback and nothing resolves the promise. The document is kept as far
      as recolouring got, and the URL stays the given one. */
  lemma LoadSvgThrows(url: string, color: string, resp: Response, parse: string -> Svg.Document)
    requires IsSvgContentType(resp.contentType)
    requires !Svg.Recolourable(parse(resp.body))
    ensures var r := Load(url, color, Some(resp), parse);
      var doc := parse(resp.body);
      && r.settlement == Unsettled
      && r.icon.url == Given(url)
      && r.icon.document == Some(if Svg.Recolour(doc, color).MissingRoot? then doc else Svg.Recolour(doc, color).partial)
  {
  }

  /** The HTTP status is never consulted. */
  lemma LoadIgnoresStatus(url: string, color: string, resp: Response, status: int, parse: string -> Svg.Document)
    ensures Load(url, color, Some(resp.(status := status)), parse) == Load(url, color, Some(resp), parse)
  {
  }

  /** The header test is case-sensitive: `Image/SVG+XML` is not SVG. */
  lemma ContentTypeCaseSensitive()
    ensures IsSvgContentType(Some("image/svg+xml; charset=utf-8"))
    ensures !IsSvgContentType(Some("Image/SVG+XML"))
    ensures !IsSvgContentType(None)
  {
    assert OccursAt("image/svg+xml; charset=utf-8", SvgMime, 0);
    var h := "Image/SVG+XML";
    assert h[0] != SvgMime[0];
  }

  /** The getter returns the colour of the last setter call, whether or not
      that call threw. */
  lemma {:induction false} GetterReturnsLastSet(icon: Icon, colors: seq<string>)
    requires colors != []
    ensures GetColor(SetColors(icon, colors)) == colors[|colors| - 1]
    decreases |colors|
  {
    if |colors| > 1 {
      GetterReturnsLastSet(SetColor(icon, colors[0]).icon, colors[1..]);
    }
  }

  /** The consistency the instance keeps: an object URL was minted by this
      instance and holds the document as it now stands, a document that can
      be recoloured. */
  ghost predicate Consistent(icon: Icon) {
    icon.url.ObjectUrl? ==>
      && icon.url.serial < icon.minted
      && icon.document == Some(icon.url.content)
      && Svg.Recolourable(icon.url.content)
  }

  /** The steps keep the instance consistent: the setter and the response
      from any consistent state, the body text from a state whose URL is
      still the given one, which is the only kind of state the text arrives
      in (see `SettersBeforeText`). */
  lemma StepsKeepConsistent(icon: Icon, color: string, contentType: Option<string>, text: string,
                            parse: string -> Svg.Document)
    requires Consistent(icon)
    ensures Consistent(SetColor(icon, color).icon)
    ensures Consistent(OnResponse(icon, contentType))
    ensures icon.url.Given? ==> Consistent(OnText(icon, text, parse).icon)
  {
    var stored := icon.(targetColor := color);
    if stored.kind == Some(SvgIcon) && stored.document.Some? {
      var d := stored.document.value;
      if !Svg.Recolour(d, color).MissingRoot? {
        Svg.RecolourKeepsShape(d, color);
      }
    }
    if icon.kind == Some(SvgIcon) && !Svg.Recolour(parse(text), icon.targetColor).MissingRoot? {
      Svg.RecolourKeepsShape(parse(text), icon.targetColor);
    }
  }

  /** Before the body text arrives there is no document, so setter calls
      throw or do nothing: the URL stays the given one and nothing is minted. */
  lemma {:induction false} SettersBeforeText(icon: Icon, colors: seq<string>)
    requires icon.document.None?
    ensures var r := SetColors(icon, colors);
      r.url == icon.url && r.document.None? && r.minted == icon.minted && r.kind == icon.kind
    decreases |colors|
  {
    if colors != [] {
      SettersBeforeText(SetColor(icon, colors[0]).icon, colors[1..]);
    }
  }

  /** Any number of setter calls keep a consistent instance consistent. */
  lemma {:induction false} SettersKeepConsistent(icon: Icon, colors: seq<string>)
    requires Consistent(icon)
    ensures Consistent(SetColors(icon, colors))
    decreases |colors|
  {
    if colors != [] {
      StepsKeepConsistent(icon, colors[0], None, "", x => []);
      SettersKeepConsistent(SetColor(icon, colors[0]).icon, colors[1..]);
    }
  }

  /** A whole life of an instance stays consistent: construction, the
      response, setter calls while the body is on its way, the body text,
      and setter calls afterwards. */
  lemma Lifecycle(url: string, color: string, contentType: Option<string>, before: seq<string>,
                  text: string, parse: string -> Svg.Document, after: seq<string>)
    ensures var waiting := SetColors(OnResponse(New(url, color), contentType), before);
      Consistent(SetColors(OnText(waiting, text, parse).icon, after))
  {
    var responded := OnResponse(New(url, color), contentType);
    var waiting := SetColors(responded, before);
    SettersBeforeText(responded, before);
    StepsKeepConsistent(waiting, color, contentType, text, parse);
    SettersKeepConsistent(OnText(waiting, text, parse).icon, after);
  }

  /** A constructed icon is consistent at every stage of its loading. */
  lemma LoadConsistent(url: string, color: string, response: Option<Response>, parse: string -> Svg.Document)
    ensures Consistent(Load(url, color, response, parse).icon)
  {
    if response.Some? {
      StepsKeepConsistent(New(url, color), color, response.value.contentType, response.value.body, parse);
    }
  }

  /** On a loaded SVG icon, setting `c1` and then `c2` leaves the document
      as setting `c2` alone would, provided `c1` is not empty; the URL is
      fresh each time. */
  lemma SetColorTwice(icon: Icon, c1: string, c2: string)
    requires icon.kind == Some(SvgIcon) && icon.document.Some?
    requires Svg.Recolourable(icon.document.value)
    requires c1 != ""
    ensures var once := SetColor(icon, c1).icon;
      var twice := SetColor(once, c2).icon;
      && twice.document == SetColor(icon, c2).icon.document
      && twice.url.ObjectUrl? && twice.url.serial == icon.minted + 1
  {
    var d := icon.document.value;
    Svg.RecolourLastWins(d, c1, c2);
    Svg.RecolourKeepsShape(d, c1);
  }

  /** Setting the empty colour on an SVG icon empties the colour slots it
      reaches for good: a later colour leaves the document as it is, whether
      the document is missing, lacks an `svg` element, throws part-way or
      recolours to the end. */
  lemma EmptyColorIsPermanent(icon: Icon, color: string)
    requires icon.kind == Some(SvgIcon)
    ensures var emptied := SetColor(icon, "").icon;
      SetColor(emptied, color).icon.document == emptied.document
  {
    if icon.document.Some? && !Svg.Recolour(icon.document.value, "").MissingRoot? {
      Svg.RecolourAfterEmpty(icon.document.value, color);
    }
  }
}
