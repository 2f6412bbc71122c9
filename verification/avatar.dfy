/** `generateAvatar`: which image gets drawn, and how it is handed back.
    An empty identifier throws. Otherwise the canvas is sized from the
    options as passed, the options are completed with their defaults, and
    one of three plans is chosen: a custom icon over the background,
    delivered through a promise, unless `forceSync` is set; otherwise text
    over the background, returned directly under `forceSync` and through a
    promise without it.

    The drawing itself is out of the model: a plan lists the layers in the
    order they are painted. */
module Avatar {
  import opened Js
  import Color
  import Options

  /** The text drawn over the background: the `letters` argument, or by
      default the upper-cased first UTF-16 code unit of the identifier,
      which the model leaves symbolic. */
  datatype Caption = Letters(text: string) | InitialOfIdentifier

  /** One painting step: the background fill, the caption, or the icon
      fetched from `source` with `color` as its target colour, which only
      changes what is drawn when the fetched icon is an SVG. */
  datatype Layer =
    | Background(color: string)
    | Text(caption: Caption, fontSize: real, font: string, color: string)
    | Icon(source: string, color: string)

  /** Whether the image URL is returned directly or through a promise. */
  datatype Delivery = Immediate | Promised

  datatype AvatarError = MissingIdentifier

  /** What a call does: throw, or size a canvas `width` by `height` pixels,
      paint the layers in order and export with the given MIME type. */
  datatype Plan =
    | Throws(error: AvatarError)
    | Render(delivery: Delivery, width: nat, height: nat, layers: seq<Layer>, exportType: string)

  /** A number rounded toward zero. */
  function Truncate(x: real): (r: int)
    ensures x >= 0.0 ==> r as real <= x < r as real + 1.0
    ensures x < 0.0 ==> r as real - 1.0 < x <= r as real
  {
    if x >= 0.0 then x.Floor else -((-x).Floor)
  }

  /** A number converted to the IDL type `unsigned long`: rounded toward
      zero and wrapped modulo 2^32; an absent value is `undefined`, which
      converts to 0. */
  function UnsignedLong(size: Option<real>): (r: nat)
    ensures r < 0x1_0000_0000
    ensures size.None? ==> r == 0
    ensures size.Some? ==> (r - Truncate(size.value)) % 0x1_0000_0000 == 0
    ensures size.Some? && 0.0 <= size.value < 4294967296.0 ==> r == size.value.Floor
  {
    match size
    case None => 0
    case Some(x) => Truncate(x) % 0x1_0000_0000
  }

  /** The canvas's default width and height. */
  const DefaultWidth := 300
  const DefaultHeight := 150

  /** `canvas.width = options.size` (or `canvas.height`): a reflected
      `unsigned long` attribute keeps the converted value only when it is at
      most 2^31 - 1, and otherwise falls back to its default. So negative
      sizes down to -2^31 and sizes from 2^31 up give the default. */
  function CanvasDimension(size: Option<real>, fallback: nat): (r: nat)
    ensures r < 0x8000_0000 || r == fallback
    ensures size.None? ==> r == 0
    ensures size.Some? && 0.0 <= size.value < 2147483648.0 ==> r == size.value.Floor
    ensures size.Some? && -1.0 < size.value < 0.0 ==> r == 0
    ensures size.Some? && -2147483649.0 < size.value <= -1.0 ==> r == fallback
    ensures size.Some? && 2147483648.0 <= size.value < 4294967296.0 ==> r == fallback
  {
    var n := UnsignedLong(size);
    if n < 0x8000_0000 then n else fallback
  }

  /** The `options` argument as the function body sees it: when omitted it
      defaults to `new AvatarOptions()`, whose own keys are all set. */
  function OptionsArgument(options: Option<Options.Properties>): Options.Properties {
    options.GetOr(Options.AsProperties(Options.Construct(None)))
  }

  /** A custom icon is set and truthy (a non-empty string). */
  predicate HasIcon(o: Options.AvatarOptions) {
    o.customIcon.Some? && o.customIcon.value != ""
  }

  /** `generateAvatar(uniqueIndentifier, letters, options, forceSync)`;
      `letters` and `options` are `None` when omitted. */
  function GenerateAvatar(id: string, letters: Option<string>, options: Option<Options.Properties>,
                          forceSync: bool): (r: Plan)
    ensures r.Throws? <==> id == ""
    ensures r.Render? ==>
      && |r.layers| == 2
      && r.layers[0] == Background(Color.StringToColor(id))
      && r.width == CanvasDimension(OptionsArgument(options).size, DefaultWidth)
      && r.height == CanvasDimension(OptionsArgument(options).size, DefaultHeight)
      && r.exportType == Options.Construct(Some(OptionsArgument(options))).exportType
  {
    if id == "" then Throws(MissingIdentifier)
    else
      var raw := OptionsArgument(options);
      var width, height := CanvasDimension(raw.size, DefaultWidth), CanvasDimension(raw.size, DefaultHeight);
      var o := Options.Construct(Some(raw));
      var background := Background(Color.StringToColor(id));
      var caption := if letters.Some? then Letters(letters.value) else InitialOfIdentifier;
      var text := Text(caption, o.fontSize, o.font, o.foreground);
      if HasIcon(o) && !forceSync then
        Render(Promised, width, height, [background, Icon(o.customIcon.value, o.foreground)], o.exportType)
      else if forceSync then
        Render(Immediate, width, height, [background, text], o.exportType)
      else
        Render(Promised, width, height, [background, text], o.exportType)
  }

  /** The plan paints an icon. */
  predicate PaintsIcon(p: Plan) {
    p.Render? && exists i | 0 <= i < |p.layers| :: p.layers[i].Icon?
  }

  /** The plan paints text. */
  predicate PaintsText(p: Plan) {
    p.Render? && exists i | 0 <= i < |p.layers| :: p.layers[i].Text?
  }

  /** The icon plan is chosen exactly when the identifier is non-empty, a
      truthy icon is set and `forceSync` is off; it paints the background
      and then the icon with the completed foreground as its colour, and no
      text. Every other non-throwing plan paints the background and then
      text. */
  lemma ModeSelection(id: string, letters: Option<string>, options: Option<Options.Properties>, forceSync: bool)
    ensures var p := GenerateAvatar(id, letters, options, forceSync);
      var o := Options.Construct(Some(OptionsArgument(options)));
      && (PaintsIcon(p) <==> id != "" && HasIcon(o) && !forceSync)
      && (PaintsIcon(p) ==> !PaintsText(p) && p.delivery == Promised
                            && p.layers[1] == Icon(o.customIcon.value, o.foreground))
      && (p.Render? && !PaintsIcon(p) ==> PaintsText(p) && p.layers[1].Text?)
  {
    var p := GenerateAvatar(id, letters, options, forceSync);
    if p.Render? {
      OverBackground(p);
    }
  }

  /** A plan that paints the background and one more layer paints an icon
      or text exactly when that layer is one. */
  lemma OverBackground(p: Plan)
    requires p.Render? && |p.layers| == 2 && p.layers[0].Background?
    ensures PaintsIcon(p) <==> p.layers[1].Icon?
    ensures PaintsText(p) <==> p.layers[1].Text?
  {
    if p.layers[1].Icon? {
      assert PaintsIcon(p);
    }
    if p.layers[1].Text? {
      assert PaintsText(p);
    }
  }

  /** The text layer shows the caption (the `letters` argument, or the
      identifier's initial) in the completed font size, font and
      foreground. */
  lemma TextLayer(id: string, letters: Option<string>, options: Option<Options.Properties>, forceSync: bool)
    ensures var p := GenerateAvatar(id, letters, options, forceSync);
      var o := Options.Construct(Some(OptionsArgument(options)));
      p.Render? && p.layers[1].Text? ==>
        p.layers[1] == Text(if letters.Some? then Letters(letters.value) else InitialOfIdentifier,
                            o.fontSize, o.font, o.foreground)
  {
    var o := Options.Construct(Some(OptionsArgument(options)));
    if id != "" && !(HasIcon(o) && !forceSync) {
      var caption := if letters.Some? then Letters(letters.value) else InitialOfIdentifier;
      assert GenerateAvatar(id, letters, options, forceSync).layers[1] == Text(caption, o.fontSize, o.font, o.foreground);
    }
  }

  /** The image URL comes back directly exactly when `forceSync` is set;
      `forceSync` paints text even when an icon is set. */
  lemma ForceSyncIgnoresIcon(id: string, letters: Option<string>, options: Option<Options.Properties>, forceSync: bool)
    requires id != ""
    ensures var p := GenerateAvatar(id, letters, options, forceSync);
      && (p.delivery == Immediate <==> forceSync)
      && (forceSync ==> p.layers[1].Text? && PaintsText(p))
  {
  }

  /** The canvas is sized from `options.size` as passed, before the defaults
      are filled in: options without a `size` key give a 0 x 0 canvas
      although the completed size is 500. Omitting the options argument
      altogether gives a 500 x 500 canvas. */
  lemma CanvasSizedBeforeDefaults(id: string)
    requires id != ""
    ensures var p := GenerateAvatar(id, None, Some(Options.NoProperties), false);
      p.width == 0 && p.height == 0
    ensures Options.Construct(Some(OptionsArgument(Some(Options.NoProperties)))).size == 500.0
    ensures var p := GenerateAvatar(id, None, None, false);
      p.width == 500 && p.height == 500
  {
  }

  /** The canvas is square exactly when the converted size is stored, that
      is, when it is at most 2^31 - 1; otherwise it is 300 x 150. */
  lemma SquareIffStored(id: string, letters: Option<string>, options: Option<Options.Properties>, forceSync: bool)
    requires id != ""
    ensures var p := GenerateAvatar(id, letters, options, forceSync);
      var n := UnsignedLong(OptionsArgument(options).size);
      && (p.width == p.height <==> n < 0x8000_0000)
      && (n >= 0x8000_0000 ==> p.width == DefaultWidth && p.height == DefaultHeight)
  {
  }

  /** `generateAvatar("bob", undefined, {size: -1}, true)` draws on a
      300 x 150 canvas: -1 converts to 2^32 - 1, which neither attribute
      stores. */
  lemma NegativeSizeCanvas()
    ensures var p := GenerateAvatar("bob", None, Some(Options.NoProperties.(size := Some(-1.0))), true);
      p.width == 300 && p.height == 150
  {
  }

  /** Options that are already an `AvatarOptions` instance go through the
      constructor a second time, which reads their `size` key as supplied:
      an instance built from `{fontSize: 40}` draws its text at 250. */
  lemma ReusedOptionsLoseFontSize(id: string)
    requires id != ""
    ensures var o := Options.Construct(Some(Options.NoProperties.(fontSize := Some(40.0))));
      && o.fontSize == 40.0
      && GenerateAvatar(id, None, Some(Options.AsProperties(o)), true).layers[1]
           == Text(InitialOfIdentifier, 250.0, "Arial", "white")
  {
  }

  /** Omitting the options argument renders with exactly the defaults: the
      default instance survives being passed through the constructor again. */
  lemma OmittedOptionsAreDefaults()
    ensures Options.Construct(Some(OptionsArgument(None))) == Options.Construct(None)
  {
    Options.ReconstructIff(Options.Construct(None));
  }

  /** The `weight` option never influences the result. */
  lemma WeightUnused(id: string, letters: Option<string>, p: Options.Properties, w: Option<string>, forceSync: bool)
    ensures GenerateAvatar(id, letters, Some(p.(weight := w)), forceSync)
         == GenerateAvatar(id, letters, Some(p), forceSync)
  {
    var o1, o2 := Options.Construct(Some(p.(weight := w))), Options.Construct(Some(p));
    assert o1 == o2.(weight := o1.weight);
  }
}
