/** `AvatarOptions`: the rendering settings of an avatar. The constructor
    first runs the field initialisers (the defaults), then copies every key
    the caller supplied over them, and finally, when the supplied `size` is
    truthy, recomputes `fontSize` as half of it.

    JavaScript numbers are modelled as `real`: `size / 2` is exact. */
module Options {
  import opened Js

  /** A `Partial<AvatarOptions>` object: each key is `None` when absent.
      `exportType` is the key the source calls `export`. */
  datatype Properties = Properties(
    size: Option<real>,
    foreground: Option<string>,
    font: Option<string>,
    fontSize: Option<real>,
    weight: Option<string>,
    customIcon: Option<string>,
    exportType: Option<string>)

  /** A constructed `AvatarOptions` instance; `customIcon` has no default. */
  datatype AvatarOptions = AvatarOptions(
    size: real,
    foreground: string,
    font: string,
    fontSize: real,
    weight: string,
    customIcon: Option<string>,
    exportType: string)

  /** JavaScript truthiness of a number. */
  predicate IsTruthy(x: real) {
    x != 0.0
  }

  /** The object with no keys, `{}`. */
  const NoProperties := Properties(None, None, None, None, None, None, None)

  /** The field initialisers in declaration order; `fontSize` reads `size`
      after it has been set. */
  function Initialised(): (r: AvatarOptions)
    ensures r.fontSize == r.size / 2.0
    ensures r == AvatarOptions(500.0, "white", "Arial", 250.0, "bold", None, "image/png")
  {
    var size := 500.0;
    AvatarOptions(size, "white", "Arial", size / 2.0, "bold", None, "image/png")
  }

  /** `Object.assign(o, p)`: every key present in `p` replaces the field,
      every absent key leaves it alone. */
  function Assign(o: AvatarOptions, p: Properties): (r: AvatarOptions)
    ensures p == NoProperties ==> r == o
    ensures (p.size.Some? ==> r.size == p.size.value) && (p.size.None? ==> r.size == o.size)
    ensures (p.foreground.Some? ==> r.foreground == p.foreground.value) && (p.foreground.None? ==> r.foreground == o.foreground)
    ensures (p.font.Some? ==> r.font == p.font.value) && (p.font.None? ==> r.font == o.font)
    ensures (p.fontSize.Some? ==> r.fontSize == p.fontSize.value) && (p.fontSize.None? ==> r.fontSize == o.fontSize)
    ensures (p.weight.Some? ==> r.weight == p.weight.value) && (p.weight.None? ==> r.weight == o.weight)
    ensures (p.customIcon.Some? ==> r.customIcon == p.customIcon) && (p.customIcon.None? ==> r.customIcon == o.customIcon)
    ensures (p.exportType.Some? ==> r.exportType == p.exportType.value) && (p.exportType.None? ==> r.exportType == o.exportType)
  {
    AvatarOptions(
      p.size.GetOr(o.size),
      p.foreground.GetOr(o.foreground),
      p.font.GetOr(o.font),
      p.fontSize.GetOr(o.fontSize),
      p.weight.GetOr(o.weight),
      if p.customIcon.Some? then p.customIcon else o.customIcon,
      p.exportType.GetOr(o.exportType))
  }

  /** The supplied `size` is present and truthy. */
  predicate HasTruthySize(p: Properties) {
    p.size.Some? && IsTruthy(p.size.value)
  }

  /** `new AvatarOptions(properties)`. */
  function Construct(properties: Option<Properties>): (r: AvatarOptions)
    ensures var p := properties.GetOr(NoProperties);
      && r.size == p.size.GetOr(500.0)
      && r.foreground == p.foreground.GetOr("white")
      && r.font == p.font.GetOr("Arial")
      && r.weight == p.weight.GetOr("bold")
      && r.customIcon == p.customIcon
      && r.exportType == p.exportType.GetOr("image/png")
      && r.fontSize == (if HasTruthySize(p) then p.size.value / 2.0 else p.fontSize.GetOr(250.0))
  {
    match properties
    case None => Initialised()
    case Some(p) =>
      var o := Assign(Initialised(), p);
      if HasTruthySize(p) then o.(fontSize := p.size.value / 2.0) else o
  }

  /** `new AvatarOptions()` yields size 500, foreground "white", font
      "Arial", fontSize 250, weight "bold", export "image/png" and no icon. */
  lemma Defaults()
    ensures Construct(None) == AvatarOptions(500.0, "white", "Arial", 250.0, "bold", None, "image/png")
  {
  }

  /** The own keys of a constructed instance, as `Object.assign` sees them
      when the instance is passed back as properties. `customIcon` is an
      own key only when it was set. */
  function AsProperties(o: AvatarOptions): (p: Properties)
    ensures Assign(o, p) == o
    ensures p.size == Some(o.size) && p.fontSize == Some(o.fontSize)
    ensures p.foreground == Some(o.foreground) && p.font == Some(o.font) && p.weight == Some(o.weight)
    ensures p.exportType == Some(o.exportType) && p.customIcon == o.customIcon
  {
    Properties(Some(o.size), Some(o.foreground), Some(o.font), Some(o.fontSize),
               Some(o.weight), o.customIcon, Some(o.exportType))
  }

  /** Every supplied key wins over its default, except that a truthy
      supplied `size` overrides a supplied `fontSize`. */
  lemma SuppliedKeysWin(p: Properties)
    ensures var r := Construct(Some(p));
      && (p.size.Some? ==> r.size == p.size.value)
      && (p.foreground.Some? ==> r.foreground == p.foreground.value)
      && (p.font.Some? ==> r.font == p.font.value)
      && (p.weight.Some? ==> r.weight == p.weight.value)
      && (p.customIcon.Some? ==> r.customIcon == p.customIcon)
      && (p.exportType.Some? ==> r.exportType == p.exportType.value)
      && (p.fontSize.Some? && !HasTruthySize(p) ==> r.fontSize == p.fontSize.value)
      && (HasTruthySize(p) ==> r.fontSize == p.size.value / 2.0)
  {
  }

  /** `fontSize` is half of `size` exactly when a truthy size was supplied,
      or when the result still carries the default pair (500, 250), or when
      a supplied `fontSize` happens to equal half of the resulting size. */
  lemma FontSizeIsHalfSize(p: Properties)
    ensures var r := Construct(Some(p));
      (r.fontSize == r.size / 2.0) <==>
        (HasTruthySize(p) || p.fontSize.GetOr(250.0) == p.size.GetOr(500.0) / 2.0)
  {
  }

  /** Passing a constructed instance back through the constructor (as
      `generateAvatar` does with its `options` argument) gives the same
      instance exactly when its `fontSize` is half its `size` or its `size`
      is 0. */
  lemma ReconstructIff(o: AvatarOptions)
    ensures Construct(Some(AsProperties(o))) == o <==> (o.fontSize == o.size / 2.0 || !IsTruthy(o.size))
  {
    var r := Construct(Some(AsProperties(o)));
    if IsTruthy(o.size) && o.fontSize != o.size / 2.0 {
      assert r.fontSize != o.fontSize;
    }
  }

  /** Reconstructing `new AvatarOptions({fontSize: 40})` loses the font size:
      the first constructor fills in `size: 500` as an own key, which the
      second one reads as a truthy supplied size. */
  lemma ReconstructResetsFontSize()
    ensures Construct(Some(NoProperties.(fontSize := Some(40.0)))).fontSize == 40.0
    ensures Construct(Some(AsProperties(Construct(Some(NoProperties.(fontSize := Some(40.0))))))).fontSize == 250.0
  {
  }
}
