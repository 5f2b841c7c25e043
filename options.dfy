/**
 * The plugin's option records and the two merges that produce the options
 * handed to the renderer: the defaults under the user's options, then the
 * width and height under the user's `infographicOptions`.
 */
module Options {
  import opened Wrappers
  import Hast

  /** A JavaScript value as it may appear in an options object. */
  datatype Value =
    | Undefined
    | Str(s: string)
    | Num(n: real)
    | Bool(b: bool)
    | Other(description: string)  // an object, array or function, kept abstract

  /** An own key of an object literal: left out, or present with some value (possibly `undefined`). */
  datatype Field<T> = Omitted | Given(value: T)

  /** What a thrown value looks like to the error handling: an `Error` with its message, or anything else by `String(value)`. */
  datatype ErrorValue = ErrorObject(message: string) | NonError(text: string)

  /**
   * The caller's `errorFallback(element, spec, error, file)`: a replacement
   * node, or `None` for null/undefined, meaning "remove the element".
   * The `file` argument is not part of this model.
   */
  type Fallback = (Hast.Node, string, ErrorValue) -> Option<Hast.Node>

  /**
   * The options object passed to the plugin. `infographicOptions` and
   * `errorFallback` are `None` when left out or falsy.
   */
  datatype PluginOptions = PluginOptions(
    width: Field<Value>,
    height: Field<Value>,
    infographicOptions: Option<map<string, Value>>,
    errorFallback: Option<Fallback>)

  /** `{ ...defaultOptions, ...options }`. */
  datatype FinalOptions = FinalOptions(
    width: Value,
    height: Value,
    infographicOptions: Option<map<string, Value>>,
    errorFallback: Option<Fallback>)

  /** The plugin called with no options: `options = {}`. */
  const NoOptions := PluginOptions(Omitted, Omitted, None, None)

  const DefaultWidth := Str("100%")
  const DefaultHeight := Str("auto")

  /** `{ ...defaultOptions, ...options }`: a key the user gave wins, even when its value is `undefined`. */
  function MergeOptions(user: PluginOptions): (r: FinalOptions)
    ensures user.width.Given? ==> r.width == user.width.value
    ensures user.width.Omitted? ==> r.width == DefaultWidth
    ensures user.height.Given? ==> r.height == user.height.value
    ensures user.height.Omitted? ==> r.height == DefaultHeight
    ensures r.infographicOptions == user.infographicOptions
    ensures r.errorFallback == user.errorFallback
  {
    FinalOptions(
      if user.width.Given? then user.width.value else DefaultWidth,
      if user.height.Given? then user.height.value else DefaultHeight,
      user.infographicOptions,
      user.errorFallback)
  }

  /** `{ width: final.width, height: final.height, ...final.infographicOptions }`. */
  function RenderOptions(final: FinalOptions): map<string, Value> {
    var base := map["width" := final.width, "height" := final.height];
    if final.infographicOptions.Some? then base + final.infographicOptions.value else base
  }

  /** The options the renderer receives for a given plugin configuration. */
  function RenderOptionsFor(user: PluginOptions): (r: map<string, Value>)
    ensures "width" in r && "height" in r
    ensures user.infographicOptions.None? ==> r.Keys == {"width", "height"}
    ensures user.infographicOptions.Some? ==>
              r.Keys == {"width", "height"} + user.infographicOptions.value.Keys
    // precedence: infographicOptions, then the user's width/height, then the defaults
    ensures r["width"] ==
              if user.infographicOptions.Some? && "width" in user.infographicOptions.value
              then user.infographicOptions.value["width"]
              else if user.width.Given? then user.width.value
              else Str("100%")
    ensures r["height"] ==
              if user.infographicOptions.Some? && "height" in user.infographicOptions.value
              then user.infographicOptions.value["height"]
              else if user.height.Given? then user.height.value
              else Str("auto")
    ensures user.infographicOptions.Some? ==>
              forall k :: k in user.infographicOptions.value ==> r[k] == user.infographicOptions.value[k]
  {
    RenderOptions(MergeOptions(user))
  }

  /** With no options at all the renderer is asked for width `100%` and height `auto` and nothing else. */
  lemma DefaultRenderOptions()
    ensures RenderOptionsFor(NoOptions) == map["width" := Str("100%"), "height" := Str("auto")]
  {
  }

  /** A user key present with value `undefined` overrides the default instead of falling back to it. */
  lemma UndefinedWidthOverridesDefault()
    ensures RenderOptionsFor(PluginOptions(Given(Undefined), Omitted, None, None))["width"] == Undefined
  {
  }
}
