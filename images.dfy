/**
 * `src/images.py`: building the Carbon request payload from the code and the
 * caller's keyword arguments, and handing it to the renderer.
 */
module Images {
  import opened Wrappers
  import opened Newlines
  import PyDict

  const DEFAULT_THEME: string := "Sethi"
  const DEFAULT_LANGUAGE: string := "Python"
  const DEFAULT_OUTPUT_IMAGE: string := "out.png"

  /** The keys `_create_payload` pops out of the caller's kwargs. */
  const POPPED: set<string> := {"theme", "language"}

  /** `kwargs.get(key, default)`. */
  function GetOr(kwargs: map<string, string>, key: string, default: string): string
  {
    if key in kwargs then kwargs[key] else default
  }

  /**
   * The payload `_create_payload(code, kwargs)` returns, as a value: the
   * escaped code, the theme and language taken from kwargs or defaulted, and
   * then every remaining kwargs entry merged over them.
   */
  function Payload(code: string, kwargs: map<string, string>): (p: map<string, string>)
    ensures p.Keys == {"code", "theme", "language"} + kwargs.Keys
    ensures p["code"] == if "code" in kwargs then kwargs["code"] else CompatibleNewlines(code)
    ensures "theme" in kwargs ==> p["theme"] == kwargs["theme"]
    ensures "theme" !in kwargs ==> p["theme"] == DEFAULT_THEME
    ensures "language" in kwargs ==> p["language"] == kwargs["language"]
    ensures "language" !in kwargs ==> p["language"] == DEFAULT_LANGUAGE
    ensures forall k :: k in kwargs && k !in POPPED ==> p[k] == kwargs[k]
    ensures kwargs == map[] ==>
      p == map["code" := CompatibleNewlines(code), "theme" := DEFAULT_THEME, "language" := DEFAULT_LANGUAGE]
  {
    map["code" := CompatibleNewlines(code),
        "theme" := GetOr(kwargs, "theme", DEFAULT_THEME),
        "language" := GetOr(kwargs, "language", DEFAULT_LANGUAGE)]
    + (kwargs - POPPED)
  }

  /**
   * `_create_payload(code, kwargs)`: returns a new dictionary and, as a side
   * effect, pops `theme` and `language` out of the caller's kwargs.
   */
  method CreatePayload(code: string, kwargs: PyDict.Dict) returns (payload: PyDict.Dict)
    modifies kwargs
    ensures fresh(payload)
    ensures payload.entries == Payload(code, old(kwargs.entries))
    ensures kwargs.entries == old(kwargs.entries) - POPPED
  {
    ghost var given := kwargs.entries;
    var escaped := CompatibleNewlines(code);
    var theme := kwargs.Pop("theme", DEFAULT_THEME);
    assert theme == GetOr(given, "theme", DEFAULT_THEME);
    var language := kwargs.Pop("language", DEFAULT_LANGUAGE);
    assert language == GetOr(given, "language", DEFAULT_LANGUAGE);
    assert kwargs.entries == given - POPPED;
    payload := new PyDict.Dict(map["code" := escaped, "theme" := theme, "language" := language]);
    payload.Update(kwargs);
  }

  /** Failures of `create_carbon_image`. */
  datatype ImageError =
    | MultipleValuesForCode  // the TypeError of a second `code` argument
    | RenderFailed(detail: string)

  /**
   * `create_carbon_image(code, **parameters)` as `src/api.py` calls it. Python
   * binds an `outfile` entry of the parameters to the `outfile` argument,
   * rejects a `code` entry (the code is already given), and collects the rest
   * into a fresh kwargs dictionary. `render` stands for `validateBody`,
   * `createURLString` and `get_response`, which are foreign code.
   */
  method CreateCarbonImage(code: string, parameters: map<string, string>,
                           render: (map<string, string>, string) -> Result<string, string>)
    returns (r: Result<string, ImageError>)
    ensures "code" in parameters ==> r == Failure(MultipleValuesForCode)
    ensures "code" !in parameters ==>
      var sent := Payload(code, parameters - {"outfile"});
      var outfile := GetOr(parameters, "outfile", DEFAULT_OUTPUT_IMAGE);
      && (render(sent, outfile).Success? ==> r == Success(render(sent, outfile).value))
      && (render(sent, outfile).Failure? ==> r == Failure(RenderFailed(render(sent, outfile).error)))
  {
    if "code" in parameters {
      return Failure(MultipleValuesForCode);
    }
    var outfile := GetOr(parameters, "outfile", DEFAULT_OUTPUT_IMAGE);
    var kwargs := new PyDict.Dict(parameters - {"outfile"});
    var payload := CreatePayload(code, kwargs);
    var rendered := render(payload.entries, outfile);
    match rendered
    case Success(file) => r := Success(file);
    case Failure(e) => r := Failure(RenderFailed(e));
  }

  /** Called again on the same kwargs object, `_create_payload` no longer sees
      the caller's theme and language: the first call popped them. */
  lemma SecondCallFallsBackToDefaults(code: string, kwargs: map<string, string>)
    ensures Payload(code, kwargs - POPPED)["theme"] == DEFAULT_THEME
    ensures Payload(code, kwargs - POPPED)["language"] == DEFAULT_LANGUAGE
    ensures forall k :: k in kwargs && k !in POPPED ==>
      Payload(code, kwargs - POPPED)[k] == Payload(code, kwargs)[k]
  {
  }
}
