/**
 * `script.py`: the stand-alone variant that rewrites the code of a payload
 * dictionary in place before handing it to the renderer.
 */
module Script {
  import opened Wrappers
  import opened Newlines
  import PyDict

  datatype ScriptError =
    | MissingCode(e: PyDict.KeyError)  // `payload["code"]` on a payload without code
    | RenderFailed(detail: string)

  /**
   * `create_carbon_image(payload, outfile)`: replaces `payload["code"]` by its
   * newline-compatible form, in the caller's dictionary, and renders it.
   * `render` stands for `validateBody`, `createURLString` and the event-loop
   * call of `get_response`, which are foreign code.
   */
  method CreateCarbonImage(payload: PyDict.Dict, outfile: string,
                           render: (map<string, string>, string) -> Result<string, string>)
    returns (r: Result<string, ScriptError>)
    modifies payload
    ensures "code" !in old(payload.entries) ==>
      r == Failure(MissingCode(PyDict.KeyError("code"))) && payload.entries == old(payload.entries)
    ensures "code" in old(payload.entries) ==>
      && payload.entries.Keys == old(payload.entries).Keys
      && payload.entries["code"] == CompatibleNewlines(old(payload.entries)["code"])
      && (forall k :: k in old(payload.entries) && k != "code" ==> payload.entries[k] == old(payload.entries)[k])
      && (render(payload.entries, outfile).Success? ==> r == Success(render(payload.entries, outfile).value))
      && (render(payload.entries, outfile).Failure? ==>
            r == Failure(RenderFailed(render(payload.entries, outfile).error)))
  {
    var code := payload.Get("code");
    match code
    case Failure(e) =>
      r := Failure(MissingCode(e));
    case Success(c) =>
      payload.Set("code", CompatibleNewlines(c));
      var rendered := render(payload.entries, outfile);
      match rendered
      case Success(file) => r := Success(file);
      case Failure(e) => r := Failure(RenderFailed(e));
  }
}
