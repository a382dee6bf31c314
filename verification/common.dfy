/** Values shared by every component of the mod-index builder: the JSON
    values that the mod manifest and the index document carry, the errors a
    run can abort with, and the Result wrapper that stands for the script's
    exception propagation. */
module Common {

  datatype Option<+T> = None | Some(value: T)

  /** Why a run aborts. The script raises and never catches; a Failure
      travels up to the merge, which then writes nothing. */
  datatype Error =
    | NetworkError(detail: string)  // the HTTP GET itself raised
    | ArchiveError(detail: string)  // zip open, entry lookup, UTF-8 or JSON decoding failed
    | NotAnObject                   // the manifest parsed, but is not a JSON object
    | MissingKey(key: string)       // the manifest object lacks the key

  /** Either a value or the error the script would have raised. */
  datatype Result<+T> = Success(value: T) | Failure(error: Error)

  /** A parsed JSON value. Numbers are kept as integers: the model only ever
      compares a value against strings, which no number equals. */
  datatype Json =
    | JNull
    | JBool(b: bool)
    | JNumber(n: int)
    | JString(s: string)
    | JArray(items: seq<Json>)
    | JObject(fields: map<string, Json>)
}
