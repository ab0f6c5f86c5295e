/**
  `get_video_info`: one entry of the listing's `contents` array becomes the
  nested `video` object with its `thumbnails` key removed. The JSON objects
  are mutable dictionaries, as in Python: the key is popped from the very
  object the entry holds, so the entry sees the change too.
 */
module Video {
  import opened Wrappers
  import opened Errors

  /** A decoded JSON value; objects are shared, mutable dictionaries. */
  datatype Json =
    | Null
    | Bool(b: bool)
    | Number(n: int)
    | Str(s: string)
    | Array(items: seq<Json>)
    | Object(obj: JsonObject)

  class JsonObject {
    var fields: map<string, Json>

    constructor (fields: map<string, Json>)
      ensures this.fields == fields
    {
      this.fields := fields;
    }

    /** `d.pop(key, default)`: removes `key` if present; a missing key is not an
        error. Returns the removed value, if any. */
    method Pop(key: string) returns (removed: Option<Json>)
      modifies this
      ensures fields == old(fields) - {key}
      ensures removed == if key in old(fields) then Some(old(fields)[key]) else None
    {
      removed := if key in fields then Some(fields[key]) else None;
      fields := fields - {key};
    }
  }

  /** The object `get_video_info` changes: the entry's `video` value when that is an object. */
  function VideoTarget(content: JsonObject): set<JsonObject>
    reads content
  {
    if "video" in content.fields && content.fields["video"].Object?
    then {content.fields["video"].obj}
    else {}
  }

  /** `get_video_info(content)`: `Ok(None)` when the entry has no `video` key;
      otherwise the `video` object itself, with `thumbnails` popped. A `video`
      value that is not an object has no `pop(key, default)` and fails. */
  method GetVideoInfo(content: JsonObject) returns (r: Result<Option<JsonObject>, Error>)
    modifies VideoTarget(content)
    ensures r == Ok(None) <==> "video" !in old(content.fields)
    ensures r.Err? <==> "video" in old(content.fields) && !old(content.fields["video"]).Object?
    ensures r.Err? ==> r.error == NotAnObject
    ensures r.Ok? && r.value.Some? ==>
              && "video" in old(content.fields)
              && old(content.fields["video"]) == Object(r.value.value)
              && "thumbnails" !in r.value.value.fields
              && r.value.value.fields == old(r.value.value.fields) - {"thumbnails"}
  {
    if "video" in content.fields {
      var video := content.fields["video"];
      if video.Object? {
        var _ := video.obj.Pop("thumbnails");
        return Ok(Some(video.obj));
      }
      return Err(NotAnObject);
    }
    return Ok(None);
  }
}
