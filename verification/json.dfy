/** The part of a JSON settings tree the core looks at: whether a value is an
    object, and the members of an object. */
module Json {
  import opened Results

  datatype Json =
    | Null                                // a default-constructed `nlohmann::json`
    | Object(members: map<string, Json>)
    | Scalar                              // any number, string, boolean or array

  /** `rsutils::json::get_ex( settings, key, &out )`: the member `key` when the
      settings are an object holding it. */
  function GetEx(settings: Json, key: string): (r: Option<Json>)
    ensures r.Some? <==> settings.Object? && key in settings.members
    ensures r.Some? ==> r.value == settings.members[key]
  {
    if settings.Object? && key in settings.members then Some(settings.members[key]) else None
  }

  const EmptyObject: Json := Object(map[])
}
