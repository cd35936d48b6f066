/**
  Analysis options (`defaultOptions` and `mixin` of adhint.js).  An options
  object is a map from option name to a list of strings; the caller's object
  is merged over the defaults key by key.
*/
module Options {
  import opened Wrappers

  type Options = map<string, seq<string>>

  const DefaultGlobalKey := "defaultGlobal"
  const GlobalKey := "global"
  const CheckUnrefTypeKey := "checkUnrefType"

  /** The built-in globals: core ECMAScript names, then browser host names. */
  const BuiltinGlobals: seq<string> := [
    "Array", "String", "RegExp", "Function", "Number", "Boolean", "Math",
    "arguments", "this", "parseInt",
    "console", "window", "document", "setTimeout", "clearTimeout", "setInterval", "clearInterval"
  ]

  function DefaultOptions(): (o: Options)
    ensures o.Keys == {DefaultGlobalKey, GlobalKey, CheckUnrefTypeKey}
    ensures o[DefaultGlobalKey] == BuiltinGlobals && o[GlobalKey] == []
    ensures o[CheckUnrefTypeKey] == ["var", "arg"]
  {
    map[DefaultGlobalKey := BuiltinGlobals, GlobalKey := [], CheckUnrefTypeKey := ["var", "arg"]]
  }

  /** `mixin`: copy every key of `src` over `dest`. */
  method Mixin(dest: Options, src: Options) returns (merged: Options)
    ensures merged.Keys == dest.Keys + src.Keys
    ensures forall k :: k in src ==> merged[k] == src[k]
    ensures forall k :: k in dest && k !in src ==> merged[k] == dest[k]
    ensures merged == dest + src
  {
    merged := dest;
    var todo := src.Keys;
    while todo != {}
      invariant todo <= src.Keys
      invariant merged.Keys == dest.Keys + (src.Keys - todo)
      invariant forall k :: k in src.Keys - todo ==> merged[k] == src[k]
      invariant forall k :: k in dest && k !in src.Keys - todo ==> merged[k] == dest[k]
      decreases todo
    {
      var k :| k in todo;
      merged := merged[k := src[k]];
      todo := todo - {k};
    }
  }

  /** The options a run uses: the defaults, overwritten by the caller's, if any. */
  function Effective(user: Option<Options>): (o: Options)
    ensures DefaultGlobalKey in o && GlobalKey in o
  {
    if user.Some? then DefaultOptions() + user.value else DefaultOptions()
  }

  /** The names the root scope is seeded with: `defaultGlobal.concat(global)`. */
  function GlobalNames(o: Options): seq<string>
    requires DefaultGlobalKey in o && GlobalKey in o
  {
    o[DefaultGlobalKey] + o[GlobalKey]
  }
}
