/**
 * Task `cppify`: the values handed to the template of the generated
 * `<name>_js_source.cpp`, built from the package name, the text of the
 * minified bundle and the text of the chosen `pins.js` (all parameters).
 */
module Cppify {
  import opened Wrappers
  import opened Text
  import opened Sanitise
  import opened Pins

  /** The `out_js` record: symbol name, bundle path, length before escaping
      and the escaped literal body. */
  datatype JsFile = JsFile(name: string, path: string, sourceLength: nat, source: string)

  /** The template's values: `js_files` and `magic_strings`. */
  datatype CppifyContext = CppifyContext(jsFiles: seq<JsFile>, magicStrings: seq<PinEntry>)

  /** Where task `bundle` writes the minified script. */
  function BundlePath(packageName: string): string
  {
    "./build/js/" + packageName + ".bundle.min.js"
  }

  /** `out_js` for the bundle text read from `BundlePath(packageName)`. */
  function OutJs(packageName: string, bundle: string): (f: JsFile)
    ensures f.name == CppNameSanitise(packageName) && f.path == BundlePath(packageName)
    ensures f.sourceLength == |bundle|
    ensures Unescape(f.source) == Some(bundle)
    ensures f.sourceLength == |f.source|
      <==> Count(bundle, '\\') + Count(bundle, '\n') + Count(bundle, '"') == 0
  {
    UnescapeCppStringSanitise(bundle);
    CppStringSanitiseLength(bundle);
    JsFile(CppNameSanitise(packageName), BundlePath(packageName), |bundle|, CppStringSanitise(bundle))
  }

  /** The template values of task `cppify`. */
  function Cppify(packageName: string, bundle: string, pinData: string): (ctx: CppifyContext)
    ensures ctx.jsFiles == [OutJs(packageName, bundle)]
    ensures ctx.magicStrings == ParsePins(pinData)
    ensures Unescape(ctx.jsFiles[0].source) == Some(bundle)
    ensures ctx.jsFiles[0].sourceLength == |bundle|
  {
    CppifyContext([OutJs(packageName, bundle)], ParsePins(pinData))
  }

  /** The recorded length is that of the text before escaping: it equals the
      escaped length only for a text without backslash, newline and `"`. */
  lemma SourceLengthIsPreEscape(packageName: string, bundle: string)
    ensures OutJs(packageName, bundle).sourceLength == |bundle|
    ensures OutJs(packageName, bundle).sourceLength == |OutJs(packageName, bundle).source|
      <==> ('\\' !in bundle && '\n' !in bundle && '"' !in bundle)
  {
    CountZero(bundle, '\\');
    CountZero(bundle, '\n');
    CountZero(bundle, '"');
  }
}
