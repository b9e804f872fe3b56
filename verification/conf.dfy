/**
 `pinax/submissions/conf.py`: resolving a dotted setting such as the hook
 set or the markup renderer to the attribute it names. The set of importable
 modules and the names each defines is a parameter.
 */
module Conf {
  import opened Wrappers
  import opened Strings

  /** The exceptions `load_path_attr` can raise. */
  datatype ConfigError =
    | EmptyModuleName                              // `ValueError` from `import_module("")`
    | RelativeWithoutPackage                       // `TypeError` from `import_module(".x")`
    | ImportFailed(modName: string)                 // `ImproperlyConfigured`, "Error importing"
    | MissingAttribute(modName: string, attr: string) // `ImproperlyConfigured`, "does not define"

  const DefaultHookSet: string := "pinax.submissions.hooks.DefaultHookSet"
  const DefaultMarkupRenderer: string := "markdown.markdown"

  /**
   `path[:i], path[i + 1:]` with `i = path.rfind(".")`. With no '.' in the
   path `i` is -1, so the module part is the path without its last
   character (Python's negative slice) and the attribute part is the path.
   */
  function SplitPath(path: string): (r: (string, string))
    ensures '.' !in r.1
    ensures '.' in path ==> path == r.0 + "." + r.1
    ensures '.' !in path ==> r.1 == path && r.0 == (if |path| == 0 then "" else path[..|path| - 1])
  {
    var i := RFind(path, '.');
    if i >= 0 then
      assert path == path[..i] + [path[i]] + path[i + 1..];
      (path[..i], path[i + 1..])
    else
      assert forall j :: 0 <= j < |path| ==> path[j] != '.';
      (if |path| == 0 then "" else path[..|path| - 1], path)
  }

  /** The split undoes the join of a module path and a dot-free attribute name. */
  lemma SplitPathJoin(modName: string, attr: string)
    requires '.' !in attr
    ensures SplitPath(modName + "." + attr) == (modName, attr)
  {
    var path := modName + "." + attr;
    var i := RFind(path, '.');
    assert path[|modName|] == '.';
    assert forall j :: |modName| < j < |path| ==> path[j] == attr[j - |modName| - 1];
    assert i == |modName|;
    assert path[..i] == modName;
    assert path[i + 1..] == attr;
  }

  /**
   `load_path_attr`: imports the module part and reads the attribute part.
   `registry` maps each importable module to the names it defines; the
   result names the attribute found.
   */
  function LoadPathAttr(registry: map<string, set<string>>, path: string): (r: Result<(string, string), ConfigError>)
    ensures r.Success? <==> var (m, a) := SplitPath(path); m != "" && m[0] != '.' && m in registry && a in registry[m]
    ensures r.Success? ==> r.value == SplitPath(path)
    ensures r == Failure(EmptyModuleName) <==> SplitPath(path).0 == ""
    ensures r == Failure(RelativeWithoutPackage) <==> |SplitPath(path).0| > 0 && SplitPath(path).0[0] == '.'
    ensures r == Failure(ImportFailed(SplitPath(path).0)) <==>
      var m := SplitPath(path).0; m != "" && m[0] != '.' && m !in registry
    ensures r == Failure(MissingAttribute(SplitPath(path).0, SplitPath(path).1)) <==>
      var (m, a) := SplitPath(path); m != "" && m[0] != '.' && m in registry && a !in registry[m]
  {
    var (modName, attr) := SplitPath(path);
    if modName == "" then Failure(EmptyModuleName)
    else if modName[0] == '.' then Failure(RelativeWithoutPackage)
    else if modName !in registry then Failure(ImportFailed(modName))
    else if attr !in registry[modName] then Failure(MissingAttribute(modName, attr))
    else Success((modName, attr))
  }

  /** The default hook set names class `DefaultHookSet` of module `pinax.submissions.hooks`. */
  lemma DefaultHookSetSplit()
    ensures SplitPath(DefaultHookSet) == ("pinax.submissions.hooks", "DefaultHookSet")
  {
    var attr := "DefaultHookSet";
    assert forall j :: 0 <= j < |attr| ==> attr[j] != '.';
    assert DefaultHookSet == "pinax.submissions.hooks" + "." + attr;
    SplitPathJoin("pinax.submissions.hooks", attr);
  }

  /** The default renderer names function `markdown` of module `markdown`. */
  lemma DefaultMarkupRendererSplit()
    ensures SplitPath(DefaultMarkupRenderer) == ("markdown", "markdown")
  {
    var attr := "markdown";
    assert forall j :: 0 <= j < |attr| ==> attr[j] != '.';
    assert DefaultMarkupRenderer == "markdown" + "." + attr;
    SplitPathJoin("markdown", attr);
  }

  /** A setting without a dot loses its last character as the module name. */
  lemma UndottedPath(path: string)
    requires |path| > 1 && '.' !in path && path[0] != '.'
    ensures SplitPath(path) == (path[..|path| - 1], path)
    ensures LoadPathAttr(map[], path) == Failure(ImportFailed(path[..|path| - 1]))
  {
  }
}
