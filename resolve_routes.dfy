/** The route-resolution pipeline of the Astro v4 integration: the listed page
    files are enriched with their search-schema flag, then each file's path is
    turned into a canonical route path and its dynamic parameter names.

    The search-schema detector and the platform's `path.relative` /
    `path.join` are given as function parameters: the first is a foreign
    call, the second the host's path semantics. */
module ResolveRoutes {
  import opened RouteTypes
  import opened PathTransforms

  // ---------------------------------------------------------------------
  // `listAstroRouteFiles` (the record-building part)
  // ---------------------------------------------------------------------

  /** Wraps each absolute path the page glob returned in a `RouteFile`, in
      the order the glob returned them. */
  function RouteFilesOf(absolutePaths: seq<string>): (r: seq<RouteFile>)
    ensures |r| == |absolutePaths|
    ensures forall i :: 0 <= i < |r| ==> r[i].absolutePath == absolutePaths[i]
  {
    seq(|absolutePaths|, i requires 0 <= i < |absolutePaths| => RouteFile(absolutePaths[i]))
  }

  // ---------------------------------------------------------------------
  // `getRouteSearch`
  // ---------------------------------------------------------------------

  /** The record built for one route: the detector is asked only when search
      parameters are resolved at all. */
  function WithSearch(route: RouteFile, shouldResolveSearchParams: bool, detector: string -> bool): RouteFileWithSearch {
    RouteFileWithSearch(
      route.absolutePath,
      if shouldResolveSearchParams then detector(route.absolutePath) else false)
  }

  /** Attaches `hasSearchSchema` to every route, in input order: always false
      for a static build, the detector's answer for a server build. */
  function GetRouteSearch(routes: seq<RouteFile>, config: RequiredAstroConfig, detector: string -> bool)
    : (r: seq<RouteFileWithSearch>)
    ensures |r| == |routes|
    ensures forall i :: 0 <= i < |r| ==> r[i].absolutePath == routes[i].absolutePath
    ensures config.buildOutput == Static ==> forall i :: 0 <= i < |r| ==> !r[i].hasSearchSchema
    ensures config.buildOutput == Server ==>
      forall i :: 0 <= i < |r| ==> r[i].hasSearchSchema == detector(routes[i].absolutePath)
  {
    var shouldResolveSearchParams := config.buildOutput == Server;
    seq(|routes|, i requires 0 <= i < |routes| => WithSearch(routes[i], shouldResolveSearchParams, detector))
  }

  /** A static build never consults the detector: any two detectors give the
      same records, and so does any other root directory. */
  lemma StaticSearchIgnoresDetector(
    routes: seq<RouteFile>, config: RequiredAstroConfig, other: RequiredAstroConfig,
    detector: string -> bool, otherDetector: string -> bool)
    requires config.buildOutput == Static && other.buildOutput == Static
    ensures GetRouteSearch(routes, config, detector) == GetRouteSearch(routes, other, otherDetector)
  {
    var a := GetRouteSearch(routes, config, detector);
    var b := GetRouteSearch(routes, other, otherDetector);
    assert forall i :: 0 <= i < |a| ==> a[i] == b[i];
  }

  /** A server build asks the detector about each path and nothing else:
      detectors that agree on the listed paths give the same records. */
  lemma ServerSearchDependsOnListedPaths(
    routes: seq<RouteFile>, config: RequiredAstroConfig,
    detector: string -> bool, otherDetector: string -> bool)
    requires config.buildOutput == Server
    requires forall i :: 0 <= i < |routes| ==> detector(routes[i].absolutePath) == otherDetector(routes[i].absolutePath)
    ensures GetRouteSearch(routes, config, detector) == GetRouteSearch(routes, config, otherDetector)
  {
    var a := GetRouteSearch(routes, config, detector);
    var b := GetRouteSearch(routes, config, otherDetector);
    assert forall i :: 0 <= i < |a| ==> a[i] == b[i];
  }

  // ---------------------------------------------------------------------
  // `getResolvedRoutes`
  // ---------------------------------------------------------------------

  /** The canonical route path of one page and its parameter names. */
  datatype RoutePath = RoutePath(path: string, params: Option<seq<string>>)

  /** The string steps of the chain, in their fixed order: the canonical route
      path of a page, from its path relative to the pages directory. */
  function RoutePathOf(relativePath: string): (path: string)
    ensures StartsWith(path, "/")
  {
    var withNormalizedSeparators := NormalizeSeparators(relativePath);
    var withoutExtension := TrimFileExtensions(withNormalizedSeparators);
    var withoutIndex := TrimIndex(withoutExtension);
    var withoutTrailingSlash := TrimTrailingSlash(withoutIndex);
    AddLeadingSlash(withoutTrailingSlash)
  }

  /** The whole chain for one page: its canonical path, and its parameter
      names, `None` rather than an empty list when there are none. */
  function ResolvePath(relativePath: string): (r: RoutePath)
    ensures StartsWith(r.path, "/")
    ensures r.params.Some? ==> r.params.value == GetRouteParams(r.path) && |r.params.value| > 0
    ensures r.params.None? <==> forall p :: 0 <= p < |r.path| ==> !GroupAt(r.path, p)
  {
    var withLeadingSlash := RoutePathOf(relativePath);
    var params := GetRouteParams(withLeadingSlash);
    NoParamsIffNoGroup(withLeadingSlash);
    RoutePath(withLeadingSlash, if |params| == 0 then None else Some(params))
  }

  /** The relative path of a page with extension `ext`, once normalised, is
      its normalised stem, a dot and the normalised extension. */
  lemma NormalizedPagePath(stem: string, ext: string)
    requires |ext| > 0 && '.' !in ext
    ensures NormalizeSeparators(stem + "." + ext) == NormalizeSeparators(stem) + "." + NormalizeSeparators(ext)
    ensures |NormalizeSeparators(ext)| > 0 && '.' !in NormalizeSeparators(ext)
  {
    NormalizeSeparatorsAppend(stem + ".", ext);
    NormalizeSeparatorsAppend(stem, ".");
    assert NormalizeSeparators(".") == ".";
    var e := NormalizeSeparators(ext);
    assert forall i :: 0 <= i < |e| ==> e[i] != '.';
  }

  lemma NormalizedIndexPagePath(prefix: string, ext: string)
    requires |ext| > 0 && '.' !in ext
    ensures NormalizeSeparators(prefix + "index." + ext)
         == (NormalizeSeparators(prefix) + "index") + "." + NormalizeSeparators(ext)
    ensures |NormalizeSeparators(ext)| > 0 && '.' !in NormalizeSeparators(ext)
  {
    assert prefix + "index." + ext == (prefix + "index") + "." + ext;
    NormalizedPagePath(prefix + "index", ext);
    NormalizeSeparatorsAppend(prefix, "index");
    assert NormalizeSeparators("index") == "index";
  }

  /** A page file named `<prefix>index.<ext>` resolves to its prefix, with at
      most one trailing slash removed and a leading slash ensured. The prefix
      need not end at a separator: the `index` is matched as a bare suffix. */
  lemma RoutePathOfIndexPage(prefix: string, ext: string)
    requires |ext| > 0 && '.' !in ext
    ensures RoutePathOf(prefix + "index." + ext)
         == AddLeadingSlash(TrimTrailingSlash(NormalizeSeparators(prefix)))
  {
    var n, e := NormalizeSeparators(prefix), NormalizeSeparators(ext);
    NormalizedIndexPagePath(prefix, ext);
    TrimFileExtensionsOfStem(n + "index", e);
    TrimIndexOfAppended(n);
  }

  /** Any other page file resolves to its stem, with at most one trailing
      slash removed and a leading slash ensured. */
  lemma RoutePathOfPage(stem: string, ext: string)
    requires |ext| > 0 && '.' !in ext
    requires !EndsWith(NormalizeSeparators(stem), "index")
    ensures RoutePathOf(stem + "." + ext)
         == AddLeadingSlash(TrimTrailingSlash(NormalizeSeparators(stem)))
  {
    NormalizedPagePath(stem, ext);
    TrimFileExtensionsOfStem(NormalizeSeparators(stem), NormalizeSeparators(ext));
  }

  /** A path without brackets has no parameters. */
  lemma BracketFreePathHasNoParams(relativePath: string)
    ensures BracketFree(RoutePathOf(relativePath)) ==>
      ResolvePath(relativePath) == RoutePath(RoutePathOf(relativePath), None)
  {
    var path := RoutePathOf(relativePath);
    if BracketFree(path) {
      assert forall p :: 0 <= p < |path| ==> path[p] != '[';
    }
  }

  /** The root index resolves to `/` with no parameters. */
  lemma ResolvePathRootIndex(ext: string)
    requires |ext| > 0 && '.' !in ext
    ensures ResolvePath("index." + ext) == RoutePath("/", None)
  {
    assert "" + "index." + ext == "index." + ext;
    assert RoutePathOf("index." + ext) == "/" by {
      RoutePathOfIndexPage("", ext);
      assert AddLeadingSlash(TrimTrailingSlash(NormalizeSeparators(""))) == "/";
    }
    BracketFreePathHasNoParams("index." + ext);
  }

  /** A nested index `dir/index.ext` resolves to `/dir`: `index` goes first
      and the slash before it second. */
  lemma ResolvePathNestedIndex(dir: string, ext: string)
    requires |ext| > 0 && '.' !in ext
    requires '\\' !in dir && !StartsWith(dir, "/") && !EndsWith(dir, "/")
    ensures RoutePathOf(dir + "/index." + ext) == "/" + dir
    ensures BracketFree(dir) ==> ResolvePath(dir + "/index." + ext).params == None
  {
    var rel := dir + "/index." + ext;
    assert RoutePathOf(rel) == "/" + dir by {
      assert NormalizeSeparators(dir + "/") == dir + "/" by {
        NormalizeSeparatorsAppend(dir, "/");
        assert NormalizeSeparators("/") == "/";
      }
      assert TrimTrailingSlash(dir + "/") == dir by {
        assert (dir + "/")[..|dir|] == dir;
      }
      assert rel == (dir + "/") + "index." + ext;
      RoutePathOfIndexPage(dir + "/", ext);
    }
    if BracketFree(dir) {
      BracketFreePathHasNoParams(rel);
    }
  }

  /** A nested index written with a Windows separator, `dir\index.ext`,
      resolves like its `/` form, to `/dir`. */
  lemma ResolvePathBackslashIndex(dir: string, ext: string)
    requires |ext| > 0 && '.' !in ext
    requires '\\' !in dir && !StartsWith(dir, "/") && !EndsWith(dir, "/")
    ensures RoutePathOf(dir + "\\index." + ext) == "/" + dir
    ensures RoutePathOf(dir + "\\index." + ext) == RoutePathOf(dir + "/index." + ext)
  {
    var rel := dir + "\\index." + ext;
    assert RoutePathOf(rel) == "/" + dir by {
      assert NormalizeSeparators(dir + "\\") == dir + "/" by {
        NormalizeSeparatorsAppend(dir, "\\");
        assert NormalizeSeparators("\\")[0] == '/';
      }
      assert TrimTrailingSlash(dir + "/") == dir by {
        assert (dir + "/")[..|dir|] == dir;
      }
      assert rel == (dir + "\\") + "index." + ext;
      RoutePathOfIndexPage(dir + "\\", ext);
    }
    ResolvePathNestedIndex(dir, ext);
  }

  /** A page whose name merely ends in `index`, such as `reindex`, loses
      those letters too: there is no segment-boundary check. */
  lemma ResolvePathWordEndingInIndex(word: string, ext: string)
    requires |ext| > 0 && '.' !in ext
    requires '/' !in word && '\\' !in word
    ensures RoutePathOf(word + "index." + ext) == "/" + word
  {
    RoutePathOfIndexPage(word, ext);
    assert NormalizeSeparators(word) == word;
    assert !EndsWith(word, "/") by {
      if |word| > 0 {
        assert word[|word| - 1] in word;
      }
    }
    assert !StartsWith(word, "/") by {
      if |word| > 0 {
        assert word[0] in word;
      }
    }
  }

  /** A plain page `stem.ext` resolves to `/stem` with no parameters. */
  lemma ResolvePathPlainPage(stem: string, ext: string)
    requires |ext| > 0 && '.' !in ext
    requires '\\' !in stem && !StartsWith(stem, "/") && !EndsWith(stem, "/") && !EndsWith(stem, "index")
    requires BracketFree(stem)
    ensures ResolvePath(stem + "." + ext) == RoutePath("/" + stem, None)
  {
    RoutePathOfPage(stem, ext);
    BracketFreePathHasNoParams(stem + "." + ext);
  }

  /** A dynamic page `<prefix>[name].ext` keeps its brackets in the path. */
  lemma RoutePathOfDynamicPage(prefix: string, name: string, ext: string)
    requires |ext| > 0 && '.' !in ext
    requires '\\' !in prefix && !StartsWith(prefix, "/") && '\\' !in name
    ensures RoutePathOf(prefix + "[" + name + "]." + ext) == "/" + prefix + "[" + name + "]"
  {
    var stem := prefix + "[" + name + "]";
    assert "/" + stem == "/" + prefix + "[" + name + "]";
    assert prefix + "[" + name + "]." + ext == stem + "." + ext;
    assert !EndsWith(stem, "index") && !EndsWith(stem, "/") by {
      assert stem[|stem| - 1] == ']';
      assert "index"[4] == 'x';
    }
    assert !StartsWith(stem, "/") by {
      if |prefix| > 0 {
        assert stem[0] == prefix[0];
      } else {
        assert stem[0] == '[';
      }
    }
    assert NormalizeSeparators(stem) == stem;
    assert TrimTrailingSlash(stem) == stem;
    assert AddLeadingSlash(stem) == "/" + stem;
    RoutePathOfPage(stem, ext);
  }

  /** A dynamic page `<prefix>[name].ext`, such as `blog/[slug].md`, keeps
      its brackets in the path and names its one parameter. */
  lemma ResolvePathDynamicPage(prefix: string, name: string, ext: string)
    requires |ext| > 0 && '.' !in ext
    requires '\\' !in prefix && !StartsWith(prefix, "/") && BracketFree(prefix)
    requires |name| > 0 && '\\' !in name && BracketFree(name)
    ensures ResolvePath(prefix + "[" + name + "]." + ext)
         == RoutePath("/" + prefix + "[" + name + "]", Some([name]))
  {
    RoutePathOfDynamicPage(prefix, name, ext);
    assert "/" + prefix + "[" + name + "]" == ("/" + prefix) + "[" + name + "]";
    GetRouteParamsOfTrailingGroup("/" + prefix, name);
  }

  /** The route built for one enriched page file. */
  function Resolve(route: RouteFileWithSearch, rootDir: string, relativeToPages: (string, string) -> string)
    : ResolvedRoute
  {
    var resolved := ResolvePath(relativeToPages(rootDir, route.absolutePath));
    ResolvedRoute(route.absolutePath, route.hasSearchSchema, resolved.path, resolved.params)
  }

  /** Resolves every enriched page file, in input order. `relativeToPages(rootDir, p)`
      stands for `path.relative(path.join(rootDir, "src", "pages"), p)`. */
  function GetResolvedRoutes(
    routesWithSearch: seq<RouteFileWithSearch>, rootDir: string,
    relativeToPages: (string, string) -> string)
    : (r: seq<ResolvedRoute>)
    ensures |r| == |routesWithSearch|
    ensures forall i :: 0 <= i < |r| ==>
      && r[i].absolutePath == routesWithSearch[i].absolutePath
      && r[i].hasSearchSchema == routesWithSearch[i].hasSearchSchema
      && RoutePath(r[i].path, r[i].params) == ResolvePath(relativeToPages(rootDir, r[i].absolutePath))
    ensures forall i :: 0 <= i < |r| ==>
      && StartsWith(r[i].path, "/")
      && r[i].params != Some([])
  {
    seq(|routesWithSearch|, i requires 0 <= i < |routesWithSearch| =>
      Resolve(routesWithSearch[i], rootDir, relativeToPages))
  }

  /** Two pages with the same absolute path under the same root resolve to
      the same route path and parameters, whatever their search flags. */
  lemma ResolvedPathDependsOnlyOnAbsolutePath(
    routes: seq<RouteFileWithSearch>, others: seq<RouteFileWithSearch>, i: nat, j: nat,
    rootDir: string, relativeToPages: (string, string) -> string)
    requires i < |routes| && j < |others|
    requires routes[i].absolutePath == others[j].absolutePath
    ensures GetResolvedRoutes(routes, rootDir, relativeToPages)[i].path
         == GetResolvedRoutes(others, rootDir, relativeToPages)[j].path
    ensures GetResolvedRoutes(routes, rootDir, relativeToPages)[i].params
         == GetResolvedRoutes(others, rootDir, relativeToPages)[j].params
  {
  }

  // ---------------------------------------------------------------------
  // `resolveRoutesAstroV4`
  // ---------------------------------------------------------------------

  /** The whole pipeline over the page files the glob listed. */
  function ResolveRoutesAstroV4(
    config: RequiredAstroConfig, absolutePaths: seq<string>,
    detector: string -> bool, relativeToPages: (string, string) -> string)
    : (r: seq<ResolvedRoute>)
    ensures |r| == |absolutePaths|
    ensures forall i :: 0 <= i < |r| ==>
      && r[i].absolutePath == absolutePaths[i]
      && r[i].hasSearchSchema == (config.buildOutput == Server && detector(absolutePaths[i]))
      && RoutePath(r[i].path, r[i].params) == ResolvePath(relativeToPages(config.rootDir, absolutePaths[i]))
  {
    var routeFiles := RouteFilesOf(absolutePaths);
    var routesWithSearch := GetRouteSearch(routeFiles, config, detector);
    GetResolvedRoutes(routesWithSearch, config.rootDir, relativeToPages)
  }
}
