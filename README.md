# astro-typesafe-routes: route resolution for Astro v4, in Dafny

This project models the route-resolution pipeline of the `astro-typesafe-routes`
integration. The integration lists the page files under `<rootDir>/src/pages`.
In a server build it flags each page that declares a search-parameter schema;
in a static build every flag is false. It then turns each page's file path into
a canonical route path and a list of dynamic `[param]` names. Downstream type generation consumes these records; that stage is not
part of this model.

`resolve-routes.ts` is pure apart from two awaited effects, the file glob and the
schema detector. So the model is made of functions and lemmas, not classes.

- `route_types.dfy`, module `RouteTypes`: the records `RouteFile`,
  `RouteFileWithSearch`, `ResolvedRoute` (with `params: Option<seq<string>>`
  for `string[] | null`) and `RequiredAstroConfig` with
  `BuildOutput = Static | Server`.
- `path_transforms.dfy`, module `PathTransforms`: the string helpers
  `trimFileExtensions`, `trimIndex`, `trimTrailingSlash`, `addLeadingSlash`
  and `getRouteParams`. Each regular expression is written out as a total
  function on strings. The contracts of the trimming and slash helpers
  determine their results. `GetRouteParams` is given by its definition; what
  it finds is stated by `NoParamsIffNoGroup`, `GetRouteParamsAtGroup` and
  `GetRouteParamsOfRender`.
  `getRouteParams` is a left-to-right scan. At a position holding `[`, then a
  character other than `]`, then a later `]`, the scan takes the text up to
  the first `]`, removes every bracket from it, and resumes after that `]`.
  Anywhere else it moves on by one character.
- `resolve_routes.dfy`, module `ResolveRoutes`: `getRouteSearch`,
  `getResolvedRoutes` and their composition `resolveRoutesAstroV4`.

External collaborators are parameters:
- `detector: string -> bool` stands for `doesRouteHaveSearchSchema`.
- `relativeToPages: (string, string) -> string` stands for
  `path.relative(path.join(rootDir, "src", "pages"), absolutePath)`.
- The glob's result is the input list `absolutePaths`.

`normalizeSeparators` comes from a module that is not part of this model. It is
ASSUMED to turn every `\` into `/` and change nothing else.

Edge cases of the code that the model keeps:
- Only one trailing `/` is removed, so `a//` becomes `a/`
  (`TrimTrailingSlashRemovesAtMostOne`).
- A `/` is added only when none is there, so a path that already starts with
  `//` keeps both.
- Unbalanced brackets are tolerated: a `[` that is never closed yields
  nothing (`GetRouteParamsUnclosed`). `[[]` is a group whose name becomes `""`
  once its brackets are removed, so `params` can hold an empty name
  (`GetRouteParamsNestedOpen`).
- `index` is removed as a bare suffix. `reindex.astro` therefore resolves to
  `/re` (`ResolvePathWordEndingInIndex`). The model keeps this behaviour as the
  code has it.

## Model

| member | source | states |
|---|---|---|
| `PathTransforms.NormalizeSeparators` | packages/astro-typesafe-routes/src/integrations/astro-v4/resolve-routes.ts:72 | (assumed behaviour) same length, every `\` becomes `/` at its position, every other character is kept at its position, and backslash-free paths are unchanged |
| `PathTransforms.NormalizeSeparatorsIdempotent` | packages/astro-typesafe-routes/src/integrations/astro-v4/resolve-routes.ts:72 | normalising twice is normalising once |
| `PathTransforms.TrimFileExtensions` | packages/astro-typesafe-routes/src/integrations/astro-v4/resolve-routes.ts:41-43 | result is a prefix of the input; the input is unchanged exactly when it has no `.` or ends in `.`; otherwise the cut is at the last `.`, with at least one character after it |
| `PathTransforms.TrimFileExtensionsOfStem` | packages/astro-typesafe-routes/src/integrations/astro-v4/resolve-routes.ts:41-43 | `stem + "." + ext` gives back `stem` for any non-empty dot-free `ext`, whatever dots the stem holds |
| `PathTransforms.TrimFileExtensionsExamples` | packages/astro-typesafe-routes/src/integrations/astro-v4/resolve-routes.ts:41-43 | `a.b.astro` gives `a.b`, `blog/index.md` gives `blog/index`, `notes.` is unchanged |
| `PathTransforms.TrimIndex` | packages/astro-typesafe-routes/src/integrations/astro-v4/resolve-routes.ts:45-47 | result is a prefix; a string ending in `index` loses exactly those five letters; any other string is unchanged |
| `PathTransforms.TrimIndexOfAppended` | packages/astro-typesafe-routes/src/integrations/astro-v4/resolve-routes.ts:45-47 | removing `index` undoes appending it, for any stem |
| `PathTransforms.TrimIndexExamples` | packages/astro-typesafe-routes/src/integrations/astro-v4/resolve-routes.ts:45-47 | `blog/index` gives `blog/` and `index` gives the empty string |
| `PathTransforms.TrimIndexReindex` | packages/astro-typesafe-routes/src/integrations/astro-v4/resolve-routes.ts:45-47 | no segment-boundary check: `reindex` gives `re` |
| `PathTransforms.TrimTrailingSlash` | packages/astro-typesafe-routes/src/integrations/astro-v4/resolve-routes.ts:49-51 | result is a prefix at most one character shorter, and differs from the input exactly when the input ends in `/` |
| `PathTransforms.TrimTrailingSlashRemovesAtMostOne` | packages/astro-typesafe-routes/src/integrations/astro-v4/resolve-routes.ts:49-51 | a doubled trailing slash leaves one behind |
| `PathTransforms.AddLeadingSlash` | packages/astro-typesafe-routes/src/integrations/astro-v4/resolve-routes.ts:53-55 | result always starts with `/`; unchanged when the input already does, otherwise `/` prefixed |
| `PathTransforms.AddLeadingSlashIdempotent` | packages/astro-typesafe-routes/src/integrations/astro-v4/resolve-routes.ts:53-55 | adding the slash twice equals adding it once |
| `PathTransforms.StripBrackets` | packages/astro-typesafe-routes/src/integrations/astro-v4/resolve-routes.ts:59 | result holds no `[` or `]`; its length is the input's length less the number of brackets; a bracket-free input is unchanged |
| `PathTransforms.StripBracketsAppend` | packages/astro-typesafe-routes/src/integrations/astro-v4/resolve-routes.ts:59 | stripping distributes over concatenation, so the kept characters stay in input order |
| `PathTransforms.GetRouteParams` | packages/astro-typesafe-routes/src/integrations/astro-v4/resolve-routes.ts:57-61 | every returned name is free of brackets |
| `PathTransforms.NoParamsIffNoGroup` | packages/astro-typesafe-routes/src/integrations/astro-v4/resolve-routes.ts:58 | the scan returns no names exactly when the bracket pattern matches at no position |
| `PathTransforms.GetRouteParamsSkipsLiteral` | packages/astro-typesafe-routes/src/integrations/astro-v4/resolve-routes.ts:58 | text with no `[` in front of a path adds no names, even when it holds a `]` |
| `PathTransforms.GetRouteParamsAtGroup` | packages/astro-typesafe-routes/src/integrations/astro-v4/resolve-routes.ts:58-59 | at a match, the name is the text up to the first `]` with brackets removed, and the scan resumes after that `]` |
| `PathTransforms.GetRouteParamsTakesGroup` | packages/astro-typesafe-routes/src/integrations/astro-v4/resolve-routes.ts:57-61 | a group `[name]` contributes `name` and the scan continues after it |
| `PathTransforms.GetRouteParamsOfTrailingGroup` | packages/astro-typesafe-routes/src/integrations/astro-v4/resolve-routes.ts:57-61 | a bracket-free prefix followed by one group `[name]` yields exactly `[name]` |
| `PathTransforms.GetRouteParamsWithoutClose` | packages/astro-typesafe-routes/src/integrations/astro-v4/resolve-routes.ts:57-61 | any text without a `]` yields no names |
| `PathTransforms.GetRouteParamsUnclosed` | packages/astro-typesafe-routes/src/integrations/astro-v4/resolve-routes.ts:57-61 | bracket-free text followed by a `[` that is never closed yields no names, whatever follows the `[` |
| `PathTransforms.GetRouteParamsNestedOpen` | packages/astro-typesafe-routes/src/integrations/astro-v4/resolve-routes.ts:57-61 | `[[]` followed by any text yields one empty name, then whatever the text yields |
| `PathTransforms.StripBracketsKeepsOthers` | packages/astro-typesafe-routes/src/integrations/astro-v4/resolve-routes.ts:59 | every character other than a bracket occurs in the result as often as in the input |
| `PathTransforms.StripBracketsOfGroup` | packages/astro-typesafe-routes/src/integrations/astro-v4/resolve-routes.ts:59 | removing the brackets of `[name]` leaves `name` |
| `PathTransforms.GetRouteParamsOfRender` | packages/astro-typesafe-routes/src/integrations/astro-v4/resolve-routes.ts:57-61 | for any path built of bracket-free text and non-empty `[name]` groups, the scan returns exactly the names, left to right |
| `PathTransforms.GetRouteParamsEmptyBrackets` | packages/astro-typesafe-routes/src/integrations/astro-v4/resolve-routes.ts:58 | `[]` is not a group |
| `PathTransforms.GetRouteParamsOneGroup` | packages/astro-typesafe-routes/src/integrations/astro-v4/resolve-routes.ts:57-61 | `/blog/[slug]` gives `["slug"]` |
| `PathTransforms.GetRouteParamsTwoGroups` | packages/astro-typesafe-routes/src/integrations/astro-v4/resolve-routes.ts:57-61 | `/[a]/[b]` gives `["a", "b"]` in that order |
| `ResolveRoutes.RouteFilesOf` | packages/astro-typesafe-routes/src/integrations/astro-v4/resolve-routes.ts:19 | one `RouteFile` per listed path, same order, same path |
| `ResolveRoutes.GetRouteSearch` | packages/astro-typesafe-routes/src/integrations/astro-v4/resolve-routes.ts:22-39 | same length, order and `absolutePath`; every flag false for a static build; each flag equals the detector's answer for its path for a server build |
| `ResolveRoutes.StaticSearchIgnoresDetector` | packages/astro-typesafe-routes/src/integrations/astro-v4/resolve-routes.ts:26-34 | for a static build the result does not depend on the detector or on `rootDir`, so the detector is never consulted |
| `ResolveRoutes.ServerSearchDependsOnListedPaths` | packages/astro-typesafe-routes/src/integrations/astro-v4/resolve-routes.ts:27-35 | for a server build only the detector's answers on the listed paths matter |
| `ResolveRoutes.RoutePathOf` | packages/astro-typesafe-routes/src/integrations/astro-v4/resolve-routes.ts:72-76 | every resolved path starts with `/` |
| `ResolveRoutes.ResolvePath` | packages/astro-typesafe-routes/src/integrations/astro-v4/resolve-routes.ts:72-83 | the path starts with `/`; `params` is `None` exactly when the bracket pattern matches nowhere in the path; otherwise it is the scan's non-empty list, never an empty one |
| `ResolveRoutes.RoutePathOfIndexPage` | packages/astro-typesafe-routes/src/integrations/astro-v4/resolve-routes.ts:72-76 | `<prefix>index.<ext>` resolves to the normalised prefix with one trailing `/` removed and a leading `/` ensured |
| `ResolveRoutes.RoutePathOfPage` | packages/astro-typesafe-routes/src/integrations/astro-v4/resolve-routes.ts:72-76 | `<stem>.<ext>`, with a stem not ending in `index`, resolves to the normalised stem with one trailing `/` removed and a leading `/` ensured |
| `ResolveRoutes.BracketFreePathHasNoParams` | packages/astro-typesafe-routes/src/integrations/astro-v4/resolve-routes.ts:77-83 | a route path without brackets gets `params` `None` |
| `ResolveRoutes.ResolvePathRootIndex` | packages/astro-typesafe-routes/src/integrations/astro-v4/resolve-routes.ts:72-83 | `index.<ext>` resolves to `/` with no parameters |
| `ResolveRoutes.ResolvePathNestedIndex` | packages/astro-typesafe-routes/src/integrations/astro-v4/resolve-routes.ts:72-83 | `dir/index.<ext>` resolves to `/dir`, via the index strip then the separate slash strip, with no parameters when `dir` has no brackets |
| `ResolveRoutes.ResolvePathBackslashIndex` | packages/astro-typesafe-routes/src/integrations/astro-v4/resolve-routes.ts:72-76 | `dir\index.<ext>` resolves to `/dir`, the same path as `dir/index.<ext>` |
| `ResolveRoutes.ResolvePathWordEndingInIndex` | packages/astro-typesafe-routes/src/integrations/astro-v4/resolve-routes.ts:72-76 | a single-segment name ending in `index`, such as `reindex.astro`, loses those letters: `/re` |
| `ResolveRoutes.ResolvePathPlainPage` | packages/astro-typesafe-routes/src/integrations/astro-v4/resolve-routes.ts:72-83 | `stem.<ext>`, such as `about.html`, resolves to `/stem` with no parameters |
| `ResolveRoutes.RoutePathOfDynamicPage` | packages/astro-typesafe-routes/src/integrations/astro-v4/resolve-routes.ts:72-76 | `<prefix>[name].<ext>` keeps its brackets: `/<prefix>[name]` |
| `ResolveRoutes.ResolvePathDynamicPage` | packages/astro-typesafe-routes/src/integrations/astro-v4/resolve-routes.ts:72-83 | `<prefix>[name].<ext>`, such as `blog/[slug].md`, resolves to `/<prefix>[name]` with `params` `Some([name])` |
| `ResolveRoutes.GetResolvedRoutes` | packages/astro-typesafe-routes/src/integrations/astro-v4/resolve-routes.ts:68-85 | same length and order; `absolutePath` and `hasSearchSchema` copied unchanged; `path`/`params` are the chain applied to the path relative to the pages directory; every path starts with `/` and no `params` is an empty list |
| `ResolveRoutes.ResolvedPathDependsOnlyOnAbsolutePath` | packages/astro-typesafe-routes/src/integrations/astro-v4/resolve-routes.ts:68-85 | two pages with the same absolute path get the same `path` and `params`, whatever their flags or positions |
| `ResolveRoutes.ResolveRoutesAstroV4` | packages/astro-typesafe-routes/src/integrations/astro-v4/resolve-routes.ts:88-98 | one route per listed file, in order; its flag is the detector's answer for a server build and false for a static one; its path and params come from the chain |

## Left out

- `listAstroRouteFiles` glob (resolve-routes.ts lines 12-18): filesystem I/O through `fast-glob`. The model takes the glob's list of absolute paths as input and models only the wrapping into records (line 19). The extension allow-list of the glob pattern is therefore not modelled.
- `doesRouteHaveSearchSchema`: a foreign call whose module is not part of this model. It is the `detector` parameter, a total function from path to flag.
- Concurrency in `getRouteSearch`: `Promise.all`, the concurrent probes and fail-fast rejection are not modelled. The model gives the per-element result in input order, and a detector that never fails.
- `path.join` / `path.relative`: Node's platform path semantics. They are the `relativeToPages` parameter; the model starts from the relative path it returns.
- `NormalizeSeparators`: `normalizeSeparators` is defined in a module that is not part of this model; its backslash-to-slash behaviour is an assumption.
- String encoding: strings are sequences of characters. JavaScript strings are sequences of UTF-16 code units, and `[^.]` and `[^\]]` match any code unit. Every delimiter the patterns look for (`.`, `[`, `]`, `/`, `\`, `index`) is ASCII, so a match boundary never splits a surrogate pair and the result is the same on characters as on code units. A path holding a lone surrogate, which a JavaScript string and a Windows file name can contain but a Dafny `char` cannot, is outside the model.
- `apps/docs/src/pages/index.tsx` (documentation UI) and `e2e-projects/v5-invalid-search-params/astro.config.ts` (static configuration): no logic to model.
