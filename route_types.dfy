/** The records exchanged by the route-resolution pipeline of the Astro v4
    integration. Each record is an immutable value built fresh by the step
    that produces it. */
module RouteTypes {

  /** Stands for the `T | null` unions of the records below. */
  datatype Option<+T> = None | Some(value: T)

  /** A page file found under `<rootDir>/src/pages`. */
  datatype RouteFile = RouteFile(absolutePath: string)

  /** A page file together with whether it declares a search-parameter schema. */
  datatype RouteFileWithSearch = RouteFileWithSearch(absolutePath: string, hasSearchSchema: bool)

  /** A fully resolved route: its canonical URL path and its dynamic
      parameter names, `None` when the path has no bracket group. */
  datatype ResolvedRoute = ResolvedRoute(
    absolutePath: string,
    hasSearchSchema: bool,
    path: string,
    params: Option<seq<string>>)

  /** The project's output mode, `"static"` or `"server"`. */
  datatype BuildOutput = Static | Server

  /** The slice of the host framework's configuration the integration reads. */
  datatype RequiredAstroConfig = RequiredAstroConfig(rootDir: string, buildOutput: BuildOutput)
}
