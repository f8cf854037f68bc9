/**
 * The two route conventions built on the core: flat routes (`flatRoutesImpl`) and route
 * extensions (`routeExtensionsImpl`). Each derives the ids of its files with its own options and
 * builds the manifest from them; only the options differ.
 */
module RouteConfigs {
  import opened Wrappers
  import opened RouteErrors
  import opened Segments
  import opened RouteIds
  import opened RouteIdFacts
  import opened Manifests
  import opened ManifestFacts

  /** Flat routes: a file named `index`, `route`, `_index` or `_route` stands for its folder. */
  const FlatRoutesOptions := RouteIdOptions(None, None, Some(["index", "route", "_index", "_route"]))

  /** Route extensions: the route files end in `.route` before their extension. */
  const RouteExtensionsOptions := RouteIdOptions(None, Some(".route"), None)

  /**
   * What a convention gives for a list of files: the id-collision reports `getRouteIds` prints,
   * and the manifest with its path-collision reports, or the error `getRouteManifest` throws.
   */
  datatype Outcome = Outcome(idReports: seq<string>, manifest: Result<(Manifest, seq<string>), RouteError>)

  /** `getRouteManifest(getRouteIds(files, options))`. */
  function Configure(files: seq<string>, options: RouteIdOptions): Outcome {
    var ids := RouteIds.RouteIds(files, options);
    Outcome(ids.1, RouteManifest(ids.0))
  }

  /** The ids and the manifest are built one after the other, as both conventions do. */
  method BuildRoutes(files: seq<string>, options: RouteIdOptions) returns (out: Outcome)
    ensures out == Configure(files, options)
  {
    var sorted, reports := GetRouteIds(files, options);
    var manifest := GetRouteManifest(sorted);
    out := Outcome(reports, manifest);
  }

  /** `flatRoutesImpl(files)`. */
  method FlatRoutesImpl(files: seq<string>) returns (out: Outcome)
    ensures out == Configure(files, FlatRoutesOptions)
  {
    out := BuildRoutes(files, FlatRoutesOptions);
  }

  /** `routeExtensionsImpl(files)`. */
  method RouteExtensionsImpl(files: seq<string>) returns (out: Outcome)
    ensures out == Configure(files, RouteExtensionsOptions)
  {
    out := BuildRoutes(files, RouteExtensionsOptions);
  }

  /** The manifest is built exactly when every derived id is non-empty and its segments are accepted. */
  lemma ConfigureSucceeds(files: seq<string>, options: RouteIdOptions)
    ensures var sorted := RouteIds.RouteIds(files, options).0;
      Configure(files, options).manifest.Success? <==>
        forall k :: 0 <= k < |sorted| ==> RouteSegments(sorted[k].0).Success? && sorted[k].0 != ""
  {
    RouteManifestSucceeds(RouteIds.RouteIds(files, options).0);
  }

  /**
   * Under either convention, each route of the built manifest has as parent the longest id that
   * is an ancestor of its own, or `root` when there is none.
   */
  lemma ConfiguredParents(files: seq<string>, options: RouteIdOptions)
    requires Configure(files, options).manifest.Success?
    ensures ParentsAreLongestAncestors(RouteIds.RouteIds(files, options).0, Configure(files, options).manifest.value.0)
  {
    IdsUnique(Labels(files, options));
    ParentIsLongestAncestor(RouteIds.RouteIds(files, options).0);
  }

  /** A path-collision report is printed exactly when some route takes a path already taken. */
  lemma ConfiguredPathReports(files: seq<string>, options: RouteIdOptions)
    requires Configure(files, options).manifest.Success?
    ensures var sorted := RouteIds.RouteIds(files, options).0;
      Configure(files, options).manifest.value.1 == [] <==>
        forall k :: 0 <= k < |sorted| ==> !Collides(sorted, SegmentsOf(sorted), k)
  {
    IdsUnique(Labels(files, options));
    PathReportsIffCollision(RouteIds.RouteIds(files, options).0);
  }
}
