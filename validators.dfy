/** The two repository checks of lib/validators.ts: that a URL names a GitHub repository,
    and that a package manifest describes a plain React application.

    `new URL(...)` is not modelled: the URL check receives what it produced, the hostname
    and the pathname, or None when the constructor threw. A manifest's dependency maps
    hold version strings; JavaScript truthiness of such a value is "non-empty". */
module Validators {
  import opened Wrappers
  import opened Strings
  import opened Errors

  // ---------------------------------------------------------------------------
  // validateRepoUrl

  datatype ParsedUrl = ParsedUrl(hostname: string, pathname: string)

  datatype RepoRef = RepoRef(owner: string, repo: string)

  const InvalidRepositoryUrl: AppError :=
    AppError("Invalid GitHub repository URL", "Please enter a URL like https://github.com/user/repo.", None)

  const InvalidUrlFormat: AppError :=
    AppError("Invalid URL format", "Make sure to enter a valid URL starting with https://", None)

  /** `.filter(Boolean)` on strings: the non-empty ones, in order. */
  function NonEmpty(parts: seq<string>): (r: seq<string>)
    ensures forall i :: 0 <= i < |r| ==> r[i] != ""
    ensures forall x :: x in r <==> x in parts && x != ""
  {
    if |parts| == 0 then []
    else (if parts[0] != "" then [parts[0]] else []) + NonEmpty(parts[1..])
  }

  lemma {:induction false} NonEmptyAppend(a: seq<string>, b: seq<string>)
    ensures NonEmpty(a + b) == NonEmpty(a) + NonEmpty(b)
  {
    if |a| > 0 {
      assert (a + b)[0] == a[0];
      assert (a + b)[1..] == a[1..] + b;
      NonEmptyAppend(a[1..], b);
      var head := if a[0] != "" then [a[0]] else [];
      assert NonEmpty(a + b) == head + NonEmpty(a[1..] + b);
      assert NonEmpty(a) == head + NonEmpty(a[1..]);
    } else {
      assert a + b == b;
    }
  }

  /** `url.pathname.split("/").filter(Boolean)`. */
  function PathSegments(pathname: string): seq<string>
  {
    NonEmpty(Split(pathname, '/'))
  }

  /** The body of the `try`: a wrong host or a path that is not exactly owner/repo
      throws the "Invalid GitHub repository URL" error. */
  function CheckRepoUrl(url: ParsedUrl): Result<RepoRef, AppError>
  {
    var parts := PathSegments(url.pathname);
    if url.hostname != "github.com" || |parts| != 2 then Err(InvalidRepositoryUrl)
    else Ok(RepoRef(parts[0], parts[1]))
  }

  /** `validateRepoUrl`: the `catch` replaces every error, whether the URL constructor
      threw (None) or the check did, by "Invalid URL format". */
  function ValidateRepoUrl(url: Option<ParsedUrl>): (r: Result<RepoRef, AppError>)
    ensures r.Ok? <==>
      url.Some? && url.value.hostname == "github.com" && |PathSegments(url.value.pathname)| == 2
    ensures r.Ok? ==>
      var parts := PathSegments(url.value.pathname);
      r.value.owner == parts[0] && r.value.repo == parts[1] && r.value.owner != "" && r.value.repo != ""
    ensures r.Err? ==> r.error == InvalidUrlFormat && r.error != InvalidRepositoryUrl
  {
    match url
    case None => Err(InvalidUrlFormat)
    case Some(u) =>
      match CheckRepoUrl(u)
      case Ok(repo) => Ok(repo)
      case Err(_) => Err(InvalidUrlFormat)
  }

  /** A trailing slash does not change the path segments. */
  lemma TrailingSlashIgnored(pathname: string)
    ensures PathSegments(pathname + "/") == PathSegments(pathname)
  {
    assert pathname + "/" == pathname + ['/'] + "";
    SplitAtSep(pathname, '/', "");
    NonEmptyAppend(Split(pathname, '/'), [""]);
  }

  /** A doubled slash counts as one. */
  lemma DoubledSlashIgnored(a: string, b: string)
    ensures PathSegments(a + "//" + b) == PathSegments(a + "/" + b)
  {
    assert a + "//" + b == a + ['/'] + ("" + ['/'] + b);
    SplitAtSep(a, '/', "" + ['/'] + b);
    SplitAtSep("", '/', b);
    assert "" + ['/'] + b == ['/'] + b;
    assert a + "/" + b == a + ['/'] + b;
    SplitAtSep(a, '/', b);
    NonEmptyAppend(Split(a, '/'), [""] + Split(b, '/'));
    NonEmptyAppend([""], Split(b, '/'));
    NonEmptyAppend(Split(a, '/'), Split(b, '/'));
  }

  /** Round trip: the URL of a repository page gives back its owner and name, with or
      without a trailing slash. */
  lemma RepositoryUrlRoundTrip(owner: string, repo: string, trailing: bool)
    requires owner != "" && repo != "" && '/' !in owner && '/' !in repo
    ensures
      var pathname := "/" + owner + "/" + repo + (if trailing then "/" else "");
      ValidateRepoUrl(Some(ParsedUrl("github.com", pathname))) == Ok(RepoRef(owner, repo))
  {
    var core := "/" + owner + "/" + repo;
    assert core == "" + "/" + owner + "/" + repo;
    SplitThree("", '/', owner, repo);
    assert NonEmpty(["", owner, repo]) == [owner, repo] by {
      assert ["", owner, repo][1..] == [owner, repo];
      assert [owner, repo][1..] == [repo];
      assert [repo][1..] == [];
      assert NonEmpty([repo]) == [repo] + NonEmpty([]);
      assert NonEmpty([owner, repo]) == [owner] + NonEmpty([repo]);
      assert NonEmpty(["", owner, repo]) == [] + NonEmpty([owner, repo]);
    }
    if trailing {
      TrailingSlashIgnored(core);
    } else {
      assert core + "" == core;
    }
  }

  /** Any other host is rejected, whatever the path. */
  lemma OtherHostRejected(host: string, pathname: string)
    requires host != "github.com"
    ensures ValidateRepoUrl(Some(ParsedUrl(host, pathname))) == Err(InvalidUrlFormat)
  {
  }

  // ---------------------------------------------------------------------------
  // validateIsVanillaReact

  /** A manifest's two optional dependency maps (a missing one spreads to nothing). */
  datatype Package = Package(dependencies: Option<map<string, string>>, devDependencies: Option<map<string, string>>)

  function Spread(m: Option<map<string, string>>): map<string, string>
  {
    match m
    case None => map[]
    case Some(deps) => deps
  }

  /** `{ ...pkg.dependencies, ...pkg.devDependencies }`: a name in both takes its
      development version. */
  function MergedDependencies(pkg: Package): (deps: map<string, string>)
    ensures forall k :: k in deps <==> k in Spread(pkg.dependencies) || k in Spread(pkg.devDependencies)
    ensures forall k :: k in Spread(pkg.devDependencies) ==> deps[k] == Spread(pkg.devDependencies)[k]
    ensures forall k :: k in Spread(pkg.dependencies) && k !in Spread(pkg.devDependencies) ==>
      deps[k] == Spread(pkg.dependencies)[k]
  {
    Spread(pkg.dependencies) + Spread(pkg.devDependencies)
  }

  /** `deps[name]` is truthy. */
  predicate Present(deps: map<string, string>, name: string)
  {
    name in deps && deps[name] != ""
  }

  /** The meta-frameworks that disqualify a project, in reporting order (lib/constants.ts). */
  const ForbiddenFrameworks: seq<string> :=
    ["next", "gatsby", "remix", "redwoodjs", "@remix-run/react", "@shopify/hydrogen", "blitz"]

  /** `names.filter((fw) => deps[fw])`. */
  function PresentNames(names: seq<string>, deps: map<string, string>): (found: seq<string>)
    ensures forall x :: x in found <==> x in names && Present(deps, x)
    ensures |found| <= |names|
  {
    if |names| == 0 then []
    else (if Present(deps, names[0]) then [names[0]] else []) + PresentNames(names[1..], deps)
  }

  /** The filter keeps list order. */
  lemma {:induction false} PresentNamesAppend(a: seq<string>, b: seq<string>, deps: map<string, string>)
    ensures PresentNames(a + b, deps) == PresentNames(a, deps) + PresentNames(b, deps)
  {
    if |a| > 0 {
      assert (a + b)[0] == a[0];
      assert (a + b)[1..] == a[1..] + b;
      PresentNamesAppend(a[1..], b, deps);
      var head := if Present(deps, a[0]) then [a[0]] else [];
      assert PresentNames(a + b, deps) == head + PresentNames(a[1..] + b, deps);
      assert PresentNames(a, deps) == head + PresentNames(a[1..], deps);
    } else {
      assert a + b == b;
    }
  }

  function DetectedFrameworks(deps: map<string, string>): seq<string>
  {
    PresentNames(ForbiddenFrameworks, deps)
  }

  const ReactNotFound: AppError :=
    AppError("React not found", "This project doesn't seem to use React.",
      Some(["Make sure it is a vanilla react application.",
            "Make sure the repository itself doesn't have any sub-folders for frontend/backend division.",
            "<a href='#'>Check here</a>"]))

  const DetectedPrefix: string := "Following unsupported frameworks/libraries detected: "

  function UnsupportedFramework(found: seq<string>): AppError
  {
    AppError("Unsupported framework detected", "This project uses frameworks that aren't supported.",
      Some(["As of now we only support vanilla react applications.",
            "Next.js, Gatsby, Remix and such react based frameworks are not supported.",
            DetectedPrefix + Join(found, ", ")]))
  }

  predicate HasReact(deps: map<string, string>)
  {
    Present(deps, "react") && Present(deps, "react-dom")
  }

  /** The checks of `validateIsVanillaReact` on the merged dependencies, against a list
      of forbidden names: React first, then the forbidden names found, in list order. */
  function CheckDependencies(deps: map<string, string>, forbidden: seq<string>): (r: Outcome<AppError>)
    ensures !HasReact(deps) ==> r == Fail(ReactNotFound)
    ensures HasReact(deps) && (exists fw :: fw in forbidden && Present(deps, fw)) ==>
      r == Fail(UnsupportedFramework(PresentNames(forbidden, deps)))
    ensures r.Pass? <==> HasReact(deps) && forall fw :: fw in forbidden ==> !Present(deps, fw)
  {
    if !Present(deps, "react") || !Present(deps, "react-dom") then Fail(ReactNotFound)
    else
      var found := PresentNames(forbidden, deps);
      if |found| > 0 then
        assert found[0] in found;
        Fail(UnsupportedFramework(found))
      else
        assert forall fw :: fw in forbidden ==> fw !in found;
        Pass
  }

  /** `validateIsVanillaReact`. */
  function ValidateIsVanillaReact(pkg: Package): (r: Outcome<AppError>)
    ensures var deps := MergedDependencies(pkg);
      !HasReact(deps) ==> r == Fail(ReactNotFound)
    ensures var deps := MergedDependencies(pkg);
      HasReact(deps) && (exists fw :: fw in ForbiddenFrameworks && Present(deps, fw)) ==>
        r == Fail(UnsupportedFramework(DetectedFrameworks(deps)))
    ensures var deps := MergedDependencies(pkg);
      r.Pass? <==> HasReact(deps) && forall fw :: fw in ForbiddenFrameworks ==> !Present(deps, fw)
  {
    CheckDependencies(MergedDependencies(pkg), ForbiddenFrameworks)
  }

  /** The two failures are told apart by their titles; each carries three hints, and the
      last hint of the framework error names the frameworks found, joined by ", ". */
  lemma VanillaReactErrors(found: seq<string>)
    ensures ReactNotFound.title != UnsupportedFramework(found).title
    ensures ReactNotFound.items.Some? && |ReactNotFound.items.value| == 3
    ensures var e := UnsupportedFramework(found);
      e.items.Some? && |e.items.value| == 3 && e.items.value[2] == DetectedPrefix + Join(found, ", ")
  {
    assert ReactNotFound.title[0] != UnsupportedFramework(found).title[0];
  }

  /** The React check comes first: a Next.js manifest without react-dom is reported as
      missing React, not as an unsupported framework. */
  lemma ReactCheckFirst(version: string)
    requires version != ""
    ensures var pkg := Package(Some(map["next" := version, "react" := version]), None);
      ValidateIsVanillaReact(pkg) == Fail(ReactNotFound)
  {
    var pkg := Package(Some(map["next" := version, "react" := version]), None);
    assert !Present(MergedDependencies(pkg), "react-dom");
  }

  /** The filter reports names in the order of the list, not the order of the manifest:
      two present names keep their relative positions around whatever lies between. */
  lemma PresentNamesInOrder(x: seq<string>, a: string, y: seq<string>, b: string, z: seq<string>,
                            deps: map<string, string>)
    requires Present(deps, a) && Present(deps, b)
    ensures PresentNames(x + [a] + y + [b] + z, deps) ==
      PresentNames(x, deps) + [a] + PresentNames(y, deps) + [b] + PresentNames(z, deps)
  {
    var xa := x + [a];
    var xay := xa + y;
    var xayb := xay + [b];
    assert PresentNames([a], deps) == [a] by {
      assert PresentNames([a], deps) == [a] + PresentNames([], deps);
    }
    assert PresentNames([b], deps) == [b] by {
      assert PresentNames([b], deps) == [b] + PresentNames([], deps);
    }
    PresentNamesAppend(x, [a], deps);
    PresentNamesAppend(xa, y, deps);
    PresentNamesAppend(xay, [b], deps);
    PresentNamesAppend(xayb, z, deps);
  }

  /** No present name, nothing reported. */
  lemma {:induction false} PresentNamesNone(names: seq<string>, deps: map<string, string>)
    requires forall fw :: fw in names ==> !Present(deps, fw)
    ensures PresentNames(names, deps) == []
  {
    if |names| > 0 {
      assert names[0] in names;
      assert forall fw :: fw in names[1..] ==> fw in names;
      PresentNamesNone(names[1..], deps);
    }
  }

  /** With next and blitz the only frameworks present, the report lists next first. */
  lemma DetectedInListOrder(deps: map<string, string>)
    requires Present(deps, ForbiddenFrameworks[0]) && Present(deps, ForbiddenFrameworks[6])
    requires forall fw :: fw in ForbiddenFrameworks[1..6] ==> !Present(deps, fw)
    ensures DetectedFrameworks(deps) == [ForbiddenFrameworks[0], ForbiddenFrameworks[6]]
  {
    var names := ForbiddenFrameworks;
    var middle := names[1..6];
    assert names == [] + [names[0]] + middle + [names[6]] + [];
    PresentNamesInOrder([], names[0], middle, names[6], [], deps);
    PresentNamesNone(middle, deps);
  }

  /** A manifest with both React packages and no forbidden framework passes. */
  lemma PlainReactPasses(deps: map<string, string>, devDeps: map<string, string>)
    requires HasReact(deps + devDeps)
    requires forall fw :: fw in ForbiddenFrameworks ==> fw !in deps && fw !in devDeps
    ensures ValidateIsVanillaReact(Package(Some(deps), Some(devDeps))) == Pass
  {
  }
}
