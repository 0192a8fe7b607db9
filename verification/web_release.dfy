/**
 * The pure helpers of the web-release updater: which zip members are
 * extracted, which release asset is chosen, whether the installed release
 * is already the latest, how the saved state is read back, and the request
 * headers.  JSON values are a datatype, the asset-name pattern is a
 * predicate parameter, and the network, the clock, hashing and the file
 * system are left out.
 */
module WebRelease {
  import opened Wrappers

  // ---------------------------------------------------------------------
  // Strings
  // ---------------------------------------------------------------------

  predicate StartsWith(s: string, prefix: string)
  {
    |prefix| <= |s| && s[..|prefix|] == prefix
  }

  predicate EndsWith(s: string, suffix: string)
  {
    |suffix| <= |s| && s[|s| - |suffix|..] == suffix
  }

  /** `needle` occurs in `s` at offset `i`. */
  predicate OccursAt(s: string, needle: string, i: int)
  {
    0 <= i && i + |needle| <= |s| && s[i..i + |needle|] == needle
  }

  /** `needle in s`. */
  predicate Contains(s: string, needle: string)
  {
    exists i :: 0 <= i <= |s| && OccursAt(s, needle, i)
  }

  /** `name.replace("\\", "/")`. */
  function Normalize(name: string): (n: string)
    ensures |n| == |name|
    ensures forall i :: 0 <= i < |n| ==> n[i] == (if name[i] == '\\' then '/' else name[i])
  {
    if |name| == 0 then []
    else [if name[0] == '\\' then '/' else name[0]] + Normalize(name[1..])
  }

  // ---------------------------------------------------------------------
  // safe_zip_members
  // ---------------------------------------------------------------------

  /** Empty names and directory entries are passed over. */
  predicate Skipped(name: string)
  {
    name == "" || EndsWith(name, "/")
  }

  /** The rejected forms of a normalised member name. */
  predicate Unsafe(n: string)
  {
    StartsWith(n, "/") || StartsWith(n, "../") || Contains(n, "/../")
  }

  /** A `..` component followed by a separator starts at offset `i`. */
  predicate ParentStepAt(n: string, i: int)
  {
    0 <= i && i + 3 <= |n| && n[i..i + 3] == "../" && (i == 0 || n[i - 1] == '/')
  }

  /**
   * The check rejects exactly the absolute names and the names with a
   * `..` component that is followed by a separator.  A final `..`
   * component (`".."`, `"a/.."`) is not rejected.
   */
  lemma UnsafeIffParentStep(n: string)
    ensures Unsafe(n) <==> StartsWith(n, "/") || exists i :: ParentStepAt(n, i)
  {
    var step: string := "/../";
    assert |step| == 4;
    if StartsWith(n, "../") {
      assert n[0..3] == n[..3];
      assert ParentStepAt(n, 0);
    }
    if Contains(n, step) {
      var i :| 0 <= i <= |n| && OccursAt(n, step, i);
      assert n[i..i + 4] == step;
      assert n[i + 1..i + 4] == n[i..i + 4][1..];
      assert ParentStepAt(n, i + 1);
    }
    if exists i :: ParentStepAt(n, i) {
      var i :| ParentStepAt(n, i);
      if i > 0 {
        assert n[i - 1..i + 3] == [n[i - 1]] + n[i..i + 3];
        assert OccursAt(n, step, i - 1);
      } else {
        assert n[..3] == n[0..3];
      }
    }
  }

  /** A final `..` component passes the check. */
  lemma FinalParentAccepted()
    ensures !Unsafe("..") && !Unsafe("a/..")
  {
    var s: string := "a/..";
    var step: string := "/../";
    assert |step| == 4 && |s| == 4;
    assert s[0..4][0] == 'a';
    assert !OccursAt(s, step, 0);
    assert s[..1] == "a";
    var d: string := "..";
    assert d[..1][0] == '.';
  }

  /** The members kept when no member is rejected: the non-skipped ones, in order. */
  function Kept(names: seq<string>): (r: seq<string>)
    ensures forall n :: n in r <==> n in names && !Skipped(n)
  {
    if |names| == 0 then []
    else if Skipped(names[0]) then Kept(names[1..])
    else [names[0]] + Kept(names[1..])
  }

  /** What iterating the generator gives: the members yielded, then the name it raised on, if any. */
  datatype Scan = Scan(yielded: seq<string>, unsafe: Option<string>)

  /**
   * `safe_zip_members`: the generator is lazy, so the members before the
   * first rejected name are yielded (and extracted) before the error.
   */
  function SafeZipMembers(names: seq<string>): (r: Scan)
    ensures forall n :: n in r.yielded ==> n in names && !Skipped(n) && !Unsafe(Normalize(n))
    ensures r.unsafe.Some? ==> r.unsafe.value in names && !Skipped(r.unsafe.value) && Unsafe(Normalize(r.unsafe.value))
    ensures r.unsafe.None? <==> forall n :: n in names && !Skipped(n) ==> !Unsafe(Normalize(n))
    ensures r.unsafe.None? ==> r.yielded == Kept(names)
  {
    if |names| == 0 then Scan([], None)
    else if Skipped(names[0]) then
      var r := SafeZipMembers(names[1..]);
      assert forall n :: n in names[1..] ==> n in names;
      assert forall n :: n in names && n != names[0] ==> n in names[1..];
      r
    else if Unsafe(Normalize(names[0])) then Scan([], Some(names[0]))
    else
      var rest := SafeZipMembers(names[1..]);
      assert forall n :: n in names[1..] ==> n in names;
      assert forall n :: n in names && n != names[0] ==> n in names[1..];
      Scan([names[0]] + rest.yielded, rest.unsafe)
  }

  /** The yielded members are a prefix of the kept ones: nothing is reordered or invented. */
  lemma {:induction false} YieldedPrefix(names: seq<string>)
    ensures var y := SafeZipMembers(names).yielded; |y| <= |Kept(names)| && y == Kept(names)[..|y|]
  {
    if |names| > 0 {
      YieldedPrefix(names[1..]);
    }
  }

  // ---------------------------------------------------------------------
  // JSON
  // ---------------------------------------------------------------------

  /** A decoded JSON value. */
  datatype Json =
    | JNull
    | JBool(b: bool)
    | JInt(i: int)
    | JFloat(r: real)
    | JStr(s: string)
    | JList(items: seq<Json>)
    | JObject(fields: map<string, Json>)

  /** Python truthiness. */
  predicate Truthy(j: Json)
  {
    match j
    case JNull => false
    case JBool(b) => b
    case JInt(i) => i != 0
    case JFloat(r) => r != 0.0
    case JStr(s) => s != ""
    case JList(items) => |items| > 0
    case JObject(fields) => |fields| > 0
  }

  /** `d.get(key)`: a missing key reads as `None`. */
  function Get(fields: map<string, Json>, key: string): (v: Json)
    ensures key !in fields ==> v == JNull
    ensures key in fields ==> v == fields[key]
  {
    if key in fields then fields[key] else JNull
  }

  /**
   * `v if isinstance(v, int) else None`: a boolean is an integer to
   * `isinstance`, and the value is kept as it is, so `true` stays `true`.
   */
  function AsInt(v: Json): (r: Option<Json>)
    ensures r.Some? <==> v.JInt? || v.JBool?
    ensures r.Some? ==> r.value == v
  {
    match v
    case JInt(_) => Some(v)
    case JBool(_) => Some(v)
    case _ => None
  }

  // ---------------------------------------------------------------------
  // find_web_asset
  // ---------------------------------------------------------------------

  datatype ReleaseAsset = ReleaseAsset(name: string, url: string, updatedAt: Option<string>, size: Option<Json>)

  /** The asset-name pattern (`asset_regex.search`), left abstract. */
  type Matcher = string -> bool

  /** An asset whose name and url are strings and whose name matches. */
  predicate Candidate(a: Json, matches: Matcher)
  {
    a.JObject? && Get(a.fields, "name").JStr? && Get(a.fields, "browser_download_url").JStr?
    && matches(Get(a.fields, "name").s)
  }

  /** The release asset a candidate describes; a wrongly typed `updated_at` or `size` becomes `None`. */
  function AssetOf(a: Json, matches: Matcher): (r: ReleaseAsset)
    requires Candidate(a, matches)
    ensures r.name == Get(a.fields, "name").s && r.url == Get(a.fields, "browser_download_url").s
    ensures r.updatedAt.Some? <==> Get(a.fields, "updated_at").JStr?
    ensures r.size.Some? <==> AsInt(Get(a.fields, "size")).Some?
    ensures r.size.Some? ==> r.size.value == Get(a.fields, "size")
  {
    var updated := Get(a.fields, "updated_at");
    ReleaseAsset(Get(a.fields, "name").s, Get(a.fields, "browser_download_url").s,
                 if updated.JStr? then Some(updated.s) else None,
                 AsInt(Get(a.fields, "size")))
  }

  /**
   * The loop over the asset list: the first candidate wins; an entry that
   * is not an object makes `.get` raise.
   */
  function FirstAsset(items: seq<Json>, matches: Matcher): (r: Result<Option<ReleaseAsset>>)
    ensures r.Ok? && r.value.Some? ==> matches(r.value.value.name)
  {
    if |items| == 0 then Ok(None)
    else if !items[0].JObject? then Err("asset is not an object")
    else if Candidate(items[0], matches) then Ok(Some(AssetOf(items[0], matches)))
    else FirstAsset(items[1..], matches)
  }

  /** The entries before `i` are objects that are not candidates. */
  predicate PassedOver(items: seq<Json>, i: int, matches: Matcher)
    requires 0 <= i <= |items|
  {
    forall j :: 0 <= j < i ==> items[j].JObject? && !Candidate(items[j], matches)
  }

  /** The chosen asset is the first candidate, reached past objects only. */
  lemma {:induction false} FirstCandidateChosen(items: seq<Json>, matches: Matcher, i: nat)
    requires i < |items| && Candidate(items[i], matches) && PassedOver(items, i, matches)
    ensures FirstAsset(items, matches) == Ok(Some(AssetOf(items[i], matches)))
  {
    if i > 0 {
      FirstCandidateChosen(items[1..], matches, i - 1);
    }
  }

  /** No asset is found exactly when every entry is an object and none is a candidate. */
  lemma {:induction false} NoCandidateNone(items: seq<Json>, matches: Matcher)
    ensures FirstAsset(items, matches) == Ok(None) <==> PassedOver(items, |items|, matches)
  {
    if |items| > 0 {
      NoCandidateNone(items[1..], matches);
      assert PassedOver(items, |items|, matches) <==>
        items[0].JObject? && !Candidate(items[0], matches) && PassedOver(items[1..], |items| - 1, matches);
    }
  }

  /**
   * `find_web_asset`: a missing or falsy asset list is empty; a release
   * that is not an object, or a truthy list that is not a list, makes the
   * lookup raise.
   */
  function FindWebAsset(release: Json, matches: Matcher): (r: Result<Option<ReleaseAsset>>)
    ensures release.JObject? && !Truthy(Get(release.fields, "assets")) ==> r == Ok(None)
    ensures release.JObject? && Get(release.fields, "assets").JList? ==> r == FirstAsset(Get(release.fields, "assets").items, matches)
    ensures !release.JObject? ==> r.Err?
  {
    if !release.JObject? then Err("release is not an object")
    else
      var assets := Get(release.fields, "assets");
      if !Truthy(assets) then Ok(None)
      else if assets.JList? then FirstAsset(assets.items, matches)
      else Err("asset list is not a list")
  }

  // ---------------------------------------------------------------------
  // State and the update decision
  // ---------------------------------------------------------------------

  /** The state file: missing, or text that parses to a value (`None`: malformed JSON). */
  datatype StateFile = Missing | Text(parsed: Option<Json>)

  /** `load_state`: a missing file or malformed JSON gives the empty object. */
  function LoadState(f: StateFile): (state: Json)
    ensures f.Missing? || f == Text(None) ==> state == JObject(map[])
    ensures f.Text? && f.parsed.Some? ==> state == f.parsed.value
  {
    match f
    case Missing => JObject(map[])
    case Text(None) => JObject(map[])
    case Text(Some(j)) => j
  }

  /** An optional string as the JSON value it is saved as. */
  function OptionalString(o: Option<string>): (j: Json)
    ensures o.None? <==> j == JNull
  {
    if o.None? then JNull else JStr(o.value)
  }

  /** The saved state names this tag and asset, with the same `updated_at` (both `None` counts as equal). */
  predicate IsLatest(state: map<string, Json>, tag: string, asset: ReleaseAsset)
  {
    Get(state, "tag") == JStr(tag) && Get(state, "asset_name") == JStr(asset.name)
    && Get(state, "asset_updated_at") == OptionalString(asset.updatedAt)
  }

  /** The state saved after an update. */
  function NewState(repo: string, tag: string, asset: ReleaseAsset, downloadedAt: string, digest: string): (s: Json)
    ensures s.JObject? && IsLatest(s.fields, tag, asset)
  {
    JObject(map[
      "repo" := JStr(repo),
      "tag" := JStr(tag),
      "asset_name" := JStr(asset.name),
      "asset_updated_at" := OptionalString(asset.updatedAt),
      "asset_size" := if asset.size.None? then JNull else asset.size.value,
      "downloaded_at" := JStr(downloadedAt),
      "zip_sha256" := JStr(digest)])
  }

  /**
   * The saved `asset_size` is the release's own `size` value whenever that is
   * an integer or a boolean (a JSON `true` is saved as `true`), and `null`
   * otherwise.
   */
  lemma SavedSizeIsReleaseSize(repo: string, tag: string, a: Json, matches: Matcher, downloadedAt: string, digest: string)
    requires Candidate(a, matches)
    ensures var s := NewState(repo, tag, AssetOf(a, matches), downloadedAt, digest);
      "asset_size" in s.fields &&
      s.fields["asset_size"] == (if Get(a.fields, "size").JInt? || Get(a.fields, "size").JBool? then Get(a.fields, "size") else JNull)
  {
  }

  /** The result of one check. */
  datatype Check =
    | NetworkError
    | Failed(reason: string)
    | AlreadyLatest(tag: string, asset: ReleaseAsset)
    | Download(asset: ReleaseAsset, newState: Json)

  /**
   * One pass of the loop in `main`, up to the download.  `release` is the
   * decoded API response (`None`: a network error); the clock reading and
   * the digest of the downloaded archive are parameters.
   */
  function CheckOnce(f: StateFile, release: Option<Json>, matches: Matcher,
                     repo: string, downloadedAt: string, digest: string): (c: Check)
    ensures c.Download? ==> c.newState.JObject? && matches(c.asset.name)
    ensures c.AlreadyLatest? || c.Download? ==> LoadState(f).JObject? && release.Some? && release.value.JObject?
    ensures c.AlreadyLatest? || c.Download? ==> (c.AlreadyLatest? <==> IsLatest(LoadState(f).fields, TagOf(release.value), c.asset))
  {
    var state := LoadState(f);
    if release.None? then NetworkError
    else if !release.value.JObject? then Failed("release is not an object")
    else
      var tag := Get(release.value.fields, "tag_name");
      if !tag.JStr? || tag.s == "" then Failed("no tag_name")
      else match FindWebAsset(release.value, matches)
        case Err(msg) => Failed(msg)
        case Ok(None) => Failed("no matching asset")
        case Ok(Some(asset)) =>
          if !state.JObject? then Failed("state is not an object")
          else if IsLatest(state.fields, tag.s, asset) then AlreadyLatest(tag.s, asset)
          else Download(asset, NewState(repo, tag.s, asset, downloadedAt, digest))
  }

  /** The release's tag, when it has one. */
  function TagOf(release: Json): string
    requires release.JObject?
  {
    var tag := Get(release.fields, "tag_name");
    if tag.JStr? then tag.s else ""
  }

  /** Once the new state is saved, checking the same release again downloads nothing. */
  lemma SavedStateIsLatest(f: StateFile, release: Option<Json>, matches: Matcher,
                           repo: string, downloadedAt: string, digest: string,
                           downloadedAt': string, digest': string)
    requires CheckOnce(f, release, matches, repo, downloadedAt, digest).Download?
    ensures var c := CheckOnce(f, release, matches, repo, downloadedAt, digest);
      CheckOnce(Text(Some(c.newState)), release, matches, repo, downloadedAt', digest') == AlreadyLatest(TagOf(release.value), c.asset)
  {
  }

  // ---------------------------------------------------------------------
  // build_headers
  // ---------------------------------------------------------------------

  const BEARER: string := "Bearer "

  /** `build_headers`: the fixed headers, and a bearer token when a non-empty one is given. */
  function BuildHeaders(token: Option<string>): (h: map<string, string>)
    ensures "Accept" in h && h["Accept"] == "application/vnd.github+json"
    ensures "User-Agent" in h && h["User-Agent"] == "misa-rin-web-updater"
    ensures "Authorization" in h <==> token.Some? && token.value != ""
    ensures h.Keys <= {"Accept", "User-Agent", "Authorization"}
  {
    var base := map["Accept" := "application/vnd.github+json", "User-Agent" := "misa-rin-web-updater"];
    if token.Some? && token.value != "" then base["Authorization" := BEARER + token.value] else base
  }

  /** The token read back from the headers. */
  function TokenOf(h: map<string, string>): Option<string>
  {
    if "Authorization" in h && StartsWith(h["Authorization"], BEARER)
    then Some(h["Authorization"][|BEARER|..])
    else None
  }

  /** The token can be read back from the headers, and no empty token is sent. */
  lemma HeadersCarryToken(token: Option<string>)
    ensures TokenOf(BuildHeaders(token)) == if token.Some? && token.value != "" then token else None
  {
    if token.Some? && token.value != "" {
      assert (BEARER + token.value)[..|BEARER|] == BEARER;
      assert (BEARER + token.value)[|BEARER|..] == token.value;
    }
  }

  /** `os.environ.get("GITHUB_TOKEN") or os.environ.get("GH_TOKEN")`: an empty first variable falls through. */
  function TokenFromEnvironment(env: map<string, string>): (t: Option<string>)
    ensures "GITHUB_TOKEN" in env && env["GITHUB_TOKEN"] != "" ==> t == Some(env["GITHUB_TOKEN"])
    ensures t.None? <==> ("GITHUB_TOKEN" !in env || env["GITHUB_TOKEN"] == "") && "GH_TOKEN" !in env
    ensures ("GITHUB_TOKEN" !in env || env["GITHUB_TOKEN"] == "") && "GH_TOKEN" in env ==> t == Some(env["GH_TOKEN"])
  {
    if "GITHUB_TOKEN" in env && env["GITHUB_TOKEN"] != "" then Some(env["GITHUB_TOKEN"])
    else if "GH_TOKEN" in env then Some(env["GH_TOKEN"])
    else None
  }
}
