/** The release selection and end-of-life filter of `get_active_eks_versions`
    (version_restrictor.py:55-75). The HTTP request and `json.loads` are not
    modelled: the decoded JSON value is the input. */
module Releases {
  import opened Outcomes
  import Text

  /** A decoded JSON value. Numbers are integers: the filter only asks whether
      a value is the boolean `false`, which no number is. */
  datatype Json =
    | JNull
    | JBool(b: bool)
    | JNumber(n: int)
    | JString(s: string)
    | JArray(items: seq<Json>)
    | JObject(fields: map<string, Json>)

  /** The nested shape `{"result": {"releases": ...}}`. */
  predicate IsNested(data: Json)
  {
    data.JObject? && "result" in data.fields
    && data.fields["result"].JObject? && "releases" in data.fields["result"].fields
  }

  /** The value that the source assigns to `releases` (lines 56-63). The test
      `"releases" in data["result"]` is Python's `in` on whatever `result`
      holds: key membership on an object, element membership on a list,
      substring on a string, and a TypeError on anything else. A list or
      string that passes the test then fails on `data["result"]["releases"]`. */
  function SelectReleases(data: Json): (r: Result<Json>)
    ensures r.Ok? <==> data.JArray? || IsNested(data)
    ensures data.JArray? ==> r == Ok(data)
    ensures IsNested(data) ==> r == Ok(data.fields["result"].fields["releases"])
    ensures !data.JObject? && !data.JArray? ==> r == Err(UnexpectedShape)
  {
    match data
    case JObject(fields) =>
      if "result" !in fields then Err(UnexpectedShape)
      else
        (match fields["result"]
         case JObject(inner) =>
           if "releases" in inner then Ok(inner["releases"]) else Err(UnexpectedShape)
         case JArray(items) =>
           if JString("releases") in items then Err(MalformedResponse) else Err(UnexpectedShape)
         case JString(s) =>
           if Text.Contains(s, "releases") then Err(MalformedResponse) else Err(UnexpectedShape)
         case _ => Err(MalformedResponse))
    case JArray(_) => Ok(data)
    case _ => Err(UnexpectedShape)
  }

  /** What `for release in releases` visits (line 66). An object yields its
      keys and a string its characters; both are strings, and `str` has no
      `get`, so only the empty object and the empty string get through. */
  function Elements(releases: Json): (r: Result<seq<Json>>)
    ensures r.Ok? <==> releases.JArray? || releases == JObject(map[]) || releases == JString("")
    ensures releases.JArray? ==> r == Ok(releases.items)
    ensures r.Ok? && !releases.JArray? ==> r.value == []
  {
    match releases
    case JArray(items) => Ok(items)
    case JObject(fields) => if fields == map[] then Ok([]) else Err(MalformedResponse)
    case JString(s) => if s == "" then Ok([]) else Err(MalformedResponse)
    case _ => Err(MalformedResponse)
  }

  /** `release.get("isEol") is False`: the field is present and is exactly
      the boolean false (line 68). */
  predicate IsActive(release: Json)
  {
    release.JObject? && "isEol" in release.fields && release.fields["isEol"] == JBool(false)
  }

  /** A release the loop can process without raising: it is an object (so
      `get` exists) and, when active, has a string `name`. */
  predicate Processable(release: Json)
  {
    release.JObject? && (IsActive(release) ==> "name" in release.fields && release.fields["name"].JString?)
  }

  function NameOf(release: Json): string
    requires Processable(release) && IsActive(release)
  {
    release.fields["name"].s
  }

  /** One iteration of the loop: `Some(name)` when the release is appended,
      `None` when it is skipped. */
  function Step(release: Json): (r: Result<Option<string>>)
    ensures r.Ok? <==> Processable(release)
    ensures r.Ok? ==> (r.value.Some? <==> IsActive(release))
    ensures r.Ok? && r.value.Some? ==> r.value.value == NameOf(release)
  {
    match release
    case JObject(fields) =>
      if "isEol" in fields && fields["isEol"] == JBool(false) then
        if "name" in fields && fields["name"].JString? then Ok(Some(fields["name"].s))
        else Err(MalformedResponse)
      else Ok(None)
    case _ => Err(MalformedResponse)
  }

  /** The names the loop collects from `releases`, or the first failure. */
  function ActiveNames(releases: seq<Json>): Result<seq<string>>
  {
    if releases == [] then Ok([])
    else
      var last := releases[|releases| - 1];
      match ActiveNames(releases[..|releases| - 1])
      case Err(f) => Err(f)
      case Ok(names) =>
        match Step(last)
        case Err(f) => Err(f)
        case Ok(None) => Ok(names)
        case Ok(Some(name)) => Ok(names + [name])
  }

  /** The filter loop of lines 65-69. */
  method ActiveVersions(releases: seq<Json>) returns (r: Result<seq<string>>)
    ensures r == ActiveNames(releases)
  {
    var active: seq<string> := [];
    var i := 0;
    while i < |releases|
      invariant 0 <= i <= |releases|
      invariant ActiveNames(releases[..i]) == Ok(active)
    {
      assert releases[..i + 1][..i] == releases[..i];
      var step := Step(releases[i]);
      if step.Err? {
        assert ActiveNames(releases[..i + 1]).Err?;
        PrefixFailure(releases, i + 1);
        return Err(step.failure);
      }
      if step.value.Some? {
        active := active + [step.value.value];
      }
      i := i + 1;
    }
    assert releases[..i] == releases;
    r := Ok(active);
  }

  /** Once a prefix fails, the whole list fails with the same failure. */
  lemma {:induction false} PrefixFailure(releases: seq<Json>, n: nat)
    requires n <= |releases|
    requires ActiveNames(releases[..n]).Err?
    ensures ActiveNames(releases) == ActiveNames(releases[..n])
    decreases |releases| - n
  {
    if n < |releases| {
      assert releases[..n + 1][..n] == releases[..n];
      PrefixFailure(releases, n + 1);
    } else {
      assert releases[..n] == releases;
    }
  }

  /** The indices of the active releases, in increasing order. */
  function ActiveIndices(releases: seq<Json>): (ix: seq<nat>)
    ensures forall k :: 0 <= k < |ix| ==> ix[k] < |releases| && IsActive(releases[ix[k]])
    ensures forall k, l :: 0 <= k < l < |ix| ==> ix[k] < ix[l]
    ensures forall i :: 0 <= i < |releases| && IsActive(releases[i]) ==> i in ix
  {
    if releases == [] then []
    else
      var n := |releases| - 1;
      var front := releases[..n];
      var ix := ActiveIndices(front);
      assert forall i :: 0 <= i < n ==> front[i] == releases[i];
      if IsActive(releases[n]) then ix + [n] else ix
  }

  /** The filter succeeds exactly when every release can be processed. */
  lemma {:induction false} ActiveNamesSucceeds(releases: seq<Json>)
    ensures ActiveNames(releases).Ok? <==> forall i :: 0 <= i < |releases| ==> Processable(releases[i])
  {
    if releases != [] {
      var n := |releases| - 1;
      var front := releases[..n];
      ActiveNamesSucceeds(front);
      assert forall i :: 0 <= i < n ==> front[i] == releases[i];
    }
  }

  /** On success the output is exactly the names of the releases whose
      `isEol` is `false`, in their original order. */
  lemma {:induction false} ActiveNamesExact(releases: seq<Json>)
    requires ActiveNames(releases).Ok?
    ensures var names, ix := ActiveNames(releases).value, ActiveIndices(releases);
      |names| == |ix| && forall k :: 0 <= k < |ix| ==> Processable(releases[ix[k]]) && names[k] == NameOf(releases[ix[k]])
  {
    ActiveNamesSucceeds(releases);
    if releases != [] {
      var n := |releases| - 1;
      var front := releases[..n];
      assert forall i :: 0 <= i < n ==> front[i] == releases[i];
      ActiveNamesExact(front);
    }
  }

  /** The whole selection and filter of `get_active_eks_versions` on a
      decoded response. */
  function FetchedVersions(data: Json): Result<seq<string>>
  {
    match SelectReleases(data)
    case Err(f) => Err(f)
    case Ok(releases) =>
      match Elements(releases)
      case Err(f) => Err(f)
      case Ok(items) => ActiveNames(items)
  }

  /** `get_active_eks_versions` after the response is decoded (lines 55-75).
      The list shape is filtered as is, the nested shape through
      `result.releases`, and any other top-level shape stops before the
      filter runs. */
  method GetActiveEksVersions(data: Json) returns (r: Result<seq<string>>)
    ensures r == FetchedVersions(data)
    ensures data.JArray? ==> r == ActiveNames(data.items)
    ensures IsNested(data) && data.fields["result"].fields["releases"].JArray? ==>
      r == ActiveNames(data.fields["result"].fields["releases"].items)
    ensures !data.JArray? && !IsNested(data) ==> r.Err?
  {
    var releases := SelectReleases(data);
    if releases.Err? {
      return Err(releases.failure);
    }
    var items := Elements(releases.value);
    if items.Err? {
      return Err(items.failure);
    }
    r := ActiveVersions(items.value);
  }
}
