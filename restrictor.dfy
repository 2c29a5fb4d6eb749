/** `main` (version_restrictor.py:153-170): fetch the active versions and,
    when there are any, update the file; an empty list aborts before the file
    is touched. The API response and the file content are inputs, and the
    text to be written back is the result; an `Err` stands for the logged
    error and exit status 1. */
module Restrictor {
  import opened Outcomes
  import Releases
  import TerraformUpdate

  method Run(data: Releases.Json, content: string) returns (r: Result<string>)
    ensures Releases.FetchedVersions(data).Err? ==> r == Err(Releases.FetchedVersions(data).failure)
    ensures Releases.FetchedVersions(data) == Ok([]) ==> r == Err(NoActiveVersions)
    ensures Releases.FetchedVersions(data).Ok? && Releases.FetchedVersions(data).value != [] ==>
      r == TerraformUpdate.UpdateContent(content, Releases.FetchedVersions(data).value)
    ensures r.Ok? <==>
      && Releases.FetchedVersions(data).Ok?
      && Releases.FetchedVersions(data).value != []
      && exists p: nat, q: nat :: TerraformUpdate.AllowListMatch(content, p, q)
  {
    var versions := Releases.GetActiveEksVersions(data);
    if versions.Err? {
      return Err(versions.failure);
    }
    if versions.value == [] {
      return Err(NoActiveVersions);
    }
    r := TerraformUpdate.UpdateContent(content, versions.value);
  }
}
