// What the OPA and Cedar engines share: the backend process as a value,
// os.path.join, and the step that saves a policy that has no file yet.

module Engines {
  import opened Wrappers
  import Text
  import PyDict
  import Json
  import Models

  /** A finished backend process: exit code, stdout, stderr. */
  datatype Proc = Proc(code: int, stdout: string, stderr: string)

  /** The evaluated object as the engines see it. `kind` is the input type
    * ("task", "play", "event", "rest", ...). */
  datatype Target = Target(
    kind: string,
    name: string,
    filepath: string,
    lines: Models.Lines,
    metadata: PyDict.Dict<string, Json.Json>,
    serialized: string)

  /** os.path.join(dir, name) for two parts: an absolute name replaces the
    * directory, otherwise one "/" separates them. */
  function PathJoin(dir: string, name: string): (r: string)
    ensures Text.EndsWith(r, name)
    ensures |name| > 0 && name[0] == '/' ==> r == name
    ensures !(|name| > 0 && name[0] == '/') ==> Text.StartsWith(r, dir)
  {
    var r :=
      if |name| > 0 && name[0] == '/' then name
      else if dir == "" || Text.EndsWith(dir, "/") then dir + name
      else dir + "/" + name;
    assert r[|r| - |name|..] == name;
    r
  }

  /** policy.metadata.attrs.get("package", "__no_package_found__") */
  function PackageAttr(p: Models.Policy): string
  {
    PyDict.Get(p.metadata.attrs, "package").GetOr("__no_package_found__")
  }

  /** The start of evaluate: a policy without a path is saved as
    * `<workdir>/<package><ext>` and takes that path; one with a path is
    * left as it is. */
  function SaveIfUnsaved(p: Models.Policy, workdir: string, ext: string): (r: Models.Policy)
    ensures p.path != "" ==> r == p
    ensures p.path == "" ==> r == p.(path := PathJoin(workdir, PackageAttr(p) + ext))
  {
    if p.path != "" then p
    else Models.Save(p, PathJoin(workdir, PackageAttr(p) + ext), true).0
  }

  /** With a non-empty extension a saved policy has a path, so saving again
    * changes nothing; only the path ever changes. */
  lemma SaveIfUnsavedIdempotent(p: Models.Policy, workdir: string, ext: string)
    requires ext != ""
    ensures SaveIfUnsaved(p, workdir, ext).path != ""
    ensures SaveIfUnsaved(SaveIfUnsaved(p, workdir, ext), workdir, ext) == SaveIfUnsaved(p, workdir, ext)
    ensures SaveIfUnsaved(p, workdir, ext).(path := p.path) == p
  {
  }

  /** The file text an engine reads for a policy: what was just written for
    * a policy saved here, otherwise whatever `fs` holds at its path. */
  function PolicyFileText(p: Models.Policy, fs: string -> string): string
  {
    if p.path == "" then p.body else fs(p.path)
  }
}
