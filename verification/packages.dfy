/** Go module references (`path@version`) and platform binary names. */
module Packages {
  import opened Strings

  /** `SplitGoPackageVersion`: cut at the first `@`. Without one the result
      is `("", "", false)`. */
  function SplitGoPackageVersion(pkg: string): (r: (string, string, bool))
    ensures !r.2 <==> '@' !in pkg
    ensures !r.2 ==> r.0 == "" && r.1 == ""
    ensures r.2 ==> '@' !in r.0 && r.0 + "@" + r.1 == pkg
  {
    var i := Index(pkg, '@');
    if i == -1 then ("", "", false)
    else
      assert pkg == pkg[..i] + "@" + pkg[i + 1..];
      (pkg[..i], pkg[i + 1..], true)
  }

  /** `JoinGoPackageVersion`: `strings.Join` of the two parts with `@`. */
  function JoinGoPackageVersion(path: string, version: string): (r: string)
    ensures r == path + "@" + version
  {
    assert [path, version][1..] == [version];
    assert Join([version], "@") == version;
    Join([path, version], "@")
  }

  /** Joining a path without `@` and splitting again gives back both parts. */
  lemma SplitJoin(path: string, version: string)
    requires '@' !in path
    ensures SplitGoPackageVersion(JoinGoPackageVersion(path, version)) == (path, version, true)
  {
    var s := JoinGoPackageVersion(path, version);
    var i := Index(s, '@');
    assert s[|path|] == '@';
    assert s[..|path|] == path;
    assert s[|path| + 1..] == version;
  }

  /** Splitting and joining again gives back the reference. */
  lemma JoinSplit(pkg: string)
    requires SplitGoPackageVersion(pkg).2
    ensures var (path, version, _) := SplitGoPackageVersion(pkg);
      JoinGoPackageVersion(path, version) == pkg
  {
  }

  /** The host operating system, as far as `runtime.GOOS == "windows"` tells it. */
  datatype Platform = Windows | Other

  /** `GetBinaryFileName`: on Windows an executable name ends in `.exe`. */
  function GetBinaryFileName(os: Platform, name: string): (r: string)
    ensures r == name || r == name + ".exe"
    ensures os.Windows? ==> HasSuffix(r, ".exe")
    ensures r == name <==> os.Other? || HasSuffix(name, ".exe")
  {
    if os.Windows? then
      if !HasSuffix(name, ".exe") then
        assert (name + ".exe")[|name|..] == ".exe";
        name + ".exe"
      else name
    else name
  }

  /** Asking twice changes nothing: no name ever gets `.exe.exe`. */
  lemma GetBinaryFileNameIdempotent(os: Platform, name: string)
    ensures GetBinaryFileName(os, GetBinaryFileName(os, name)) == GetBinaryFileName(os, name)
  {
  }
}
