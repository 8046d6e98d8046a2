/** The tar-archive guard of `uncompress_file`: every member's destination is checked before
    anything is extracted. */
module Archive {
  import opened Wrappers

  /** `os.path.commonprefix` of two strings: their longest common character prefix (not a
      path-component prefix). */
  function CommonPrefix(a: string, b: string): (p: string)
    ensures p <= a && p <= b
    ensures |p| < |a| && |p| < |b| ==> a[|p|] != b[|p|]
  {
    if a == [] || b == [] || a[0] != b[0] then []
    else [a[0]] + CommonPrefix(a[1..], b[1..])
  }

  /** The common prefix is the first string exactly when the first is a prefix of the second. */
  lemma {:induction false} CommonPrefixIsFirst(a: string, b: string)
    ensures CommonPrefix(a, b) == a <==> a <= b
  {
    if a != [] && b != [] && a[0] == b[0] {
      CommonPrefixIsFirst(a[1..], b[1..]);
      assert a == [a[0]] + a[1..] && b == [b[0]] + b[1..];
    }
  }

  /** `is_within_directory`: both paths made absolute by `abspath`, then compared by common
      prefix. */
  predicate IsWithinDirectory(directory: string, target: string, abspath: string -> string) {
    CommonPrefix(abspath(directory), abspath(target)) == abspath(directory)
  }

  /** The check is a character-wise prefix test on the absolute paths. */
  lemma WithinIffPrefix(directory: string, target: string, abspath: string -> string)
    ensures IsWithinDirectory(directory, target, abspath) <==> abspath(directory) <= abspath(target)
  {
    CommonPrefixIsFirst(abspath(directory), abspath(target));
  }

  /** Being a character prefix is weaker than being inside: a sibling directory whose name extends
      the directory's name is accepted. */
  lemma SiblingAccepted(abspath: string -> string)
    requires abspath("/x/a") == "/x/a" && abspath("/x/ab/f") == "/x/ab/f"
    ensures IsWithinDirectory("/x/a", "/x/ab/f", abspath)
  {
    var d, t := "/x/a", "/x/ab/f";
    assert t[..|d|] == d;
    WithinIffPrefix(d, t, abspath);
  }

  /** `os.path.join(a, b)` on POSIX: an absolute `b` replaces `a`; otherwise a `/` separates them
      unless `a` is empty or already ends in one. */
  function PathJoin(a: string, b: string): (p: string)
    ensures |b| > 0 && b[0] == '/' ==> p == b
    ensures !(|b| > 0 && b[0] == '/') ==> a <= p && |b| <= |p| && p[|p| - |b|..] == b
  {
    if |b| > 0 && b[0] == '/' then b
    else if a == [] || a[|a| - 1] == '/' then a + b
    else a + "/" + b
  }

  const PATH_TRAVERSAL_MESSAGE := "Attempted Path Traversal in Tar File"

  /** `safe_extract(tar, path)`: every member is checked in archive order, the first escaping one
      raises, and only when all pass does `extractall` write them; the result is the list of paths
      written. */
  method SafeExtract(path: string, members: seq<string>, abspath: string -> string)
    returns (r: Result<seq<string>>)
    ensures r.Success? <==>
      forall i :: 0 <= i < |members| ==> IsWithinDirectory(path, PathJoin(path, members[i]), abspath)
    ensures r.Failure? ==> r.error == PATH_TRAVERSAL_MESSAGE
    ensures r.Success? ==> |r.value| == |members|
    ensures r.Success? ==> forall i :: 0 <= i < |members| ==>
      r.value[i] == PathJoin(path, members[i]) && IsWithinDirectory(path, r.value[i], abspath)
  {
    for i := 0 to |members|
      invariant forall j :: 0 <= j < i ==> IsWithinDirectory(path, PathJoin(path, members[j]), abspath)
    {
      var memberPath := PathJoin(path, members[i]);
      if !IsWithinDirectory(path, memberPath, abspath) {
        return Failure(PATH_TRAVERSAL_MESSAGE);
      }
    }
    r := Success(ExtractAll(path, members));
  }

  /** `tar.extractall(path)`: every member written at its joined path, in archive order. */
  function ExtractAll(path: string, members: seq<string>): (written: seq<string>)
  {
    seq(|members|, i requires 0 <= i < |members| => PathJoin(path, members[i]))
  }

  /** An absolute member name is checked as itself, whatever the extraction directory. */
  lemma AbsoluteMemberChecked(path: string, name: string, abspath: string -> string)
    requires |name| > 0 && name[0] == '/'
    ensures IsWithinDirectory(path, PathJoin(path, name), abspath) <==> abspath(path) <= abspath(name)
  {
    WithinIffPrefix(path, name, abspath);
  }
}
