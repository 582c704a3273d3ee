/** Entries of a repository snapshot and the paths a browser may read. */
module Snapshots {
  import opened Wrappers
  import opened Strings

  datatype Entry = Entry(path: string, blob: string, size: nat, mode: string, status: string, oldPath: Option<string>)

  /** Position of the first entry of a path, or the number of entries. */
  function IndexOf(files: seq<Entry>, path: string): (i: nat)
    ensures i <= |files| && (i < |files| ==> files[i].path == path)
    ensures forall k | 0 <= k < i :: files[k].path != path
  {
    if files == [] || files[0].path == path then 0 else 1 + IndexOf(files[1..], path)
  }

  function Find(files: seq<Entry>, path: string): Option<Entry> {
    var i := IndexOf(files, path);
    if i < |files| then Some(files[i]) else None
  }

  predicate SafePath(path: string) {
    && path != "" && path[0] != '/' && '\0' !in path && '\\' !in path
    && forall part | part in Split(path, '/') :: part != "" && part != "." && part != ".." && part != ".git"
  }

  predicate Protected(part: string) {
    var p := AsciiLower(part);
    || p == ".env" || StartsWith(p, ".env.")
    || p == ".ssh" || p == ".aws" || p == ".kube" || p == "credentials" || p == "id_rsa" || p == "id_ed25519"
    || EndsWith(p, ".pem") || EndsWith(p, ".key")
  }

  predicate SourceAllowed(path: string) {
    SafePath(path) && forall part | part in Split(path, '/') :: !Protected(part)
  }

  /** Names that are not followed, and names of what may hold secrets, however they are written. */
  ghost predicate Forbidden(part: string) {
    var name := AsciiLower(part);
    || part in {"", ".", "..", ".git"}
    || name in {".env", ".ssh", ".aws", ".kube", "credentials", "id_rsa", "id_ed25519"}
    || ".env." <= name || (|name| >= 4 && name[|name| - 4..] in {".pem", ".key"})
  }

  lemma ForbiddenIff(part: string)
    ensures Forbidden(part) <==> part in {"", ".", "..", ".git"} || Protected(part)
  {
  }

  /** A path may be read exactly if none of its parts is forbidden and it holds neither NUL nor backslash. */
  lemma AllowedIff(path: string)
    ensures SourceAllowed(path) <==> '\0' !in path && '\\' !in path && forall part | Piece(path, part, '/') :: !Forbidden(part)
  {
    forall part
      ensures part in Split(path, '/') <==> Piece(path, part, '/')
    {
      SplitsIff(path, part, '/');
    }
    forall part
      ensures Forbidden(part) <==> part in {"", ".", "..", ".git"} || Protected(part)
    {
      ForbiddenIff(part);
    }
    if path == "" {
      assert "" in Split(path, '/');
    } else if path[0] == '/' {
      assert Around(path, "", "", path, '/') && Piece(path, "", '/');
    }
  }

  lemma PlainPathsAreAllowed(name: char)
    requires 'a' <= name <= 'z'
    ensures SourceAllowed([name])
  {
    SplitOne([name], '/');
    assert AsciiLower([name]) == [name];
  }
}
