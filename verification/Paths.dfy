/** The paths of response.c: links from a directory to its entries and back, and where they lead in the file system. */
module Paths {
  import opened Seqs
  import opened CStrings

  // ---------- absolute paths ----------

  function Trim(root: string): string {
    if root != "" && root[|root| - 1] == '/' then root[..|root| - 1] else root
  }

  function Tail(relative: string): string {
    if relative != "" && relative[0] == '/' then relative[1..] else relative
  }

  /** The two names with exactly one of the slashes between them that either may bring. */
  function AbsPath(relative: string, root: string): string {
    Trim(root) + "/" + Tail(relative)
  }

  /** The root, and after it the relative name, with one slash between them: the one that either has, one of the two if
      both have, and a new one if neither has. */
  lemma AbsPathParts(relative: string, root: string)
    ensures root <= AbsPath(relative, root)
    ensures var (ends, starts) := (root != "" && root[|root| - 1] == '/', relative != "" && relative[0] == '/');
            AbsPath(relative, root) == if ends && starts then root + relative[1..]
                                       else if ends || starts then root + relative
                                       else root + "/" + relative
  {
    assert relative != "" && relative[0] == '/' ==> relative == "/" + relative[1..];
  }

  /** GetAbsPath. The last character of the root is looked at, so there must be one. */
  method GetAbsPath(relative: CString, root: CString) returns (ret: array<char>)
    requires root != ""
    ensures fresh(ret) && Holds(ret[..], 0, AbsPath(relative, root))
  {
    var reLen, rootLen := |relative|, |root|;
    ret := new char[reLen + rootLen + 2];
    StrCpy(ret, 0, root);
    ghost var so: CString := root;
    assert ret[rootLen - 1] == root[rootLen - 1];
    var slash := relative != "" && relative[0] == '/';
    if slash && ret[rootLen - 1] == '/' {
      ret[rootLen - 1] := NUL;
      so := root[..rootLen - 1];
      assert ret[..rootLen - 1] == so;
    }
    if !slash && ret[rootLen - 1] != '/' {
      StrCat(ret, so, "/");
      so := so + "/";
    }
    StrCat(ret, so, relative);
    assert so + relative == AbsPath(relative, root);
  }

  // ---------- links ----------

  /** Where the page of directory `req` links its entry `name` to. */
  function Link(req: string, name: string): string {
    if req == "/" then req + name else req + "/" + name
  }

  predicate IsName(name: string) {
    name != "" && '/' !in name
  }

  lemma TailOfLink(req: string, name: string)
    requires req != "" && req != "/"
    ensures Tail(Link(req, name)) == Tail(req) + ("/" + name)
    ensures Tail(req) != "" && Tail(req)[|Tail(req)| - 1] == req[|req| - 1]
  {
  }

  lemma SlashAtEnd(base: string, t: string, name: string)
    requires t != ""
    ensures base + t + ("/" + name) == Trim(base + t) + "/" + name <==> t[|t| - 1] != '/'
  {
    var s := base + t;
    assert s[|s| - 1] == t[|t| - 1];
    if t[|t| - 1] == '/' {
      assert |Trim(s) + "/" + name| < |s + ("/" + name)|;
    } else {
      assert s + ("/" + name) == s + "/" + name;
    }
  }

  /** A link leads to the entry it is listed for, exactly if the directory's own path does not end in a slash
      that is not the whole of it; for any root, with or without a slash at its end. */
  lemma LinkReachesEntry(req: string, name: string, root: string)
    requires IsName(name)
    ensures AbsPath(Link(req, name), root) == AbsPath(name, AbsPath(req, root)) <==>
            req == "/" || req == "" || req[|req| - 1] != '/'
  {
    var (base, t) := (Trim(root) + "/", Tail(req));
    if req == "/" || req == "" {
      assert base + t == base && Trim(base) == Trim(root);
      assert Tail(Link(req, name)) == name;
    } else {
      TailOfLink(req, name);
      Assoc(base, t, "/" + name);
      SlashAtEnd(base, t, name);
    }
  }

  /** Two paths that begin alike name the same file only if they are the same. */
  lemma SameFile(a: string, b: string, root: string)
    requires a != "" && b != "" && a[0] == b[0]
    ensures AbsPath(a, root) == AbsPath(b, root) <==> a == b
  {
    var base := Trim(root) + "/";
    assert AbsPath(a, root)[|base|..] == Tail(a) && AbsPath(b, root)[|base|..] == Tail(b);
    assert a == [a[0]] + a[1..] && b == [b[0]] + b[1..];
  }

  /** The place of the last slash. */
  function LastSlash(s: string): (i: nat)
    requires '/' in s
    ensures i < |s| && s[i] == '/' && forall k :: i < k < |s| ==> s[k] != '/'
  {
    if s[|s| - 1] == '/' then |s| - 1
    else
      assert s == s[..|s| - 1] + [s[|s| - 1]];
      LastSlash(s[..|s| - 1])
  }

  /** Where the page of `req` links "Back.." to. */
  function Back(req: string): string
    requires '/' in req
  {
    if LastSlash(req) == 0 then "/" else req[..LastSlash(req)]
  }

  lemma LastSlashIs(s: string, i: nat)
    requires i < |s| && s[i] == '/' && forall k :: i < k < |s| ==> s[k] != '/'
    ensures LastSlash(s) == i
  {
  }

  /** Back undoes a link, exactly if the directory's path is not empty. */
  lemma BackUndoesLink(req: string, name: string)
    requires '/' !in name
    ensures '/' in Link(req, name)
    ensures Back(Link(req, name)) == req <==> req != ""
  {
    var link := Link(req, name);
    var i := if req == "/" then 0 else |req|;
    assert link[i] == '/' && forall k :: i < k < |link| ==> link[k] == name[k - i - 1];
    LastSlashIs(link, i);
    assert req != "/" ==> link[..i] == req;
  }

  /** The link part of MakeEntryItem. */
  method MakeLink(link: array<char>, req: CString, name: CString)
    requires |Link(req, name)| < link.Length
    modifies link
    ensures Holds(link[..], 0, Link(req, name))
    ensures Holds(link[..], 0, if req == "/" then "/" + name else req + "/" + name)
  {
    StrCpy(link, 0, req);
    ghost var so: CString := req;
    if req != "/" {
      StrCat(link, so, "/");
      so := so + "/";
    }
    StrCat(link, so, name);
  }

  /** The back link part of MakeHTML. The scan stops inside the string exactly if there is a slash in it; otherwise it
      runs on below its start, where the model ends and nothing is said of the link. */
  method MakeBack(link: array<char>, req: CString) returns (inside: bool)
    requires |req| < link.Length
    modifies link
    ensures inside <==> '/' in req
    ensures inside ==> Holds(link[..], 0, Back(req))
  {
    var i := |req| - 1;
    StrCpy(link, 0, req);
    assert forall k :: 0 <= k < |req| ==> link[k] == link[..|req|][k] == req[k];
    while 0 <= i && link[i] != '/'
      invariant -1 <= i < |req|
      invariant forall k :: i < k < |req| ==> req[k] != '/'
      invariant forall k :: 0 <= k < |req| ==> link[k] == req[k]
    {
      i := i - 1;
    }
    inside := 0 <= i;
    if inside {
      assert req[i] == '/';
      LastSlashIs(req, i);
      if i != 0 {
        link[i] := NUL;
        assert link[..i] == req[..i];
      } else {
        link[i + 1] := NUL;
        assert link[..1] == "/";
      }
    }
  }

  lemma NulFree(a: CString, b: CString)
    ensures NUL !in AbsPath(a, b) && NUL !in Link(a, b) && ('/' in a ==> NUL !in Back(a))
  {
  }

  // ---------- navigation ----------

  /** Following a link to an entry, or the Back link, which only pages other than that of "/" have. */
  datatype Move = Into(name: string) | Up

  predicate Follows(path: string, move: Move) {
    match move
    case Into(name) => IsName(name)
    case Up => path != "/" && '/' in path
  }

  function Follow(path: string, move: Move): string
    requires Follows(path, move)
  {
    match move
    case Into(name) => Link(path, name)
    case Up => Back(path)
  }

  /** The path of the directory reached from the top by these names. */
  function PathOf(names: seq<string>): string {
    if names == [] then "/" else Link(PathOf(names[..|names| - 1]), names[|names| - 1])
  }

  predicate AreNames(names: seq<string>) {
    forall n :: n in names ==> IsName(n)
  }

  /** Moves that are all possible, one after the other, and the path they end at. */
  predicate Walks(path: string, moves: seq<Move>, end: string)
    decreases |moves|
  {
    if moves == [] then end == path
    else Follows(path, moves[0]) && Walks(Follow(path, moves[0]), moves[1..], end)
  }

  /** The names on the way down that have not been backed out of. */
  function Where(names: seq<string>, moves: seq<Move>): seq<string>
    decreases |moves|
  {
    if moves == [] then names
    else
      match moves[0]
      case Into(n) => Where(names + [n], moves[1..])
      case Up => Where(if names == [] then [] else names[..|names| - 1], moves[1..])
  }

  lemma {:induction false} PathOfIsCanonical(names: seq<string>)
    requires AreNames(names)
    ensures var p := PathOf(names);
            && p != "" && p[0] == '/'
            && (p == "/" <==> names == [])
            && (p == "/" || p[|p| - 1] != '/')
  {
    if names != [] {
      var (most, n) := (names[..|names| - 1], names[|names| - 1]);
      assert n in names && forall m :: m in most ==> m in names;
      PathOfIsCanonical(most);
    }
  }

  lemma BackOfPath(names: seq<string>)
    requires AreNames(names) && names != []
    ensures '/' in PathOf(names) && Back(PathOf(names)) == PathOf(names[..|names| - 1])
  {
    var (most, n) := (names[..|names| - 1], names[|names| - 1]);
    assert n in names && forall m :: m in most ==> m in names;
    PathOfIsCanonical(most);
    BackUndoesLink(PathOf(most), n);
  }

  /** Every path that links and Back links lead to is that of the names not backed out of: it starts with a slash,
      has none at its end unless it is "/", and so the scan for a Back link always stops inside it. */
  lemma {:induction false} EveryWalk(names: seq<string>, moves: seq<Move>, end: string)
    requires AreNames(names) && Walks(PathOf(names), moves, end)
    ensures AreNames(Where(names, moves)) && end == PathOf(Where(names, moves))
    ensures end != "" && end[0] == '/' && (end == "/" || end[|end| - 1] != '/')
    decreases |moves|
  {
    if moves == [] {
      PathOfIsCanonical(names);
    } else {
      match moves[0]
      case Into(n) =>
        assert (names + [n])[..|names|] == names;
        EveryWalk(names + [n], moves[1..], end);
      case Up =>
        PathOfIsCanonical(names);
        BackOfPath(names);
        EveryWalk(names[..|names| - 1], moves[1..], end);
    }
  }

  /** The directories are left one by one: `k` Back links lead `k` levels up, to "/" for the first time at the last. */
  lemma {:induction false} BackToTop(names: seq<string>, k: nat)
    requires AreNames(names) && k <= |names|
    ensures Walks(PathOf(names), seq(k, _ => Up), PathOf(names[..|names| - k]))
    ensures PathOf(names[..|names| - k]) == "/" <==> k == |names|
    decreases k
  {
    hide Link, Back;
    var rest := names[..|names| - k];
    assert AreNames(rest);
    PathOfIsCanonical(rest);
    if k == 0 {
      assert rest == names;
    } else {
      var most := names[..|names| - 1];
      assert AreNames(most);
      PathOfIsCanonical(names);
      BackOfPath(names);
      BackToTop(most, k - 1);
      assert most[..|most| - (k - 1)] == rest;
      assert seq(k, _ => Up)[1..] == seq(k - 1, _ => Up);
    }
  }

  /** Going down directory by directory from `dir` in the file system. */
  function Descend(dir: string, names: seq<string>): string {
    if names == [] then dir else AbsPath(names[|names| - 1], Descend(dir, names[..|names| - 1]))
  }

  /** The file that a path names is found by going down its names one after the other. */
  lemma {:induction false} PathDescends(names: seq<string>, root: string)
    requires AreNames(names)
    ensures AbsPath(PathOf(names), root) == Descend(AbsPath("/", root), names)
  {
    if names != [] {
      var (most, n) := (names[..|names| - 1], names[|names| - 1]);
      assert n in names && AreNames(most);
      PathOfIsCanonical(most);
      PathDescends(most, root);
      LinkReachesEntry(PathOf(most), n, root);
    }
  }
}
