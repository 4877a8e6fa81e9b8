/** fs/fs.go: resolution of symbolic links inside a root directory. */
module RootFs {
  import opened Text
  import opened Wrappers

  /** A clean path relative to the root, as its components; [] is the root itself. */
  type Path = seq<string>

  /** What Lstat and Readlink say: Broken stands for an Lstat error other than "does not exist",
      Unreadable for a link whose target cannot be read. */
  datatype Entry = Dir | File | Link(target: string) | Unreadable | Broken

  /** A static file system: paths that are not keys do not exist. */
  type FileSystem = map<Path, Entry>

  datatype OpError = NoError | NotExist | Invalid | Permission | OtherError

  const MAX_SYMLINK_DEPTH := 40

  predicate Proper(part: string) {
    part != "" && part != "." && part != ".."
  }

  predicate ValidPath(name: string) {
    name == "." || forall i :: 0 <= i < |Split(name, '/')| ==> Proper(Split(name, '/')[i])
  }

  function Render(p: Path): string {
    if p == [] then "." else Join(p, '/')
  }

  predicate IsAbsolute(target: string) { target != "" && target[0] == '/' }

  /** The components of a link target, without the leading slash of an absolute one. */
  function TargetParts(target: string): seq<string> {
    var body := if IsAbsolute(target) then target[1..] else target;
    if body == "" then [] else Split(body, '/')
  }

  // Pathname resolution, stated recursively: to pass a link, resolve its target first, from the root
  // if it is absolute, and go on from where that leads.

  datatype Place = Place(path: Path, isDir: bool, missing: bool, links: nat, rewroteAbs: bool)

  const Root := Place([], true, false, MAX_SYMLINK_DEPTH, false)

  /** Whether the component names a link. */
  predicate AtLink(fs: FileSystem, at: Place, part: string) {
    Proper(part) && at.path + [part] in fs && fs[at.path + [part]].Link?
  }

  /** Where a component that names no link leads. */
  function Plain(fs: FileSystem, at: Place, part: string): Option<Place> {
    var next := at.path + [part];
    if part == "" || part == "." then Some(at)
    else if part == ".." then if at.path == [] then None else Some(at.(path := at.path[..|at.path| - 1]))
    else if next !in fs then Some(at.(path := next, isDir := false, missing := true))
    else if fs[next] == Dir || fs[next] == File then Some(at.(path := next, isDir := fs[next] == Dir))
    else None
  }

  /** Where the walk along a link's target starts. */
  function LinkStart(at: Place, target: string): Place
    requires at.links > 0
  {
    var from := at.(links := at.links - 1);
    if IsAbsolute(target) then from.(path := [], rewroteAbs := true) else from
  }

  /** Where `parts` lead from `at`, following at most `at.links` links; None is failure. Only the last
      component may be missing. */
  function Walk(fs: FileSystem, at: Place, parts: seq<string>): (r: Option<Place>)
    ensures r.Some? ==> r.value.links <= at.links
    decreases at.links, |parts|
  {
    if parts == [] then Some(at)
    else if !at.isDir then None
    else if AtLink(fs, at, parts[0]) then
      if at.links == 0 then None
      else
        var target := fs[at.path + [parts[0]]].target;
        match Walk(fs, LinkStart(at, target), TargetParts(target))
        case None => None
        case Some(end) => Walk(fs, end, parts[1..])
    else
      match Plain(fs, at, parts[0])
      case None => None
      case Some(next) => Walk(fs, next, parts[1..])
  }

  /** The place counts only if an absolute link was followed on the way. */
  function Rewritten(end: Option<Place>): Option<Path> {
    if end.Some? && end.value.rewroteAbs then Some(end.value.path) else None
  }

  function Resolve(fs: FileSystem, name: string, opErr: OpError): Option<Path> {
    if opErr in {NotExist, Invalid, Permission} || !ValidPath(name) || name == "." then None
    else Rewritten(Walk(fs, Root, Split(name, '/')))
  }

  method ResolveInRoot(fs: FileSystem, name: string, opErr: OpError) returns (resolved: string, ok: bool)
    ensures ok <==> Resolve(fs, name, opErr).Some?
    ensures resolved == if ok then Render(Resolve(fs, name, opErr).value) else ""
  {
    if opErr == NotExist || opErr == Invalid || opErr == Permission {
      return "", false;
    }
    if !ValidPath(name) || name == "." {
      return "", false;
    }
    var path := FollowParts(fs, Split(name, '/'));
    match path
    case None => return "", false;
    case Some(p) => return Render(p), true;
  }

  /** The source's loop: the target of a link is put in front of what remains. */
  method FollowParts(fs: FileSystem, parts: seq<string>) returns (path: Option<Path>)
    ensures path == Rewritten(Walk(fs, Root, parts))
  {
    hide Walk, IsAbsolute, LinkStart, TargetParts;
    var remaining := parts;
    var cur: Path, curIsDir, hops, rewroteAbs := [], true, 0, false;
    while |remaining| > 0
      invariant hops <= MAX_SYMLINK_DEPTH
      invariant Walk(fs, Place(cur, curIsDir, false, MAX_SYMLINK_DEPTH - hops, rewroteAbs), remaining)
             == Walk(fs, Root, parts)
      decreases MAX_SYMLINK_DEPTH - hops, |remaining|
    {
      var at := Place(cur, curIsDir, false, MAX_SYMLINK_DEPTH - hops, rewroteAbs);
      WalkStep(fs, at, remaining);
      var part := remaining[0];
      remaining := remaining[1..];
      if !curIsDir {
        return None;
      }
      if part == "" || part == "." {
        continue;
      }
      if part == ".." {
        if cur == [] {
          return None;
        }
        cur := cur[..|cur| - 1];
        continue;
      }
      var next := cur + [part];
      if next !in fs {
        WalkNoDirectory(fs, at.(path := next, isDir := false, missing := true), remaining);
        if rewroteAbs && |remaining| == 0 {
          return Some(next);
        }
        return None;
      }
      if fs[next] == Broken {
        return None;
      }
      if fs[next] == Dir || fs[next] == File {
        cur := next;
        curIsDir := fs[next] == Dir;
        continue;
      }
      hops := hops + 1;
      if hops > MAX_SYMLINK_DEPTH {
        return None;
      }
      if fs[next] == Unreadable {
        return None;
      }
      cur, rewroteAbs, remaining := Redirect(fs, at, fs[next].target, remaining);
    }
    WalkEnd(fs, Place(cur, curIsDir, false, MAX_SYMLINK_DEPTH - hops, rewroteAbs));
    return if rewroteAbs then Some(cur) else None;
  }

  /** Puts a link's target in front of what remains, and goes back to the root if it is absolute. */
  method Redirect(ghost fs: FileSystem, at: Place, link: string, rest: seq<string>)
    returns (cur: Path, rewroteAbs: bool, remaining: seq<string>)
    requires at.isDir && !at.missing && at.links > 0
    ensures Walk(fs, Place(cur, true, false, at.links - 1, rewroteAbs), remaining)
         == match Walk(fs, LinkStart(at, link), TargetParts(link)) case None => None case Some(end) => Walk(fs, end, rest)
  {
    hide Walk;
    var target := link;
    cur, rewroteAbs, remaining := at.path, at.rewroteAbs, rest;
    if IsAbsolute(target) {
      rewroteAbs, cur := true, [];
      target := target[1..];
    }
    if target != "" {
      remaining := Split(target, '/') + remaining;
    }
    assert remaining == TargetParts(link) + rest;
    WalkOn(fs, LinkStart(at, link), TargetParts(link), rest);
  }

  lemma WalkEnd(fs: FileSystem, at: Place)
    ensures Walk(fs, at, []) == Some(at)
  {
  }

  /** One component of a walk. */
  lemma WalkStep(fs: FileSystem, at: Place, parts: seq<string>)
    requires parts != []
    ensures var rest := parts[1..];
            Walk(fs, at, parts) ==
              if !at.isDir then None
              else if AtLink(fs, at, parts[0]) then
                if at.links == 0 then None
                else
                  var target := fs[at.path + [parts[0]]].target;
                  match Walk(fs, LinkStart(at, target), TargetParts(target))
                  case None => None
                  case Some(end) => Walk(fs, end, rest)
              else
                match Plain(fs, at, parts[0])
                case None => None
                case Some(next) => Walk(fs, next, rest)
  {
  }

  lemma WalkNoDirectory(fs: FileSystem, at: Place, parts: seq<string>)
    requires !at.isDir
    ensures Walk(fs, at, parts) == if parts == [] then Some(at) else None
  {
  }

  /** Walking a concatenation is walking its parts one after the other. */
  lemma {:induction false} WalkOn(fs: FileSystem, at: Place, a: seq<string>, b: seq<string>)
    ensures Walk(fs, at, a + b) == match Walk(fs, at, a) case None => None case Some(end) => Walk(fs, end, b)
    decreases at.links, |a|
  {
    if a == [] {
      assert a + b == b;
    } else if at.isDir {
      assert (a + b)[0] == a[0] && (a + b)[1..] == a[1..] + b;
      if !AtLink(fs, at, a[0]) {
        var next := Plain(fs, at, a[0]);
        if next.Some? {
          WalkOn(fs, next.value, a[1..], b);
        }
      } else if at.links > 0 {
        var target := fs[at.path + [a[0]]].target;
        var end := Walk(fs, LinkStart(at, target), TargetParts(target));
        if end.Some? {
          WalkOn(fs, end.value, a[1..], b);
        }
      }
    }
  }

  // What a resolved path is.

  predicate Clean(p: Path) {
    forall i :: 0 <= i < |p| ==> Proper(p[i]) && '/' !in p[i]
  }

  /** The path is clean, all directories on the way to it exist and are no links, and what it names is
      no link either, or does not exist. */
  ghost predicate Sound(fs: FileSystem, at: Place) {
    && Clean(at.path)
    && (forall n :: 0 < n < |at.path| ==> at.path[..n] in fs && fs[at.path[..n]] == Dir)
    && (at.path == [] ==> at.isDir && !at.missing)
    && (at.path != [] ==>
          if at.missing then at.path !in fs && !at.isDir
          else at.path in fs && fs[at.path] == if at.isDir then Dir else File)
  }

  lemma {:induction false} WalkSound(fs: FileSystem, at: Place, parts: seq<string>)
    requires Sound(fs, at) && forall i :: 0 <= i < |parts| ==> '/' !in parts[i]
    ensures Walk(fs, at, parts).Some? ==> Sound(fs, Walk(fs, at, parts).value)
    decreases at.links, |parts|
  {
    if parts != [] && at.isDir {
      if !AtLink(fs, at, parts[0]) {
        var next := Plain(fs, at, parts[0]);
        if next.Some? {
          PlainSound(fs, at, parts[0]);
          WalkSound(fs, next.value, parts[1..]);
        }
      } else if at.links > 0 {
        var target := fs[at.path + [parts[0]]].target;
        WalkSound(fs, LinkStart(at, target), TargetParts(target));
        var end := Walk(fs, LinkStart(at, target), TargetParts(target));
        if end.Some? {
          WalkSound(fs, end.value, parts[1..]);
        }
      }
    }
  }

  lemma PlainSound(fs: FileSystem, at: Place, part: string)
    requires Sound(fs, at) && at.isDir && '/' !in part && !AtLink(fs, at, part)
    ensures Plain(fs, at, part).Some? ==> Sound(fs, Plain(fs, at, part).value)
  {
    var next := at.path + [part];
    assert forall n :: 0 < n <= |at.path| ==> next[..n] == at.path[..n];
    assert at.path[..|at.path|] == at.path;
    if part == ".." && at.path != [] {
      var up := at.path[..|at.path| - 1];
      assert forall n :: 0 < n <= |up| ==> up[..n] == at.path[..n];
      assert up[..|up|] == up;
    }
  }

  /** A resolved path is clean, leads through existing directories that are no links, and names no link;
      opening it as it stands, without following any link, leads to the same place. */
  lemma ResolvedIsLinkFree(fs: FileSystem, name: string, opErr: OpError)
    requires Resolve(fs, name, opErr).Some?
    ensures var p := Resolve(fs, name, opErr).value;
            && Clean(p)
            && (forall n :: 0 < n < |p| ==> p[..n] in fs && fs[p[..n]] == Dir)
            && (p in fs && p != [] ==> fs[p] in {Dir, File})
            && var plain := Walk(fs, Root.(links := 0), p);
               plain.Some? && plain.value.path == p && plain.value.links == 0
  {
    WalkSound(fs, Root, Split(name, '/'));
    var end := Walk(fs, Root, Split(name, '/')).value;
    PlainWalk(fs, end, 0, false);
    assert end.path[0..] == end.path;
  }

  lemma {:induction false} PlainWalk(fs: FileSystem, end: Place, n: nat, rewroteAbs: bool)
    requires Sound(fs, end) && n <= |end.path|
    ensures var at := if n == |end.path| then end.(links := 0, rewroteAbs := rewroteAbs)
                      else Place(end.path[..n], true, false, 0, rewroteAbs);
            Walk(fs, at, end.path[n..]) == Some(end.(links := 0, rewroteAbs := rewroteAbs))
    decreases |end.path| - n
  {
    var p := end.path;
    if n < |p| {
      PlainWalk(fs, end, n + 1, rewroteAbs);
      assert p[n..][0] == p[n] && p[n..][1..] == p[n + 1..] && p[..n] + [p[n]] == p[..n + 1];
      if n + 1 == |p| {
        assert p[..n + 1] == p;
      }
    }
  }

  /** Valid names are ".", and components other than the empty one, "." and ".." between slashes. */
  lemma ValidPathIff(parts: seq<string>)
    requires parts != [] && forall i :: 0 <= i < |parts| ==> '/' !in parts[i]
    ensures ValidPath(Join(parts, '/')) <==> parts == ["."] || forall i :: 0 <= i < |parts| ==> parts[i] !in {"", ".", ".."}
  {
    hide Split, Join;
    SplitJoin(parts, '/');
    SplitFirst(".", '/', "");
    JoinOne(".");
  }

  lemma JoinOne(part: string)
    ensures Join([part], '/') == part
  {
  }

  // What each kind of component does, as section 4.13 of POSIX.1-2017 has it.

  /** An empty component and a dot lead nowhere else. */
  lemma WalkStays(fs: FileSystem, at: Place, part: string, rest: seq<string>)
    requires at.isDir && part in {"", "."}
    ensures Walk(fs, at, [part] + rest) == Walk(fs, at, rest)
  {
    assert ([part] + rest)[1..] == rest;
  }

  /** Two dots lead to the directory above; at the root they are refused. */
  lemma WalkUp(fs: FileSystem, at: Place, rest: seq<string>)
    requires at.isDir
    ensures at.path == [] ==> Walk(fs, at, [".."] + rest) == None
    ensures at.path != [] ==>
              Walk(fs, at, [".."] + rest) == Walk(fs, at.(path := at.path[..|at.path| - 1]), rest)
  {
    assert ([".."] + rest)[1..] == rest;
  }

  /** An existing directory is entered; a file, or a name that does not exist, ends the walk and must be
      the last component; what cannot be looked at or read ends it in failure. */
  lemma WalkInto(fs: FileSystem, at: Place, part: string, rest: seq<string>)
    requires at.isDir && Proper(part)
    ensures var next := at.path + [part];
            && (next in fs && fs[next] == Dir ==>
                  Walk(fs, at, [part] + rest) == Walk(fs, at.(path := next), rest))
            && (next in fs && fs[next] == File ==>
                  Walk(fs, at, [part] + rest) == if rest == [] then Some(at.(path := next, isDir := false)) else None)
            && (next !in fs ==>
                  Walk(fs, at, [part] + rest)
                    == if rest == [] then Some(at.(path := next, isDir := false, missing := true)) else None)
            && (next in fs && fs[next] in {Unreadable, Broken} ==> Walk(fs, at, [part] + rest) == None)
  {
    assert ([part] + rest)[1..] == rest;
  }

  /** A directory followed by two dots leads back to where the walk was. */
  lemma DownAndUp(fs: FileSystem, at: Place, part: string, rest: seq<string>)
    requires at.isDir && Proper(part) && at.path + [part] in fs && fs[at.path + [part]] == Dir
    ensures Walk(fs, at, [part, ".."] + rest) == Walk(fs, at, rest)
  {
    hide Walk;
    var below := at.(path := at.path + [part]);
    WalkInto(fs, at, part, [".."] + rest);
    WalkUp(fs, below, rest);
    assert [part, ".."] + rest == [part] + ([".."] + rest);
    assert below.path[..|below.path| - 1] == at.path;
  }

  /** A link uses up one of the links that may be followed, and its target is walked before the rest:
      from the directory of the link, or from the root if the target is absolute. */
  lemma WalkLink(fs: FileSystem, at: Place, part: string, rest: seq<string>)
    requires at.isDir && Proper(part) && at.path + [part] in fs && fs[at.path + [part]].Link?
    ensures var target := fs[at.path + [part]].target;
            && (at.links == 0 ==> Walk(fs, at, [part] + rest) == None)
            && (at.links > 0 && !IsAbsolute(target) ==>
                  Walk(fs, at, [part] + rest) == Walk(fs, at.(links := at.links - 1), TargetParts(target) + rest))
            && (at.links > 0 && IsAbsolute(target) ==>
                  Walk(fs, at, [part] + rest)
                    == Walk(fs, at.(links := at.links - 1, path := [], rewroteAbs := true), TargetParts(target) + rest))
  {
    assert ([part] + rest)[0] == part && ([part] + rest)[1..] == rest;
    if at.links > 0 {
      var target := fs[at.path + [part]].target;
      WalkOn(fs, LinkStart(at, target), TargetParts(target), rest);
    }
  }

  /** A target is its components with slashes between them, and one in front if it is absolute. */
  lemma TargetPartsPrinted(parts: seq<string>)
    requires parts != [] && forall i :: 0 <= i < |parts| ==> '/' !in parts[i]
    ensures Join(parts, '/') != "" ==> TargetParts("/" + Join(parts, '/')) == parts
    ensures parts[0] != "" ==> TargetParts(Join(parts, '/')) == parts
    ensures TargetParts("/") == TargetParts("") == []
  {
    SplitJoin(parts, '/');
    assert ("/" + Join(parts, '/'))[1..] == Join(parts, '/');
    assert parts[0] != "" ==> Join(parts, '/') != "" && Join(parts, '/')[0] == parts[0][0];
    assert parts[0] != "" ==> parts[0][0] in parts[0];
    assert "/"[1..] == "";
  }

  lemma {:induction false} WalkRewrites(fs: FileSystem, at: Place, parts: seq<string>)
    requires forall p :: p in fs && fs[p].Link? ==> !IsAbsolute(fs[p].target)
    ensures Walk(fs, at, parts).Some? ==> Walk(fs, at, parts).value.rewroteAbs == at.rewroteAbs
    decreases at.links, |parts|
  {
    hide IsAbsolute, TargetParts;
    if parts != [] && at.isDir {
      if !AtLink(fs, at, parts[0]) {
        var next := Plain(fs, at, parts[0]);
        if next.Some? {
          WalkRewrites(fs, next.value, parts[1..]);
        }
      } else if at.links > 0 {
        var target := fs[at.path + [parts[0]]].target;
        WalkRewrites(fs, LinkStart(at, target), TargetParts(target));
        var end := Walk(fs, LinkStart(at, target), TargetParts(target));
        if end.Some? {
          WalkRewrites(fs, end.value, parts[1..]);
        }
      }
    }
  }

  /** Nothing is answered where there are no absolute links, for the root and for invalid names, and when
      the first attempt failed for one of three reasons. */
  lemma NothingAnswered(fs: FileSystem, name: string, opErr: OpError)
    requires || (forall p :: p in fs && fs[p].Link? ==> !IsAbsolute(fs[p].target))
             || name == "." || !ValidPath(name) || opErr in {NotExist, Invalid, Permission}
    ensures Resolve(fs, name, opErr) == None
  {
    hide Walk, Split;
    if forall p :: p in fs && fs[p].Link? ==> !IsAbsolute(fs[p].target) {
      WalkRewrites(fs, Root, Split(name, '/'));
    }
  }

  /** A link in the root to an absolute path without further links is answered by that path, whether
      something is there or not. */
  lemma AbsoluteLinkAnswered(fs: FileSystem, part: string, end: Place, opErr: OpError)
    requires Sound(fs, end) && end.path != [] && opErr in {NoError, OtherError}
    requires Proper(part) && '/' !in part && [part] in fs && fs[[part]] == Link("/" + Join(end.path, '/'))
    ensures Resolve(fs, part, opErr) == Some(end.path)
  {
    hide Walk, Split, Sound, TargetParts, Join;
    SplitFirst(part, '/', "");
    assert Split(part, '/') == [part] == [part] + [];
    assert [] + [part] == [part];
    AbsoluteEnd(fs, end);
    WalkLink(fs, Root, part, []);
    assert end.path + [] == end.path;
  }

  lemma AbsoluteEnd(fs: FileSystem, end: Place)
    requires Sound(fs, end) && end.path != []
    ensures TargetParts("/" + Join(end.path, '/')) == end.path && IsAbsolute("/" + Join(end.path, '/'))
    ensures var at := Place([], true, false, MAX_SYMLINK_DEPTH - 1, true);
            Walk(fs, at, end.path) == Some(end.(links := MAX_SYMLINK_DEPTH - 1, rewroteAbs := true))
  {
    hide Walk, TargetParts, Join;
    AbsoluteParts(end.path);
    PlainWalk(fs, end, 0, true);
    assert end.path[0..] == end.path && end.path[..0] == [];
    MoreLinks(fs, Place([], true, false, 0, true), end.path, MAX_SYMLINK_DEPTH - 1);
  }

  predicate LinksTo(fs: FileSystem, name: string, target: string) {
    [name] in fs && fs[[name]] == Link("/" + target)
  }

  /** Each name in the root is a link to the next one; the last one is a file. */
  predicate IsChain(fs: FileSystem, names: seq<string>) {
    && names != []
    && (forall i :: 0 <= i < |names| ==> Proper(names[i]) && '/' !in names[i])
    && (forall i, j :: 0 <= i && j == i + 1 < |names| ==> LinksTo(fs, names[i], names[j]))
    && [names[|names| - 1]] in fs && fs[[names[|names| - 1]]] == File
  }

  lemma {:induction false} WalkChain(fs: FileSystem, names: seq<string>, i: nat, links: nat, rewroteAbs: bool)
    requires IsChain(fs, names) && i < |names|
    ensures var hops := |names| - 1 - i;
            Walk(fs, Place([], true, false, links, rewroteAbs), [names[i]])
              == if links < hops then None
                 else Some(Place([names[|names| - 1]], false, false, links - hops, rewroteAbs || hops > 0))
    decreases |names| - i
  {
    hide Walk, TargetParts;
    var at := Place([], true, false, links, rewroteAbs);
    assert [names[i]] + [] == [names[i]] && [] + [names[i]] == [names[i]];
    if i == |names| - 1 {
      WalkInto(fs, at, names[i], []);
    } else {
      var j := i + 1;
      assert LinksTo(fs, names[i], names[j]);
      WalkLink(fs, at, names[i], []);
      JoinOne(names[j]);
      AbsoluteParts([names[j]]);
      assert [names[j]] + [] == [names[j]];
      if links > 0 {
        WalkChain(fs, names, j, links - 1, true);
      }
    }
  }

  /** Up to 40 links are followed, and no more. */
  lemma ChainAnswered(fs: FileSystem, names: seq<string>)
    requires IsChain(fs, names)
    ensures Resolve(fs, names[0], OtherError) ==
              if 1 <= |names| - 1 <= 40 then Some([names[|names| - 1]]) else None
  {
    hide Walk, Split;
    SplitFirst(names[0], '/', "");
    WalkChain(fs, names, 0, MAX_SYMLINK_DEPTH, false);
  }

  /** The bound on links only ever turns success into failure. */
  lemma {:induction false} MoreLinks(fs: FileSystem, at: Place, parts: seq<string>, extra: nat)
    requires Walk(fs, at, parts).Some?
    ensures var end := Walk(fs, at, parts).value;
            Walk(fs, at.(links := at.links + extra), parts) == Some(end.(links := end.links + extra))
    decreases at.links, |parts|
  {
    hide AtLink, Plain, LinkStart, TargetParts;
    if parts != [] {
      var more := at.(links := at.links + extra);
      PlainMore(fs, at, parts[0], extra);
      if !AtLink(fs, at, parts[0]) {
        MoreLinks(fs, Plain(fs, at, parts[0]).value, parts[1..], extra);
      } else {
        LinkExists(fs, at, parts[0]);
        var target := fs[at.path + [parts[0]]].target;
        var start := LinkStart(at, target);
        LinkStartMore(at, target, extra);
        MoreLinks(fs, start, TargetParts(target), extra);
        var mid := Walk(fs, start, TargetParts(target)).value;
        assert Walk(fs, more, parts) == Walk(fs, mid.(links := mid.links + extra), parts[1..]);
        MoreLinks(fs, mid, parts[1..], extra);
      }
    }
  }

  lemma LinkExists(fs: FileSystem, at: Place, part: string)
    requires AtLink(fs, at, part)
    ensures at.path + [part] in fs && fs[at.path + [part]].Link?
  {
  }

  lemma PlainMore(fs: FileSystem, at: Place, part: string, extra: nat)
    ensures var more := at.(links := at.links + extra);
            && AtLink(fs, more, part) == AtLink(fs, at, part)
            && Plain(fs, more, part) == match Plain(fs, at, part) case None => None
                                                                  case Some(n) => Some(n.(links := n.links + extra))
    ensures Plain(fs, at, part).Some? ==> Plain(fs, at, part).value.links == at.links
  {
  }

  lemma LinkStartMore(at: Place, target: string, extra: nat)
    requires at.links > 0
    ensures var start := LinkStart(at, target);
            && start.links == at.links - 1
            && LinkStart(at.(links := at.links + extra), target) == start.(links := start.links + extra)
  {
  }

  // Cycles.

  /** A component of a directory that names a link. */
  datatype LinkAt = LinkAt(dir: Path, part: string)

  ghost predicate IsLink(fs: FileSystem, l: LinkAt) {
    Proper(l.part) && l.dir + [l.part] in fs && fs[l.dir + [l.part]].Link?
  }

  function Target(fs: FileSystem, l: LinkAt): string
    requires IsLink(fs, l)
  {
    fs[l.dir + [l.part]].target
  }

  /** Resolving `l` has to pass `m`: what stands before `m` in the target leads to the directory of `m`
      or nowhere, however many links may be followed. */
  ghost predicate Passes(fs: FileSystem, l: LinkAt, m: LinkAt) {
    IsLink(fs, l) && exists before: seq<string>, after: seq<string> :: PassesAfter(fs, l, m, before, after)
  }

  ghost predicate PassesAfter(fs: FileSystem, l: LinkAt, m: LinkAt, before: seq<string>, after: seq<string>)
    requires IsLink(fs, l)
  {
    && TargetParts(Target(fs, l)) == before + ([m.part] + after)
    && forall at: Place {:trigger LinkStart(at, Target(fs, l))} | at.path == l.dir && at.isDir && at.links > 0 ::
         Walk(fs, LinkStart(at, Target(fs, l)), before).Some? ==>
           Walk(fs, LinkStart(at, Target(fs, l)), before).value.path == m.dir
  }

  /** To resolve a link of the set, another one of the set, or the same, has to be passed. */
  ghost predicate Circular(fs: FileSystem, cycle: iset<LinkAt>) {
    forall l {:trigger HasNext(fs, cycle, l)} :: l in cycle ==> HasNext(fs, cycle, l)
  }

  ghost predicate HasNext(fs: FileSystem, cycle: iset<LinkAt>, l: LinkAt) {
    exists m :: m in cycle && Passes(fs, l, m)
  }

  lemma NextLink(fs: FileSystem, cycle: iset<LinkAt>, l: LinkAt) returns (m: LinkAt)
    requires Circular(fs, cycle) && l in cycle
    ensures m in cycle && Passes(fs, l, m) && IsLink(fs, l)
  {
    assert HasNext(fs, cycle, l);
    m :| m in cycle && Passes(fs, l, m);
  }

  lemma LinkStep(fs: FileSystem, at: Place, part: string, rest: seq<string>)
    requires IsLink(fs, LinkAt(at.path, part)) && at.isDir
    ensures at.links == 0 ==> Walk(fs, at, [part] + rest) == None
    ensures at.links > 0 ==>
              var target := Target(fs, LinkAt(at.path, part));
              && LinkStart(at, target).links < at.links
              && (Walk(fs, LinkStart(at, target), TargetParts(target)) == None ==> Walk(fs, at, [part] + rest) == None)
  {
    assert ([part] + rest)[0] == part && ([part] + rest)[1..] == rest;
  }

  lemma WalkOnFails(fs: FileSystem, start: Place, before: seq<string>, rest: seq<string>)
    requires Walk(fs, start, before).Some? ==> Walk(fs, Walk(fs, start, before).value, rest) == None
    ensures Walk(fs, start, before + rest) == None
  {
    WalkOn(fs, start, before, rest);
  }

  /** Links that pass each other in a circle, of any length, directly or behind other components, are
      all refused, however many links may be followed. */
  lemma {:induction false} CyclicLinksRefused(fs: FileSystem, cycle: iset<LinkAt>, at: Place, part: string, rest: seq<string>)
    requires Circular(fs, cycle) && LinkAt(at.path, part) in cycle && at.isDir
    ensures Walk(fs, at, [part] + rest) == None
    decreases at.links
  {
    hide *;
    var l := LinkAt(at.path, part);
    var m := NextLink(fs, cycle, l);
    LinkStep(fs, at, part, rest);
    if at.links > 0 {
      var start := LinkStart(at, Target(fs, l));
      var before, after := PassesSplit(fs, l, m, at);
      var end := Walk(fs, start, before);
      if end.Some? {
        if end.value.isDir {
          CyclicLinksRefused(fs, cycle, end.value, m.part, after);
        } else {
          WalkNoDirectory(fs, end.value, [m.part] + after);
          assert [m.part] + after != [];
        }
      }
      WalkOnFails(fs, start, before, [m.part] + after);
    }
  }

  lemma PassesSplit(fs: FileSystem, l: LinkAt, m: LinkAt, at: Place) returns (before: seq<string>, after: seq<string>)
    requires Passes(fs, l, m) && IsLink(fs, l) && at.path == l.dir && at.isDir && at.links > 0
    ensures TargetParts(Target(fs, l)) == before + ([m.part] + after)
    ensures var end := Walk(fs, LinkStart(at, Target(fs, l)), before); end.Some? ==> end.value.path == m.dir
  {
    hide Walk, TargetParts, LinkStart;
    before, after :| PassesAfter(fs, l, m, before, after);
  }

  /** A link whose target is a single component passes the link of that name in its directory. */
  lemma RelativePasses(fs: FileSystem, l: LinkAt, m: LinkAt)
    requires IsLink(fs, l) && Target(fs, l) == m.part && l.dir == m.dir && Proper(m.part) && '/' !in m.part
    ensures Passes(fs, l, m)
  {
    hide Walk;
    FindNone(m.part, '/');
    assert m.part[0] != '/';
    assert TargetParts(m.part) == [m.part] == [] + ([m.part] + []);
    forall p: Place {:trigger LinkStart(p, m.part)} | p.path == l.dir && p.isDir && p.links > 0
      ensures Walk(fs, LinkStart(p, m.part), []) == Some(LinkStart(p, m.part))
    {
      WalkEnd(fs, LinkStart(p, m.part));
    }
    assert PassesAfter(fs, l, m, [], []);
  }

  lemma AbsoluteParts(path: Path)
    requires path != [] && Clean(path)
    ensures TargetParts("/" + Join(path, '/')) == path
  {
    SplitJoin(path, '/');
    FindNone("", '/');
    assert ("/" + Join(path, '/'))[1..] == Join(path, '/');
    assert Proper(path[0]);
    assert Join(path, '/') != "";
  }

  /** A link to an absolute path passes the link of that path, in a directory reached over no links. */
  lemma AbsolutePasses(fs: FileSystem, l: LinkAt, at: Place, m: LinkAt)
    requires IsLink(fs, l) && Sound(fs, at) && at.isDir && at.path == m.dir && Proper(m.part) && '/' !in m.part
    requires Target(fs, l) == "/" + Join(m.dir + [m.part], '/')
    ensures Passes(fs, l, m)
  {
    hide Walk, TargetParts;
    var target, whole := Target(fs, l), m.dir + [m.part];
    AbsoluteParts(whole);
    assert whole == m.dir + ([m.part] + []);
    forall p: Place {:trigger LinkStart(p, target)} | p.path == l.dir && p.isDir && p.links > 0
      ensures Walk(fs, LinkStart(p, target), m.dir).Some? ==> Walk(fs, LinkStart(p, target), m.dir).value.path == m.dir
    {
      DirectWalk(fs, at, LinkStart(p, target), 0);
      assert at.path[0..] == at.path;
    }
    assert PassesAfter(fs, l, m, m.dir, []);
  }

  /** So a link to itself is refused in any directory: a relative one, or an absolute one that names the
      directory as it is. */
  lemma SelfLinkRefused(fs: FileSystem, at: Place, part: string, rest: seq<string>)
    requires Sound(fs, at) && at.isDir && Proper(part) && '/' !in part
    requires at.path + [part] in fs && fs[at.path + [part]] in {Link(part), Link("/" + Join(at.path + [part], '/'))}
    ensures Walk(fs, at, [part] + rest) == None
  {
    hide Walk, TargetParts, Passes, Sound;
    var l := LinkAt(at.path, part);
    if Target(fs, l) == part {
      RelativePasses(fs, l, l);
    } else {
      AbsolutePasses(fs, l, at, l);
    }
    assert l in iset{l};
    CyclicLinksRefused(fs, iset{l}, at, part, rest);
  }

  /** Walking down a sound path from the root leads to it. */
  lemma {:induction false} DirectWalk(fs: FileSystem, end: Place, from: Place, n: nat)
    requires Sound(fs, end) && end.isDir && n <= |end.path|
    requires from.path == end.path[..n] && from.isDir
    ensures Walk(fs, from, end.path[n..]).Some? && Walk(fs, from, end.path[n..]).value.path == end.path
    decreases |end.path| - n
  {
    var p := end.path;
    if n < |p| {
      assert p[n..][0] == p[n] && p[n..][1..] == p[n + 1..] && p[..n] + [p[n]] == p[..n + 1];
      assert n + 1 == |p| ==> p[..n + 1] == p;
      DirectWalk(fs, end, from.(path := p[..n + 1]), n + 1);
    } else {
      assert p[..n] == p;
    }
  }

  /** Joining a component to a rendered clean path renders the longer path. */
  lemma RenderChild(p: Path, part: string)
    requires Clean(p)
    ensures Render(p + [part]) == if Render(p) == "." then part else Render(p) + "/" + part
  {
    RenderDot(p);
    if p != [] {
      JoinLast(p, part, '/');
    }
  }

  lemma RenderDot(p: Path)
    requires Clean(p)
    ensures Render(p) == "." <==> p == []
  {
    if p != [] {
      SplitJoin(p, '/');
      FindNone(".", '/');
    }
  }

  lemma {:induction false} JoinLast(parts: seq<string>, last: string, c: char)
    requires parts != []
    ensures Join(parts + [last], c) == Join(parts, c) + [c] + last
  {
    if |parts| > 1 {
      JoinLast(parts[1..], last, c);
      assert (parts + [last])[1..] == parts[1..] + [last];
    } else {
      assert (parts + [last])[1..] == [last];
    }
  }

  lemma DirectoryIsClean(name: string)
    requires ValidPath(name)
    ensures Clean(Split(name, '/')[..|Split(name, '/')| - 1])
  {
    hide Split;
    if name == "." {
      SplitFirst(".", '/', "");
    }
  }

  /** Lstat and ReadLink resolve only the directory part and keep the last component as it is. */
  method ResolveParentInRoot(fs: FileSystem, name: string, opErr: OpError) returns (resolved: string, ok: bool)
    ensures var parts := Split(name, '/');
            var dir := Resolve(fs, Render(parts[..|parts| - 1]), opErr);
            && (ok <==> ValidPath(name) && |parts| > 1 && dir.Some?)
            && resolved == if ok then Render(dir.value + [parts[|parts| - 1]]) else ""
  {
    hide *;
    if !ValidPath(name) {
      return "", false;
    }
    var parts := Split(name, '/');
    var dir := Render(parts[..|parts| - 1]);
    DirectoryIsClean(name);
    RenderDot(parts[..|parts| - 1]);
    if dir == "." {
      return "", false;
    }
    resolved, ok := ResolveInRoot(fs, dir, opErr);
    if !ok {
      return "", false;
    }
    ResolvedIsLinkFree(fs, dir, opErr);
    RenderChild(Resolve(fs, dir, opErr).value, parts[|parts| - 1]);
    return if resolved == "." then parts[|parts| - 1] else resolved + "/" + parts[|parts| - 1], true;
  }
}
