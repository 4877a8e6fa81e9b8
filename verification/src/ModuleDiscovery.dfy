/** internal/mavenutil/maven.go DiscoverModules: local modules reachable over module and parent tags. */
module ModuleDiscovery {
  datatype ProjectKey = ProjectKey(group: string, artifact: string, version: string)
  {
    predicate Complete() { group != "" && artifact != "" && version != "" }
  }

  datatype Parent = Parent(key: ProjectKey, relativePath: string)

  datatype Project = Project(key: ProjectKey, modules: seq<string>, parent: Parent)

  /** A file is a pom.xml that decodes to a project, or one that cannot be read or decoded. */
  datatype Node = Directory | Pom(project: Project) | Undecodable

  /** The scan root's files; `join` and `dir` are the path operations. */
  datatype World = World(files: map<string, Node>, join: (string, string) -> string, dir: string -> string)

  predicate IsFile(w: World, path: string) {
    path in w.files && !w.files[path].Directory?
  }

  predicate IsDirectory(w: World, path: string) {
    path in w.files && w.files[path].Directory?
  }

  /** The module tag `m` of the project at `path` means `q`: the file of that name, or else the pom.xml in
      the directory of that name, whether or not it exists. */
  predicate ModuleAt(w: World, path: string, m: string, q: string) {
    var p := w.join(w.dir(path), m);
    if IsFile(w, p) then q == p else q == w.join(p, "pom.xml")
  }

  /** The relative path of the parent of the project at `path`, "../pom.xml" if it is empty, leads to `q`:
      an existing file, or an existing pom.xml in a directory. */
  predicate ParentAt(w: World, path: string, relativePath: string, q: string) {
    var p := w.join(w.dir(path), if relativePath == "" then "../pom.xml" else relativePath);
    (IsFile(w, p) && q == p) || (IsDirectory(w, p) && q == w.join(p, "pom.xml") && q in w.files)
  }

  /** A tag of the project at `path` leads to `q`. */
  ghost predicate Leads(w: World, path: string, q: string) {
    && path in w.files && w.files[path].Pom?
    && var project := w.files[path].project;
       || (exists m :: m in project.modules && ModuleAt(w, path, m, q))
       || (project.parent.key.Complete() && q != "" && ParentAt(w, path, project.parent.relativePath, q))
  }

  /** ParentPOMPath; "" if there is no local parent. */
  method ParentPath(w: World, current: string, relativePath0: string) returns (parent: string)
    ensures forall q :: q != "" ==> (q == parent <==> ParentAt(w, current, relativePath0, q))
  {
    var relativePath := relativePath0;
    if relativePath == "" {
      relativePath := "../pom.xml";
    }
    var path := w.join(w.dir(current), relativePath);
    if path in w.files {
      if !w.files[path].Directory? {
        return path;
      }
      path := w.join(path, "pom.xml");
      if path in w.files {
        return path;
      }
    }
    return "";
  }

  ghost predicate Closed(w: World, initial: seq<string>, s: iset<string>) {
    && (forall p :: p in initial ==> p in s)
    && (forall p, q :: p in s && Leads(w, p, q) ==> q in s)
  }

  /** Whether the project at `path` is registered with the client. */
  predicate Registers(w: World, path: string) {
    path in w.files && w.files[path].Pom? && w.files[path].project.key.Complete()
  }

  /** Queues where the tags of the project at `path` lead. */
  method Follow(w: World, path: string, rest: seq<string>) returns (queue: seq<string>)
    requires path in w.files && w.files[path].Pom?
    ensures forall q :: q in queue <==> q in rest || Leads(w, path, q)
  {
    var project := w.files[path].project;
    queue := rest;
    var dir := w.dir(path);
    for i := 0 to |project.modules|
      invariant forall q :: q in queue <==>
                  q in rest || exists j :: 0 <= j < i && ModuleAt(w, path, project.modules[j], q)
    {
      var modulePath := w.join(dir, project.modules[i]);
      if modulePath in w.files && !w.files[modulePath].Directory? {
        queue := queue + [modulePath];
      } else {
        queue := queue + [w.join(modulePath, "pom.xml")];
      }
    }
    if project.parent.key.Complete() {
      var parentPath := ParentPath(w, path, project.parent.relativePath);
      if parentPath != "" {
        queue := queue + [parentPath];
      }
    }
  }

  /** Visits exactly the least set that contains the initial paths and is closed under the tags, and
      registers each complete project in it exactly once. */
  method DiscoverModules(w: World, initial: seq<string>) returns (visited: set<string>, registered: seq<string>)
    ensures Closed(w, initial, iset p | p in visited)
    ensures forall s: iset<string> :: Closed(w, initial, s) ==> forall p :: p in visited ==> p in s
    ensures forall p :: p in registered <==> p in visited && Registers(w, p)
    ensures forall i, j :: 0 <= i < j < |registered| ==> registered[i] != registered[j]
  {
    hide ModuleAt, ParentAt;
    visited, registered := {}, [];
    var queue := initial;
    while |queue| > 0
      invariant forall p :: p in initial ==> p in visited || p in queue
      invariant forall p, q :: p in visited && Leads(w, p, q) ==> q in visited || q in queue
      invariant forall s: iset<string> :: Closed(w, initial, s) ==> forall p :: p in visited || p in queue ==> p in s
      invariant forall p :: p in registered <==> p in visited && Registers(w, p)
      invariant forall i, j :: 0 <= i < j < |registered| ==> registered[i] != registered[j]
      decreases w.files.Keys - visited, |queue|
    {
      ghost var before := queue;
      var path := queue[0];
      queue := queue[1..];
      assert before == [path] + queue;
      if path in visited {
        continue;
      }
      ghost var seen := visited;
      visited := visited + {path};
      if path !in w.files {
        assert w.files.Keys - visited == w.files.Keys - seen;
        continue;
      }
      if !w.files[path].Pom? {
        continue;
      }
      var project := w.files[path].project;
      if project.key.Complete() {
        registered := registered + [path];
      }
      queue := Follow(w, path, queue);
    }
  }

  /** So all that the tags of a visited project name is visited, whatever else it names. */
  lemma TagsAreVisited(w: World, initial: seq<string>, visited: set<string>, path: string)
    requires Closed(w, initial, iset p | p in visited) && path in visited && path in w.files && w.files[path].Pom?
    ensures forall m :: m in w.files[path].project.modules ==>
              var p := w.join(w.dir(path), m);
              if p in w.files && !w.files[p].Directory? then p in visited else w.join(p, "pom.xml") in visited
    ensures var parent := w.files[path].project.parent;
            parent.key.Complete() ==>
              var p := w.join(w.dir(path), if parent.relativePath == "" then "../pom.xml" else parent.relativePath);
              && (p in w.files && !w.files[p].Directory? && p != "" ==> p in visited)
              && (p in w.files && w.files[p].Directory? && w.join(p, "pom.xml") in w.files && w.join(p, "pom.xml") != "" ==>
                    w.join(p, "pom.xml") in visited)
  {
    var s := iset p | p in visited;
    assert path in s;
    forall m | m in w.files[path].project.modules
      ensures var p := w.join(w.dir(path), m);
              if p in w.files && !w.files[p].Directory? then p in s else w.join(p, "pom.xml") in s
    {
      var p := w.join(w.dir(path), m);
      var q := if p in w.files && !w.files[p].Directory? then p else w.join(p, "pom.xml");
      assert ModuleAt(w, path, m, q);
      assert Leads(w, path, q);
    }
    var parent := w.files[path].project.parent;
    var p := w.join(w.dir(path), if parent.relativePath == "" then "../pom.xml" else parent.relativePath);
    if parent.key.Complete() && p in w.files {
      var q := if w.files[p].Directory? then w.join(p, "pom.xml") else p;
      if q in w.files && q != "" {
        assert ParentAt(w, path, parent.relativePath, q);
        assert Leads(w, path, q);
        assert q in s;
      }
    }
  }

  /** A chain of tags that starts at an initial path. */
  ghost predicate Chain(w: World, initial: seq<string>, chain: seq<string>) {
    && chain != [] && chain[0] in initial
    && forall i :: 0 < i < |chain| ==> Leads(w, chain[i - 1], chain[i])
  }

  ghost predicate Reachable(w: World, initial: seq<string>, p: string) {
    exists chain :: Chain(w, initial, chain) && chain[|chain| - 1] == p
  }

  lemma ReachableIsClosed(w: World, initial: seq<string>)
    ensures Closed(w, initial, iset q | Reachable(w, initial, q))
  {
    hide ModuleAt, ParentAt;
    forall q | q in initial ensures Reachable(w, initial, q) {
      assert Chain(w, initial, [q]);
    }
    forall q, r | Reachable(w, initial, q) && Leads(w, q, r) ensures Reachable(w, initial, r) {
      var chain :| Chain(w, initial, chain) && chain[|chain| - 1] == q;
      assert Chain(w, initial, chain + [r]);
    }
  }

  /** The least closed set, which DiscoverModules visits, is what chains of tags reach, over cycles or not. */
  lemma LeastIsReachable(w: World, initial: seq<string>, visited: set<string>, p: string)
    requires Closed(w, initial, iset q | q in visited)
    requires forall s: iset<string> :: Closed(w, initial, s) ==> forall q :: q in visited ==> q in s
    ensures p in visited <==> Reachable(w, initial, p)
  {
    hide ModuleAt, ParentAt, Closed;
    ReachableIsClosed(w, initial);
    assert p in visited ==> p in (iset q | Reachable(w, initial, q));
    if Reachable(w, initial, p) {
      var chain :| Chain(w, initial, chain) && chain[|chain| - 1] == p;
      ChainStaysInside(w, initial, visited, chain);
    }
  }

  lemma {:induction false} ChainStaysInside(w: World, initial: seq<string>, visited: set<string>, chain: seq<string>)
    requires Closed(w, initial, iset q | q in visited) && Chain(w, initial, chain)
    ensures chain[|chain| - 1] in visited
  {
    if |chain| > 1 {
      var front, r := chain[..|chain| - 1], chain[|chain| - 1];
      ChainStaysInside(w, initial, visited, front);
      var q, s := front[|front| - 1], iset p | p in visited;
      assert q in s && Leads(w, q, r);
      assert r in s;
    } else {
      assert chain[0] in (iset p | p in visited);
    }
  }
}
