/** Path lookup over vnodes: VFS::get_file of kernel/src/fs/vfs.cpp and resolve_link of
    kernel/src/fs/vnodefs.cpp. Vnodes are numbered; parents, children and link targets may form
    any graph, cyclic links included. */
module PathLookup {
  import opened Wrappers

  datatype Errno = ENOENT | ELOOP | ENOTDIR | ENOLINK | Other(code: int)

  datatype Result<+T> = Ok(value: T) | Err(errno: Errno)

  datatype Type = DIRECTORY | FILE | BLOCK_DEVICE | LINK | MOUNT | CHARACTER_DEVICE

  type Id = nat

  datatype Node = Node(kind: Type, parent: Option<Id>, children: map<string, Id>, destination: string)

  /** `fetch` is the answer of a filesystem's own get_file for a name that is not among the
      children yet; a filesystem of vnodes answers ENOENT. */
  datatype Graph = Graph(root: Id, nodes: Id -> Node, fetch: (Id, string) -> Result<Id>)

  datatype Flags = Flags(resolveLink: bool, followLinks: bool)

  const BOTH: Flags := Flags(true, true)

  const MAX_DEPTH: int := 128

  // ----- The parts of a path -----

  function Separator(s: string): (i: nat)
    ensures i <= |s| && (forall k | 0 <= k < i :: s[k] != '/') && (i < |s| ==> s[i] == '/')
  {
    if s == "" || s[0] == '/' then 0 else 1 + Separator(s[1..])
  }

  /** What lies between the separators: one part more than there are separators. */
  function Split(s: string): (parts: seq<string>)
    ensures |parts| > 0
    decreases |s|
  {
    var i := Separator(s);
    if i == |s| then [s] else [s[..i]] + Split(s[i + 1..])
  }

  function Parts(path: string): seq<string> {
    if path == "" then [] else Split(path)
  }

  /** Joining with a separator joins the lists of parts. */
  lemma {:induction false} SplitJoin(p: string, q: string)
    ensures Split(p + "/" + q) == Split(p) + Split(q)
    decreases |p|
  {
    var i := Separator(p);
    JoinedAt(p, q, i);
    if i < |p| {
      SplitJoin(p[i + 1..], q);
      Associate([p[..i]], Split(p[i + 1..]), Split(q));
    }
  }

  lemma Associate(a: seq<string>, b: seq<string>, c: seq<string>)
    ensures a + (b + c) == a + b + c
  {
  }

  lemma JoinedAt(p: string, q: string, i: nat)
    requires i <= |p| && (forall k | 0 <= k < i :: p[k] != '/') && (i < |p| ==> p[i] == '/')
    ensures var s := p + "/" + q;
            && (forall k | 0 <= k < i :: s[k] != '/') && s[i] == '/' && s[..i] == p[..i]
            && s[i + 1..] == (if i == |p| then q else p[i + 1..] + "/" + q) && p[..|p|] == p
  {
  }

  // ----- What a path means -----

  /** What a link stands for, if it stands for anything. */
  type Resolver = Id -> Result<Id>

  /** The directory a part is looked up in. */
  function Enter(g: Graph, node: Id, flags: Flags, follow: Resolver): Result<Id> {
    var target := if g.nodes(node).kind != LINK then Ok(node)
                  else if flags.followLinks then follow(node) else Err(ELOOP);
    if target.Ok? && g.nodes(target.value).kind != DIRECTORY then Err(ENOTDIR) else target
  }

  /** One part, in directory `dir`. */
  function Child(g: Graph, dir: Id, part: string): Result<Id> {
    if part == "" || part == "." then Ok(dir)
    else if part == ".." then (if g.nodes(dir).parent.Some? then Ok(g.nodes(dir).parent.value) else Ok(dir))
    else if part in g.nodes(dir).children then Ok(g.nodes(dir).children[part])
    else g.fetch(dir, part)
  }

  function Step(g: Graph, node: Id, part: string, flags: Flags, follow: Resolver): Result<Id> {
    var dir := Enter(g, node, flags, follow);
    if dir.Err? then dir else Child(g, dir.value, part)
  }

  function Finish(g: Graph, node: Id, flags: Flags, follow: Resolver): Result<Id> {
    if g.nodes(node).kind == LINK && flags.resolveLink then follow(node) else Ok(node)
  }

  function Walk(g: Graph, node: Id, parts: seq<string>, flags: Flags, follow: Resolver): Result<Id>
    decreases |parts|
  {
    if parts == [] then Finish(g, node, flags, follow)
    else
      var next := Step(g, node, parts[0], flags, follow);
      if next.Err? then next else Walk(g, next.value, parts[1..], flags, follow)
  }

  function Budget(depth: int): nat {
    if depth < MAX_DEPTH then MAX_DEPTH - depth else 0
  }

  function Base(g: Graph, root: Option<Id>): Id {
    if root.None? then g.root else root.value
  }

  /** The destination of a link, seen from its parent, one level deeper. */
  function Follow(g: Graph, link: Id, depth: int): Result<Id>
    decreases Budget(depth), 0
  {
    if depth >= MAX_DEPTH then Err(ELOOP)
    else Walk(g, Base(g, g.nodes(link).parent), Parts(g.nodes(link).destination), BOTH, Links(g, depth + 1))
  }

  function Links(g: Graph, depth: int): Resolver
    decreases Budget(depth), 1
  {
    (link: Id) => Follow(g, link, depth)
  }

  function Lookup(g: Graph, node: Id, parts: seq<string>, flags: Flags, depth: int): Result<Id> {
    Walk(g, node, parts, flags, Links(g, depth))
  }

  // ----- The code -----

  method ResolveLink(g: Graph, link: Id, depth: int) returns (r: Result<Id>)
    ensures r == if g.nodes(link).kind == LINK then Follow(g, link, depth) else Err(ENOLINK)
    decreases Budget(depth), 0
  {
    if g.nodes(link).kind != LINK { return Err(ENOLINK); }
    if depth >= MAX_DEPTH { return Err(ELOOP); }
    r := GetFile(g, g.nodes(link).parent, g.nodes(link).destination, BOTH, depth + 1);
  }

  /** The body of the loop of get_file. */
  method StepInto(g: Graph, node: Id, part: string, flags: Flags, depth: int) returns (r: Result<Id>)
    ensures r == Step(g, node, part, flags, Links(g, depth))
    decreases Budget(depth), 1
  {
    var root := node;
    if g.nodes(root).kind == LINK {
      if !flags.followLinks { return Err(ELOOP); }
      var dest := ResolveLink(g, root, depth);
      if dest.Err? { return dest; }
      root := dest.value;
    }
    if g.nodes(root).kind != DIRECTORY { return Err(ENOTDIR); }
    if |part| == 0 || part == "." { return Ok(root); }
    if part == ".." {
      if g.nodes(root).parent.Some? { root := g.nodes(root).parent.value; }
      return Ok(root);
    }
    if part in g.nodes(root).children { return Ok(g.nodes(root).children[part]); }
    r := g.fetch(root, part);
  }

  /** get_file finds what the path means, and ends on every graph. */
  method GetFile(g: Graph, start: Option<Id>, path: string, flags: Flags, depth: int) returns (r: Result<Id>)
    ensures r == Lookup(g, Base(g, start), Parts(path), flags, depth)
    decreases Budget(depth), 3
  {
    var root: Id := Base(g, start);
    var pathPtr: nat, nextSeparator: nat := 0, 0;
    ghost var goal := Lookup(g, root, Parts(path), flags, depth);
    assert path[0..] == path;
    while nextSeparator < |path|
      invariant pathPtr <= |path| + 1 && Pending(g, goal, root, path, pathPtr, nextSeparator, flags, depth)
      decreases |path| + 1 - pathPtr
    {
      var length;
      r, length := NextPart(g, goal, root, path, pathPtr, nextSeparator, flags, depth);
      if r.Err? { return; }
      root := r.value;
      nextSeparator := pathPtr + length;
      pathPtr := pathPtr + length + 1;
    }
    r := FinishAt(g, root, flags, depth);
  }

  /** The separator after `p`, and the part before it. */
  method NextPart(g: Graph, ghost goal: Result<Id>, root: Id, path: string, p: nat, sep: nat, flags: Flags, depth: int)
    returns (r: Result<Id>, length: nat)
    requires Pending(g, goal, root, path, p, sep, flags, depth) && sep < |path|
    ensures p + length <= |path|
    ensures r.Err? ==> goal == r
    ensures r.Ok? ==> Pending(g, goal, r.value, path, p + length + 1, p + length, flags, depth)
    decreases Budget(depth), 2
  {
    length := Separator(path[p..]);
    r := StepInto(g, root, path[p..p + length], flags, depth);
    PendingStep(g, goal, root, path, p, sep, length, flags, depth, r);
  }

  /** The loop invariant: the rest of the path from `root` leads to what the whole path means. */
  predicate Pending(g: Graph, goal: Result<Id>, root: Id, path: string, p: nat, sep: nat, flags: Flags, depth: int) {
    && (sep < |path| ==> p <= |path|)
    && goal == Walk(g, root, Rest(path, p, sep), flags, Links(g, depth))
  }

  lemma PendingStep(g: Graph, goal: Result<Id>, root: Id, path: string, p: nat, sep: nat, length: nat, flags: Flags, depth: int,
                    r: Result<Id>)
    requires Pending(g, goal, root, path, p, sep, flags, depth) && sep < |path|
    requires length == Separator(path[p..]) && r == Step(g, root, path[p..p + length], flags, Links(g, depth))
    ensures p + length <= |path|
    ensures r.Err? ==> goal == r
    ensures r.Ok? ==> Pending(g, goal, r.value, path, p + length + 1, p + length, flags, depth)
  {
    LoopStep(g, root, path, p, length, flags, Links(g, depth));
  }

  /** The end of get_file. */
  method FinishAt(g: Graph, root: Id, flags: Flags, depth: int) returns (r: Result<Id>)
    ensures r == Finish(g, root, flags, Links(g, depth))
    decreases Budget(depth), 1
  {
    if g.nodes(root).kind == LINK && flags.resolveLink {
      r := ResolveLink(g, root, depth);
    } else {
      r := Ok(root);
    }
  }

  lemma WalkStep(g: Graph, node: Id, part: string, rest: seq<string>, flags: Flags, follow: Resolver)
    ensures var next := Step(g, node, part, flags, follow);
            Walk(g, node, [part] + rest, flags, follow) == if next.Err? then next else Walk(g, next.value, rest, flags, follow)
  {
    assert ([part] + rest)[1..] == rest;
  }

  /** The parts still to do when the last separator found was at `sep`. */
  function Rest(path: string, p: nat, sep: nat): seq<string>
    requires sep < |path| ==> p <= |path|
  {
    if sep < |path| then Split(path[p..]) else []
  }

  lemma RestStep(path: string, p: nat, length: nat)
    requires p <= |path| && length == Separator(path[p..])
    ensures p + length <= |path|
    ensures Split(path[p..]) == [path[p..p + length]] + Rest(path, p + length + 1, p + length)
  {
    if p + length < |path| {
      assert path[p..][length + 1..] == path[p + length + 1..] && path[p..][..length] == path[p..p + length];
    } else {
      assert path[p..p + length] == path[p..];
    }
  }

  lemma LoopStep(g: Graph, root: Id, path: string, p: nat, length: nat, flags: Flags, follow: Resolver)
    requires p <= |path| && length == Separator(path[p..])
    ensures p + length <= |path|
    ensures Walk(g, root, Split(path[p..]), flags, follow)
         == Then(g, Step(g, root, path[p..p + length], flags, follow), Rest(path, p + length + 1, p + length), flags, follow)
  {
    RestStep(path, p, length);
    WalkStep(g, root, path[p..p + length], Rest(path, p + length + 1, p + length), flags, follow);
  }

  // ----- What holds of every lookup -----

  /** With resolve_link set a lookup never answers with a link, whatever the links form. */
  lemma {:induction false} NeverLink(g: Graph, node: Id, parts: seq<string>, flags: Flags, depth: int)
    requires flags.resolveLink && Lookup(g, node, parts, flags, depth).Ok?
    ensures g.nodes(Lookup(g, node, parts, flags, depth).value).kind != LINK
    decreases Budget(depth), 1, |parts|
  {
    if parts == [] {
      if g.nodes(node).kind == LINK { FollowNeverLink(g, node, depth); }
    } else {
      NeverLink(g, Step(g, node, parts[0], flags, Links(g, depth)).value, parts[1..], flags, depth);
    }
  }

  lemma {:induction false} FollowNeverLink(g: Graph, link: Id, depth: int)
    requires Follow(g, link, depth).Ok?
    ensures g.nodes(Follow(g, link, depth).value).kind != LINK
    decreases Budget(depth), 0, 0
  {
    NeverLink(g, Base(g, g.nodes(link).parent), Parts(g.nodes(link).destination), BOTH, depth + 1);
  }

  lemma {:induction false} FollowShallower(g: Graph, link: Id, depth: int, from: int)
    requires from <= depth && Follow(g, link, depth) != Err(ELOOP)
    ensures Follow(g, link, from) == Follow(g, link, depth)
    decreases Budget(depth), 0, 0
  {
    Shallower(g, Base(g, g.nodes(link).parent), Parts(g.nodes(link).destination), BOTH, depth + 1, from + 1);
  }

  /** The depth a lookup starts from changes its answer only to or from ELOOP. */
  lemma {:induction false} Shallower(g: Graph, node: Id, parts: seq<string>, flags: Flags, depth: int, from: int)
    requires from <= depth && Lookup(g, node, parts, flags, depth) != Err(ELOOP)
    ensures Lookup(g, node, parts, flags, from) == Lookup(g, node, parts, flags, depth)
    decreases Budget(depth), 1, |parts|
  {
    if Links(g, depth)(node) != Err(ELOOP) { FollowShallower(g, node, depth, from); }
    if parts != [] {
      var next := Step(g, node, parts[0], flags, Links(g, depth));
      if next.Ok? { Shallower(g, next.value, parts[1..], flags, depth, from); }
    }
  }

  function Then(g: Graph, r: Result<Id>, parts: seq<string>, flags: Flags, follow: Resolver): Result<Id> {
    if r.Err? then r else Walk(g, r.value, parts, flags, follow)
  }

  /** A path can be looked up in two stages, leaving a link in the middle as it is. */
  lemma {:induction false} TwoStages(g: Graph, node: Id, p: seq<string>, q: seq<string>, flags: Flags, follow: Resolver)
    ensures Walk(g, node, p + q, flags, follow)
         == Then(g, Walk(g, node, p, flags.(resolveLink := false), follow), q, flags, follow)
    decreases |p|
  {
    if p == [] {
      assert p + q == q;
    } else {
      assert (p + q)[1..] == p[1..] + q;
      var next := Step(g, node, p[0], flags, follow);
      if next.Ok? { TwoStages(g, next.value, p[1..], q, flags, follow); }
    }
  }

  /** A link in the middle may as well be resolved first. */
  lemma ResolvedFirst(g: Graph, node: Id, q: seq<string>, depth: int)
    requires q != []
    ensures var follow := Links(g, depth);
            Walk(g, node, q, BOTH, follow) == Then(g, Finish(g, node, BOTH, follow), q, BOTH, follow)
  {
    if g.nodes(node).kind == LINK && Follow(g, node, depth).Ok? {
      FollowNeverLink(g, node, depth);
      assert Enter(g, node, BOTH, Links(g, depth)) == Enter(g, Follow(g, node, depth).value, BOTH, Links(g, depth));
    }
  }

  lemma FinishAfter(g: Graph, node: Id, p: seq<string>, follow: Resolver)
    ensures var r := Walk(g, node, p, BOTH.(resolveLink := false), follow);
            Walk(g, node, p, BOTH, follow) == if r.Err? then r else Finish(g, r.value, BOTH, follow)
  {
    TwoStages(g, node, p, [], BOTH, follow);
    assert p + [] == p;
  }

  /** Looking up "p/q" is looking up q from what p is. */
  lemma Joined(g: Graph, node: Id, p: string, q: string, depth: int)
    requires p != "" && q != ""
    ensures Lookup(g, node, Parts(p + "/" + q), BOTH, depth)
         == Then(g, Lookup(g, node, Parts(p), BOTH, depth), Parts(q), BOTH, Links(g, depth))
  {
    var follow := Links(g, depth);
    SplitJoin(p, q);
    TwoStages(g, node, Split(p), Split(q), BOTH, follow);
    FinishAfter(g, node, Split(p), follow);
    var r := Walk(g, node, Split(p), BOTH.(resolveLink := false), follow);
    if r.Ok? { ResolvedFirst(g, r.value, Split(q), depth); }
  }

  /** A separator in front changes nothing: a path that begins with one is looked up from the
      given node too, not from the root of the system. */
  lemma LeadingSeparator(g: Graph, node: Id, q: string, flags: Flags, depth: int)
    requires q != ""
    ensures Lookup(g, node, Parts("/" + q), flags, depth) == Lookup(g, node, Parts(q), flags, depth)
  {
    var follow := Links(g, depth);
    SplitJoin("", q);
    assert "" + "/" + q == "/" + q;
    assert Split("") == [""];
    WalkStep(g, node, "", Split(q), flags, follow);
    var dir := Enter(g, node, flags, follow);
    if dir.Ok? { assert Enter(g, dir.value, flags, follow) == dir; }
  }

  // ----- What the single parts mean -----

  /** The directory above; the one at the top is above itself. */
  function Above(g: Graph, dir: Id): (up: Id)
    ensures g.nodes(dir).parent == Some(up) || (g.nodes(dir).parent == None && up == dir)
  {
    if g.nodes(dir).parent.Some? then g.nodes(dir).parent.value else dir
  }

  /** In a directory: "." and the empty part stay, ".." goes to the parent if there is one, a name
      goes to the child with that name, and any other name to what the filesystem answers. */
  lemma PartInDirectory(g: Graph, dir: Id, part: string, rest: seq<string>, flags: Flags, depth: int)
    requires g.nodes(dir).kind == DIRECTORY
    ensures var all := Lookup(g, dir, [part] + rest, flags, depth);
            && (part == "" || part == "." ==> all == Lookup(g, dir, rest, flags, depth))
            && (part == ".." ==> all == Lookup(g, Above(g, dir), rest, flags, depth))
            && (part !in {"", ".", ".."} && part in g.nodes(dir).children ==>
                all == Lookup(g, g.nodes(dir).children[part], rest, flags, depth))
            && (part !in {"", ".", ".."} && part !in g.nodes(dir).children ==>
                match g.fetch(dir, part)
                case Ok(found) => all == Lookup(g, found, rest, flags, depth)
                case Err(e) => all == Err(e))
  {
    WalkStep(g, dir, part, rest, flags, Links(g, depth));
  }

  /** Nothing can be looked up in a file or a device. */
  lemma PartInFile(g: Graph, node: Id, parts: seq<string>, flags: Flags, depth: int)
    requires g.nodes(node).kind != DIRECTORY && g.nodes(node).kind != LINK && parts != []
    ensures Lookup(g, node, parts, flags, depth) == Err(ENOTDIR)
  {
  }

  /** What a link stands for: its destination, looked up from its parent with all links followed,
      one level deeper, while the depth allows it. */
  function Meant(g: Graph, link: Id, depth: int): Result<Id> {
    var parent := g.nodes(link).parent;
    if depth >= 128 then Err(ELOOP)
    else Lookup(g, if parent.Some? then parent.value else g.root, Parts(g.nodes(link).destination), Flags(true, true), depth + 1)
  }

  lemma FollowMeant(g: Graph, link: Id, depth: int)
    ensures Follow(g, link, depth) == Meant(g, link, depth)
  {
  }

  /** With parts still to come a link is followed if the caller allows it, and what it stands for
      takes its place. */
  lemma PartInLink(g: Graph, link: Id, parts: seq<string>, flags: Flags, depth: int)
    requires g.nodes(link).kind == LINK && parts != []
    ensures !flags.followLinks ==> Lookup(g, link, parts, flags, depth) == Err(ELOOP)
    ensures flags.followLinks ==>
              match Meant(g, link, depth)
              case Ok(there) => Lookup(g, link, parts, flags, depth) == Lookup(g, there, parts, flags, depth)
              case Err(e) => Lookup(g, link, parts, flags, depth) == Err(e)
  {
    FollowMeant(g, link, depth);
    if Follow(g, link, depth).Ok? { FollowNeverLink(g, link, depth); }
  }

  /** At the end of the path a link is replaced only if the caller asks for it. */
  lemma AtTheEnd(g: Graph, node: Id, flags: Flags, depth: int)
    ensures Lookup(g, node, [], flags, depth)
         == if g.nodes(node).kind == LINK && flags.resolveLink then Meant(g, node, depth) else Ok(node)
  {
    FollowMeant(g, node, depth);
  }

  /** Dots in paths: from a directory p, "p/." is p and "p/.." is its parent, or p if it has none. */
  lemma Dots(g: Graph, node: Id, p: string, depth: int)
    requires p != "" && Lookup(g, node, Parts(p), BOTH, depth).Ok?
    requires g.nodes(Lookup(g, node, Parts(p), BOTH, depth).value).kind == DIRECTORY
    ensures var dir := Lookup(g, node, Parts(p), BOTH, depth).value;
            && Lookup(g, node, Parts(p + "/."), BOTH, depth) == Ok(dir)
            && Lookup(g, node, Parts(p + "/.."), BOTH, depth) == Lookup(g, Above(g, dir), [], BOTH, depth)
            && (g.nodes(Above(g, dir)).kind != LINK ==>
                Lookup(g, node, Parts(p + "/.."), BOTH, depth) == Ok(Above(g, dir)))
  {
    var dir := Lookup(g, node, Parts(p), BOTH, depth).value;
    assert p + "/." == p + "/" + "." && p + "/.." == p + "/" + "..";
    Joined(g, node, p, ".", depth);
    Joined(g, node, p, "..", depth);
    assert Parts(".") == ["."] + [] && Parts("..") == [".."] + [];
    PartInDirectory(g, dir, ".", [], BOTH, depth);
    PartInDirectory(g, dir, "..", [], BOTH, depth);
    AtTheEnd(g, dir, BOTH, depth);
    AtTheEnd(g, Above(g, dir), BOTH, depth);
  }

  /** Into a directory and out again: "p/name/.." is p if the child called name is a directory that
      has p as its parent. */
  lemma InAndOut(g: Graph, node: Id, p: string, name: string, dir: Id, depth: int)
    requires p != "" && Lookup(g, node, Parts(p), BOTH, depth) == Ok(dir) && g.nodes(dir).kind == DIRECTORY
    requires Plain(name) && name in g.nodes(dir).children
    requires var child := g.nodes(g.nodes(dir).children[name]); child.kind == DIRECTORY && child.parent == Some(dir)
    ensures Lookup(g, node, Parts(p + "/" + name + "/.."), BOTH, depth) == Ok(dir)
  {
    var child := g.nodes(dir).children[name];
    assert p + "/" + name != "" && Parts(name) == [name] + [];
    Joined(g, node, p, name, depth);
    PartInDirectory(g, dir, name, [], BOTH, depth);
    AtTheEnd(g, child, BOTH, depth);
    Dots(g, node, p + "/" + name, depth);
  }

  // ----- Absolute links -----

  /** What a link to an absolute path should mean: that path from the root of the system. */
  function AbsoluteMeaning(g: Graph, q: string, depth: int): Result<Id> {
    Lookup(g, g.root, Parts("/" + q), BOTH, depth + 1)
  }

  /** A link to "/q" is taken as a link to "q" next to it, and one to "/" as a link to its own
      directory. It means what it should if the link has
      no parent or lies in the root directory. */
  lemma AbsoluteLink(g: Graph, link: Id, q: string, depth: int)
    requires g.nodes(link).destination == "/" + q && depth < MAX_DEPTH
    ensures q != "" ==> Follow(g, link, depth) == Lookup(g, Base(g, g.nodes(link).parent), Parts(q), BOTH, depth + 1)
    ensures q == "" ==> Follow(g, link, depth) == Enter(g, Base(g, g.nodes(link).parent), BOTH, Links(g, depth + 1))
    ensures Base(g, g.nodes(link).parent) == g.root ==> Follow(g, link, depth) == AbsoluteMeaning(g, q, depth)
  {
    var node := Base(g, g.nodes(link).parent);
    if q != "" {
      LeadingSeparator(g, node, q, BOTH, depth + 1);
    } else {
      OnlySeparator(g, node, Links(g, depth + 1));
      assert "/" + q == "/";
    }
  }

  /** The path "/" alone: the node itself, which must be a directory. */
  lemma OnlySeparator(g: Graph, node: Id, follow: Resolver)
    ensures Walk(g, node, Parts("/"), BOTH, follow) == Enter(g, node, BOTH, follow)
  {
    SplitJoin("", "");
    assert "" + "/" + "" == "/" && Split("") == [""];
    WalkStep(g, node, "", [""], BOTH, follow);
    var dir := Enter(g, node, BOTH, follow);
    if dir.Ok? {
      assert [""] == [""] + [];
      WalkStep(g, dir.value, "", [], BOTH, follow);
    }
  }

  /** A root directory with one file `q`, and a directory that holds a link to "/q". */
  function Misplaced(root: Id, parent: Id, link: Id, q: string): Graph {
    var file := root + parent + link + 1;
    Graph(root,
          (n: Id) => if n == root then Node(DIRECTORY, None, map[q := file], "")
                     else if n == parent then Node(DIRECTORY, Some(root), map[], "")
                     else if n == link then Node(LINK, Some(parent), map[], "/" + q)
                     else Node(FILE, Some(root), map[], ""),
          (n: Id, name: string) => Err(ENOENT))
  }

  /** Anywhere else it goes wrong: for every other parent and every name there is a graph in which
      the file exists and the link to it is dangling. So a link to an absolute path means what it
      should in every graph exactly if it lies in the root directory. */
  lemma AbsoluteLinkElsewhere(root: Id, parent: Id, link: Id, q: string, depth: int)
    requires root != parent && root != link && parent != link && Plain(q) && depth < MAX_DEPTH
    ensures var g := Misplaced(root, parent, link, q);
            && g.nodes(link) == Node(LINK, Some(parent), map[], "/" + q)
            && AbsoluteMeaning(g, q, depth).Ok? && Follow(g, link, depth) == Err(ENOENT)
  {
    var g := Misplaced(root, parent, link, q);
    AbsoluteLink(g, link, q, depth);
    LeadingSeparator(g, root, q, BOTH, depth + 1);
    OneName(g, root, q, depth + 1);
    OneName(g, parent, q, depth + 1);
  }

  lemma OneName(g: Graph, dir: Id, name: string, depth: int)
    requires g.nodes(dir).kind == DIRECTORY && Plain(name)
    ensures Lookup(g, dir, Parts(name), BOTH, depth)
         == var r := Child(g, dir, name); if r.Err? then r else Finish(g, r.value, BOTH, Links(g, depth))
  {
    assert Parts(name) == [name] + [];
    WalkStep(g, dir, name, [], BOTH, Links(g, depth));
  }

  // ----- Chains and cycles of links -----

  predicate Plain(name: string) {
    name != "" && name != "." && name != ".." && '/' !in name
  }

  /** `link` is a link to its neighbour `next`. */
  predicate PointsTo(g: Graph, link: Id, next: Id) {
    var l := g.nodes(link);
    && l.kind == LINK && l.parent.Some? && Plain(l.destination)
    && g.nodes(l.parent.value).kind == DIRECTORY
    && l.destination in g.nodes(l.parent.value).children && g.nodes(l.parent.value).children[l.destination] == next
  }

  lemma FollowOnce(g: Graph, link: Id, next: Id, depth: int)
    requires PointsTo(g, link, next) && depth < MAX_DEPTH
    ensures Follow(g, link, depth) == Finish(g, next, BOTH, Links(g, depth + 1))
  {
    OneName(g, g.nodes(link).parent.value, g.nodes(link).destination, depth + 1);
  }

  predicate Chain(g: Graph, links: seq<Id>, target: Id) {
    && g.nodes(target).kind != LINK
    && forall i | 0 <= i < |links| :: PointsTo(g, links[i], At(links, target, i + 1))
  }

  function At(links: seq<Id>, target: Id, i: nat): Id {
    if i < |links| then links[i] else target
  }

  /** A chain of links is followed to its end exactly when it is no longer than the depth left. */
  lemma {:induction false} ChainLimit(g: Graph, links: seq<Id>, target: Id, depth: int)
    requires Chain(g, links, target) && links != []
    ensures Follow(g, links[0], depth) == if depth + |links| <= MAX_DEPTH then Ok(target) else Err(ELOOP)
    decreases |links|
  {
    if depth < MAX_DEPTH {
      ChainStep(g, links, target, depth);
      if |links| > 1 { ChainLimit(g, links[1..], target, depth + 1); }
    }
  }

  lemma ChainStep(g: Graph, links: seq<Id>, target: Id, depth: int)
    requires Chain(g, links, target) && links != [] && depth < MAX_DEPTH
    ensures Chain(g, links[1..], target)
    ensures Follow(g, links[0], depth) == if |links| > 1 then Follow(g, links[1], depth + 1) else Ok(target)
  {
    assert PointsTo(g, links[0], At(links, target, 0 + 1));
    if |links| > 1 { assert PointsTo(g, links[1], At(links, target, 1 + 1)); }
    FollowOnce(g, links[0], At(links, target, 1), depth);
  }

  predicate LeadsInto(g: Graph, link: Id, cycle: set<Id>) {
    exists next | next in cycle :: PointsTo(g, link, next)
  }

  predicate Cyclic(g: Graph, cycle: set<Id>) {
    forall l {:trigger LeadsInto(g, l, cycle)} | l in cycle :: LeadsInto(g, l, cycle)
  }

  /** Links that only lead to each other are never resolved; the answer is ELOOP. */
  lemma {:induction false} CycleLoops(g: Graph, cycle: set<Id>, link: Id, depth: int)
    requires Cyclic(g, cycle) && link in cycle
    ensures Follow(g, link, depth) == Err(ELOOP)
    decreases Budget(depth)
  {
    if depth < MAX_DEPTH {
      var next := CycleStep(g, cycle, link, depth);
      CycleLoops(g, cycle, next, depth + 1);
    }
  }

  lemma CycleStep(g: Graph, cycle: set<Id>, link: Id, depth: int) returns (next: Id)
    requires Cyclic(g, cycle) && link in cycle && depth < MAX_DEPTH
    ensures next in cycle && Follow(g, link, depth) == Follow(g, next, depth + 1)
  {
    assert LeadsInto(g, link, cycle);
    next :| next in cycle && PointsTo(g, link, next);
    assert LeadsInto(g, next, cycle);
    var after :| after in cycle && PointsTo(g, next, after);
    FollowOnce(g, link, next, depth);
  }
}
