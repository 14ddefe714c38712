/** namei.c: resolving a path name, following symbolic links. */
module Namei {
  import opened Common
  import opened BlockCache

  const SLASH := 47
  const MAX_LINKS := 5

  datatype Errcode = Ok | ReadError | NotFound | SymlinkLoop | InternalFailure

  /** What resolving a path asks of an inode: whether it is a link, whether the link
      has a block, what reading that block gives, and the length of the path in it. */
  datatype Inode = Inode(is_link: bool, has_block: bool, block: Option<seq<byte>>, i_size: nat)

  /** The file system as path resolution sees it: the inodes that can be read, and
      the names in each directory. */
  datatype Fs = Fs(inodes: map<nat, Inode>, names: map<nat, map<seq<byte>, nat>>)

  /** The block of a link holds all of its path. */
  ghost predicate Sound(fs: Fs) {
    forall i :: i in fs.inodes && fs.inodes[i].is_link && fs.inodes[i].has_block && fs.inodes[i].block.Some? ==>
      0 < |fs.inodes[i].block.value| && fs.inodes[i].i_size <= |fs.inodes[i].block.value|
  }

  datatype Result = Found(inode: nat) | Failed(err: Errcode)

  /** `cmfs_lookup`. */
  function Lookup(fs: Fs, dir: nat, name: seq<byte>): Result {
    if dir in fs.names && name in fs.names[dir] then Found(fs.names[dir][name]) else Failed(NotFound)
  }

  // ---- path names ----

  /** The bytes before the first slash. */
  function Head(path: seq<byte>): (h: seq<byte>)
    ensures |h| <= |path| && h == path[..|h|]
    ensures SLASH in path ==> |h| < |path| && path[|h|] == SLASH
    ensures SLASH !in path ==> h == path
    ensures SLASH !in h
  {
    if path == [] || path[0] == SLASH then [] else [path[0]] + Head(path[1..])
  }

  /** The components of a path, at least one. */
  function Components(path: seq<byte>): (c: seq<seq<byte>>)
    ensures c != []
    decreases |path|
  {
    if SLASH in path then [Head(path)] + Components(path[|Head(path)| + 1..]) else [path]
  }

  /** Where a path starts, and what is left of it. */
  function Start(root: nat, base: nat, path: seq<byte>): (nat, seq<byte>) {
    if path != [] && path[0] == SLASH then (root, path[1..]) else (base, path)
  }

  // ---- the specification ----

  /** The target of a link at nesting level `n`; any other inode is its own. */
  function Follow(fs: Fs, root: nat, dir: nat, inode: nat, n: nat): Result
    requires n <= MAX_LINKS + 1 && Sound(fs)
    decreases MAX_LINKS + 1 - n, 0, 0
  {
    if inode !in fs.inodes then Failed(ReadError)
    else
      var di := fs.inodes[inode];
      if !di.is_link then Found(inode)
      else if n > MAX_LINKS then Failed(SymlinkLoop)
      else if !di.has_block then Failed(InternalFailure)
      else if di.block.None? then Failed(ReadError)
      else Resolve(fs, root, dir, PathIn(di.block.value, di.i_size), true, n + 1)
  }

  /** The path that `pathlen` bytes of a buffer spell; a slash in front of an empty
      one is seen too. */
  function PathIn(buffer: seq<byte>, pathlen: nat): seq<byte>
    requires pathlen <= |buffer| && 0 < |buffer|
  {
    if pathlen == 0 && buffer[0] == SLASH then [SLASH] else buffer[..pathlen]
  }

  /** From directory to directory. */
  function Walk(fs: Fs, root: nat, dir: nat, names: seq<seq<byte>>, n: nat): Result
    requires n <= MAX_LINKS + 1 && Sound(fs)
    decreases MAX_LINKS + 1 - n, 1, |names|
  {
    if names == [] then Found(dir)
    else
      var found := Lookup(fs, dir, names[0]);
      if found.Failed? then found
      else
        var next := Follow(fs, root, dir, found.inode, n);
        if next.Failed? then next else Walk(fs, root, next.inode, names[1..], n)
  }

  /** A path, component by component: all but the last are looked up and followed;
      the last is looked up in the directory they lead to, unless it is empty. */
  function Resolve(fs: Fs, root: nat, base: nat, path: seq<byte>, follow: bool, n: nat): Result
    requires n <= MAX_LINKS + 1 && Sound(fs)
    decreases MAX_LINKS + 1 - n, 2, 0
  {
    var (start, rest) := Start(root, base, path);
    var names := Components(rest);
    var last := names[|names| - 1];
    var dir := Walk(fs, root, start, names[..|names| - 1], n);
    if dir.Failed? || last == [] then dir
    else
      var found := Lookup(fs, dir.inode, last);
      if found.Failed? || !follow then found else Follow(fs, root, dir.inode, found.inode, n)
  }

  // ---- the code ----

  /** What an error code and an inode say together. */
  function Answer(ret: Errcode, inode: nat): Result {
    if ret == Ok then Found(inode) else Failed(ret)
  }

  method CmfsLookup(fs: Fs, dir: nat, name: seq<byte>) returns (ret: Errcode, inode: nat)
    ensures Answer(ret, inode) == Lookup(fs, dir, name)
  {
    var found := Lookup(fs, dir, name);
    match found
    case Found(i) => ret, inode := Ok, i;
    case Failed(err) => ret, inode := err, 0;
  }

  /** `follow_link`. */
  method FollowLink(fs: Fs, root: nat, dir: nat, inode: nat, link_count: nat) returns (ret: Errcode, res_inode: nat)
    requires link_count <= MAX_LINKS + 1 && Sound(fs)
    ensures Answer(ret, res_inode) == Follow(fs, root, dir, inode, link_count)
    decreases MAX_LINKS + 1 - link_count, 0, 0
  {
    res_inode := 0;
    if inode !in fs.inodes {
      return ReadError, 0;
    }
    var di := fs.inodes[inode];
    if !di.is_link {
      return Ok, inode;
    }
    if link_count > 5 {
      return SymlinkLoop, 0;
    }
    var link_count := link_count + 1;
    if !di.has_block {
      return InternalFailure, 0;
    }
    if di.block.None? {
      return ReadError, 0;
    }
    ret, res_inode := OpenNamei(fs, root, dir, di.block.value, di.i_size, true, link_count);
  }

  /** The inner loop of `dir_namei`: the next component, from `at` on with `left`
      bytes to go, and where it leaves off. */
  method NextName(pathname: seq<byte>, at: nat, left: int) returns (thisname: seq<byte>, at': nat, left': int)
    requires at <= |pathname| && -1 <= left && (left >= 0 ==> at + left <= |pathname|)
    ensures var path := Left(pathname, at, left);
      && thisname == Head(path)
      && (left' < 0 <==> SLASH !in path)
      && (SLASH in path ==>
        && at' == at + |thisname| + 1 && left' == left - |thisname| - 1 >= 0
        && at' + left' <= |pathname|)
  {
    at', left' := at, left - 1;
    ghost var path := Left(pathname, at, left);
    var len := 0;
    while left' >= 0
      invariant 0 <= len <= |path| && at' == at + len && left' == left - 1 - len
      invariant forall k :: 0 <= k < len ==> path[k] != SLASH
      decreases left'
    {
      var c := pathname[at'];
      at' := at' + 1;
      if c == SLASH {
        break;
      }
      len, left' := len + 1, left' - 1;
    }
    thisname := pathname[at..at + len];
    HeadIs(path, len);
  }

  lemma HeadIs(path: seq<byte>, len: nat)
    requires len <= |path| && (forall k :: 0 <= k < len ==> path[k] != SLASH) && (len < |path| ==> path[len] == SLASH)
    ensures Head(path) == path[..len] && (SLASH in path <==> len < |path|)
  {
  }

  /** The bytes still to be read. */
  ghost function Left(pathname: seq<byte>, at: nat, left: int): seq<byte>
    requires -1 <= left && (left >= 0 ==> at + left <= |pathname|)
  {
    if left < 0 then [] else pathname[at..at + left]
  }

  ghost function LastName(path: seq<byte>): seq<byte> {
    Components(path)[|Components(path)| - 1]
  }

  /** `dir_namei`: the directory that all components but the last lead to, and the last. */
  method DirNamei(fs: Fs, root: nat, base: nat, pathname: seq<byte>, pathlen: nat, link_count: nat)
    returns (ret: Errcode, name: seq<byte>, res_inode: nat)
    requires link_count <= MAX_LINKS + 1 && Sound(fs) && pathlen <= |pathname| && 0 < |pathname|
    ensures var (start, rest) := Start(root, base, PathIn(pathname, pathlen));
      && Answer(ret, res_inode) == WalkPath(fs, root, start, rest, link_count)
      && (ret == Ok ==> name == LastName(rest))
    decreases MAX_LINKS + 1 - link_count, 1, 0
  {
    var dir: nat, at: nat, left: int := base, 0, pathlen;
    if pathname[0] == SLASH {
      dir, at, left := root, 1, pathlen - 1;
    }
    StartLeft(root, base, pathname, pathlen);
    ret, name, res_inode := DirWalk(fs, root, dir, pathname, at, left, link_count);
  }

  /** The loop of `dir_namei`. */
  method DirWalk(fs: Fs, root: nat, start: nat, pathname: seq<byte>, from: nat, pathlen: int, link_count: nat)
    returns (ret: Errcode, name: seq<byte>, res_inode: nat)
    requires link_count <= MAX_LINKS + 1 && Sound(fs)
    requires from <= |pathname| && -1 <= pathlen && (pathlen >= 0 ==> from + pathlen <= |pathname|)
    ensures var path := Left(pathname, from, pathlen);
      Answer(ret, res_inode) == WalkPath(fs, root, start, path, link_count) && (ret == Ok ==> name == LastName(path))
    decreases MAX_LINKS + 1 - link_count, 0, 1
  {
    var dir: nat, at: nat, left: int := start, from, pathlen;
    ghost var path := Left(pathname, at, left);
    ghost var target, last := WalkPath(fs, root, dir, path, link_count), LastName(path);
    res_inode := 0;
    while true
      invariant at <= |pathname| && -1 <= left && (left >= 0 ==> at + left <= |pathname|)
      invariant path == Left(pathname, at, left)
      invariant WalkPath(fs, root, dir, path, link_count) == target && LastName(path) == last
      decreases left
    {
      var thisname, at', left' := NextName(pathname, at, left);
      ComponentStep(fs, root, dir, path, link_count);
      if left' < 0 {
        return Ok, thisname, dir;
      }
      ghost var path' := path[|thisname| + 1..];
      SameRest(pathname, at, left, |thisname| + 1, at', left');
      var inode;
      ret, inode := CmfsLookup(fs, dir, thisname);
      if ret != Ok {
        return ret, [], 0;
      }
      ret, dir := FollowLink(fs, root, dir, inode, link_count);
      if ret != Ok {
        return ret, [], 0;
      }
      at, left, path := at', left', path';
    }
  }

  lemma StartLeft(root: nat, base: nat, pathname: seq<byte>, pathlen: nat)
    requires pathlen <= |pathname| && 0 < |pathname|
    ensures Start(root, base, PathIn(pathname, pathlen)) ==
      if pathname[0] == SLASH then (root, Left(pathname, 1, pathlen - 1)) else (base, Left(pathname, 0, pathlen))
  {
    if pathname[0] == SLASH {
      assert pathlen == 0 ==> [SLASH][1..] == [];
      assert pathlen > 0 ==> pathname[..pathlen][1..] == pathname[1..1 + (pathlen - 1)];
    } else {
      assert pathname[..pathlen] == pathname[0..0 + pathlen];
    }
  }

  ghost function Front(names: seq<seq<byte>>): seq<seq<byte>>
    requires names != []
  {
    names[..|names| - 1]
  }

  /** The directory that all components of a path but the last lead to. */
  ghost function WalkPath(fs: Fs, root: nat, dir: nat, path: seq<byte>, n: nat): Result
    requires n <= MAX_LINKS + 1 && Sound(fs)
  {
    Walk(fs, root, dir, Front(Components(path)), n)
  }

  lemma WalkHead(fs: Fs, root: nat, dir: nat, name: seq<byte>, names: seq<seq<byte>>, n: nat)
    requires n <= MAX_LINKS + 1 && Sound(fs)
    ensures Walk(fs, root, dir, [name] + names, n) ==
      var found := Lookup(fs, dir, name);
      if found.Failed? then found
      else
        var next := Follow(fs, root, dir, found.inode, n);
        if next.Failed? then next else Walk(fs, root, next.inode, names, n)
  {
  }

  lemma ComponentsHead(path: seq<byte>)
    requires SLASH in path
    ensures var rest := path[|Head(path)| + 1..];
      && Components(path)[|Components(path)| - 1] == Components(rest)[|Components(rest)| - 1]
      && Front(Components(path)) == [Head(path)] + Front(Components(rest))
  {
    var rest := Components(path[|Head(path)| + 1..]);
    assert Components(path) == [Head(path)] + rest;
  }

  /** What the first component of a path does. */
  lemma ComponentStep(fs: Fs, root: nat, dir: nat, path: seq<byte>, n: nat)
    requires n <= MAX_LINKS + 1 && Sound(fs)
    ensures SLASH !in path ==> WalkPath(fs, root, dir, path, n) == Found(dir) && LastName(path) == Head(path)
    ensures SLASH in path ==>
      var rest, found := path[|Head(path)| + 1..], Lookup(fs, dir, Head(path));
      && LastName(path) == LastName(rest)
      && WalkPath(fs, root, dir, path, n) ==
         if found.Failed? then found
         else
           var next := Follow(fs, root, dir, found.inode, n);
           if next.Failed? then next else WalkPath(fs, root, next.inode, rest, n)
  {
    if SLASH in path {
      ComponentsHead(path);
      WalkHead(fs, root, dir, Head(path), Front(Components(path[|Head(path)| + 1..])), n);
    } else {
      assert Front(Components(path)) == [];
    }
  }

  lemma SameRest(pathname: seq<byte>, at: nat, left: int, k: nat, at': nat, left': int)
    requires 0 <= left && at + left <= |pathname| && k <= left && at' == at + k && left' == left - k
    ensures Left(pathname, at, left)[k..] == Left(pathname, at', left')
  {
  }

  /** `open_namei`. */
  method OpenNamei(fs: Fs, root: nat, base: nat, pathname: seq<byte>, pathlen: nat, follow: bool, link_count: nat)
    returns (ret: Errcode, res_inode: nat)
    requires link_count <= MAX_LINKS + 1 && Sound(fs) && pathlen <= |pathname| && 0 < |pathname|
    ensures Answer(ret, res_inode) == Resolve(fs, root, base, PathIn(pathname, pathlen), follow, link_count)
    decreases MAX_LINKS + 1 - link_count, 2, 0
  {
    var basename, dir, inode;
    ret, basename, dir := DirNamei(fs, root, base, pathname, pathlen, link_count);
    if ret != Ok {
      return ret, 0;
    }
    if |basename| == 0 {
      return Ok, dir;
    }
    ret, inode := CmfsLookup(fs, dir, basename);
    if ret != Ok {
      return ret, 0;
    }
    if follow {
      ret, inode := FollowLink(fs, root, dir, inode, link_count);
      if ret != Ok {
        return ret, 0;
      }
    }
    res_inode := inode;
  }

  /** `cmfs_namei`. A name behind `k` links in a row is found in the directory they lead
      to if there are at most six of them. */
  method CmfsNamei(fs: Fs, root: nat, cwd: nat, name: seq<byte>) returns (ret: Errcode, inode: nat)
    requires Sound(fs) && 0 !in name
    ensures Answer(ret, inode) == Resolve(fs, root, cwd, name, false, 0)
    ensures forall first, last, k: nat, target: nat :: Behind(fs, cwd, name, first, last, k, target) ==>
      if k > 6 then ret == SymlinkLoop
      else if target in fs.names && last in fs.names[target] then ret == Ok && inode == fs.names[target][last]
      else ret == NotFound
  {
    var terminated := name + [0];
    assert PathIn(terminated, |name|) == name;
    ret, inode := OpenNamei(fs, root, cwd, terminated, |name|, false, 0);
    forall first, last, k: nat, target: nat | Behind(fs, cwd, name, first, last, k, target)
      ensures Answer(ret, inode) == if k <= 6 then Lookup(fs, target, last) else Failed(SymlinkLoop)
    {
      BehindLinks(fs, root, cwd, name, first, last, k, target);
    }
  }

  // ---- what the specification promises ----

  /** From `inode`, `k` links that each name an entry of the same directory lead to `target`. */
  ghost predicate Leads(fs: Fs, dir: nat, inode: nat, k: nat, target: nat)
    requires Sound(fs)
    decreases k
  {
    && inode in fs.inodes
    && var di := fs.inodes[inode];
    if k == 0 then inode == target && !di.is_link
    else
      && di.is_link && di.has_block && di.block.Some?
      && var name := di.block.value[..di.i_size];
      && name != [] && 47 !in name
      && dir in fs.names && name in fs.names[dir] && Leads(fs, dir, fs.names[dir][name], k - 1, target)
  }

  /** A path of two names: an entry from which `k` links lead to `target`, and the last name. */
  ghost predicate Behind(fs: Fs, dir: nat, path: seq<byte>, first: seq<byte>, last: seq<byte>, k: nat, target: nat)
    requires Sound(fs)
  {
    && path == first + [47] + last && first != [] && last != [] && 47 !in first && 47 !in last
    && dir in fs.names && first in fs.names[dir] && Leads(fs, dir, fs.names[dir][first], k, target)
  }

  lemma BehindLinks(fs: Fs, root: nat, dir: nat, path: seq<byte>, first: seq<byte>, last: seq<byte>, k: nat,
                    target: nat)
    requires Sound(fs) && Behind(fs, dir, path, first, last, k, target)
    ensures Resolve(fs, root, dir, path, false, 0) ==
      if k <= 6 then Lookup(fs, target, last) else Failed(SymlinkLoop)
  {
    PathsCompose(fs, root, dir, first, last, false, 0);
    TrailingSlash(fs, root, dir, first, false, 0);
    WalkHead(fs, root, dir, first, [], 0);
    assert [first] + [] == [first];
    LinkChain(fs, root, dir, fs.names[dir][first], k, target, 0);
    if k <= 6 {
      ResolveIs(fs, root, target, last, false, 0, target, [last]);
    }
  }

  /** Six links in a row are followed; a seventh is one too many. */
  lemma {:induction false} LinkChain(fs: Fs, root: nat, dir: nat, inode: nat, k: nat, target: nat, n: nat)
    requires Sound(fs) && n <= 6 && Leads(fs, dir, inode, k, target)
    ensures Follow(fs, root, dir, inode, n) == if n + k <= 6 then Found(target) else Failed(SymlinkLoop)
    decreases k
  {
    if k > 0 && n <= MAX_LINKS {
      var di := fs.inodes[inode];
      var name := di.block.value[..di.i_size];
      assert PathIn(di.block.value, di.i_size) == name;
      OneName(fs, root, dir, name, n + 1);
      LinkChain(fs, root, dir, Lookup(fs, dir, name).inode, k - 1, target, n + 1);
    }
  }

  /** A link that leads to itself is never resolved, from whichever level. */
  lemma {:induction false} SelfLink(fs: Fs, root: nat, dir: nat, inode: nat, name: seq<byte>, n: nat)
    requires Sound(fs) && n <= MAX_LINKS + 1 && name != [] && SLASH !in name
    requires dir in fs.names && name in fs.names[dir] && fs.names[dir][name] == inode && inode in fs.inodes
    requires var di := fs.inodes[inode];
      && di.is_link && di.has_block && di.block.Some? && di.i_size == |name|
      && di.block.value[..|name|] == name
    ensures Follow(fs, root, dir, inode, n) == Failed(SymlinkLoop)
    decreases MAX_LINKS + 1 - n
  {
    if n <= MAX_LINKS {
      SelfLink(fs, root, dir, inode, name, n + 1);
      assert PathIn(fs.inodes[inode].block.value, |name|) == name;
      OneName(fs, root, dir, name, n + 1);
    }
  }

  lemma OneName(fs: Fs, root: nat, dir: nat, name: seq<byte>, n: nat)
    requires Sound(fs) && n <= MAX_LINKS + 1 && name != [] && SLASH !in name && Lookup(fs, dir, name).Found?
    ensures Resolve(fs, root, dir, name, true, n) == Follow(fs, root, dir, Lookup(fs, dir, name).inode, n)
  {
  }

  /** An absolute path is the rest of it taken from the root, whatever the base. */
  lemma LeadingSlash(fs: Fs, root: nat, base: nat, path: seq<byte>, follow: bool, n: nat)
    requires n <= MAX_LINKS + 1 && Sound(fs) && (path == [] || path[0] != SLASH)
    ensures Resolve(fs, root, base, [SLASH] + path, follow, n) == Resolve(fs, root, root, path, follow, n)
  {
    assert ([SLASH] + path)[1..] == path;
  }

  /** The components of two paths joined by a slash are those of the one and of the other. */
  lemma {:induction false} ComponentsJoin(path: seq<byte>, more: seq<byte>)
    ensures Components(path + [SLASH] + more) == Components(path) + Components(more)
    decreases |path|
  {
    var tail := [SLASH] + more;
    assert path + [SLASH] + more == path + tail;
    if SLASH in path {
      var rest := path[|Head(path)| + 1..];
      SameHead(path, tail);
      assert (path + tail)[|Head(path)| + 1..] == rest + [SLASH] + more;
      ComponentsJoin(rest, more);
      assert [Head(path)] + (Components(rest) + Components(more)) == [Head(path)] + Components(rest) + Components(more);
    } else {
      OneJoin(path, more);
    }
  }

  lemma OneJoin(path: seq<byte>, more: seq<byte>)
    requires SLASH !in path
    ensures Components(path + [SLASH] + more) == [path] + Components(more)
  {
    var p := path + [SLASH] + more;
    HeadIs(p, |path|);
    assert p[|path| + 1..] == more;
    assert p[..|path|] == path;
  }

  lemma {:induction false} SameHead(path: seq<byte>, more: seq<byte>)
    requires SLASH in path
    ensures Head(path + more) == Head(path)
  {
    if path[0] != SLASH {
      assert (path + more)[1..] == path[1..] + more;
      SameHead(path[1..], more);
    }
  }

  /** A trailing slash asks for the directory: every component is followed. */
  lemma TrailingSlash(fs: Fs, root: nat, base: nat, path: seq<byte>, follow: bool, n: nat)
    requires n <= MAX_LINKS + 1 && Sound(fs) && path != []
    ensures var (start, rest) := Start(root, base, path);
      Resolve(fs, root, base, path + [SLASH], follow, n) == Walk(fs, root, start, Components(rest), n)
  {
    var (start, rest) := Start(root, base, path);
    if path[0] == SLASH {
      assert (path + [SLASH])[1..] == path[1..] + [SLASH];
    }
    ComponentsJoin(rest, []);
    assert rest + [SLASH] + [] == rest + [SLASH];
    var names := Components(rest);
    assert (names + [[]])[..|names|] == names;
  }

  lemma {:induction false} WalkJoin(fs: Fs, root: nat, dir: nat, names: seq<seq<byte>>, more: seq<seq<byte>>, n: nat)
    requires n <= MAX_LINKS + 1 && Sound(fs)
    ensures Walk(fs, root, dir, names + more, n) ==
      var there := Walk(fs, root, dir, names, n);
      if there.Failed? then there else Walk(fs, root, there.inode, more, n)
    decreases |names|
  {
    if names == [] {
      assert names + more == more;
    } else {
      var found := Lookup(fs, dir, names[0]);
      assert (names + more)[1..] == names[1..] + more;
      if found.Found? {
        var next := Follow(fs, root, dir, found.inode, n);
        if next.Found? {
          WalkJoin(fs, root, next.inode, names[1..], more, n);
        }
      }
    }
  }

  /** A longer path is resolved from the directory that its first part leads to, an
      absolute one from the root. */
  lemma PathsCompose(fs: Fs, root: nat, base: nat, path: seq<byte>, more: seq<byte>, follow: bool, n: nat)
    requires n <= MAX_LINKS + 1 && Sound(fs) && (more == [] || more[0] != SLASH)
    ensures Resolve(fs, root, base, path + [SLASH] + more, follow, n) ==
      var there := Resolve(fs, root, base, path + [SLASH], follow, n);
      if there.Failed? then there else Resolve(fs, root, there.inode, more, follow, n)
  {
    if path == [] {
      assert path + [SLASH] + more == [SLASH] + more && path + [SLASH] == [SLASH] + [];
      LeadingSlash(fs, root, base, more, follow, n);
      LeadingSlash(fs, root, base, [], follow, n);
      return;
    }
    var (start, rest) := Start(root, base, path);
    StartJoin(root, base, path, more);
    TrailingSlash(fs, root, base, path, follow, n);
    ComponentsJoin(rest, more);
    var names, last := Components(rest), Components(more);
    FrontJoin(names, last);
    WalkJoin(fs, root, start, names, Front(last), n);
    ResolveIs(fs, root, base, path + [SLASH] + more, follow, n, start, names + last);
    var there := Walk(fs, root, start, names, n);
    if there.Found? {
      ResolveIs(fs, root, there.inode, more, follow, n, there.inode, last);
    }
  }

  lemma StartJoin(root: nat, base: nat, path: seq<byte>, more: seq<byte>)
    requires path != []
    ensures var (start, rest) := Start(root, base, path);
      Start(root, base, path + [SLASH] + more) == (start, rest + [SLASH] + more)
  {
    if path[0] == SLASH {
      assert (path + [SLASH] + more)[1..] == path[1..] + [SLASH] + more;
    }
  }

  lemma FrontJoin(names: seq<seq<byte>>, more: seq<seq<byte>>)
    requires more != []
    ensures Front(names + more) == names + Front(more) && (names + more)[|names + more| - 1] == more[|more| - 1]
  {
  }

  /** The end of a resolution, in the directory reached. */
  ghost function Finish(fs: Fs, root: nat, dir: Result, last: seq<byte>, follow: bool, n: nat): Result
    requires n <= MAX_LINKS + 1 && Sound(fs)
  {
    if dir.Failed? || last == [] then dir
    else
      var found := Lookup(fs, dir.inode, last);
      if found.Failed? || !follow then found else Follow(fs, root, dir.inode, found.inode, n)
  }

  lemma ResolveIs(fs: Fs, root: nat, base: nat, path: seq<byte>, follow: bool, n: nat, start: nat,
                  names: seq<seq<byte>>)
    requires n <= MAX_LINKS + 1 && Sound(fs) && names != []
    requires start == Start(root, base, path).0 && names == Components(Start(root, base, path).1)
    ensures Resolve(fs, root, base, path, follow, n)
      == Finish(fs, root, Walk(fs, root, start, Front(names), n), names[|names| - 1], follow, n)
  {
  }
}
