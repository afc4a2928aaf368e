/** The directory tree under vfs_lookup: children in creation order, the first one with the right
    name found, and what creating a node does to paths. */
module DirTree {
  import opened Bits
  import CString
  import opened Paths
  import opened Wrappers

  // A child of a directory.
  datatype Link<N> = Link(name: Name, node: N)

  // The children of every directory node; a node outside the map has no finddir.
  type Dirs<N(==)> = map<N, seq<Link<N>>>

  // ramfs_finddir
  function Find<N>(links: seq<Link<N>>, name: Name): Option<N> {
    if links == [] then None
    else if links[0].name == name then Some(links[0].node)
    else Find(links[1..], name)
  }

  // Looking up one component after the other.
  function Fold<N(==)>(dirs: Dirs<N>, n: N, names: seq<Name>): Option<N> {
    if names == [] then Some(n)
    else if n !in dirs then None
    else
      match Find(dirs[n], names[0])
      case None => None
      case Some(child) => Fold(dirs, child, names[1..])
  }

  // vfs_lookup
  function Lookup<N(==)>(dirs: Dirs<N>, root: N, path: Name): Option<N> {
    if path == [SLASH] then Some(root) else Fold(dirs, root, Tokens(Strip(path)))
  }

  // strncpy(name, 127)
  function Stored(name: Name): Name {
    if |name| < 127 then name else name[..127]
  }

  // That is what strncpy leaves in the zeroed name field of a new node.
  lemma StoredIsStrncpy(m: Bytes, field: nat, name: Name)
    requires field + 128 <= |m| && m[field + 127] == 0 && 0 !in name
    ensures var r := CString.Overwrite(m, field, CString.Written(name, 127));
            CString.Terminated(r, field) && CString.Str(r, field) == Stored(name)
  {
    CString.NameStored(m, field, name, 127);
  }

  // A child appended to a directory.
  function AddLink<N(==)>(dirs: Dirs<N>, parent: N, link: Link<N>): Dirs<N> {
    if parent in dirs then dirs[parent := dirs[parent] + [link]] else dirs
  }

  // ramfs_create_dir and ramfs_create_file, below a parent that is a directory with room.
  function Create<N(==)>(dirs: Dirs<N>, parent: N, name: Name, node: N, isDir: bool): Dirs<N>
    requires parent in dirs
  {
    var linked := AddLink(dirs, parent, Link(Stored(name), node));
    if isDir then linked[node := []] else linked
  }

  // Find returns the first child with exactly this name.
  lemma {:induction false} FindIsFirst<N>(links: seq<Link<N>>, name: Name)
    ensures Find(links, name).None? <==> forall k :: 0 <= k < |links| ==> links[k].name != name
    ensures Find(links, name).Some? <==> exists k :: IsFirst(links, name, k)
    ensures forall k :: IsFirst(links, name, k) ==> Find(links, name) == Some(links[k].node)
  {
    if links != [] {
      FindIsFirst(links[1..], name);
      if links[0].name == name {
        assert IsFirst(links, name, 0);
      } else {
        forall k
          ensures IsFirst(links, name, k) <==> k > 0 && IsFirst(links[1..], name, k - 1)
        {
          FirstShift(links, name, k);
        }
        if k :| IsFirst(links[1..], name, k) {
          assert IsFirst(links, name, k + 1);
        }
      }
    }
  }

  ghost predicate IsFirst<N>(links: seq<Link<N>>, name: Name, k: int) {
    0 <= k < |links| && links[k].name == name && forall j :: 0 <= j < k ==> links[j].name != name
  }

  lemma FirstShift<N>(links: seq<Link<N>>, name: Name, k: int)
    requires links != [] && links[0].name != name
    ensures IsFirst(links, name, k) <==> k > 0 && IsFirst(links[1..], name, k - 1)
  {
    if k > 0 && IsFirst(links[1..], name, k - 1) {
      forall j | 0 <= j < k
        ensures links[j].name != name
      {
        assert j > 0 ==> links[j] == links[1..][j - 1];
      }
    }
  }

  lemma {:induction false} FindAppend<N>(links: seq<Link<N>>, l: Link<N>, name: Name)
    ensures Find(links + [l], name)
         == if Find(links, name).Some? then Find(links, name) else if l.name == name then Some(l.node) else None
  {
    if links == [] {
      assert links + [l] == [l];
    } else {
      assert (links + [l])[1..] == links[1..] + [l];
      FindAppend(links[1..], l, name);
    }
  }

  lemma {:induction false} FoldConcat<N>(dirs: Dirs<N>, n: N, a: seq<Name>, b: seq<Name>)
    ensures Fold(dirs, n, a + b)
         == if Fold(dirs, n, a).None? then None else Fold(dirs, Fold(dirs, n, a).value, b)
    decreases |a|
  {
    if a == [] {
      assert a + b == b;
    } else {
      assert (a + b)[1..] == a[1..] + b;
      if n in dirs && Find(dirs[n], a[0]).Some? {
        FoldConcat(dirs, Find(dirs[n], a[0]).value, a[1..], b);
      }
    }
  }

  // Creating a node never changes what an already resolving path resolves to.
  lemma {:induction false} CreateKeepsFold<N>(dirs: Dirs<N>, parent: N, name: Name, node: N, isDir: bool,
                                                 n: N, names: seq<Name>)
    requires parent in dirs && node !in dirs
    requires Fold(dirs, n, names).Some?
    ensures Fold(Create(dirs, parent, name, node, isDir), n, names) == Fold(dirs, n, names)
    decreases |names|
  {
    if names != [] {
      FindAppend(dirs[n], Link(Stored(name), node), names[0]);
      CreateKeepsFold(dirs, parent, name, node, isDir, Find(dirs[n], names[0]).value, names[1..]);
    }
  }

  lemma CreateKeepsPaths<N>(dirs: Dirs<N>, parent: N, name: Name, node: N, isDir: bool, root: N, path: Name)
    requires parent in dirs && node !in dirs
    requires Lookup(dirs, root, path).Some?
    ensures Lookup(Create(dirs, parent, name, node, isDir), root, path) == Lookup(dirs, root, path)
  {
    if path != [SLASH] {
      CreateKeepsFold(dirs, parent, name, node, isDir, root, Tokens(Strip(path)));
    }
  }

  // On a rendered path of plain components, with or without a leading and a trailing slash, lookup
  // is the fold over the components.
  lemma LookupIsFold<N>(dirs: Dirs<N>, root: N, names: seq<Name>, leading: bool, trailing: bool)
    requires forall n :: n in names ==> Plain(n)
    requires trailing ==> names != []
    ensures var path := (if leading then [SLASH] else []) + (Render(names) + (if trailing then [SLASH] else []));
            Lookup(dirs, root, path) == Fold(dirs, root, names)
  {
    var body := Render(names) + (if trailing then [SLASH] else []);
    var path := (if leading then [SLASH] else []) + body;
    TokensOfRender(names, trailing);
    RenderStart(names);
    if leading {
      assert path[1..] == body;
      assert path == [SLASH] ==> body == [] && names == [];
    } else {
      assert path == body;
    }
  }

  lemma RenderStart(names: seq<Name>)
    requires forall n :: n in names ==> Plain(n)
    ensures names != [] ==> Render(names) != [] && Render(names)[0] != SLASH
    ensures names == [] ==> Render(names) == []
  {
    if names != [] {
      assert names[0] in names && names[0][0] in names[0];
    }
  }

  // The path of a child: the parent's components, a slash, and the name.
  function ChildPath(names: seq<Name>, name: Name): Name {
    if names == [] then name else Render(names) + [SLASH] + name
  }

  lemma {:induction false} TokensOfChildPath(names: seq<Name>, name: Name)
    requires forall n :: n in names ==> Plain(n)
    ensures Tokens(ChildPath(names, name)) == names + Tokens(name)
    decreases |names|
  {
    hide Plain, ChildPath, Tokens;
    if names == [] {
      assert names + Tokens(name) == Tokens(name);
      assert ChildPath([], name) == name by {
        NoParent(name);
      }
    } else {
      var rest := names[1..];
      assert names[0] in names;
      TokensOfChildPath(rest, name);
      ChildPathHead(names, name);
      TokensStep(names[0], ChildPath(rest, name));
      var ts := Tokens(name);
      assert names + ts == [names[0]] + (rest + ts);
    }
  }

  lemma NoParent(name: Name)
    ensures ChildPath([], name) == name
  {
  }

  lemma TokensStep(first: Name, below: Name)
    requires Plain(first)
    ensures Tokens(first + ([SLASH] + below)) == [first] + Tokens(below)
  {
    hide First, Rest;
    PlainFirst(first, [SLASH] + below);
    assert ([SLASH] + below)[1..] == below;
    TokensUnfold(first + ([SLASH] + below));
  }

  lemma ChildPathHead(names: seq<Name>, name: Name)
    requires names != []
    ensures ChildPath(names, name) == names[0] + ([SLASH] + ChildPath(names[1..], name))
  {
    RenderHead(names);
    hide Render;
    if |names| == 1 {
      assert Render(names) + [SLASH] + name == names[0] + ([SLASH] + name);
    } else {
      var r := Render(names[1..]);
      assert names[0] + [SLASH] + r + [SLASH] + name == names[0] + ([SLASH] + (r + [SLASH] + name));
    }
  }

  lemma RenderHead(names: seq<Name>)
    requires names != []
    ensures |names| == 1 ==> Render(names) == names[0] && names[1..] == []
    ensures |names| > 1 ==> Render(names) == names[0] + [SLASH] + Render(names[1..]) && names[1..] != []
  {
  }

  // No child of any directory is `node`.
  ghost predicate Unlinked<N>(dirs: Dirs<N>, node: N) {
    forall d, k :: d in dirs && 0 <= k < |dirs[d]| ==> dirs[d][k].node != node
  }

  // The path of a new child whose stored name was unused resolves to it exactly when the name comes
  // out of the tokeniser as its stored form.
  lemma NewPathResolvesIff<N>(dirs: Dirs<N>, root: N, names: seq<Name>, parent: N, name: Name, node: N, isDir: bool)
    requires forall n :: n in names ==> Plain(n)
    requires Fold(dirs, root, names) == Some(parent) && parent in dirs
    requires node !in dirs && Unlinked(dirs, node)
    requires Find(dirs[parent], Stored(name)).None?
    ensures Fold(Create(dirs, parent, name, node, isDir), root, Tokens(ChildPath(names, name))) == Some(node)
            <==> Tokens(name) == [Stored(name)]
  {
    var after := Create(dirs, parent, name, node, isDir);
    TokensOfChildPath(names, name);
    CreateKeepsFold(dirs, parent, name, node, isDir, root, names);
    FoldConcat(after, root, names, Tokens(name));
    FindAppend(dirs[parent], Link(Stored(name), node), Stored(name));
    assert parent != node;
    if Tokens(name) == [Stored(name)] {
      assert [Stored(name)][1..] == [];
    } else if Tokens(name) != [] {
      NotReached(dirs, parent, name, node, isDir);
    }
  }

  lemma NotReached<N>(dirs: Dirs<N>, parent: N, name: Name, node: N, isDir: bool)
    requires parent in dirs && node !in dirs && Unlinked(dirs, node)
    requires Find(dirs[parent], Stored(name)).None?
    requires Tokens(name) != [Stored(name)] && Tokens(name) != []
    ensures Fold(Create(dirs, parent, name, node, isDir), parent, Tokens(name)) != Some(node)
  {
    var after, ts := Create(dirs, parent, name, node, isDir), Tokens(name);
    if ts[|ts| - 1] == Stored(name) {
      LastTokenFirst(name);
      FindAppend(dirs[parent], Link(Stored(name), node), Stored(name));
      assert ts == [Stored(name)] + ts[1..];
      assert Fold(after, node, ts[1..]) == None;
    } else if Fold(after, parent, ts) == Some(node) {
      OnlyLink(dirs, parent, name, node, isDir, parent, ts);
    }
  }

  // A lookup that ends at the new node ends with the stored name.
  lemma {:induction false} OnlyLink<N>(dirs: Dirs<N>, parent: N, name: Name, node: N, isDir: bool,
                                       n: N, names: seq<Name>)
    requires parent in dirs && node !in dirs && Unlinked(dirs, node) && names != []
    requires Fold(Create(dirs, parent, name, node, isDir), n, names) == Some(node)
    ensures names[|names| - 1] == Stored(name)
    decreases |names|
  {
    var after := Create(dirs, parent, name, node, isDir);
    if |names| == 1 {
      FindIsFirst(after[n], names[0]);
      var k :| IsFirst(after[n], names[0], k);
      assert after[n][k].node == node;
    } else {
      OnlyLink(dirs, parent, name, node, isDir, Find(after[n], names[0]).value, names[1..]);
    }
  }

  lemma {:induction false} TokensHaveNoSlash(path: Name)
    ensures forall t :: t in Tokens(path) ==> SLASH !in t
    decreases |path|
  {
    if path != [] {
      TokensHaveNoSlash(Rest(path));
      ScanStops(path, 0);
      assert First(path) == path[..SlashAt(path)][..|First(path)|];
    }
  }

  lemma NoSlashFirst(path: Name)
    requires SLASH !in path[..if |path| < 127 then |path| else 127]
    ensures First(path) == path[..if |path| < 127 then |path| else 127]
  {
    var n := SlashAt(path);
    var w := path[..if |path| < 127 then |path| else 127];
    assert forall k :: 0 <= k < |w| ==> path[k] == w[k] && w[k] in w;
    ScanStops(path, 0);
  }

  // When the last token of a name is its stored form, so is the first.
  lemma LastTokenFirst(name: Name)
    requires Tokens(name) != [] && Tokens(name)[|Tokens(name)| - 1] == Stored(name)
    ensures First(name) == Stored(name) && Tokens(name)[0] == Stored(name)
  {
    TokensHaveNoSlash(name);
    assert Stored(name) in Tokens(name);
    assert name[..if |name| < 127 then |name| else 127] == Stored(name);
    NoSlashFirst(name);
  }

  // Which names come out of the tokeniser as their stored form: plain ones, and plain ones of 127
  // bytes with a slash behind them.
  lemma TokensOfName(name: Name)
    ensures Tokens(name) == [Stored(name)]
            <==> Plain(name) || (|name| == 128 && Plain(name[..127]) && name[127] == SLASH)
  {
    if Tokens(name) == [Stored(name)] {
      LastTokenFirst(name);
      TokensHaveNoSlash(name);
      assert Stored(name) in Tokens(name);
      assert Tokens(name)[1..] == Tokens(Rest(name));
      assert Rest(name) == [];
      assert |name| >= 127 ==> name[..127] == Stored(name);
      assert |name| == 127 ==> name[..127] == name;
    }
    if Plain(name) {
      PlainFirst(name, []);
      assert name + [] == name;
      TokensUnfold(name);
      assert |name| == 127 ==> name[..127] == name;
    }
    if |name| == 128 && Plain(name[..127]) && name[127] == SLASH {
      PlainFirst(name[..127], [SLASH]);
      assert name[..127] + [SLASH] == name;
      TokensUnfold(name);
    }
  }

  // Looking up the path of a new child, with its leading slash, finds it exactly for those names.
  lemma NewPathLookupIff<N>(dirs: Dirs<N>, root: N, names: seq<Name>, parent: N, name: Name, node: N, isDir: bool)
    requires 0 !in name && forall n :: n in names ==> Plain(n) && 0 !in n
    requires Fold(dirs, root, names) == Some(parent) && parent in dirs
    requires node !in dirs && Unlinked(dirs, node)
    requires Find(dirs[parent], Stored(name)).None?
    ensures Lookup(Create(dirs, parent, name, node, isDir), root, [SLASH] + ChildPath(names, name)) == Some(node)
            <==> Plain(name) || (|name| == 128 && Plain(name[..127]) && name[127] == SLASH)
  {
    hide Plain, Fold, Tokens, Create;
    var path := ChildPath(names, name);
    NewPathResolvesIff(dirs, root, names, parent, name, node, isDir);
    TokensOfName(name);
    LookupSlashed(Create(dirs, parent, name, node, isDir), root, path);
  }

  lemma LookupSlashed<N>(dirs: Dirs<N>, root: N, path: Name)
    ensures Lookup(dirs, root, [SLASH] + path) == Fold(dirs, root, Tokens(path))
  {
    assert Strip([SLASH] + path) == path;
  }
}
