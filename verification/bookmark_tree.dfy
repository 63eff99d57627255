/** The in-memory bookmark tree: addressing nodes by path, finding a node
    by id or a bookmark by URL, and the structural edits (insert a child,
    detach a child, replace a node) with their exact effect on the rows and
    ids of the tree. */
module BookmarkTree {
  import opened Wrappers
  import opened BookmarkNode
  import Multisets

  /** A node's address below a root: the child indices from the root down. */
  type Path = seq<nat>

  predicate ValidPath(t: Node, p: Path)
    decreases p
  {
    p == [] || (t.Folder? && p[0] < |t.children| && ValidPath(t.children[p[0]], p[1..]))
  }

  /** The subtree at path `p`. */
  function At(t: Node, p: Path): Node
    requires ValidPath(t, p)
    decreases p
  {
    if p == [] then t else At(t.children[p[0]], p[1..])
  }

  /** The path of the parent folder of the node at `p`. */
  function Up(p: Path): Path
    requires p != []
  {
    p[..|p| - 1]
  }

  /** The index of the node at `p` among its siblings. */
  function Last(p: Path): nat
    requires p != []
  {
    p[|p| - 1]
  }

  lemma {:induction false} PathConcat(t: Node, p: Path, q: Path)
    requires ValidPath(t, p)
    ensures ValidPath(t, p + q) <==> ValidPath(At(t, p), q)
    ensures ValidPath(t, p + q) ==> At(t, p + q) == At(At(t, p), q)
    decreases p
  {
    if p != [] {
      assert (p + q)[0] == p[0];
      assert (p + q)[1..] == p[1..] + q;
      PathConcat(t.children[p[0]], p[1..], q);
    } else {
      assert p + q == q;
    }
  }

  lemma {:induction false} PathPrefix(t: Node, p: Path, q: Path)
    requires ValidPath(t, p + q)
    ensures ValidPath(t, p)
    decreases p
  {
    if p != [] {
      assert (p + q)[0] == p[0];
      assert (p + q)[1..] == p[1..] + q;
      PathPrefix(t.children[p[0]], p[1..], q);
    }
  }

  /** The node at a non-empty path is child number `Last(p)` of the folder
      at `Up(p)`. */
  lemma ParentOfPath(t: Node, p: Path)
    requires p != [] && ValidPath(t, p)
    ensures ValidPath(t, Up(p))
    ensures At(t, Up(p)).Folder? && Last(p) < |At(t, Up(p)).children|
    ensures At(t, Up(p)).children[Last(p)] == At(t, p)
  {
    assert p == Up(p) + [Last(p)];
    PathPrefix(t, Up(p), [Last(p)]);
    PathConcat(t, Up(p), [Last(p)]);
  }

  /** The rows and ids of a subtree are among those of the whole tree; below
      the root they are among those of the root's children. */
  lemma {:induction false} SubtreeIn(t: Node, p: Path)
    requires ValidPath(t, p)
    ensures Entries(At(t, p)) <= Entries(t)
    ensures Ids(At(t, p)) <= Ids(t)
    ensures p != [] ==> Ids(At(t, p)) <= ForestIds(t.children)
    ensures EntryOf(At(t, p)) in Entries(t)
    ensures At(t, p).id in Ids(t)
    decreases p
  {
    if p != [] {
      var cs := t.children;
      var i := p[0];
      var c := cs[i];
      assert At(t, p) == At(c, p[1..]);
      SubtreeIn(c, p[1..]);
      ForestSplit(cs, i);
      Multisets.Within(Entries(At(t, p)), Entries(c), ForestEntries(cs[..i]), ForestEntries(cs[i + 1..]),
        multiset{EntryOf(t)});
      Multisets.Within(Ids(At(t, p)), Ids(c), ForestIds(cs[..i]), ForestIds(cs[i + 1..]), multiset{t.id});
    }
  }

  /** Every row of a tree is the row of the node at some path. */
  lemma {:induction false} EntryAt(t: Node, e: Entry) returns (p: Path)
    requires e in Entries(t)
    ensures ValidPath(t, p) && EntryOf(At(t, p)) == e
    decreases t
  {
    if e == EntryOf(t) {
      p := [];
    } else {
      assert t.Folder? && e in ForestEntries(t.children) by {
        assert Entries(t)[e] == multiset{EntryOf(t)}[e]
          + (if t.Folder? then ForestEntries(t.children) else multiset{})[e];
      }
      var i := ForestMember(t.children, e);
      var q := EntryAt(t.children[i], e);
      p := [i] + q;
      assert p[0] == i && p[1..] == q;
    }
  }

  /** With distinct ids, no node below the root carries the root's id. */
  lemma BelowRootId(t: Node, p: Path)
    requires Distinct(Ids(t)) && ValidPath(t, p) && p != []
    ensures At(t, p).id != t.id
  {
    SubtreeIn(t, p);
    assert Ids(t) == multiset{t.id} + ForestIds(t.children);
    if At(t, p).id == t.id {
      assert false;
    }
  }

  /** With distinct ids, nodes below two different children of a folder
      carry different ids. */
  lemma AcrossChildrenIds(t: Node, p1: Path, p2: Path)
    requires Distinct(Ids(t)) && ValidPath(t, p1) && ValidPath(t, p2)
    requires p1 != [] && p2 != [] && p1[0] != p2[0]
    ensures At(t, p1).id != At(t, p2).id
  {
    var cs := t.children;
    var i, j := p1[0], p2[0];
    var x, y := At(t, p1).id, At(t, p2).id;
    assert At(t, p1) == At(cs[i], p1[1..]) && At(t, p2) == At(cs[j], p2[1..]);
    SubtreeIn(cs[i], p1[1..]);
    SubtreeIn(cs[j], p2[1..]);
    if i < j {
      ForestTwo(cs, i, j, x);
    } else {
      ForestTwo(cs, j, i, x);
    }
    assert Ids(t)[x] == multiset{t.id}[x] + ForestIds(cs)[x];
    assert Ids(t)[x] <= 1;
  }

  /** In a tree whose ids are distinct, an id determines the path of its node. */
  lemma {:induction false} PathsUnique(t: Node, p1: Path, p2: Path)
    requires Distinct(Ids(t))
    requires ValidPath(t, p1) && ValidPath(t, p2)
    requires At(t, p1).id == At(t, p2).id
    ensures p1 == p2
    decreases p1
  {
    if p1 == [] && p2 == [] {
    } else if p1 == [] {
      BelowRootId(t, p2);
      assert false;
    } else if p2 == [] {
      BelowRootId(t, p1);
      assert false;
    } else if p1[0] != p2[0] {
      AcrossChildrenIds(t, p1, p2);
      assert false;
    } else {
      var c := t.children[p1[0]];
      ChildDistinct(t, p1[0]);
      PathsUnique(c, p1[1..], p2[1..]);
      assert p1 == [p1[0]] + p1[1..];
      assert p2 == [p2[0]] + p2[1..];
    }
  }

  /** Distinct ids in a folder's tree are distinct in each child's tree. */
  lemma ChildDistinct(t: Node, i: nat)
    requires Distinct(Ids(t)) && t.Folder? && i < |t.children|
    ensures Distinct(Ids(t.children[i]))
  {
    var c := t.children[i];
    ForestSplit(t.children, i);
    assert Ids(t) == multiset{t.id} + ForestIds(t.children);
    forall x ensures Ids(c)[x] <= 1 {
      assert Ids(c)[x] <= Ids(t)[x];
    }
  }

  /** `t` with the subtree at `p` replaced by `n`; every other node keeps its
      path. */
  function ReplaceAt(t: Node, p: Path, n: Node): (r: Node)
    requires ValidPath(t, p)
    ensures ValidPath(r, p) && At(r, p) == n
    ensures p != [] ==> r.Folder? && r.id == t.id && r.name == t.name && |r.children| == |t.children|
    decreases p
  {
    if p == [] then n
    else t.(children := t.children[p[0] := ReplaceAt(t.children[p[0]], p[1..], n)])
  }

  /** Replacing a subtree by one with the same id changes no other row: the
      tree loses the old subtree's rows and ids and gains the new one's. */
  lemma {:induction false} ReplaceAtEffect(t: Node, p: Path, n: Node)
    requires ValidPath(t, p) && n.id == At(t, p).id
    ensures ReplaceAt(t, p, n).id == t.id
    ensures Entries(ReplaceAt(t, p, n)) + Entries(At(t, p)) == Entries(t) + Entries(n)
    ensures Ids(ReplaceAt(t, p, n)) + Ids(At(t, p)) == Ids(t) + Ids(n)
    decreases p
  {
    if p != [] {
      var cs, i, q := t.children, p[0], p[1..];
      var c' := ReplaceAt(cs[i], q, n);
      var u := cs[i := c'];
      var a := At(cs[i], q);
      ReplaceAtEffect(cs[i], q, n);
      ForestUpdate(cs, i, c');
      ChildIdsUpdate(cs, i, c');
      var r := ReplaceAt(t, p, n);
      assert r == Folder(t.id, t.name, u);
      assert At(t, p) == a;
      assert EntryOf(r) == EntryOf(t);
      assert Entries(r) == multiset{EntryOf(t)} + ForestEntries(u);
      assert Entries(t) == multiset{EntryOf(t)} + ForestEntries(cs);
      assert Ids(r) == multiset{t.id} + ForestIds(u);
      assert Ids(t) == multiset{t.id} + ForestIds(cs);
      Multisets.NestedReplace(multiset{EntryOf(t)}, ForestEntries(u), ForestEntries(cs), Entries(cs[i]), Entries(c'), Entries(a), Entries(n));
      Multisets.NestedReplace(multiset{t.id}, ForestIds(u), ForestIds(cs), Ids(cs[i]), Ids(c'), Ids(a), Ids(n));
    }
  }

  lemma {:induction false} ReplaceTwice(t: Node, p: Path, n1: Node, n2: Node)
    requires ValidPath(t, p)
    ensures ReplaceAt(ReplaceAt(t, p, n1), p, n2) == ReplaceAt(t, p, n2)
    decreases p
  {
    if p != [] {
      ReplaceTwice(t.children[p[0]], p[1..], n1, n2);
    }
  }

  lemma {:induction false} ReplaceSame(t: Node, p: Path)
    requires ValidPath(t, p)
    ensures ReplaceAt(t, p, At(t, p)) == t
    decreases p
  {
    if p != [] {
      ReplaceSame(t.children[p[0]], p[1..]);
      assert t.children[p[0] := t.children[p[0]]] == t.children;
    }
  }

  /** The index at which a child lands in a folder of `count` children: a
      position within 0..count is taken as given, any other position (the
      default -1 included) appends. */
  function InsertIndex(count: nat, position: int): (k: nat)
    ensures k <= count
  {
    if 0 <= position <= count then position else count
  }

  /** `t` with `x` inserted as child number `k` of the folder at `pp`. */
  function AddChild(t: Node, pp: Path, x: Node, k: nat): Node
    requires ValidPath(t, pp) && At(t, pp).Folder? && k <= |At(t, pp).children|
  {
    var f := At(t, pp);
    ReplaceAt(t, pp, f.(children := Insert(f.children, k, x)))
  }

  /** Inserting a child changes only the parent's row (its child list gains
      the new id at index `k`), adds the new subtree's rows and ids, and
      leaves the new child at path `pp + [k]`. */
  lemma AddChildEffect(t: Node, pp: Path, x: Node, k: nat)
    requires ValidPath(t, pp) && At(t, pp).Folder? && k <= |At(t, pp).children|
    ensures var r := AddChild(t, pp, x, k);
      var f := At(t, pp);
      var f' := f.(children := Insert(f.children, k, x));
      && ValidPath(r, pp) && At(r, pp) == f'
      && ValidPath(r, pp + [k]) && At(r, pp + [k]) == x
      && r.id == t.id && (t.Folder? ==> r.Folder?)
      && EntryOf(f') == FolderEntry(f.id, f.name, Insert(ChildIds(f.children), k, x.id))
      && Ids(r) == Ids(t) + Ids(x)
      && Entries(r) + multiset{EntryOf(f)} == Entries(t) + multiset{EntryOf(f')} + Entries(x)
  {
    AddChildShape(t, pp, x, k);
    AddChildCounts(t, pp, x, k);
  }

  /** Where the inserted child and its parent sit after the insertion. */
  lemma AddChildShape(t: Node, pp: Path, x: Node, k: nat)
    requires ValidPath(t, pp) && At(t, pp).Folder? && k <= |At(t, pp).children|
    ensures var r := AddChild(t, pp, x, k);
      var f := At(t, pp);
      var f' := f.(children := Insert(f.children, k, x));
      && ValidPath(r, pp) && At(r, pp) == f'
      && ValidPath(r, pp + [k]) && At(r, pp + [k]) == x
      && r.id == t.id && (t.Folder? ==> r.Folder?)
      && EntryOf(f') == FolderEntry(f.id, f.name, Insert(ChildIds(f.children), k, x.id))
  {
    var r := AddChild(t, pp, x, k);
    var f := At(t, pp);
    var f' := f.(children := Insert(f.children, k, x));
    assert r.id == t.id by {
      ReplaceAtEffect(t, pp, f');
    }
    assert ValidPath(r, pp + [k]) && At(r, pp + [k]) == x by {
      PathConcat(r, pp, [k]);
      InsertThenWithout(f.children, k, x);
      assert [k][1..] == [];
      assert ValidPath(f', [k]) && At(f', [k]) == x;
    }
    ChildIdsInsert(f.children, k, x);
  }

  /** The rows and ids the insertion adds. */
  lemma AddChildCounts(t: Node, pp: Path, x: Node, k: nat)
    requires ValidPath(t, pp) && At(t, pp).Folder? && k <= |At(t, pp).children|
    ensures var r := AddChild(t, pp, x, k);
      var f := At(t, pp);
      var f' := f.(children := Insert(f.children, k, x));
      && Ids(r) == Ids(t) + Ids(x)
      && Entries(r) + multiset{EntryOf(f)} == Entries(t) + multiset{EntryOf(f')} + Entries(x)
  {
    var r := AddChild(t, pp, x, k);
    var f := At(t, pp);
    var f' := f.(children := Insert(f.children, k, x));
    ReplaceAtEffect(t, pp, f');
    ForestInsert(f.children, k, x);
    assert Entries(r) + multiset{EntryOf(f)} == Entries(t) + multiset{EntryOf(f')} + Entries(x) by {
      assert Entries(f) == multiset{EntryOf(f)} + ForestEntries(f.children);
      assert Entries(f') == multiset{EntryOf(f')} + (ForestEntries(f.children) + Entries(x));
      Multisets.AddedWithRowChange(Entries(r), Entries(t), multiset{EntryOf(f)}, multiset{EntryOf(f')}, ForestEntries(f.children), Entries(x));
    }
    assert Ids(r) == Ids(t) + Ids(x) by {
      assert Ids(f) == multiset{f.id} + ForestIds(f.children);
      assert Ids(f') == multiset{f.id} + (ForestIds(f.children) + Ids(x));
      Multisets.Added(Ids(r), Ids(t), multiset{f.id}, ForestIds(f.children), Ids(x));
    }
  }

  /** `t` without the subtree at the non-root path `p`. */
  function DetachChild(t: Node, p: Path): Node
    requires p != [] && ValidPath(t, p)
  {
    ParentOfPath(t, p);
    var f := At(t, Up(p));
    ReplaceAt(t, Up(p), f.(children := Without(f.children, Last(p))))
  }

  /** Detaching a subtree changes only its parent's row (the child list
      loses the id at the detached index) and removes exactly the subtree's
      rows and ids. */
  lemma DetachChildEffect(t: Node, p: Path)
    requires p != [] && ValidPath(t, p)
    ensures ValidPath(t, Up(p)) && At(t, Up(p)).Folder? && Last(p) < |At(t, Up(p)).children|
    ensures var r := DetachChild(t, p);
      var f := At(t, Up(p));
      var f' := f.(children := Without(f.children, Last(p)));
      && ValidPath(r, Up(p)) && At(r, Up(p)) == f'
      && r.id == t.id && (t.Folder? ==> r.Folder?)
      && EntryOf(f') == FolderEntry(f.id, f.name, Without(ChildIds(f.children), Last(p)))
      && Ids(r) + Ids(At(t, p)) == Ids(t)
      && Entries(r) + Entries(At(t, p)) + multiset{EntryOf(f)} == Entries(t) + multiset{EntryOf(f')}
  {
    ParentOfPath(t, p);
    var r := DetachChild(t, p);
    var f := At(t, Up(p));
    var w := Without(f.children, Last(p));
    var f' := f.(children := w);
    ReplaceAtEffect(t, Up(p), f');
    ForestWithout(f.children, Last(p));
    assert Entries(f) == multiset{EntryOf(f)} + ForestEntries(f.children);
    assert Entries(f') == multiset{EntryOf(f')} + ForestEntries(w);
    Multisets.RemovedWithRowChange(Entries(r), Entries(t), Entries(At(t, p)), multiset{EntryOf(f)}, multiset{EntryOf(f')},
      ForestEntries(w), ForestEntries(f.children));
    assert Ids(f) == multiset{f.id} + ForestIds(f.children);
    assert Ids(f') == multiset{f.id} + ForestIds(w);
    Multisets.Removed(Ids(r), Ids(t), Ids(At(t, p)), multiset{f.id}, ForestIds(w), ForestIds(f.children));
  }

  /** Detaching a child that was just inserted gives back the original tree. */
  lemma DetachAfterAdd(t: Node, pp: Path, x: Node, k: nat)
    requires ValidPath(t, pp) && At(t, pp).Folder? && k <= |At(t, pp).children|
    ensures ValidPath(AddChild(t, pp, x, k), pp + [k])
    ensures DetachChild(AddChild(t, pp, x, k), pp + [k]) == t
  {
    var f := At(t, pp);
    var f' := f.(children := Insert(f.children, k, x));
    var r := AddChild(t, pp, x, k);
    AddChildEffect(t, pp, x, k);
    var p := pp + [k];
    assert Up(p) == pp && Last(p) == k;
    InsertThenWithout(f.children, k, x);
    assert f'.(children := Without(f'.children, k)) == f;
    ReplaceTwice(t, pp, f', f);
    ReplaceSame(t, pp);
  }

  /** Putting a detached subtree back where it was gives back the original
      tree. */
  lemma AddAfterDetach(t: Node, p: Path)
    requires p != [] && ValidPath(t, p)
    ensures ValidPath(DetachChild(t, p), Up(p))
    ensures At(DetachChild(t, p), Up(p)).Folder?
    ensures Last(p) <= |At(DetachChild(t, p), Up(p)).children|
    ensures AddChild(DetachChild(t, p), Up(p), At(t, p), Last(p)) == t
  {
    DetachChildEffect(t, p);
    ParentOfPath(t, p);
    var f := At(t, Up(p));
    var f' := f.(children := Without(f.children, Last(p)));
    WithoutThenInsert(f.children, Last(p));
    assert f'.(children := Insert(f'.children, Last(p), At(t, p))) == f;
    ReplaceTwice(t, Up(p), f', f);
    ReplaceSame(t, Up(p));
  }

  /** The path of the first node with id `id` in preorder. */
  function Locate(t: Node, id: int): (r: Option<Path>)
    ensures r.Some? ==> ValidPath(t, r.value) && At(t, r.value).id == id
    ensures r.None? ==> id !in Ids(t)
    ensures t.id == id ==> r == Some([])
    decreases t
  {
    if t.id == id then Some([])
    else if t.Bookmark? then None
    else
      assert t.children[0..] == t.children;
      LocateAmong(t.children, id, 0)
  }

  /** The path, below a folder with children `cs`, of the first node with id
      `id` among the subtrees `cs[i..]`. */
  function LocateAmong(cs: seq<Node>, id: int, i: nat): (r: Option<Path>)
    requires i <= |cs|
    ensures r.Some? ==>
      (r.value != [] && i <= r.value[0] < |cs|
       && ValidPath(cs[r.value[0]], r.value[1..]) && At(cs[r.value[0]], r.value[1..]).id == id)
    ensures r.None? ==> id !in ForestIds(cs[i..])
    decreases cs, |cs| - i
  {
    if i == |cs| then None
    else
      assert cs[i..][0] == cs[i] && cs[i..][1..] == cs[i + 1..];
      match Locate(cs[i], id)
      case Some(p) => Some([i] + p)
      case None => LocateAmong(cs, id, i + 1)
  }

  /** The node with id `id`, if the tree has one. */
  function Lookup(t: Node, id: int): (r: Option<Node>)
    ensures r.Some? ==> r.value.id == id && EntryOf(r.value) in Entries(t)
    ensures r.None? <==> id !in Ids(t)
  {
    match Locate(t, id)
    case None => None
    case Some(p) => SubtreeIn(t, p); Some(At(t, p))
  }

  /** With distinct ids, the node at any path is what `Lookup` finds for its id. */
  lemma LookupAt(t: Node, p: Path)
    requires Distinct(Ids(t)) && ValidPath(t, p)
    ensures Locate(t, At(t, p).id) == Some(p)
    ensures Lookup(t, At(t, p).id) == Some(At(t, p))
  {
    SubtreeIn(t, p);
    var q := Locate(t, At(t, p).id).value;
    PathsUnique(t, p, q);
  }

  /** With distinct ids, the row with a given id is the row of the node
      `Lookup` finds. */
  lemma LookupEntry(t: Node, e: Entry)
    requires Distinct(Ids(t)) && e in Entries(t)
    ensures Lookup(t, e.id).Some? && EntryOf(Lookup(t, e.id).value) == e
  {
    var p := EntryAt(t, e);
    LookupAt(t, p);
  }

  /** The path of the first bookmark of `url` in preorder. */
  function LocateUrl(t: Node, url: string): (r: Option<Path>)
    ensures r.Some? ==> ValidPath(t, r.value) && At(t, r.value).Bookmark? && At(t, r.value).url == url
    ensures r.None? ==> !UrlIn(Entries(t), url)
    decreases t
  {
    if t.Bookmark? then (if t.url == url then Some([]) else None)
    else
      assert t.children[0..] == t.children;
      LocateUrlAmong(t.children, url, 0)
  }

  /** The path, below a folder with children `cs`, of the first bookmark of
      `url` among the subtrees `cs[i..]`. */
  function LocateUrlAmong(cs: seq<Node>, url: string, i: nat): (r: Option<Path>)
    requires i <= |cs|
    ensures r.Some? ==>
      (r.value != [] && i <= r.value[0] < |cs|
       && ValidPath(cs[r.value[0]], r.value[1..])
       && At(cs[r.value[0]], r.value[1..]).Bookmark? && At(cs[r.value[0]], r.value[1..]).url == url)
    ensures r.None? ==> !UrlIn(ForestEntries(cs[i..]), url)
    decreases cs, |cs| - i
  {
    if i == |cs| then None
    else
      assert cs[i..][0] == cs[i] && cs[i..][1..] == cs[i + 1..];
      match LocateUrl(cs[i], url)
      case Some(p) => Some([i] + p)
      case None => LocateUrlAmong(cs, url, i + 1)
  }
}
