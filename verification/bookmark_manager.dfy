/** The bookmark manager: it owns the tree rooted at the root folder and
    offers the operations of the bookmark collection. A node handed to or
    returned by a caller is identified by its id. Every write first goes to
    the bookmark database; `stored` says whether that write succeeded, and
    when it did not, the tree is left as it was. */
module BookmarkManager {
  import opened Wrappers
  import opened BookmarkNode
  import opened BookmarkTree
  import Multisets

  /** The well-known id of the root folder. */
  const RootId: int := 0

  /** The tree rooted at the root folder, and the id the database assigns
      to the next node it stores. */
  datatype Manager = Manager(root: Node, nextId: int)

  datatype Error =
    | NotFound          // the given node is not in the tree, or is not of the kind asked for
    | InvalidOperation  // removing the root folder, or moving a node into its own subtree
    | StoreError        // the database write failed

  /** The manager after an operation, and what the operation returned. */
  datatype Outcome<T> = Outcome(state: Manager, result: Result<T, Error>)

  /** Where a non-root node sits: its parent folder and its position there. */
  datatype Slot = Slot(parent: Node, index: nat)

  /** The manager's invariant: the root is a folder with the root id, no id
      occurs twice, and every id is below the next one to be assigned. */
  ghost predicate Valid(m: Manager)
  {
    && m.root.Folder?
    && m.root.id == RootId
    && Distinct(Ids(m.root))
    && (forall x :: x in Ids(m.root) ==> x < m.nextId)
  }

  /** A manager holding only an empty root folder. */
  function Empty(rootName: string): (m: Manager)
    ensures Valid(m)
    ensures Ids(m.root) == multiset{RootId}
  {
    Manager(Folder(RootId, rootName, []), RootId + 1)
  }

  /** `id` names a folder of the tree. */
  predicate IsFolderId(t: Node, id: int)
  {
    Lookup(t, id).Some? && Lookup(t, id).value.Folder?
  }

  /** `id` names a bookmark of the tree. */
  predicate IsBookmarkId(t: Node, id: int)
  {
    Lookup(t, id).Some? && Lookup(t, id).value.Bookmark?
  }

  /** The folder with id `id`, if the tree has one. */
  function FolderLookup(t: Node, id: int): Option<Node>
  {
    if IsFolderId(t, id) then Lookup(t, id) else None
  }

  /** The folder a bookmark is added to: the given one, or else the root. */
  function FolderOrRoot(folder: Option<int>): int
  {
    match folder
    case None => RootId
    case Some(id) => id
  }

  /** The parent folder and position of the node with id `id`; the root
      folder and ids not in the tree have none. */
  function SlotOf(t: Node, id: int): (r: Option<Slot>)
    ensures r.None? <==> id !in Ids(t) || id == t.id
    ensures r.Some? ==>
      r.value.parent.Folder? && r.value.index < |r.value.parent.children|
      && r.value.parent.children[r.value.index].id == id
  {
    match Locate(t, id)
    case None => None
    case Some(p) =>
      if p == [] then None
      else
        ParentOfPath(t, p);
        SubtreeIn(t, p);
        Some(Slot(At(t, Up(p)), Last(p)))
  }

  /** The root folder. */
  function GetRoot(m: Manager): (r: Node)
    requires Valid(m)
    ensures r.Folder? && r.id == RootId
    ensures Lookup(m.root, RootId) == Some(r)
  {
    m.root
  }

  /** Whether some bookmark of the collection has exactly this URL. */
  function IsBookmarked(m: Manager, url: string): (r: bool)
    ensures r <==> UrlIn(Entries(m.root), url)
  {
    match LocateUrl(m.root, url)
    case None => false
    case Some(p) => SubtreeIn(m.root, p); true
  }

  /** One step of the breadth-first search: the head of the queue is not
      the folder sought, so dropping it and queueing its children loses no
      candidate and leaves one row fewer to visit. */
  lemma QueueStep(queue: seq<Node>, id: int)
    requires queue != [] && !(queue[0].Folder? && queue[0].id == id)
    ensures var n := queue[0];
      var next := queue[1..] + Kids(n);
      && |ForestEntries(next)| < |ForestEntries(queue)|
      && (FolderIn(ForestEntries(queue), id) ==> FolderIn(ForestEntries(next), id))
  {
    var n := queue[0];
    var kids := Kids(n);
    var next := queue[1..] + kids;
    ForestConcat(queue[1..], kids);
    assert ForestEntries(queue) == (multiset{EntryOf(n)} + ForestEntries(kids)) + ForestEntries(queue[1..]);
    Multisets.Rotate(ForestEntries(queue), multiset{EntryOf(n)}, ForestEntries(kids), ForestEntries(queue[1..]),
                     ForestEntries(next));
    if FolderIn(ForestEntries(queue), id) {
      var e :| e in ForestEntries(queue) && e.FolderEntry? && e.id == id;
      assert (ForestEntries(next) + multiset{EntryOf(n)})[e] == ForestEntries(queue)[e];
      assert e in ForestEntries(next);
    }
  }

  /** A folder found by `FolderLookup` has a row in the tree. */
  lemma FolderRow(t: Node, id: int)
    ensures FolderLookup(t, id).Some? ==> FolderIn(Entries(t), id)
  {
    if IsFolderId(t, id) {
      var f := Lookup(t, id).value;
      assert EntryOf(f).FolderEntry? && EntryOf(f) in Entries(t);
    }
  }

  /** Each node of the search queue is the node of the tree at the path
      recorded beside it. */
  ghost predicate Placed(t: Node, queue: seq<Node>, paths: seq<Path>)
  {
    && |paths| == |queue|
    && forall i :: 0 <= i < |queue| ==> ValidPath(t, paths[i]) && At(t, paths[i]) == queue[i]
  }

  /** The children of a node of the search queue, in order. */
  function Kids(n: Node): seq<Node>
  {
    if n.Folder? then n.children else []
  }

  /** The paths of the `count` children of the node at path `p`. */
  function Below(p: Path, count: nat): (r: seq<Path>)
    ensures |r| == count && forall j :: 0 <= j < count ==> r[j] == p + [j]
  {
    seq(count, j requires 0 <= j < count => p + [j])
  }

  /** Replacing the head of the search queue by its children keeps every
      node beside its path. */
  lemma PlacedStep(t: Node, queue: seq<Node>, paths: seq<Path>)
    requires Placed(t, queue, paths) && queue != []
    ensures Placed(t, queue[1..] + Kids(queue[0]), paths[1..] + Below(paths[0], |Kids(queue[0])|))
  {
    var kids := Kids(queue[0]);
    var below := Below(paths[0], |kids|);
    forall j | 0 <= j < |kids|
      ensures ValidPath(t, below[j]) && At(t, below[j]) == kids[j]
    {
      PathConcat(t, paths[0], [j]);
      assert [j][1..] == [];
    }
    var q, ps := queue[1..] + kids, paths[1..] + below;
    forall i | 0 <= i < |q|
      ensures ValidPath(t, ps[i]) && At(t, ps[i]) == q[i]
    {
      if i < |queue| - 1 {
        assert q[i] == queue[i + 1] && ps[i] == paths[i + 1];
      } else {
        assert q[i] == kids[i - (|queue| - 1)] && ps[i] == below[i - (|queue| - 1)];
      }
    }
  }

  /** A folder reached by the search is in the tree, and in a valid manager
      it is the one `FolderLookup` finds. */
  lemma Found(m: Manager, p: Path)
    requires ValidPath(m.root, p) && At(m.root, p).Folder?
    ensures EntryOf(At(m.root, p)) in Entries(m.root)
    ensures Valid(m) ==> FolderLookup(m.root, At(m.root, p).id) == Some(At(m.root, p))
  {
    SubtreeIn(m.root, p);
    if Valid(m) {
      LookupAt(m.root, p);
    }
  }

  /** Searches for the folder with the given id by a breadth-first search
      from the root folder; `None` when there is no such folder. */
  method FindFolder(m: Manager, id: int) returns (r: Option<Node>)
    ensures r.Some? ==> r.value.Folder? && r.value.id == id && EntryOf(r.value) in Entries(m.root)
    ensures r.None? <==> !FolderIn(Entries(m.root), id)
    ensures Valid(m) ==> r == FolderLookup(m.root, id)
  {
    var queue := [m.root];
    ghost var paths: seq<Path> := [[]];
    ForestSingle(m.root);
    while queue != []
      invariant Placed(m.root, queue, paths)
      invariant FolderIn(Entries(m.root), id) ==> FolderIn(ForestEntries(queue), id)
      decreases |ForestEntries(queue)|
    {
      var n := queue[0];
      if n.Folder? && n.id == id {
        Found(m, paths[0]);
        return Some(n);
      }
      QueueStep(queue, id);
      PlacedStep(m.root, queue, paths);
      queue := queue[1..] + Kids(n);
      paths := paths[1..] + Below(paths[0], |Kids(n)|);
    }
    FolderRow(m.root, id);
    return None;
  }

  /** Inserting a subtree whose ids are new to the tree keeps the manager
      valid and changes only the row of the folder it goes into. */
  lemma InsertEffect(m: Manager, pp: Path, x: Node, k: nat, next: int)
    requires Valid(m) && ValidPath(m.root, pp) && At(m.root, pp).Folder? && k <= |At(m.root, pp).children|
    requires Distinct(Ids(m.root) + Ids(x))
    requires next >= m.nextId && forall y :: y in Ids(x) ==> y < next
    ensures var f := At(m.root, pp);
      var f' := f.(children := Insert(f.children, k, x));
      var t' := AddChild(m.root, pp, x, k);
      && Valid(Manager(t', next))
      && Ids(t') == Ids(m.root) + Ids(x)
      && Lookup(m.root, f.id) == Some(f)
      && Lookup(t', x.id) == Some(x)
      && Lookup(t', f.id) == Some(f')
      && EntryOf(f') == FolderEntry(f.id, f.name, Insert(ChildIds(f.children), k, x.id))
      && Entries(t') + multiset{EntryOf(f)} == Entries(m.root) + multiset{EntryOf(f')} + Entries(x)
  {
    var t := m.root;
    var t' := AddChild(t, pp, x, k);
    AddChildEffect(t, pp, x, k);
    assert forall y :: y in Ids(t') ==> y < next by {
      forall y | y in Ids(t') ensures y < next {
        assert Ids(t')[y] == Ids(t)[y] + Ids(x)[y];
      }
    }
    LookupAt(t, pp);
    LookupAt(t', pp);
    LookupAt(t', pp + [k]);
  }

  /** Inserting a fresh leaf into a folder keeps the manager valid and
      changes only that folder's row. */
  lemma AddLeafEffect(m: Manager, pp: Path, x: Node, k: nat)
    requires Valid(m) && ValidPath(m.root, pp) && At(m.root, pp).Folder? && k <= |At(m.root, pp).children|
    requires x.id == m.nextId && (x.Folder? ==> x.children == [])
    ensures var f := At(m.root, pp);
      var f' := f.(children := Insert(f.children, k, x));
      var m' := Manager(AddChild(m.root, pp, x, k), m.nextId + 1);
      && Valid(m')
      && x.id !in Ids(m.root)
      && Ids(m'.root) == Ids(m.root) + multiset{x.id}
      && Lookup(m.root, f.id) == Some(f)
      && Lookup(m'.root, x.id) == Some(x)
      && Lookup(m'.root, f.id) == Some(f')
      && Entries(m'.root) + multiset{EntryOf(f)} == Entries(m.root) + multiset{EntryOf(f')} + multiset{EntryOf(x)}
  {
    assert Ids(x) == multiset{x.id};
    assert Entries(x) == multiset{EntryOf(x)};
    assert x.id !in Ids(m.root);
    assert Distinct(Ids(m.root) + Ids(x)) by {
      forall y ensures (Ids(m.root) + Ids(x))[y] <= 1 {
        assert (Ids(m.root) + Ids(x))[y] == Ids(m.root)[y] + multiset{x.id}[y];
      }
    }
    InsertEffect(m, pp, x, k, m.nextId + 1);
  }

  /** Detaching a non-root subtree keeps the manager valid, makes all its
      ids unreachable, and changes only its parent's row. */
  lemma DetachEffect(m: Manager, p: Path)
    requires Valid(m) && ValidPath(m.root, p) && p != []
    ensures ValidPath(m.root, Up(p)) && At(m.root, Up(p)).Folder? && Last(p) < |At(m.root, Up(p)).children|
    ensures var n := At(m.root, p);
      var f := At(m.root, Up(p));
      var f' := f.(children := Without(f.children, Last(p)));
      var m' := Manager(DetachChild(m.root, p), m.nextId);
      && Valid(m')
      && Lookup(m.root, n.id) == Some(n)
      && SlotOf(m.root, n.id) == Some(Slot(f, Last(p)))
      && Ids(m'.root) + Ids(n) == Ids(m.root)
      && (forall x :: x in Ids(n) ==> x !in Ids(m'.root))
      && f.id in Ids(m'.root) && f.id !in Ids(n)
      && Lookup(m'.root, f.id) == Some(f')
      && EntryOf(f') == FolderEntry(f.id, f.name, Without(ChildIds(f.children), Last(p)))
      && Entries(m'.root) + Entries(n) + multiset{EntryOf(f)} == Entries(m.root) + multiset{EntryOf(f')}
  {
    var t := m.root;
    var n := At(t, p);
    var t' := DetachChild(t, p);
    DetachChildEffect(t, p);
    LookupAt(t, p);
    assert Distinct(Ids(t')) by {
      forall y ensures Ids(t')[y] <= 1 {
        assert Ids(t')[y] + Ids(n)[y] == Ids(t)[y];
      }
    }
    assert forall x :: x in Ids(n) ==> x !in Ids(t') by {
      forall x | x in Ids(n) ensures x !in Ids(t') {
        assert Ids(t')[x] + Ids(n)[x] == Ids(t)[x];
      }
    }
    assert forall y :: y in Ids(t') ==> y < m.nextId by {
      forall y | y in Ids(t') ensures y < m.nextId {
        assert Ids(t')[y] + Ids(n)[y] == Ids(t)[y];
      }
    }
    LookupAt(t', Up(p));
    SubtreeIn(t', Up(p));
  }

  /** Replacing a node by one with the same id, kind and children keeps the
      manager valid and changes only that node's row. */
  lemma RenameEffect(m: Manager, p: Path, n: Node)
    requires Valid(m) && ValidPath(m.root, p)
    requires n.id == At(m.root, p).id
    requires At(m.root, p).Folder? ==> n.Folder? && n.children == At(m.root, p).children
    requires At(m.root, p).Bookmark? ==> n.Bookmark?
    ensures var m' := Manager(ReplaceAt(m.root, p, n), m.nextId);
      && Valid(m')
      && Ids(m'.root) == Ids(m.root)
      && Lookup(m.root, n.id) == Some(At(m.root, p))
      && Lookup(m'.root, n.id) == Some(n)
      && Entries(m'.root) + multiset{EntryOf(At(m.root, p))} == Entries(m.root) + multiset{EntryOf(n)}
  {
    var t := m.root;
    var a := At(t, p);
    var t' := ReplaceAt(t, p, n);
    ReplaceAtEffect(t, p, n);
    var rest := if a.Folder? then ForestEntries(a.children) else multiset{};
    var restIds := if a.Folder? then ForestIds(a.children) else multiset{};
    assert Entries(a) == multiset{EntryOf(a)} + rest;
    assert Entries(n) == multiset{EntryOf(n)} + rest;
    Multisets.Swap(Entries(t'), Entries(t), multiset{EntryOf(a)}, multiset{EntryOf(n)}, rest);
    assert Ids(a) == multiset{a.id} + restIds;
    assert Ids(n) == multiset{a.id} + restIds;
    Multisets.Cancel(Ids(t'), Ids(t), Ids(a));
    LookupAt(t, p);
    LookupAt(t', p);
  }

  /** Adds a folder with the given name as the last child of the folder
      `parentId`, and returns the new folder. */
  function AddFolder(m: Manager, name: string, parentId: int, stored: bool): (r: Outcome<Node>)
    requires Valid(m)
    ensures Valid(r.state)
    ensures r.result.Failure? ==> r.state == m
    ensures r.result.Success? ==> r.state.nextId == m.nextId + 1
    ensures r.result != Failure(InvalidOperation)
    ensures r.result == Failure(NotFound) <==> !IsFolderId(m.root, parentId)
    ensures r.result == Failure(StoreError) <==> IsFolderId(m.root, parentId) && !stored
    ensures r.result.Success? ==>
      var f := r.result.value;
      var p := Lookup(m.root, parentId).value;
      var p' := p.(children := p.children + [f]);
      && f == Folder(m.nextId, name, [])
      && f.id !in Ids(m.root)
      && Ids(r.state.root) == Ids(m.root) + multiset{f.id}
      && Lookup(r.state.root, f.id) == Some(f)
      && Lookup(r.state.root, parentId) == Some(p')
      && Entries(r.state.root) + multiset{EntryOf(p)} == Entries(m.root) + multiset{EntryOf(p')} + multiset{EntryOf(f)}
  {
    match Locate(m.root, parentId)
    case None => Outcome(m, Failure(NotFound))
    case Some(pp) =>
      var p := At(m.root, pp);
      if !p.Folder? then Outcome(m, Failure(NotFound))
      else if !stored then Outcome(m, Failure(StoreError))
      else
        var f := Folder(m.nextId, name, []);
        AddLeafEffect(m, pp, f, |p.children|);
        InsertAtEnd(p.children, f);
        Outcome(Manager(AddChild(m.root, pp, f, |p.children|), m.nextId + 1), Success(f))
  }

  /** Adds a bookmark of `url` to the folder `folder` (the root folder when
      none is given) at index `position` among its children; a position
      outside 0..n, the default -1 included, appends it. Returns the new
      bookmark. */
  function AddBookmark(m: Manager, name: string, url: string, folder: Option<int>, position: int,
                       stored: bool): (r: Outcome<Node>)
    requires Valid(m)
    ensures Valid(r.state)
    ensures r.result.Failure? ==> r.state == m
    ensures r.result.Success? ==> r.state.nextId == m.nextId + 1
    ensures r.result != Failure(InvalidOperation)
    ensures r.result == Failure(NotFound) <==> !IsFolderId(m.root, FolderOrRoot(folder))
    ensures r.result == Failure(StoreError) <==> IsFolderId(m.root, FolderOrRoot(folder)) && !stored
    ensures r.result.Success? ==>
      var b := r.result.value;
      var p := Lookup(m.root, FolderOrRoot(folder)).value;
      var q := Lookup(r.state.root, FolderOrRoot(folder));
      && b == Bookmark(m.nextId, name, url)
      && b.id !in Ids(m.root)
      && Ids(r.state.root) == Ids(m.root) + multiset{b.id}
      && Lookup(r.state.root, b.id) == Some(b)
      && q.Some? && q.value.Folder? && q.value.id == p.id && q.value.name == p.name
      && (0 <= position <= |p.children| ==> q.value.children == Insert(p.children, position, b))
      && (!(0 <= position <= |p.children|) ==> q.value.children == p.children + [b])
      && Entries(r.state.root) + multiset{EntryOf(p)} == Entries(m.root) + multiset{EntryOf(q.value)} + multiset{EntryOf(b)}
  {
    match Locate(m.root, FolderOrRoot(folder))
    case None => Outcome(m, Failure(NotFound))
    case Some(pp) =>
      var p := At(m.root, pp);
      if !p.Folder? then Outcome(m, Failure(NotFound))
      else if !stored then Outcome(m, Failure(StoreError))
      else
        var b := Bookmark(m.nextId, name, url);
        var k := InsertIndex(|p.children|, position);
        AddLeafEffect(m, pp, b, k);
        InsertAtEnd(p.children, b);
        Outcome(Manager(AddChild(m.root, pp, b, k), m.nextId + 1), Success(b))
  }

  /** Removes the bookmark `itemId` from the collection and returns it;
      folders are not removed by this operation. */
  function RemoveBookmark(m: Manager, itemId: int, stored: bool): (r: Outcome<Node>)
    requires Valid(m)
    ensures Valid(r.state)
    ensures r.result.Failure? ==> r.state == m
    ensures r.state.nextId == m.nextId
    ensures r.result != Failure(InvalidOperation)
    ensures r.result == Failure(NotFound) <==> !IsBookmarkId(m.root, itemId)
    ensures r.result == Failure(StoreError) <==> IsBookmarkId(m.root, itemId) && !stored
    ensures r.result.Success? ==>
      var b := r.result.value;
      var s := SlotOf(m.root, itemId);
      && Lookup(m.root, itemId) == Some(b) && b.Bookmark?
      && s.Some? && s.value.parent.children[s.value.index] == b
      && var p' := s.value.parent.(children := Without(s.value.parent.children, s.value.index));
      && Ids(r.state.root) + multiset{itemId} == Ids(m.root)
      && itemId !in Ids(r.state.root)
      && Lookup(r.state.root, s.value.parent.id) == Some(p')
      && Entries(r.state.root) + multiset{EntryOf(b)} + multiset{EntryOf(s.value.parent)}
         == Entries(m.root) + multiset{EntryOf(p')}
  {
    match Locate(m.root, itemId)
    case None => Outcome(m, Failure(NotFound))
    case Some(p) =>
      var b := At(m.root, p);
      if !b.Bookmark? then Outcome(m, Failure(NotFound))
      else if !stored then Outcome(m, Failure(StoreError))
      else
        DetachEffect(m, p);
        ParentOfPath(m.root, p);
        assert Ids(b) == multiset{itemId};
        assert Entries(b) == multiset{EntryOf(b)};
        Outcome(Manager(DetachChild(m.root, p), m.nextId), Success(b))
  }

  /** When the rows `after` are `before` less the bookmark row `eb`, with one
      folder row `ef'` changed into `ef`, a bookmark row is in `after` exactly
      when it is in `before` and is not `eb`. */
  lemma BookmarkRowKept(after: multiset<Entry>, before: multiset<Entry>, eb: Entry, ef: Entry, ef': Entry, e: Entry)
    requires ef.FolderEntry? && ef'.FolderEntry? && e.BookmarkEntry?
    requires after + multiset{eb} + multiset{ef} == before + multiset{ef'}
    ensures e in after ==> e in before
    ensures e in before && e != eb ==> e in after
  {
    assert (after + multiset{eb} + multiset{ef})[e] == (before + multiset{ef'})[e];
  }

  /** Which bookmarks of `url` remain after the bookmark `b` is detached:
      exactly the others. */
  lemma UrlAfterDetach(t: Node, t': Node, b: Node, ef: Entry, ef': Entry, url: string)
    requires b.Bookmark? && ef.FolderEntry? && ef'.FolderEntry?
    requires b.id !in Ids(t')
    requires Entries(t') + multiset{EntryOf(b)} + multiset{ef} == Entries(t) + multiset{ef'}
    ensures UrlIn(Entries(t'), url)
      <==> exists e :: e in Entries(t) && e.BookmarkEntry? && e.url == url && e.id != b.id
  {
    var after, before := Entries(t'), Entries(t);
    if UrlIn(after, url) {
      var e :| e in after && e.BookmarkEntry? && e.url == url;
      EntryIdIn(t', e);
      BookmarkRowKept(after, before, EntryOf(b), ef, ef', e);
      assert e in before && e.id != b.id;
    }
    if exists e :: e in before && e.BookmarkEntry? && e.url == url && e.id != b.id {
      var e :| e in before && e.BookmarkEntry? && e.url == url && e.id != b.id;
      BookmarkRowKept(after, before, EntryOf(b), ef, ef', e);
      assert e in after;
    }
  }

  /** Removes the first bookmark of `url` in the collection (in preorder)
      and returns it. */
  function RemoveBookmarkByUrl(m: Manager, url: string, stored: bool): (r: Outcome<Node>)
    requires Valid(m)
    ensures Valid(r.state)
    ensures r.result.Failure? ==> r.state == m
    ensures r.state.nextId == m.nextId
    ensures r.result != Failure(InvalidOperation)
    ensures r.result == Failure(NotFound) <==> !IsBookmarked(m, url)
    ensures r.result == Failure(StoreError) <==> IsBookmarked(m, url) && !stored
    ensures r.result.Success? ==>
      var b := r.result.value;
      var s := SlotOf(m.root, b.id);
      && b.Bookmark? && b.url == url && Lookup(m.root, b.id) == Some(b)
      && Ids(r.state.root) + multiset{b.id} == Ids(m.root)
      && b.id !in Ids(r.state.root)
      && s.Some?
      && var p' := s.value.parent.(children := Without(s.value.parent.children, s.value.index));
      && Lookup(r.state.root, s.value.parent.id) == Some(p')
      && Entries(r.state.root) + multiset{EntryOf(b)} + multiset{EntryOf(s.value.parent)}
         == Entries(m.root) + multiset{EntryOf(p')}
      && (IsBookmarked(r.state, url)
          <==> exists e :: e in Entries(m.root) && e.BookmarkEntry? && e.url == url && e.id != b.id)
  {
    match LocateUrl(m.root, url)
    case None => Outcome(m, Failure(NotFound))
    case Some(p) =>
      var b := At(m.root, p);
      LookupAt(m.root, p);
      var r := RemoveBookmark(m, b.id, stored);
      if r.result.Success? then
        var s := SlotOf(m.root, b.id).value;
        var p' := s.parent.(children := Without(s.parent.children, s.index));
        UrlAfterDetach(m.root, r.state.root, b, EntryOf(s.parent), EntryOf(p'), url);
        r
      else r
  }

  /** Removes the folder `folderId` together with every bookmark and folder
      beneath it, and returns the removed subtree. */
  function RemoveFolder(m: Manager, folderId: int, stored: bool): (r: Outcome<Node>)
    requires Valid(m)
    ensures Valid(r.state)
    ensures r.result.Failure? ==> r.state == m
    ensures r.state.nextId == m.nextId
    ensures r.result == Failure(InvalidOperation) <==> folderId == RootId
    ensures r.result == Failure(NotFound) <==> folderId != RootId && !IsFolderId(m.root, folderId)
    ensures r.result == Failure(StoreError) <==> folderId != RootId && IsFolderId(m.root, folderId) && !stored
    ensures r.result.Success? ==>
      var f := r.result.value;
      var s := SlotOf(m.root, folderId);
      && Lookup(m.root, folderId) == Some(f) && f.Folder?
      && s.Some? && s.value.parent.children[s.value.index] == f
      && var p' := s.value.parent.(children := Without(s.value.parent.children, s.value.index));
      && Ids(r.state.root) + Ids(f) == Ids(m.root)
      && (forall x :: x in Ids(f) ==> x !in Ids(r.state.root))
      && Lookup(r.state.root, s.value.parent.id) == Some(p')
      && Entries(r.state.root) + Entries(f) + multiset{EntryOf(s.value.parent)}
         == Entries(m.root) + multiset{EntryOf(p')}
  {
    if folderId == RootId then Outcome(m, Failure(InvalidOperation))
    else
      match Locate(m.root, folderId)
      case None => Outcome(m, Failure(NotFound))
      case Some(p) =>
        var f := At(m.root, p);
        if !f.Folder? then Outcome(m, Failure(NotFound))
        else if !stored then Outcome(m, Failure(StoreError))
        else
          DetachEffect(m, p);
          ParentOfPath(m.root, p);
          Outcome(Manager(DetachChild(m.root, p), m.nextId), Success(f))
  }

  /** A row of a tree that the edit did not bring in was already there. */
  lemma RowKept(after: multiset<Entry>, before: multiset<Entry>, out: multiset<Entry>, out2: multiset<Entry>,
                added: Entry, e: Entry)
    requires after + out + out2 == before + multiset{added}
    requires e in after && e.id != added.id
    ensures e in before
  {
    assert (after + out + out2)[e] == (before + multiset{added})[e];
  }

  /** A row that an edit did not take out is still there afterwards. */
  lemma RowCarried(after: multiset<Entry>, before: multiset<Entry>, removed: Entry,
                   added: multiset<Entry>, added2: multiset<Entry>, e: Entry)
    requires after + multiset{removed} == before + added + added2
    requires e in before && e.id != removed.id
    ensures e in after
  {
    assert (after + multiset{removed})[e] == (before + added + added2)[e];
  }

  /** Detaching the node to be moved keeps the manager valid and leaves the
      destination folder in the tree: unchanged if it is another folder, and
      without the node if it is the node's own parent. */
  lemma MoveDetach(m: Manager, ip: Path, pp: Path)
    requires Valid(m) && ValidPath(m.root, ip) && ValidPath(m.root, pp) && At(m.root, pp).Folder?
    requires At(m.root, pp).id !in Ids(At(m.root, ip))
    ensures ip != [] && ValidPath(m.root, Up(ip)) && At(m.root, Up(ip)).Folder?
    ensures Last(ip) < |At(m.root, Up(ip)).children|
    ensures var t1 := DetachChild(m.root, ip);
      var q := At(m.root, pp);
      var f := At(m.root, Up(ip));
      && Valid(Manager(t1, m.nextId))
      && IsFolderId(t1, q.id)
      && (f.id == q.id ==> f == q && Lookup(t1, q.id) == Some(f.(children := Without(f.children, Last(ip)))))
      && (f.id != q.id ==> EntryOf(Lookup(t1, q.id).value) == EntryOf(q))
  {
    var t := m.root;
    var q := At(t, pp);
    SubtreeIn(t, pp);
    if ip == [] {
      assert false;
    }
    DetachEffect(m, ip);
    var n := At(t, ip);
    var t1 := DetachChild(t, ip);
    var f := At(t, Up(ip));
    var f1 := f.(children := Without(f.children, Last(ip)));
    if f.id == q.id {
      PathsUnique(t, Up(ip), pp);
    } else {
      assert q.id in Ids(t1) by {
        assert Ids(t1)[q.id] + Ids(n)[q.id] == Ids(t)[q.id];
      }
      var q1 := Lookup(t1, q.id).value;
      assert EntryOf(q1) == EntryOf(q) by {
        RowKept(Entries(t1), Entries(t), Entries(n), multiset{EntryOf(f)}, EntryOf(f1), EntryOf(q1));
        LookupEntry(t, EntryOf(q1));
        LookupAt(t, pp);
      }
    }
  }

  /** `t` with the subtree at `ip` moved to `position` among the children of
      the folder `parentId`, counted after the subtree has left its place. */
  function MovedTree(t: Node, ip: Path, parentId: int, position: int): Node
    requires ValidPath(t, ip) && ip != []
    requires IsFolderId(DetachChild(t, ip), parentId)
  {
    var t1 := DetachChild(t, ip);
    var pp1 := Locate(t1, parentId).value;
    AddChild(t1, pp1, At(t, ip), InsertIndex(|At(t1, pp1).children|, position))
  }

  /** `m'` is `m` with the node `itemId` moved into the folder `parentId` at
      `position` (counted once the node has left its old place; out of range
      appends): the same nodes, the node itself unchanged, the destination's
      child list with the node inserted and the others in their old order,
      the old parent's child list without it, and no other row changed. */
  ghost predicate Moved(m: Manager, m': Manager, itemId: int, parentId: int, position: int)
    requires Valid(m) && SlotOf(m.root, itemId).Some? && IsFolderId(m.root, parentId)
  {
    var item := Lookup(m.root, itemId).value;
    var s := SlotOf(m.root, itemId).value;
    var q := Lookup(m.root, parentId).value;
    var same := s.parent.id == parentId;
    var base := if same then Without(ChildIds(s.parent.children), s.index) else ChildIds(q.children);
    var k := InsertIndex(|base|, position);
    var q' := Lookup(m'.root, parentId);
    var o' := Lookup(m'.root, s.parent.id);
    && m'.nextId == m.nextId
    && Ids(m'.root) == Ids(m.root)
    && Lookup(m'.root, itemId) == Some(item)
    && q'.Some? && q'.value.Folder? && k < |q'.value.children| && q'.value.children[k] == item
    && EntryOf(q'.value) == FolderEntry(parentId, q.name, Insert(base, k, itemId))
    && (same ==> Entries(m'.root) + multiset{EntryOf(q)} == Entries(m.root) + multiset{EntryOf(q'.value)})
    && (!same ==>
        && o'.Some?
        && EntryOf(o'.value) == FolderEntry(s.parent.id, s.parent.name, Without(ChildIds(s.parent.children), s.index))
        && Entries(m'.root) + multiset{EntryOf(q)} + multiset{EntryOf(s.parent)}
           == Entries(m.root) + multiset{EntryOf(q'.value)} + multiset{EntryOf(o'.value)})
  }

  /** Re-inserting the detached subtree into the destination folder keeps
      the manager valid and every id, and changes only the destination's
      row. */
  lemma MoveInsert(m: Manager, ip: Path, pp: Path, position: int)
    requires Valid(m) && ValidPath(m.root, ip) && ValidPath(m.root, pp) && At(m.root, pp).Folder?
    requires At(m.root, pp).id !in Ids(At(m.root, ip))
    ensures ip != [] && IsFolderId(DetachChild(m.root, ip), At(m.root, pp).id)
    ensures var t1 := DetachChild(m.root, ip);
      var q1 := Lookup(t1, At(m.root, pp).id).value;
      var item := At(m.root, ip);
      var k := InsertIndex(|q1.children|, position);
      var t' := MovedTree(m.root, ip, At(m.root, pp).id, position);
      var q' := q1.(children := Insert(q1.children, k, item));
      && Valid(Manager(t', m.nextId))
      && Ids(t') == Ids(m.root)
      && Lookup(t', item.id) == Some(item)
      && Lookup(t', q1.id) == Some(q')
      && k < |q'.children| && q'.children[k] == item
      && EntryOf(q') == FolderEntry(q1.id, q1.name, Insert(ChildIds(q1.children), k, item.id))
      && Entries(t') + multiset{EntryOf(q1)} == Entries(t1) + multiset{EntryOf(q')} + Entries(item)
  {
    var t := m.root;
    var item := At(t, ip);
    MoveDetach(m, ip, pp);
    DetachEffect(m, ip);
    var t1 := DetachChild(t, ip);
    var pp1 := Locate(t1, At(t, pp).id).value;
    var q1 := At(t1, pp1);
    var k := InsertIndex(|q1.children|, position);
    assert Distinct(Ids(t1) + Ids(item));
    assert forall y :: y in Ids(item) ==> y < m.nextId by {
      forall y | y in Ids(item) ensures y < m.nextId {
        assert (Ids(t1) + Ids(item))[y] == Ids(t)[y];
      }
    }
    InsertEffect(Manager(t1, m.nextId), pp1, item, k, m.nextId);
    InsertThenWithout(q1.children, k, item);
  }

  /** After a move, the node's old parent is still a folder of the tree;
      when it is not the destination, its row only lacks the moved node. */
  lemma OldParentAfterMove(m: Manager, ip: Path, pp: Path, position: int)
    requires Valid(m) && ValidPath(m.root, ip) && ValidPath(m.root, pp) && At(m.root, pp).Folder?
    requires At(m.root, pp).id !in Ids(At(m.root, ip))
    ensures ip != [] && ValidPath(m.root, Up(ip)) && At(m.root, Up(ip)).Folder?
    ensures Last(ip) < |At(m.root, Up(ip)).children|
    ensures IsFolderId(DetachChild(m.root, ip), At(m.root, pp).id)
    ensures var f := At(m.root, Up(ip));
      var t' := MovedTree(m.root, ip, At(m.root, pp).id, position);
      && IsFolderId(t', f.id)
      && (f.id != At(m.root, pp).id ==>
            EntryOf(Lookup(t', f.id).value) == FolderEntry(f.id, f.name, Without(ChildIds(f.children), Last(ip))))
  {
    var t := m.root;
    var q := At(t, pp);
    MoveDetach(m, ip, pp);
    DetachEffect(m, ip);
    MoveInsert(m, ip, pp, position);
    var t1 := DetachChild(t, ip);
    var f := At(t, Up(ip));
    var f1 := f.(children := Without(f.children, Last(ip)));
    var q1 := Lookup(t1, q.id).value;
    var k := InsertIndex(|q1.children|, position);
    var q' := q1.(children := Insert(q1.children, k, At(t, ip)));
    var t' := MovedTree(t, ip, q.id, position);
    if f.id != q.id {
      RowCarried(Entries(t'), Entries(t1), EntryOf(q1), multiset{EntryOf(q')}, Entries(At(t, ip)), EntryOf(f1));
      LookupEntry(t', EntryOf(f1));
    }
  }

  /** The move re-inserts the detached subtree into the destination folder:
      the result is valid and is `Moved` from the original. */
  lemma MoveEffect(m: Manager, ip: Path, pp: Path, position: int)
    requires Valid(m) && ValidPath(m.root, ip) && ValidPath(m.root, pp) && At(m.root, pp).Folder?
    requires At(m.root, pp).id !in Ids(At(m.root, ip))
    ensures ip != [] && IsFolderId(DetachChild(m.root, ip), At(m.root, pp).id)
    ensures var m' := Manager(MovedTree(m.root, ip, At(m.root, pp).id, position), m.nextId);
      && Valid(m')
      && Lookup(m.root, At(m.root, ip).id) == Some(At(m.root, ip))
      && SlotOf(m.root, At(m.root, ip).id).Some?
      && IsFolderId(m.root, At(m.root, pp).id)
      && Moved(m, m', At(m.root, ip).id, At(m.root, pp).id, position)
  {
    var t := m.root;
    var item := At(t, ip);
    var q := At(t, pp);
    MoveDetach(m, ip, pp);
    DetachEffect(m, ip);
    LookupAt(t, pp);
    MoveInsert(m, ip, pp, position);
    var t1 := DetachChild(t, ip);
    var f := At(t, Up(ip));
    var f1 := f.(children := Without(f.children, Last(ip)));
    var q1 := Lookup(t1, q.id).value;
    var k := InsertIndex(|q1.children|, position);
    var t' := MovedTree(t, ip, q.id, position);
    var q' := q1.(children := Insert(q1.children, k, item));
    if f.id == q.id {
      assert Entries(t') + multiset{EntryOf(q)} == Entries(t) + multiset{EntryOf(q')} by {
        Multisets.MoveRowsSameParent(Entries(t'), Entries(t1), Entries(t), Entries(item),
          multiset{EntryOf(f)}, multiset{EntryOf(f1)}, multiset{EntryOf(q')});
      }
    } else {
      assert Entries(t') + multiset{EntryOf(q)} + multiset{EntryOf(f)}
          == Entries(t) + multiset{EntryOf(q')} + multiset{EntryOf(f1)} by {
        Multisets.MoveRows(Entries(t'), Entries(t1), Entries(t), Entries(item),
          multiset{EntryOf(f)}, multiset{EntryOf(f1)}, multiset{EntryOf(q1)}, multiset{EntryOf(q')});
      }
      OldParentAfterMove(m, ip, pp, position);
    }
  }

  /** Moves the node `itemId` (a bookmark or a folder) to index `position`
      among the children of the folder `parentId`, within one folder or
      across folders, and returns it. */
  function SetBookmarkPosition(m: Manager, itemId: int, parentId: int, position: int, stored: bool): (r: Outcome<Node>)
    requires Valid(m)
    ensures Valid(r.state)
    ensures r.result.Failure? ==> r.state == m
    ensures r.state.nextId == m.nextId
    ensures r.result == Failure(NotFound) <==> itemId !in Ids(m.root) || !IsFolderId(m.root, parentId)
    ensures r.result == Failure(InvalidOperation)
      <==> itemId in Ids(m.root) && IsFolderId(m.root, parentId) && parentId in Ids(Lookup(m.root, itemId).value)
    ensures r.result == Failure(StoreError)
      <==> (&& itemId in Ids(m.root) && IsFolderId(m.root, parentId)
            && parentId !in Ids(Lookup(m.root, itemId).value) && !stored)
    ensures r.result.Success? ==>
      && Lookup(m.root, itemId) == Some(r.result.value)
      && SlotOf(m.root, itemId).Some? && IsFolderId(m.root, parentId)
      && Moved(m, r.state, itemId, parentId, position)
  {
    match Locate(m.root, itemId)
    case None => Outcome(m, Failure(NotFound))
    case Some(ip) =>
      SubtreeIn(m.root, ip);
      match Locate(m.root, parentId)
      case None => Outcome(m, Failure(NotFound))
      case Some(pp) =>
        if !At(m.root, pp).Folder? then Outcome(m, Failure(NotFound))
        else if parentId in Ids(At(m.root, ip)) then Outcome(m, Failure(InvalidOperation))
        else if !stored then Outcome(m, Failure(StoreError))
        else
          MoveEffect(m, ip, pp, position);
          Outcome(Manager(MovedTree(m.root, ip, parentId, position), m.nextId), Success(At(m.root, ip)))
  }

  /** Persists a bookmark whose name and URL were edited in place: the
      bookmark `bookmarkId` takes the new name and URL and keeps its place. */
  function UpdatedBookmark(m: Manager, bookmarkId: int, name: string, url: string, stored: bool): (r: Outcome<Node>)
    requires Valid(m)
    ensures Valid(r.state)
    ensures r.result.Failure? ==> r.state == m
    ensures r.state.nextId == m.nextId
    ensures r.result != Failure(InvalidOperation)
    ensures r.result == Failure(NotFound) <==> !IsBookmarkId(m.root, bookmarkId)
    ensures r.result == Failure(StoreError) <==> IsBookmarkId(m.root, bookmarkId) && !stored
    ensures r.result.Success? ==>
      var b := r.result.value;
      var before := Lookup(m.root, bookmarkId).value;
      && b == Bookmark(bookmarkId, name, url)
      && Ids(r.state.root) == Ids(m.root)
      && Lookup(r.state.root, bookmarkId) == Some(b)
      && Entries(r.state.root) + multiset{EntryOf(before)} == Entries(m.root) + multiset{EntryOf(b)}
  {
    match Locate(m.root, bookmarkId)
    case None => Outcome(m, Failure(NotFound))
    case Some(p) =>
      if !At(m.root, p).Bookmark? then Outcome(m, Failure(NotFound))
      else if !stored then Outcome(m, Failure(StoreError))
      else
        var b := Bookmark(bookmarkId, name, url);
        RenameEffect(m, p, b);
        Outcome(Manager(ReplaceAt(m.root, p, b), m.nextId), Success(b))
  }

  /** Persists a folder renamed in place: the folder `folderId` takes the new
      name and keeps its place and children. */
  function UpdatedFolderName(m: Manager, folderId: int, name: string, stored: bool): (r: Outcome<Node>)
    requires Valid(m)
    ensures Valid(r.state)
    ensures r.result.Failure? ==> r.state == m
    ensures r.state.nextId == m.nextId
    ensures r.result != Failure(InvalidOperation)
    ensures r.result == Failure(NotFound) <==> !IsFolderId(m.root, folderId)
    ensures r.result == Failure(StoreError) <==> IsFolderId(m.root, folderId) && !stored
    ensures r.result.Success? ==>
      var f := r.result.value;
      var before := Lookup(m.root, folderId).value;
      && f == Folder(folderId, name, before.children)
      && Ids(r.state.root) == Ids(m.root)
      && Lookup(r.state.root, folderId) == Some(f)
      && Entries(r.state.root) + multiset{EntryOf(before)} == Entries(m.root) + multiset{EntryOf(f)}
  {
    match Locate(m.root, folderId)
    case None => Outcome(m, Failure(NotFound))
    case Some(p) =>
      var before := At(m.root, p);
      if !before.Folder? then Outcome(m, Failure(NotFound))
      else if !stored then Outcome(m, Failure(StoreError))
      else
        var f := Folder(folderId, name, before.children);
        RenameEffect(m, p, f);
        Outcome(Manager(ReplaceAt(m.root, p, f), m.nextId), Success(f))
  }
}
