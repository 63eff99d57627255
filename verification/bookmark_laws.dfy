/** Laws relating the manager's operations to each other: adding and then
    removing a node gives the tree back, a move can be undone, a rename can
    be undone, and which URLs are bookmarked after each operation. */
module BookmarkLaws {
  import opened Wrappers
  import opened BookmarkNode
  import opened BookmarkTree
  import opened BookmarkManager

  /** A bookmark of `url` is among the rows of a sum exactly when it is
      among the rows of one of its parts. */
  lemma UrlInSum(a: multiset<Entry>, b: multiset<Entry>, url: string)
    ensures UrlIn(a + b, url) <==> UrlIn(a, url) || UrlIn(b, url)
  {
    if UrlIn(a + b, url) {
      var e :| e in a + b && e.BookmarkEntry? && e.url == url;
      assert e in a || e in b;
    }
    if UrlIn(a, url) {
      var e :| e in a && e.BookmarkEntry? && e.url == url;
      assert e in a + b;
    }
    if UrlIn(b, url) {
      var e :| e in b && e.BookmarkEntry? && e.url == url;
      assert e in a + b;
    }
  }

  /** A single row is a bookmark of `url` or it is not. */
  lemma UrlInOne(e: Entry, url: string)
    ensures UrlIn(multiset{e}, url) <==> e.BookmarkEntry? && e.url == url
  {
    if e.BookmarkEntry? && e.url == url {
      assert e in multiset{e};
    }
  }

  /** Adding a bookmark and then removing it by its id gives back the tree
      before the add; only the id counter has moved on. */
  lemma AddThenRemoveBookmark(m: Manager, name: string, url: string, folder: Option<int>, position: int)
    requires Valid(m)
    ensures var a := AddBookmark(m, name, url, folder, position, true);
      a.result.Success? ==>
        RemoveBookmark(a.state, a.result.value.id, true) == Outcome(Manager(m.root, m.nextId + 1), a.result)
  {
    var a := AddBookmark(m, name, url, folder, position, true);
    if a.result.Success? {
      var pp := Locate(m.root, FolderOrRoot(folder)).value;
      var p := At(m.root, pp);
      var b := Bookmark(m.nextId, name, url);
      var k := InsertIndex(|p.children|, position);
      var t' := AddChild(m.root, pp, b, k);
      assert a.state == Manager(t', m.nextId + 1);
      AddLeafEffect(m, pp, b, k);
      AddChildEffect(m.root, pp, b, k);
      LookupAt(t', pp + [k]);
      DetachAfterAdd(m.root, pp, b, k);
    }
  }

  /** Adding a folder and then removing it gives back the tree before the
      add; only the id counter has moved on. */
  lemma AddThenRemoveFolder(m: Manager, name: string, parentId: int)
    requires Valid(m)
    ensures var a := AddFolder(m, name, parentId, true);
      a.result.Success? ==>
        RemoveFolder(a.state, a.result.value.id, true) == Outcome(Manager(m.root, m.nextId + 1), a.result)
  {
    var a := AddFolder(m, name, parentId, true);
    if a.result.Success? {
      var pp := Locate(m.root, parentId).value;
      var p := At(m.root, pp);
      var f := Folder(m.nextId, name, []);
      var k := |p.children|;
      var t' := AddChild(m.root, pp, f, k);
      assert a.state == Manager(t', m.nextId + 1);
      assert RootId in Ids(m.root);
      AddLeafEffect(m, pp, f, k);
      AddChildEffect(m.root, pp, f, k);
      LookupAt(t', pp + [k]);
      DetachAfterAdd(m.root, pp, f, k);
    }
  }

  /** After a move the tree is still valid and the node's old parent is
      still a folder, not inside the moved subtree. */
  lemma MoveKeepsParent(m: Manager, ip: Path, pp: Path, position: int)
    requires Valid(m) && ValidPath(m.root, ip) && ValidPath(m.root, pp) && At(m.root, pp).Folder?
    requires At(m.root, pp).id !in Ids(At(m.root, ip))
    ensures ip != [] && IsFolderId(DetachChild(m.root, ip), At(m.root, pp).id)
    ensures ValidPath(m.root, Up(ip))
    ensures var t' := MovedTree(m.root, ip, At(m.root, pp).id, position);
      var item := At(m.root, ip);
      var f := At(m.root, Up(ip));
      && Valid(Manager(t', m.nextId)) && IsFolderId(t', f.id)
      && SlotOf(m.root, item.id) == Some(Slot(f, Last(ip)))
      && f.id !in Ids(item)
  {
    MoveInsert(m, ip, pp, position);
    OldParentAfterMove(m, ip, pp, position);
    DetachEffect(m, ip);
  }

  /** In the tree after a move, the moved node and its old parent are found
      again, and moving the node back to its old index rebuilds the tree
      before the move. */
  lemma MoveBack(m: Manager, ip: Path, pp: Path, position: int) returns (ip2: Path, pp2: Path)
    requires Valid(m) && ValidPath(m.root, ip) && ValidPath(m.root, pp) && At(m.root, pp).Folder?
    requires At(m.root, pp).id !in Ids(At(m.root, ip))
    ensures ip != [] && IsFolderId(DetachChild(m.root, ip), At(m.root, pp).id)
    ensures ValidPath(m.root, Up(ip))
    ensures var t' := MovedTree(m.root, ip, At(m.root, pp).id, position);
      var item := At(m.root, ip);
      var f := At(m.root, Up(ip));
      && Valid(Manager(t', m.nextId))
      && SlotOf(m.root, item.id) == Some(Slot(f, Last(ip)))
      && Locate(t', item.id) == Some(ip2) && At(t', ip2) == item
      && Locate(t', f.id) == Some(pp2) && At(t', pp2).Folder?
      && f.id !in Ids(item)
      && ip2 != [] && IsFolderId(DetachChild(t', ip2), f.id)
      && MovedTree(t', ip2, f.id, Last(ip)) == m.root
  {
    var t := m.root;
    var item := At(t, ip);
    MoveDetach(m, ip, pp);
    var f := At(t, Up(ip));
    var t1 := DetachChild(t, ip);
    var f1 := f.(children := Without(f.children, Last(ip)));
    var pp1 := Locate(t1, At(t, pp).id).value;
    var k := InsertIndex(|At(t1, pp1).children|, position);
    var t' := AddChild(t1, pp1, item, k);
    assert t' == MovedTree(t, ip, At(t, pp).id, position);
    MoveKeepsParent(m, ip, pp, position);
    ip2 := pp1 + [k];
    assert Locate(t', item.id) == Some(ip2) && At(t', ip2) == item by {
      AddChildEffect(t1, pp1, item, k);
      LookupAt(t', ip2);
    }
    assert DetachChild(t', ip2) == t1 by {
      DetachAfterAdd(t1, pp1, item, k);
    }
    assert Locate(t1, f.id) == Some(Up(ip)) && At(t1, Up(ip)) == f1 by {
      DetachEffect(m, ip);
      DetachChildEffect(t, ip);
      LookupAt(t1, Up(ip));
    }
    assert AddChild(t1, Up(ip), item, Last(ip)) == t by {
      AddAfterDetach(t, ip);
    }
    pp2 := Locate(t', f.id).value;
  }

  /** Moving a node back to the folder and index it came from undoes the
      move. */
  lemma MoveUndo(m: Manager, itemId: int, parentId: int, position: int)
    requires Valid(m)
    ensures var r := SetBookmarkPosition(m, itemId, parentId, position, true);
      r.result.Success? ==>
        var s := SlotOf(m.root, itemId).value;
        SetBookmarkPosition(r.state, itemId, s.parent.id, s.index, true) == Outcome(m, r.result)
  {
    var r := SetBookmarkPosition(m, itemId, parentId, position, true);
    if r.result.Success? {
      var ip := Locate(m.root, itemId).value;
      var pp := Locate(m.root, parentId).value;
      var ip2, pp2 := MoveBack(m, ip, pp, position);
    }
  }

  /** Renaming a folder and then renaming it back restores the manager. */
  lemma RenameFolderUndo(m: Manager, folderId: int, name: string)
    requires Valid(m)
    ensures var r := UpdatedFolderName(m, folderId, name, true);
      r.result.Success? ==>
        var before := Lookup(m.root, folderId).value;
        UpdatedFolderName(r.state, folderId, before.name, true) == Outcome(m, Success(before))
  {
    var r := UpdatedFolderName(m, folderId, name, true);
    if r.result.Success? {
      var p := Locate(m.root, folderId).value;
      var before := At(m.root, p);
      var n := Folder(folderId, name, before.children);
      assert r.state.root == ReplaceAt(m.root, p, n);
      LookupAt(r.state.root, p);
      ReplaceTwice(m.root, p, n, before);
      ReplaceSame(m.root, p);
    }
  }

  /** Editing a bookmark and then restoring its old name and URL restores
      the manager. */
  lemma EditBookmarkUndo(m: Manager, bookmarkId: int, name: string, url: string)
    requires Valid(m)
    ensures var r := UpdatedBookmark(m, bookmarkId, name, url, true);
      r.result.Success? ==>
        var before := Lookup(m.root, bookmarkId).value;
        UpdatedBookmark(r.state, bookmarkId, before.name, before.url, true) == Outcome(m, Success(before))
  {
    var r := UpdatedBookmark(m, bookmarkId, name, url, true);
    if r.result.Success? {
      var p := Locate(m.root, bookmarkId).value;
      var before := At(m.root, p);
      var n := Bookmark(bookmarkId, name, url);
      assert r.state.root == ReplaceAt(m.root, p, n);
      LookupAt(r.state.root, p);
      ReplaceTwice(m.root, p, n, before);
      ReplaceSame(m.root, p);
    }
  }

  /** Without a folder, a bookmark always goes into the root folder, at the
      given index when it is in range and at the end otherwise. */
  lemma AddBookmarkDefaultsToRoot(m: Manager, name: string, url: string, position: int)
    requires Valid(m)
    ensures var r := AddBookmark(m, name, url, None, position, true);
      var b := Bookmark(m.nextId, name, url);
      && r.result == Success(b)
      && r.state.root.children
         == if 0 <= position <= |m.root.children| then Insert(m.root.children, position, b)
            else m.root.children + [b]
  {
  }

  /** After adding a bookmark, exactly the URLs bookmarked before and the new
      one are bookmarked. */
  lemma BookmarkedAfterAdd(m: Manager, name: string, url: string, folder: Option<int>, position: int)
    requires Valid(m)
    ensures var r := AddBookmark(m, name, url, folder, position, true);
      r.result.Success? ==>
        && IsBookmarked(r.state, url)
        && forall u :: IsBookmarked(r.state, u) <==> IsBookmarked(m, u) || u == url
  {
    var r := AddBookmark(m, name, url, folder, position, true);
    if r.result.Success? {
      var b := r.result.value;
      var p := Lookup(m.root, FolderOrRoot(folder)).value;
      var q := Lookup(r.state.root, FolderOrRoot(folder)).value;
      forall u ensures IsBookmarked(r.state, u) <==> IsBookmarked(m, u) || u == url {
        UrlInSum(Entries(r.state.root), multiset{EntryOf(p)}, u);
        UrlInSum(Entries(m.root) + multiset{EntryOf(q)}, multiset{EntryOf(b)}, u);
        UrlInSum(Entries(m.root), multiset{EntryOf(q)}, u);
        UrlInOne(EntryOf(p), u);
        UrlInOne(EntryOf(q), u);
        UrlInOne(EntryOf(b), u);
      }
    }
  }

  /** After removing a bookmark, a URL was bookmarked before exactly when it
      still is or it is the removed bookmark's URL. */
  lemma BookmarkedAfterRemove(m: Manager, itemId: int)
    requires Valid(m)
    ensures var r := RemoveBookmark(m, itemId, true);
      r.result.Success? ==>
        forall u :: IsBookmarked(m, u) <==> IsBookmarked(r.state, u) || u == r.result.value.url
  {
    var r := RemoveBookmark(m, itemId, true);
    if r.result.Success? {
      var b := r.result.value;
      var s := SlotOf(m.root, itemId).value;
      var p' := s.parent.(children := Without(s.parent.children, s.index));
      forall u ensures IsBookmarked(m, u) <==> IsBookmarked(r.state, u) || u == b.url {
        UrlInSum(Entries(r.state.root) + multiset{EntryOf(b)}, multiset{EntryOf(s.parent)}, u);
        UrlInSum(Entries(r.state.root), multiset{EntryOf(b)}, u);
        UrlInSum(Entries(m.root), multiset{EntryOf(p')}, u);
        UrlInOne(EntryOf(s.parent), u);
        UrlInOne(EntryOf(b), u);
        UrlInOne(EntryOf(p'), u);
      }
    }
  }

  /** After removing a folder, a URL was bookmarked before exactly when it
      still is or it was bookmarked inside the removed folder. */
  lemma BookmarkedAfterRemoveFolder(m: Manager, folderId: int)
    requires Valid(m)
    ensures var r := RemoveFolder(m, folderId, true);
      r.result.Success? ==>
        forall u :: IsBookmarked(m, u) <==> IsBookmarked(r.state, u) || UrlIn(Entries(r.result.value), u)
  {
    var r := RemoveFolder(m, folderId, true);
    if r.result.Success? {
      var f := r.result.value;
      var s := SlotOf(m.root, folderId).value;
      var p' := s.parent.(children := Without(s.parent.children, s.index));
      forall u ensures IsBookmarked(m, u) <==> IsBookmarked(r.state, u) || UrlIn(Entries(f), u) {
        UrlInSum(Entries(r.state.root) + Entries(f), multiset{EntryOf(s.parent)}, u);
        UrlInSum(Entries(r.state.root), Entries(f), u);
        UrlInSum(Entries(m.root), multiset{EntryOf(p')}, u);
        UrlInOne(EntryOf(s.parent), u);
        UrlInOne(EntryOf(p'), u);
      }
    }
  }

  /** Adding a folder changes no bookmarked URL. */
  lemma BookmarkedAfterAddFolder(m: Manager, name: string, parentId: int)
    requires Valid(m)
    ensures var r := AddFolder(m, name, parentId, true);
      forall u :: IsBookmarked(r.state, u) <==> IsBookmarked(m, u)
  {
    var r := AddFolder(m, name, parentId, true);
    if r.result.Success? {
      var f := r.result.value;
      var p := Lookup(m.root, parentId).value;
      var p' := p.(children := p.children + [f]);
      forall u ensures IsBookmarked(r.state, u) <==> IsBookmarked(m, u) {
        UrlInSum(Entries(r.state.root), multiset{EntryOf(p)}, u);
        UrlInSum(Entries(m.root) + multiset{EntryOf(p')}, multiset{EntryOf(f)}, u);
        UrlInSum(Entries(m.root), multiset{EntryOf(p')}, u);
        UrlInOne(EntryOf(p), u);
        UrlInOne(EntryOf(p'), u);
        UrlInOne(EntryOf(f), u);
      }
    }
  }

  /** Moving a node changes no bookmarked URL. */
  lemma BookmarkedAfterMove(m: Manager, itemId: int, parentId: int, position: int)
    requires Valid(m)
    ensures var r := SetBookmarkPosition(m, itemId, parentId, position, true);
      forall u :: IsBookmarked(r.state, u) <==> IsBookmarked(m, u)
  {
    var r := SetBookmarkPosition(m, itemId, parentId, position, true);
    if r.result.Success? {
      var s := SlotOf(m.root, itemId).value;
      var q := Lookup(m.root, parentId).value;
      var q' := Lookup(r.state.root, parentId).value;
      if s.parent.id == parentId {
        forall u ensures IsBookmarked(r.state, u) <==> IsBookmarked(m, u) {
          UrlInSum(Entries(r.state.root), multiset{EntryOf(q)}, u);
          UrlInSum(Entries(m.root), multiset{EntryOf(q')}, u);
          UrlInOne(EntryOf(q), u);
          UrlInOne(EntryOf(q'), u);
        }
      } else {
        var o' := Lookup(r.state.root, s.parent.id).value;
        forall u ensures IsBookmarked(r.state, u) <==> IsBookmarked(m, u) {
          UrlInSum(Entries(r.state.root) + multiset{EntryOf(q)}, multiset{EntryOf(s.parent)}, u);
          UrlInSum(Entries(r.state.root), multiset{EntryOf(q)}, u);
          UrlInSum(Entries(m.root) + multiset{EntryOf(q')}, multiset{EntryOf(o')}, u);
          UrlInSum(Entries(m.root), multiset{EntryOf(q')}, u);
          UrlInOne(EntryOf(q), u);
          UrlInOne(EntryOf(s.parent), u);
          UrlInOne(EntryOf(q'), u);
          UrlInOne(EntryOf(o'), u);
        }
      }
    }
  }
}
