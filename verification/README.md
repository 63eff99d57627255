# Bookmark manager model

A Dafny model of the bookmark collection of the browser. `BookmarkManager`
owns a tree of folders and bookmarks under one root folder. It offers these
operations:

- Look up the root, and search for a folder by id with a breadth-first search.
- Add a folder, and add a bookmark into a given folder or the root, at a
  chosen position.
- Ask whether a URL is bookmarked.
- Remove a bookmark by URL or by node.
- Remove a folder together with everything beneath it.
- Move a node to a position in a folder.
- Persist an edited bookmark or a renamed folder.

The model follows the declarations and doc comments of
`Browser/Bookmarks/BookmarkManager.h`. Where the header is silent, the model
fixes these rules:

- ids are unique;
- positions are the gapless indices 0..n-1 among siblings;
- a failed database write leaves the tree as it was (for the two update
  hooks this is a choice of the model; see "## Left out");
- moving a folder into its own subtree is refused;
- the root cannot be removed.

## Structure

- `wrappers.dfy` (`Wrappers`): `Option` and `Result`.
- `multisets.dfy` (`Multisets`): small identities of multiset sums, used to
  combine the counts of a tree before and after an edit.
- `bookmark_node.dfy` (`BookmarkNode`): the node datatype, and its flat view
  as rows of the bookmark table (`Entries`: one row per node, with a folder
  row listing its children's ids in order). Also the ids of a tree with
  their multiplicities (`Ids`), and insertion into and removal from sibling
  sequences.
- `bookmark_tree.dfy` (`BookmarkTree`): paths into the tree, and lookup by
  id (first match in preorder; unique when ids are distinct). Also the three
  structural edits: replace a node, insert a child, detach a child. Each
  edit comes with the exact change it makes to the rows and ids.
- `bookmark_manager.dfy` (`BookmarkManager`): the manager state, its
  invariant `Valid`, and the operations. `FindFolder` is a method with the
  breadth-first search loop; the other operations are functions.
- `bookmark_laws.dfy` (`BookmarkLaws`): laws that relate the operations:
  - add then remove;
  - move then move back;
  - rename then rename back;
  - the default folder of `addBookmark`;
  - how each operation changes `isBookmarked`.
- `bookmark_scenario.dfy` (`BookmarkScenario`): an example session,
  replayed step by step on concrete trees. A folder "Work" is added under
  the root and a bookmark is added into it. The bookmark is moved to the
  front of the root, and then the folder is removed.

How the C++ is turned into the model:

- A `BookmarkNode *` argument becomes the node's id.
  - A pointer to a node outside the tree, or to a node of the wrong kind,
    gives `NotFound`.
- Each mutating operation takes a `stored: bool` parameter: the outcome of
  its database write.
  - When it is false, the result is `StoreError` and the manager is
    returned unchanged.
- Each operation returns an `Outcome`: the new manager and a `Result`.
- "Nothing else changes" is stated exactly, as a multiset equation over the
  table rows. For example, adding a bookmark into folder `p` (which becomes
  `p'`) states `Entries(new) + {row p} == Entries(old) + {row p'} + {row b}`.
  So every other node keeps its name, URL and children in order.

## Model

| member | source | states |
|---|---|---|
| BookmarkManager.Empty | Browser/Bookmarks/BookmarkManager.h:116-118 | a collection holding only the root folder satisfies the manager invariant, and the root id is its only id |
| BookmarkManager.GetRoot | Browser/Bookmarks/BookmarkManager.h:27-28 | the root is a folder carrying the well-known root id, and it is what a lookup of that id finds |
| BookmarkManager.IsBookmarked | Browser/Bookmarks/BookmarkManager.h:55-56 | true exactly when some bookmark row of the tree has that exact URL |
| BookmarkManager.QueueStep | Browser/Bookmarks/BookmarkManager.h:87-89 | one breadth-first step: dropping the queue head (not the folder sought) and queueing its children loses no candidate folder and leaves strictly fewer rows to visit |
| BookmarkManager.FindFolder | Browser/Bookmarks/BookmarkManager.h:87-89 | the breadth-first search returns a folder with the requested id that is in the tree; it returns none exactly when no folder row has that id; in a valid manager it returns the same folder as the lookup by id |
| BookmarkManager.InsertEffect | Browser/Bookmarks/BookmarkManager.h:30-53 | inserting a subtree with fresh ids keeps the invariant; it adds exactly the subtree's ids and rows; the parent's row gains the new child and no other row changes |
| BookmarkManager.AddFolder | Browser/Bookmarks/BookmarkManager.h:30-36 | a missing or non-folder parent gives NotFound; a failed write gives StoreError; both leave the state unchanged. Otherwise it succeeds: a new empty folder with a fresh id, appended as the parent's last child; exactly one id and one row added; only the parent's row changed; the id counter grows by one |
| BookmarkManager.AddBookmark | Browser/Bookmarks/BookmarkManager.h:38-53 | the folder defaults to the root; a missing folder gives NotFound; a failed write gives StoreError; otherwise it succeeds: a bookmark with a fresh id, at the given index when that index is within 0..n (the other children keep their order), and appended otherwise (including -1); only the folder's row changes besides the new row; the id counter grows by one |
| BookmarkManager.RemoveBookmark | Browser/Bookmarks/BookmarkManager.h:61-62 | a node that is not a bookmark of the tree gives NotFound and nothing changes; a failed write gives StoreError. Otherwise it succeeds: exactly that bookmark's id and row go; its parent's child list loses exactly that index; every other row is unchanged; the id counter stays the same in every case |
| BookmarkManager.UrlAfterDetach | Browser/Bookmarks/BookmarkManager.h:58-59 | after a bookmark is detached, the URL is still bookmarked exactly when another bookmark (a different id) has it |
| BookmarkManager.RemoveBookmarkByUrl | Browser/Bookmarks/BookmarkManager.h:58-59 | NotFound exactly when the URL is not bookmarked, StoreError exactly when the write fails, and success otherwise. On success it removes one bookmark with that URL, and only it; the URL stays bookmarked exactly when another bookmark of it existed; the id counter stays the same in every case |
| BookmarkManager.DetachEffect | Browser/Bookmarks/BookmarkManager.h:64-65 | detaching a subtree keeps the invariant; all of the subtree's ids become unreachable; the subtree's rows go and only the parent's row changes |
| BookmarkManager.RemoveFolder | Browser/Bookmarks/BookmarkManager.h:64-65 | the root gives InvalidOperation; a missing folder gives NotFound. On success: the folder and its whole subtree are removed; none of their ids remain; all other rows are kept, except that the parent loses the child; the id counter stays the same in every case |
| BookmarkManager.OldParentAfterMove | Browser/Bookmarks/BookmarkManager.h:67-68 | after a move the old parent is still a folder; when it is not the destination, its child list is its old list without the moved node |
| BookmarkManager.MoveEffect | Browser/Bookmarks/BookmarkManager.h:67-68 | moving a node out of its place into a folder outside its subtree keeps the invariant and satisfies `Moved`: the same ids, and the node unchanged; the destination's child list is the old one with the node inserted at the index and the others in their order; the old parent loses it; no other row changes |
| BookmarkManager.SetBookmarkPosition | Browser/Bookmarks/BookmarkManager.h:67-68 | a missing node or destination gives NotFound; a destination inside the node's own subtree gives InvalidOperation; a failed write gives StoreError; each leaves the state unchanged. On success: the move described by `Moved`; the id counter stays the same in every case |
| BookmarkManager.UpdatedBookmark | Browser/Bookmarks/BookmarkManager.h:74-75 | a non-bookmark id gives NotFound; a failed write gives StoreError. Otherwise it succeeds: the bookmark takes the new name and URL under the same id; only its own row changes; the ids are the same; the id counter stays the same in every case |
| BookmarkManager.UpdatedFolderName | Browser/Bookmarks/BookmarkManager.h:77-78 | a non-folder id gives NotFound; a failed write gives StoreError. Otherwise it succeeds: the folder takes the new name and keeps its children; only its own row changes; the id counter stays the same in every case |
| BookmarkTree.AddChildEffect | Browser/Bookmarks/BookmarkManager.h:46-53 | inserting a child at index k puts it at k in the parent; the parent's child-id list is the old one with the id inserted at k; ids and rows grow by exactly the child's |
| BookmarkTree.DetachChildEffect | Browser/Bookmarks/BookmarkManager.h:61-65 | detaching the child at a path removes it from its parent's child list; ids and rows shrink by exactly the subtree's; only the parent's row changes |
| BookmarkTree.DetachAfterAdd | Browser/Bookmarks/BookmarkManager.h:46-62 | detaching a child just inserted at index k gives back the tree before the insertion |
| BookmarkTree.AddAfterDetach | Browser/Bookmarks/BookmarkManager.h:61-68 | putting a detached child back at its old index gives back the original tree |
| BookmarkLaws.AddThenRemoveBookmark | Browser/Bookmarks/BookmarkManager.h:38-62 | adding a bookmark and then removing it gives back the tree before the add, and returns the same bookmark |
| BookmarkLaws.AddThenRemoveFolder | Browser/Bookmarks/BookmarkManager.h:30-65 | adding a folder and then removing it gives back the tree before the add |
| BookmarkLaws.MoveKeepsParent | Browser/Bookmarks/BookmarkManager.h:67-68 | after a move the tree is valid, the old parent is still a folder, and it is not inside the moved subtree |
| BookmarkLaws.MoveBack | Browser/Bookmarks/BookmarkManager.h:67-68 | in the moved tree the node and its old parent can both be found, and moving the node back to its old index rebuilds the original tree |
| BookmarkLaws.MoveUndo | Browser/Bookmarks/BookmarkManager.h:67-68 | a successful move followed by a move back to the old folder and index restores the manager exactly |
| BookmarkLaws.RenameFolderUndo | Browser/Bookmarks/BookmarkManager.h:77-78 | renaming a folder and renaming it back restores the manager exactly |
| BookmarkLaws.EditBookmarkUndo | Browser/Bookmarks/BookmarkManager.h:74-75 | editing a bookmark and restoring its name and URL restores the manager exactly |
| BookmarkLaws.AddBookmarkDefaultsToRoot | Browser/Bookmarks/BookmarkManager.h:38-53 | without a folder, adding always succeeds into the root: at the index when it lies in 0..n, and appended otherwise |
| BookmarkLaws.BookmarkedAfterAdd | Browser/Bookmarks/BookmarkManager.h:38-56 | after adding a bookmark its URL is bookmarked, and the bookmarked URLs are exactly the earlier ones plus that one |
| BookmarkLaws.BookmarkedAfterRemove | Browser/Bookmarks/BookmarkManager.h:55-62 | after removing a bookmark, a URL was bookmarked before exactly when it still is or is the removed URL |
| BookmarkLaws.BookmarkedAfterRemoveFolder | Browser/Bookmarks/BookmarkManager.h:55-65 | after removing a folder, a URL was bookmarked before exactly when it still is or was bookmarked inside the removed folder |
| BookmarkLaws.BookmarkedAfterAddFolder | Browser/Bookmarks/BookmarkManager.h:30-56 | adding a folder changes no answer of isBookmarked |
| BookmarkLaws.BookmarkedAfterMove | Browser/Bookmarks/BookmarkManager.h:55-68 | moving a node changes no answer of isBookmarked |
| BookmarkScenario.AddWork | Browser/Bookmarks/BookmarkManager.h:30-36 | a folder added to an empty collection gets the next id and becomes the root's only child |
| BookmarkScenario.AddSite | Browser/Bookmarks/BookmarkManager.h:46-53 | a bookmark added with the default position -1 into an empty folder becomes its child at position 0 |
| BookmarkScenario.MoveSite | Browser/Bookmarks/BookmarkManager.h:67-68 | moving the bookmark to position 0 of the root takes it out of its folder and puts it before that folder, which shifts to position 1 |
| BookmarkScenario.RemoveWork | Browser/Bookmarks/BookmarkManager.h:64-65 | removing the (now empty) folder leaves the bookmark as the root's only child |
| BookmarkScenario.WorkScenario | Browser/Bookmarks/BookmarkManager.h:30-68 | the four steps in sequence all succeed with the trees above; the URL is bookmarked after the add, and still bookmarked after the folder is removed |

## Left out

- Persistence is not modelled: `setup`, `load`, `save`, `loadFolder`,
  `addBookmarkToDB`, `removeBookmarkFromDB` and `isValidFolderID` (header
  lines 81-114). The database is an external store. Each write is reduced to
  the `stored` flag, and the ids it assigns to the `nextId` counter. The
  constructor, which loads the stored tree, is not modelled. `Empty` is a
  starting state of the model, a root folder and nothing else. It is not
  the constructor's result: for a new database, `setup` (line 107) also
  creates default bookmarks, and those are not modelled.
- URL validation (an invalid URL on add) is not modelled: it is done by
  Qt's URL parser, which is not part of this model. URLs are opaque strings
  compared exactly.
- UpdatedBookmark: in the program the table model edits the node first
  and calls this hook afterwards (line 74). The model's restore-on-StoreError
  (name and URL unchanged) is therefore the model's choice, not what the
  program is known to do: `oldValue` would allow a rollback, but nothing
  shows that one happens.
  The `oldValue` and `folderID` arguments are not modelled.
  The edit is a change of name and URL in place. A change of folder is
  what `SetBookmarkPosition` models, and the header gives no position for
  such a move.
- UpdatedFolderName: in the program the folder model renames the folder
  first and calls this hook afterwards (line 77). The hook receives only the
  node and returns nothing, so it cannot restore the old name or report the
  failed write. The model's StoreError with the old name kept is the model's
  choice, not the program's behaviour: after a failed write the program's
  tree shows the new name.
- `setFolderPosition` is only a commented-out declaration in the header
  (lines 70-71) and is not modelled. `SetBookmarkPosition` accepts folders
  as well as bookmarks.
- Friend classes, protected access, `unique_ptr` ownership and the
  inheritance from the database worker are C++ structure with no
  behavioural content.
- The browser application creates the manager
  (`Browser/BrowserApplication.cpp:63`) and hands it to each main window
  (lines 226 and 267). That wiring is not part of this model. Neither is the
  tab widget or the navigation toolbar.
- Modelling choices where the header is silent:
  - The root id is 0.
  - Removing by URL removes the first bookmark of that URL in preorder.
  - A move's position counts siblings after the node has left its old place.
  - A move to a position outside 0..n appends, negative positions included,
    as it does for `addBookmark`.
  - `addFolder` requires a parent folder; the header gives no default.
  - Moving a node into its own subtree would create a cycle, so it gives
    `InvalidOperation` and leaves the tree unchanged.
  - Ids are never reused: the counter only grows.
