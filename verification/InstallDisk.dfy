/**
 The disk of an installation: the game directory, the stage and the backup as
 maps from paths to entries, and what renaming and removing a subtree does to
 them.  Parent directories made on the way are not entries of these maps.
 */
module InstallDisk {
  import opened Wrappers
  import opened InstallPaths

  datatype Entry = Directory | Regular(content: int) | Symlink(target: string)

  type Tree = map<Path, Entry>

  function Get(tree: Tree, p: Path): Option<Entry> {
    if p in tree then Some(tree[p]) else None
  }

  /** os.path.lexists. */
  predicate Exists(tree: Tree, root: Path) {
    exists p :: p in tree && root <= p
  }

  /** remove_path. */
  function Remove(tree: Tree, root: Path): Tree {
    map p | p in tree && !(root <= p) :: tree[p]
  }

  /** remove_path of the tree at root, interrupted when these entries of it were gone. */
  function Prune(tree: Tree, root: Path, gone: set<Path>): Tree {
    map p | p in tree && !(root <= p && p in gone) :: tree[p]
  }

  function Below(tree: Tree, root: Path): Tree {
    map p | p in tree && root <= p :: tree[p]
  }

  /** What the target of os.rename is afterwards; nothing lies there before. */
  function Receive(target: Tree, source: Tree, root: Path): Tree {
    target + Below(source, root)
  }

  datatype Disk = Disk(game: Tree, stage: Tree, backup: Tree)

  datatype Item = Item(path: Path, backedUp: bool, installed: bool)

  // ---- The four renames ----

  function BackUp(d: Disk, root: Path): Disk {
    Disk(Remove(d.game, root), d.stage, Receive(d.backup, d.game, root))
  }

  function Install(d: Disk, root: Path): Disk {
    Disk(Receive(d.game, d.stage, root), Remove(d.stage, root), d.backup)
  }

  function Uninstall(d: Disk, root: Path): Disk {
    Disk(Remove(d.game, root), Receive(d.stage, d.game, root), d.backup)
  }

  function Restore(d: Disk, root: Path): Disk {
    Disk(Receive(d.game, d.backup, root), d.stage, Remove(d.backup, root))
  }

  function RemoveGame(d: Disk, root: Path): Disk {
    d.(game := Remove(d.game, root))
  }

  // ---- rollback_transaction ----

  /** The first half of the loop body: an installed tree goes back to the stage, or away if the stage has one. */
  function UndoInstall(d: Disk, item: Item): Disk {
    if !item.installed || !Exists(d.game, item.path) then d
    else if !Exists(d.stage, item.path) then Uninstall(d, item.path)
    else RemoveGame(d, item.path)
  }

  /** The second half: a backed-up tree replaces whatever is there. */
  function UndoBackUp(d: Disk, item: Item): Disk {
    if !item.backedUp || !Exists(d.backup, item.path) then d
    else Restore(if Exists(d.game, item.path) then RemoveGame(d, item.path) else d, item.path)
  }

  function Undo(d: Disk, item: Item): Disk {
    UndoBackUp(UndoInstall(d, item), item)
  }

  /** The loop, from the last item to the first. */
  function UndoAll(d: Disk, items: seq<Item>): Disk
    decreases |items|
  {
    if items == [] then d else UndoAll(Undo(d, items[|items| - 1]), items[..|items| - 1])
  }

  // ---- What lies under each commit path ----

  /** The tree that was in the game directory, the one that was staged, none, or what is left of one without some entries. */
  datatype Part = Old | New | Nothing | Rest(whole: Part, gone: set<Path>)

  datatype Status = Status(game: Part, stage: Part, backup: Part)

  function TreeOf(first: Disk, part: Part): Tree {
    match part
    case Old => first.game
    case New => first.stage
    case Nothing => map[]
    case Rest(whole, gone) => TreeOf(first, whole) - gone
  }

  function PartAt(first: Disk, part: Part, p: Path): Option<Entry> {
    Get(TreeOf(first, part), p)
  }

  predicate PartExists(first: Disk, part: Part, root: Path) {
    Exists(TreeOf(first, part), root)
  }

  ghost predicate Under(paths: seq<Path>, p: Path) {
    exists i :: 0 <= i < |paths| && paths[i] <= p
  }

  /** Entry by entry, the disk is the first one with these parts under the commit paths. */
  ghost predicate Agrees(first: Disk, d: Disk, paths: seq<Path>, st: seq<Status>) {
    && |st| == |paths|
    && (forall i, p :: 0 <= i < |paths| && paths[i] <= p ==>
          && Get(d.game, p) == PartAt(first, st[i].game, p)
          && Get(d.stage, p) == PartAt(first, st[i].stage, p)
          && Get(d.backup, p) == PartAt(first, st[i].backup, p))
    && (forall p :: !Under(paths, p) ==>
          Get(d.game, p) == Get(first.game, p) && Get(d.stage, p) == Get(first.stage, p) && Get(d.backup, p) == None)
  }

  lemma ExistsAgrees(first: Disk, d: Disk, paths: seq<Path>, st: seq<Status>, k: nat)
    requires Agrees(first, d, paths, st) && k < |paths|
    ensures Exists(d.game, paths[k]) <==> PartExists(first, st[k].game, paths[k])
    ensures Exists(d.stage, paths[k]) <==> PartExists(first, st[k].stage, paths[k])
    ensures Exists(d.backup, paths[k]) <==> PartExists(first, st[k].backup, paths[k])
  {
    SameExists(first, d.game, st[k].game, paths[k]);
    SameExists(first, d.stage, st[k].stage, paths[k]);
    SameExists(first, d.backup, st[k].backup, paths[k]);
  }

  lemma SameExists(first: Disk, tree: Tree, part: Part, root: Path)
    requires forall p :: root <= p ==> Get(tree, p) == PartAt(first, part, p)
    ensures Exists(tree, root) <==> PartExists(first, part, root)
  {
    var other := TreeOf(first, part);
    if Exists(tree, root) {
      var p :| p in tree && root <= p;
      assert Get(tree, p) == Get(other, p);
      assert p in other;
    }
    if Exists(other, root) {
      var p :| p in other && root <= p;
      assert Get(tree, p) == Get(other, p);
      assert p in tree;
    }
  }

  ghost predicate ChangedAt(first: Disk, d: Disk, n: Disk, root: Path, status: Status, p: Path) {
    if root <= p then
      && Get(n.game, p) == PartAt(first, status.game, p)
      && Get(n.stage, p) == PartAt(first, status.stage, p)
      && Get(n.backup, p) == PartAt(first, status.backup, p)
    else
      Get(n.game, p) == Get(d.game, p) && Get(n.stage, p) == Get(d.stage, p) && Get(n.backup, p) == Get(d.backup, p)
  }

  /** What an operation on one commit path must do to keep the disk and the statuses in step. */
  ghost predicate Changes(first: Disk, d: Disk, n: Disk, root: Path, status: Status) {
    forall p :: ChangedAt(first, d, n, root, status, p)
  }

  /** Prefix-free paths make the operations on them independent. */
  lemma ChangeAgrees(first: Disk, d: Disk, n: Disk, paths: seq<Path>, st: seq<Status>, k: nat, status: Status)
    requires Agrees(first, d, paths, st) && PrefixFree(paths) && k < |paths|
    requires Changes(first, d, n, paths[k], status)
    ensures Agrees(first, n, paths, st[k := status])
  {
    forall i, p | 0 <= i < |paths| && paths[i] <= p
      ensures Get(n.game, p) == PartAt(first, st[k := status][i].game, p)
      ensures Get(n.stage, p) == PartAt(first, st[k := status][i].stage, p)
      ensures Get(n.backup, p) == PartAt(first, st[k := status][i].backup, p)
    {
      assert ChangedAt(first, d, n, paths[k], status, p);
      if paths[k] <= p {
        OneRoot(paths, i, k, p);
      }
    }
    forall p | !Under(paths, p)
      ensures Get(n.game, p) == Get(first.game, p) && Get(n.stage, p) == Get(first.stage, p) && Get(n.backup, p) == None
    {
      assert ChangedAt(first, d, n, paths[k], status, p) && !(paths[k] <= p);
    }
  }

  // ---- Renames and removals on statuses ----

  lemma GetReceived(target: Tree, source: Tree, root: Path, p: Path)
    ensures Get(Receive(target, source, root), p) == if root <= p && p in source then Get(source, p) else Get(target, p)
    ensures Get(Remove(source, root), p) == if root <= p then None else Get(source, p)
  {
  }

  lemma NoneBelow(first: Disk, part: Part, root: Path, p: Path)
    requires !PartExists(first, part, root) && root <= p
    ensures PartAt(first, part, p) == None
  {
  }

  lemma PartsAt(first: Disk, d: Disk, paths: seq<Path>, st: seq<Status>, k: nat, p: Path)
    requires Agrees(first, d, paths, st) && k < |paths| && paths[k] <= p
    ensures k < |st|
    ensures Get(d.game, p) == PartAt(first, st[k].game, p)
    ensures Get(d.stage, p) == PartAt(first, st[k].stage, p)
    ensures Get(d.backup, p) == PartAt(first, st[k].backup, p)
  {
  }

  lemma StatusCount(first: Disk, d: Disk, paths: seq<Path>, st: seq<Status>)
    requires Agrees(first, d, paths, st)
    ensures |st| == |paths|
  {
  }

  lemma BackUpAgrees(first: Disk, d: Disk, paths: seq<Path>, st: seq<Status>, k: nat)
    requires Agrees(first, d, paths, st) && PrefixFree(paths) && k < |paths|
    requires k < |st| && !PartExists(first, st[k].backup, paths[k])
    ensures Agrees(first, BackUp(d, paths[k]), paths, st[k := Status(Nothing, st[k].stage, st[k].game)])
  {
    hide Agrees, PartExists, Receive, Remove, PrefixFree;
    var n, root, status := BackUp(d, paths[k]), paths[k], Status(Nothing, st[k].stage, st[k].game);
    forall p
      ensures ChangedAt(first, d, n, root, status, p)
    {
      GetReceived(d.backup, d.game, root, p);
      if root <= p {
        PartsAt(first, d, paths, st, k, p);
        NoneBelow(first, st[k].backup, root, p);
      }
    }
    ChangeAgrees(first, d, n, paths, st, k, status);
  }

  lemma InstallAgrees(first: Disk, d: Disk, paths: seq<Path>, st: seq<Status>, k: nat)
    requires Agrees(first, d, paths, st) && PrefixFree(paths) && k < |paths|
    requires k < |st| && !PartExists(first, st[k].game, paths[k])
    ensures Agrees(first, Install(d, paths[k]), paths, st[k := Status(st[k].stage, Nothing, st[k].backup)])
  {
    hide Agrees, PartExists, Receive, Remove, PrefixFree;
    var n, root, status := Install(d, paths[k]), paths[k], Status(st[k].stage, Nothing, st[k].backup);
    forall p
      ensures ChangedAt(first, d, n, root, status, p)
    {
      GetReceived(d.game, d.stage, root, p);
      if root <= p {
        PartsAt(first, d, paths, st, k, p);
        NoneBelow(first, st[k].game, root, p);
      }
    }
    ChangeAgrees(first, d, n, paths, st, k, status);
  }

  lemma UninstallAgrees(first: Disk, d: Disk, paths: seq<Path>, st: seq<Status>, k: nat)
    requires Agrees(first, d, paths, st) && PrefixFree(paths) && k < |paths|
    requires k < |st| && !PartExists(first, st[k].stage, paths[k])
    ensures Agrees(first, Uninstall(d, paths[k]), paths, st[k := Status(Nothing, st[k].game, st[k].backup)])
  {
    hide Agrees, PartExists, Receive, Remove, PrefixFree;
    var n, root, status := Uninstall(d, paths[k]), paths[k], Status(Nothing, st[k].game, st[k].backup);
    forall p
      ensures ChangedAt(first, d, n, root, status, p)
    {
      GetReceived(d.stage, d.game, root, p);
      if root <= p {
        PartsAt(first, d, paths, st, k, p);
        NoneBelow(first, st[k].stage, root, p);
      }
    }
    ChangeAgrees(first, d, n, paths, st, k, status);
  }

  lemma RestoreAgrees(first: Disk, d: Disk, paths: seq<Path>, st: seq<Status>, k: nat)
    requires Agrees(first, d, paths, st) && PrefixFree(paths) && k < |paths|
    requires k < |st| && !PartExists(first, st[k].game, paths[k])
    ensures Agrees(first, Restore(d, paths[k]), paths, st[k := Status(st[k].backup, st[k].stage, Nothing)])
  {
    hide Agrees, PartExists, Receive, Remove, PrefixFree;
    var n, root, status := Restore(d, paths[k]), paths[k], Status(st[k].backup, st[k].stage, Nothing);
    forall p
      ensures ChangedAt(first, d, n, root, status, p)
    {
      GetReceived(d.game, d.backup, root, p);
      if root <= p {
        PartsAt(first, d, paths, st, k, p);
        NoneBelow(first, st[k].game, root, p);
      }
    }
    ChangeAgrees(first, d, n, paths, st, k, status);
  }

  lemma RemoveGameAgrees(first: Disk, d: Disk, paths: seq<Path>, st: seq<Status>, k: nat)
    requires Agrees(first, d, paths, st) && PrefixFree(paths) && k < |paths| && k < |st|
    ensures Agrees(first, RemoveGame(d, paths[k]), paths, st[k := Status(Nothing, st[k].stage, st[k].backup)])
  {
    hide Agrees, Receive, Remove, PrefixFree;
    var n, root, status := RemoveGame(d, paths[k]), paths[k], Status(Nothing, st[k].stage, st[k].backup);
    forall p
      ensures ChangedAt(first, d, n, root, status, p)
    {
      GetReceived(d.game, d.game, root, p);
      if root <= p {
        PartsAt(first, d, paths, st, k, p);
      }
    }
    ChangeAgrees(first, d, n, paths, st, k, status);
  }

  /** What an interrupted removal leaves of a part. */
  function Pruned(part: Part, gone: set<Path>): Part {
    if part.Nothing? || gone == {} then part else Rest(part, gone)
  }

  lemma PrunedAt(first: Disk, tree: Tree, root: Path, part: Part, gone: set<Path>, p: Path)
    requires root <= p ==> Get(tree, p) == PartAt(first, part, p)
    ensures root <= p ==> Get(Prune(tree, root, gone), p) == PartAt(first, Pruned(part, gone), p)
    ensures !(root <= p) ==> Get(Prune(tree, root, gone), p) == Get(tree, p)
  {
    if root <= p && !part.Nothing? && gone != {} {
      assert TreeOf(first, Rest(part, gone)) == TreeOf(first, part) - gone;
    }
  }

  lemma PruneGameAgrees(first: Disk, d: Disk, paths: seq<Path>, st: seq<Status>, k: nat, gone: set<Path>)
    requires Agrees(first, d, paths, st) && PrefixFree(paths) && k < |paths| && k < |st|
    ensures Agrees(first, d.(game := Prune(d.game, paths[k], gone)), paths, st[k := st[k].(game := Pruned(st[k].game, gone))])
  {
    hide Agrees, Prune, Pruned, PrefixFree;
    var n, root, status := d.(game := Prune(d.game, paths[k], gone)), paths[k], st[k].(game := Pruned(st[k].game, gone));
    forall p
      ensures ChangedAt(first, d, n, root, status, p)
    {
      if root <= p {
        PartsAt(first, d, paths, st, k, p);
      }
      PrunedAt(first, d.game, root, st[k].game, gone, p);
    }
    ChangeAgrees(first, d, n, paths, st, k, status);
  }

  /** The backup root lies above every commit path. */
  lemma PruneBackupAgrees(first: Disk, d: Disk, paths: seq<Path>, st: seq<Status>, gone: set<Path>)
    requires Agrees(first, d, paths, st)
    ensures |st| == |paths|
    ensures Agrees(first, d.(backup := Prune(d.backup, [], gone)), paths,
                   seq(|st|, i requires 0 <= i < |st| => st[i].(backup := Pruned(st[i].backup, gone))))
  {
    hide Prune, Pruned, PartAt;
    StatusCount(first, d, paths, st);
    forall i, p | 0 <= i < |paths| && paths[i] <= p
      ensures Get(Prune(d.backup, [], gone), p) == PartAt(first, Pruned(st[i].backup, gone), p)
    {
      PrunedAt(first, d.backup, [], st[i].backup, gone, p);
    }
    forall p | !Under(paths, p)
      ensures Get(Prune(d.backup, [], gone), p) == None
    {
      NoneLeft(d.backup, gone, p);
    }
  }

  lemma NoneLeft(tree: Tree, gone: set<Path>, p: Path)
    requires Get(tree, p) == None
    ensures Get(Prune(tree, [], gone), p) == None
  {
  }

  // ---- Rollback on statuses ----

  /** What one round of the rollback loop does to a status, given whether the old and the new tree have anything in them. */
  function UndoStatus(first: Disk, st: Status, item: Item): Status {
    UndoBackUpStatus(first, UndoInstallStatus(first, st, item), item)
  }

  function UndoInstallStatus(first: Disk, st: Status, item: Item): Status {
    if !item.installed || !PartExists(first, st.game, item.path) then st
    else if !PartExists(first, st.stage, item.path) then Status(Nothing, st.game, st.backup)
    else Status(Nothing, st.stage, st.backup)
  }

  function UndoBackUpStatus(first: Disk, st: Status, item: Item): Status {
    if !item.backedUp || !PartExists(first, st.backup, item.path) then st else Status(st.backup, st.stage, Nothing)
  }

  lemma UndoInstallAgrees(first: Disk, d: Disk, paths: seq<Path>, st: seq<Status>, k: nat, item: Item)
    requires Agrees(first, d, paths, st) && PrefixFree(paths) && k < |paths| && k < |st| && item.path == paths[k]
    ensures Agrees(first, UndoInstall(d, item), paths, st[k := UndoInstallStatus(first, st[k], item)])
  {
    hide Agrees, PartExists, Exists, PrefixFree, Uninstall, RemoveGame;
    ExistsAgrees(first, d, paths, st, k);
    if item.installed && Exists(d.game, item.path) {
      if !Exists(d.stage, item.path) {
        UninstallAgrees(first, d, paths, st, k);
      } else {
        RemoveGameAgrees(first, d, paths, st, k);
      }
    } else {
      assert st[k := st[k]] == st;
    }
  }

  lemma UndoBackUpAgrees(first: Disk, d: Disk, paths: seq<Path>, st: seq<Status>, k: nat, item: Item)
    requires Agrees(first, d, paths, st) && PrefixFree(paths) && k < |paths| && k < |st| && item.path == paths[k]
    ensures Agrees(first, UndoBackUp(d, item), paths, st[k := UndoBackUpStatus(first, st[k], item)])
  {
    hide Agrees, PartExists, Exists, PrefixFree, Restore, RemoveGame;
    ExistsAgrees(first, d, paths, st, k);
    if item.backedUp && Exists(d.backup, item.path) {
      if Exists(d.game, item.path) {
        RemoveGameAgrees(first, d, paths, st, k);
        NothingThere(first, paths[k]);
        var cleared := st[k := Status(Nothing, st[k].stage, st[k].backup)];
        RestoreAgrees(first, RemoveGame(d, item.path), paths, cleared, k);
        assert cleared[k := Status(st[k].backup, st[k].stage, Nothing)] == st[k := Status(st[k].backup, st[k].stage, Nothing)];
      } else {
        RestoreAgrees(first, d, paths, st, k);
      }
    } else {
      assert st[k := st[k]] == st;
    }
  }

  lemma NothingThere(first: Disk, root: Path)
    ensures !PartExists(first, Nothing, root)
  {
  }

  lemma UndoAgrees(first: Disk, d: Disk, paths: seq<Path>, st: seq<Status>, k: nat, item: Item)
    requires Agrees(first, d, paths, st) && PrefixFree(paths) && k < |paths| && k < |st| && item.path == paths[k]
    ensures Agrees(first, Undo(d, item), paths, st[k := UndoStatus(first, st[k], item)])
  {
    hide Agrees, PrefixFree, UndoInstall, UndoBackUp, UndoInstallStatus, UndoBackUpStatus;
    UndoInstallAgrees(first, d, paths, st, k, item);
    var half := st[k := UndoInstallStatus(first, st[k], item)];
    UndoBackUpAgrees(first, UndoInstall(d, item), paths, half, k, item);
    assert half[k := UndoStatus(first, st[k], item)] == st[k := UndoStatus(first, st[k], item)];
  }

  predicate Names(items: seq<Item>, paths: seq<Path>) {
    |items| <= |paths| && forall i :: 0 <= i < |items| ==> items[i].path == paths[i]
  }

  /** The statuses after the whole loop: each item acts on its own. */
  function UndoneStatuses(first: Disk, st: seq<Status>, items: seq<Item>): (r: seq<Status>)
    requires |items| <= |st|
    ensures |r| == |st|
  {
    seq(|st|, i requires 0 <= i < |st| => if i < |items| then UndoStatus(first, st[i], items[i]) else st[i])
  }

  lemma {:induction false} UndoAllAgrees(first: Disk, d: Disk, paths: seq<Path>, st: seq<Status>, items: seq<Item>)
    requires Agrees(first, d, paths, st) && PrefixFree(paths) && Names(items, paths)
    ensures |items| <= |st|
    ensures Agrees(first, UndoAll(d, items), paths, UndoneStatuses(first, st, items))
    decreases |items|
  {
    hide Agrees, PrefixFree, Undo, UndoStatus;
    StatusCount(first, d, paths, st);
    if items == [] {
      assert UndoneStatuses(first, st, items) == st;
    } else {
      var k := |items| - 1;
      UndoAgrees(first, d, paths, st, k, items[k]);
      var next := st[k := UndoStatus(first, st[k], items[k])];
      UndoAllAgrees(first, Undo(d, items[k]), paths, next, items[..k]);
      assert UndoneStatuses(first, next, items[..k]) == UndoneStatuses(first, st, items);
    }
  }

  // ---- Reading the statuses ----

  /** A game directory whose commit paths all hold the old part is the first one. */
  lemma AllOld(first: Disk, d: Disk, paths: seq<Path>, st: seq<Status>)
    requires Agrees(first, d, paths, st)
    requires forall i, p :: 0 <= i < |paths| && paths[i] <= p ==> PartAt(first, st[i].game, p) == Get(first.game, p)
    ensures d.game == first.game
  {
    forall p
      ensures Get(d.game, p) == Get(first.game, p)
    {
    }
    SameGets(d.game, first.game);
  }

  lemma AllStaged(first: Disk, d: Disk, paths: seq<Path>, st: seq<Status>)
    requires Agrees(first, d, paths, st)
    requires forall i, p :: 0 <= i < |paths| && paths[i] <= p ==> PartAt(first, st[i].stage, p) == Get(first.stage, p)
    ensures d.stage == first.stage
  {
    forall p
      ensures Get(d.stage, p) == Get(first.stage, p)
    {
    }
    SameGets(d.stage, first.stage);
  }

  lemma SameGets(a: Tree, b: Tree)
    requires forall p :: Get(a, p) == Get(b, p)
    ensures a == b
  {
    forall p
      ensures p in a <==> p in b
      ensures p in a ==> a[p] == b[p]
    {
      assert Get(a, p) == Get(b, p);
    }
  }
}
