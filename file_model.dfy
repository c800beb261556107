/** The node record of backend/models/File.js: one document of the `File`
    collection, which stands for both files and folders, and the access
    rules the controller derives from its `owner` and `sharedWith` fields. */
module FileModel {
  import opened Wrappers
  import opened JsString

  /** Record ids. They are allocated by the store in increasing order (see
      `FileController.FileStore`), which is what keeps the tree acyclic. */
  type NodeId = nat
  /** A user's id as it appears in the authenticated request. */
  type UserId = string
  /** Milliseconds since the epoch, as `Date.now()` returns them. */
  type Time = nat

  /** The `permission` enum of a share entry. */
  datatype Permission = Viewer | Editor

  /** One element of `sharedWith`. */
  datatype Share = Share(user: UserId, permission: Permission)

  /** One record. `deleted` and `deletedAt` are NOT declared by the schema in
      File.js; the controller assigns them anyway when it moves records to the
      trash, so they are part of this model's record (absent = false / None). */
  datatype Node = Node(
    name: string,
    mimeType: string,
    size: nat,
    path: string,
    owner: UserId,
    parent: Option<NodeId>,
    isFolder: bool,
    starred: bool,
    sharedWith: seq<Share>,
    deleted: bool,
    deletedAt: Option<Time>,
    createdAt: Time,
    updatedAt: Time)

  /** `permission || 'viewer'`, with the enum's default. */
  function ParsePermission(p: string): (r: Option<Permission>)
    ensures r == Some(Viewer) <==> p == "" || p == "viewer"
    ensures r == Some(Editor) <==> p == "editor"
    ensures r.None? <==> p != "" && p != "viewer" && p != "editor"
  {
    if p == "" || p == "viewer" then Some(Viewer)
    else if p == "editor" then Some(Editor)
    else None
  }

  /** `new File({...})`: the given fields, `name` trimmed by the schema's
      `trim: true`, every other field at its schema default. */
  function NewNode(name: string, mimeType: string, size: nat, path: string, owner: UserId,
                   parent: Option<NodeId>, isFolder: bool, now: Time): (n: Node)
    ensures Unpadded(n.name) && |n.name| <= |name| && (n.name == [] <==> AllSpace(name))
    ensures n.name == Trim(name) && n.mimeType == mimeType && n.size == size
    ensures n.owner == owner && n.parent == parent && n.isFolder == isFolder && n.path == path
    ensures !n.starred && n.sharedWith == [] && !n.deleted && n.deletedAt == None
    ensures n.createdAt == now && n.updatedAt == now
  {
    Node(Trim(name), mimeType, size, path, owner, parent, isFolder,
         starred := false, sharedWith := [], deleted := false, deletedAt := None,
         createdAt := now, updatedAt := now)
  }

  /** The `required: true` validators: a required string must be non-empty.
      `size` (a Number) and `owner` are always present in this model. */
  predicate PassesValidation(n: Node) {
    n.name != [] && n.mimeType != [] && n.path != []
  }

  /** At most one share entry per user. The schema does not enforce this; it
      holds because sharing replaces an existing entry instead of adding one. */
  predicate UniqueUsers(shares: seq<Share>) {
    forall i, j :: 0 <= i < j < |shares| ==> shares[i].user != shares[j].user
  }

  /** What every stored record satisfies: its name is trimmed (no blank at
      either end, so `Trim` leaves it alone) and non-empty,
      share entries are unique per user, and `deleted` and `deletedAt` agree. */
  predicate WellFormed(n: Node) {
    PassesValidation(n) && Unpadded(n.name) &&
    UniqueUsers(n.sharedWith) && (n.deleted <==> n.deletedAt.Some?)
  }

  /** A freshly constructed record that passes validation is well formed and
      starts as a live, unstarred, unshared record of its owner. */
  lemma NewNodeWellFormed(name: string, mimeType: string, size: nat, path: string, owner: UserId,
                          parent: Option<NodeId>, isFolder: bool, now: Time)
    requires PassesValidation(NewNode(name, mimeType, size, path, owner, parent, isFolder, now))
    ensures var n := NewNode(name, mimeType, size, path, owner, parent, isFolder, now);
            WellFormed(n) && Trim(n.name) == n.name && !n.deleted && !n.starred && n.sharedWith == [] &&
            n.owner == owner && n.parent == parent
  {
    TrimIdempotent(name);
  }

  /** Validation fails exactly when a required string field is empty, the
      name counting after trimming (so a name of blanks only is refused). */
  lemma ValidationOfNewNode(name: string, mimeType: string, size: nat, path: string, owner: UserId,
                            parent: Option<NodeId>, isFolder: bool, now: Time)
    ensures PassesValidation(NewNode(name, mimeType, size, path, owner, parent, isFolder, now))
            <==> !AllSpace(name) && mimeType != [] && path != []
  {
  }

  // ---- Access rules (fileController.js: isOwner, isShared, isEditor) ----

  predicate IsOwner(n: Node, u: UserId) {
    n.owner == u
  }

  /** A share list holds an entry for `u`: the query `'sharedWith.user': u`. */
  predicate IsSharedIn(shares: seq<Share>, u: UserId) {
    exists i :: 0 <= i < |shares| && shares[i].user == u
  }

  /** `file.sharedWith.some(share => share.user === u)` */
  predicate IsShared(n: Node, u: UserId) {
    IsSharedIn(n.sharedWith, u)
  }

  /** `file.sharedWith.some(share => share.user === u && share.permission === 'editor')` */
  predicate IsEditor(n: Node, u: UserId)
    ensures IsEditor(n, u) ==> IsShared(n, u)
  {
    exists i :: 0 <= i < |n.sharedWith| && n.sharedWith[i] == Share(u, Editor)
  }

  /** View-level access: download URL and star toggle. */
  predicate MayView(n: Node, u: UserId) {
    IsOwner(n, u) || IsShared(n, u)
  }

  /** Delete-level access: owner or an editor share. */
  predicate MayDelete(n: Node, u: UserId) {
    IsOwner(n, u) || IsEditor(n, u)
  }

  /** Sharing is reserved to the owner. */
  predicate MayShare(n: Node, u: UserId)
    ensures MayShare(n, u) ==> MayDelete(n, u) && MayView(n, u)
  {
    IsOwner(n, u)
  }

  /** Whoever may delete a record may also view it. */
  lemma DeleteImpliesView(n: Node, u: UserId)
    requires MayDelete(n, u)
    ensures MayView(n, u)
  {
    if !IsOwner(n, u) {
      var i :| 0 <= i < |n.sharedWith| && n.sharedWith[i] == Share(u, Editor);
      assert n.sharedWith[i].user == u;
    }
  }

  /** A user who is not the owner and whose share entries are all `viewer`
      can view the record but can neither delete nor share it. */
  lemma ViewerShareIsViewOnly(n: Node, u: UserId)
    requires !IsOwner(n, u) && IsShared(n, u)
    requires forall i :: 0 <= i < |n.sharedWith| && n.sharedWith[i].user == u ==>
               n.sharedWith[i].permission == Viewer
    ensures MayView(n, u) && !MayDelete(n, u) && !MayShare(n, u)
  {
    forall i | 0 <= i < |n.sharedWith|
      ensures n.sharedWith[i] != Share(u, Editor)
    {
      if n.sharedWith[i].user == u {
        assert n.sharedWith[i].permission == Viewer;
      }
    }
  }
}
