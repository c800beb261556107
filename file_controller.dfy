/** The request handlers of backend/controllers/fileController.js over an
    in-memory `File` collection. Each handler is a method of `FileStore`
    whose outcome is either the payload of its success response or the
    error response it sends; the store changes exactly as the handler's
    database writes would change the collection. */
module FileController {
  import opened Wrappers
  import opened JsString
  import opened FileModel
  import opened Sorting
  import opened Tree

  /** `req.file` as the upload middleware leaves it once the object is
      stored: original name, MIME type, size in bytes and object key. */
  datatype Upload = Upload(originalName: string, mimeType: string, size: nat, key: string)

  /** One document of a query result, with its id. */
  type Entry = (NodeId, Node)

  // ---- The orders of the two listings ----

  /** MongoDB's default string order: character by character, a proper
      prefix first. */
  predicate NameLe(a: string, b: string)
    ensures |a| <= |b| && a == b[..|a|] ==> NameLe(a, b)
    decreases |a|
  {
    a == [] || (b != [] && (a[0] < b[0] || (a[0] == b[0] && NameLe(a[1..], b[1..]))))
  }

  lemma {:induction false} NameLeTotal(a: string, b: string)
    ensures NameLe(a, b) || NameLe(b, a)
    decreases |a|
  {
    if a != [] && b != [] && a[0] == b[0] {
      NameLeTotal(a[1..], b[1..]);
    }
  }

  lemma {:induction false} NameLeTransitive(a: string, b: string, c: string)
    requires NameLe(a, b) && NameLe(b, c)
    ensures NameLe(a, c)
    decreases |a|
  {
    if a != [] && a[0] == b[0] && b[0] == c[0] {
      NameLeTransitive(a[1..], b[1..], c[1..]);
    }
  }

  /** Names are ordered strictly: only equal names tie. */
  lemma {:induction false} NameLeAntisymmetric(a: string, b: string)
    requires NameLe(a, b) && NameLe(b, a)
    ensures a == b
    decreases |a|
  {
    if a != [] {
      NameLeAntisymmetric(a[1..], b[1..]);
      assert a == [a[0]] + a[1..] && b == [b[0]] + b[1..];
    }
  }

  /** `.sort({ isFolder: -1, name: 1 })`: folders before files, each group by
      ascending name. */
  predicate FoldersFirst(x: Entry, y: Entry)
    ensures x.1.isFolder && !y.1.isFolder ==> FoldersFirst(x, y)
    ensures !x.1.isFolder && y.1.isFolder ==> !FoldersFirst(x, y)
  {
    (x.1.isFolder && !y.1.isFolder) ||
    (x.1.isFolder == y.1.isFolder && NameLe(x.1.name, y.1.name))
  }

  /** `.sort({ updatedAt: -1 })`: most recently updated first. */
  predicate NewestFirst(x: Entry, y: Entry)
    ensures x.1.updatedAt == y.1.updatedAt ==> NewestFirst(x, y)
    ensures x.1.updatedAt < y.1.updatedAt ==> !NewestFirst(x, y)
  {
    x.1.updatedAt >= y.1.updatedAt
  }

  lemma FoldersFirstIsTotalPreorder()
    ensures TotalPreorder(FoldersFirst)
  {
    forall x: Entry, y: Entry ensures FoldersFirst(x, y) || FoldersFirst(y, x) {
      NameLeTotal(x.1.name, y.1.name);
    }
    forall x: Entry, y: Entry, z: Entry | FoldersFirst(x, y) && FoldersFirst(y, z)
      ensures FoldersFirst(x, z)
    {
      if x.1.isFolder == y.1.isFolder && y.1.isFolder == z.1.isFolder {
        NameLeTransitive(x.1.name, y.1.name, z.1.name);
      }
    }
  }

  lemma NewestFirstIsTotalPreorder()
    ensures TotalPreorder(NewestFirst)
  {
  }

  /** Two entries of a folder listing tie only when both are folders or both
      are files and they carry the same name. */
  lemma FoldersFirstTies(x: Entry, y: Entry)
    requires FoldersFirst(x, y) && FoldersFirst(y, x)
    ensures x.1.isFolder == y.1.isFolder && x.1.name == y.1.name
  {
    NameLeAntisymmetric(x.1.name, y.1.name);
  }

  // ---- Share entries ----

  /** `sharedWith.find(share => share.user === u)`: the position of the first
      entry for `u`, or the length of the list when there is none. */
  function FindShare(shares: seq<Share>, u: UserId): (i: nat)
    ensures i <= |shares|
    ensures forall j :: 0 <= j < i ==> shares[j].user != u
    ensures i < |shares| ==> shares[i].user == u
  {
    if shares == [] || shares[0].user == u then 0 else 1 + FindShare(shares[1..], u)
  }

  /** The share list after granting `p` to `u`: the first entry for `u` takes
      the new permission, or a new entry is appended when there is none. */
  function Upsert(shares: seq<Share>, u: UserId, p: Permission): (r: seq<Share>)
    ensures Share(u, p) in r && |shares| <= |r| <= |shares| + 1
  {
    var i := FindShare(shares, u);
    if i < |shares| then
      var r := shares[i := Share(u, p)];
      assert r[i] == Share(u, p);
      r
    else
      var r := shares + [Share(u, p)];
      assert r[|shares|] == Share(u, p);
      r
  }

  /** Granting touches no other user's entry: entries of other users keep
      their place and value, and the list grows by one exactly when `u` had
      no entry. */
  lemma UpsertKeepsOthers(shares: seq<Share>, u: UserId, p: Permission)
    ensures var r := Upsert(shares, u, p);
            |r| == |shares| + (if IsSharedIn(shares, u) then 0 else 1) &&
            (forall i :: 0 <= i < |shares| && shares[i].user != u ==> r[i] == shares[i]) &&
            (!IsSharedIn(shares, u) ==> r == shares + [Share(u, p)])
  {
    var i := FindShare(shares, u);
    if i == |shares| {
      assert !IsSharedIn(shares, u);
    }
  }

  /** After granting, `u` has exactly one entry, carrying the new permission,
      provided the list had at most one entry per user before. */
  lemma UpsertSingleEntry(shares: seq<Share>, u: UserId, p: Permission)
    requires UniqueUsers(shares)
    ensures var r := Upsert(shares, u, p);
            UniqueUsers(r) &&
            (exists i :: 0 <= i < |r| && r[i] == Share(u, p)) &&
            (forall i :: 0 <= i < |r| && r[i].user == u ==> r[i] == Share(u, p))
  {
    var r := Upsert(shares, u, p);
    var i := FindShare(shares, u);
    assert r[i] == Share(u, p);
  }

  /** The last grant wins. */
  lemma UpsertTwice(shares: seq<Share>, u: UserId, p: Permission, q: Permission)
    ensures Upsert(Upsert(shares, u, p), u, q) == Upsert(shares, u, q)
  {
    var i := FindShare(shares, u);
    var r := Upsert(shares, u, p);
    assert FindShare(r, u) == i by {
      assert r[i].user == u;
      FindShareFirst(r, u, i);
    }
  }

  lemma FindShareFirst(shares: seq<Share>, u: UserId, i: nat)
    requires i < |shares| && shares[i].user == u
    requires forall j :: 0 <= j < i ==> shares[j].user != u
    ensures FindShare(shares, u) == i
  {
    var f := FindShare(shares, u);
    assert f <= i;
    assert f < |shares|;
  }

  // ---- The store ----

  /** The state the handlers share: the `File` collection, the log of writes
      sent to the object storage and the collection, and the next fresh id. */
  class FileStore {
    var nodes: Store
    var effects: seq<Effect>
    var nextId: NodeId

    /** Every record is well formed, has an id below `nextId`, and points to
        an older parent. */
    ghost predicate Valid()
      reads this
    {
      Ordered(nodes) && forall k :: k in nodes ==> k < nextId && WellFormed(nodes[k])
    }

    constructor ()
      ensures Valid() && nodes == map[] && effects == []
    {
      nodes := map[];
      effects := [];
      nextId := 0;
    }

    /** `document.save()` on a new document: stores `n` under a fresh id,
        greater than its parent's (an id the database never handed out
        before). */
    method Insert(n: Node) returns (id: NodeId)
      requires Valid() && WellFormed(n)
      modifies this
      ensures Valid() && effects == old(effects)
      ensures id !in old(nodes) && nodes == old(nodes)[id := n]
    {
      id := if n.parent.Some? && n.parent.value >= nextId then n.parent.value + 1 else nextId;
      nodes := nodes[id := n];
      nextId := id + 1;
    }

    /** `document.save()` on a record read earlier and changed in fields
        other than its place in the tree. */
    method Save(id: NodeId, n: Node)
      requires Valid() && id in nodes && WellFormed(n) && n.parent == nodes[id].parent
      modifies this
      ensures Valid() && nextId == old(nextId) && effects == old(effects)
      ensures nodes == old(nodes)[id := n]
    {
      nodes := nodes[id := n];
    }

    /** `File.findByIdAndDelete(id)`. */
    method FindByIdAndDelete(id: NodeId)
      requires Valid()
      modifies this
      ensures Valid() && nextId == old(nextId)
      ensures nodes == old(nodes) - {id} && effects == old(effects) + [RecordRemoved(id)]
    {
      nodes := nodes - {id};
      effects := effects + [RecordRemoved(id)];
    }

    /** `s3Service.deleteFile(key)` for the object of record `id`. */
    method DeleteObject(id: NodeId, key: string)
      modifies this
      ensures nodes == old(nodes) && nextId == old(nextId)
      ensures effects == old(effects) + [BlobDeleted(id, key)]
    {
      effects := effects + [BlobDeleted(id, key)];
    }

    /** uploadFile: records the uploaded object as a file of the requester. */
    method UploadFile(file: Option<Upload>, requester: UserId, parent: Option<NodeId>, now: Time)
      returns (r: Result<NodeId>)
      requires Valid()
      modifies this
      ensures Valid() && effects == old(effects)
      ensures file.None? ==> r == Err(BadRequest("No file uploaded")) && nodes == old(nodes)
      ensures file.Some? ==>
                var n := NewNode(file.value.originalName, file.value.mimeType, file.value.size,
                                 file.value.key, requester, parent, false, now);
                if PassesValidation(n) then
                  r.Ok? && r.value !in old(nodes) && nodes == old(nodes)[r.value := n]
                else
                  r == Err(ServerError("Server error during file upload")) && nodes == old(nodes)
    {
      if file.None? {
        return Err(BadRequest("No file uploaded"));
      }
      var f := file.value;
      var n := NewNode(f.originalName, f.mimeType, f.size, f.key, requester, parent, false, now);
      if !PassesValidation(n) {
        return Err(ServerError("Server error during file upload"));
      }
      NewNodeWellFormed(f.originalName, f.mimeType, f.size, f.key, requester, parent, false, now);
      var id := Insert(n);
      r := Ok(id);
    }

    /** createFolder: records a folder of the requester. A missing name is
        refused up front; a name of blanks only passes that test and then
        fails the schema's `required` check once trimmed. */
    method CreateFolder(name: string, parent: Option<NodeId>, requester: UserId, now: Time)
      returns (r: Result<NodeId>)
      requires Valid()
      modifies this
      ensures Valid() && effects == old(effects)
      ensures name == [] ==> r == Err(BadRequest("Folder name is required")) && nodes == old(nodes)
      ensures name != [] && AllSpace(name) ==>
                r == Err(ServerError("Server error during folder creation")) && nodes == old(nodes)
      ensures !AllSpace(name) ==>
                r.Ok? && r.value !in old(nodes) &&
                nodes == old(nodes)[r.value := NewNode(name, "folder", 0, FolderPath(requester, now, name),
                                                       requester, parent, true, now)]
    {
      if name == [] {
        return Err(BadRequest("Folder name is required"));
      }
      var path := FolderPath(requester, now, name);
      var n := NewNode(name, "folder", 0, path, requester, parent, true, now);
      if !PassesValidation(n) {
        return Err(ServerError("Server error during folder creation"));
      }
      NewNodeWellFormed(name, "folder", 0, path, requester, parent, true, now);
      var id := Insert(n);
      r := Ok(id);
    }

    /** The documents with the given ids, ordered by `le`: what
        `File.find(query).sort(order)` returns. */
    method Listing(ids: set<NodeId>, le: (Entry, Entry) -> bool) returns (files: seq<Entry>)
      requires TotalPreorder(le) && ids <= nodes.Keys
      ensures NoDuplicates(files) && SortedBy(files, le)
      ensures forall e :: e in files <==> e.0 in ids && e.1 == nodes[e.0]
    {
      files := [];
      var todo := ids;
      while todo != {}
        invariant todo <= ids
        invariant NoDuplicates(files) && SortedBy(files, le)
        invariant forall e :: e in files <==> e.0 in ids - todo && e.1 == nodes[e.0]
        decreases todo
      {
        var k :| k in todo;
        var e := (k, nodes[k]);
        InsertBySorted(files, e, le);
        InsertByFresh(files, e, le);
        var next := InsertBy(files, e, le);
        forall y ensures y in next <==> y in files || y == e {
          assert y in next <==> y in multiset(next);
        }
        files := next;
        todo := todo - {k};
      }
    }

    /** getFiles: the records in folder `parent` (the root when absent) that
        the requester owns or is shared on, folders first and then by name.
        Records in the trash are listed too. */
    method GetFiles(requester: UserId, parent: Option<NodeId>) returns (files: seq<Entry>)
      ensures NoDuplicates(files) && SortedBy(files, FoldersFirst)
      ensures forall e :: e in files <==>
                e.0 in nodes && e.1 == nodes[e.0] && e.1.parent == parent && MayView(e.1, requester)
    {
      var ids := set k | k in nodes.Keys && nodes[k].parent == parent && MayView(nodes[k], requester);
      FoldersFirstIsTotalPreorder();
      files := Listing(ids, FoldersFirst);
    }

    /** getSharedFiles: the records shared with the requester, most recently
        updated first. */
    method GetSharedFiles(requester: UserId) returns (files: seq<Entry>)
      ensures NoDuplicates(files) && SortedBy(files, NewestFirst)
      ensures forall e :: e in files <==> e.0 in nodes && e.1 == nodes[e.0] && IsShared(e.1, requester)
    {
      var ids := set k | k in nodes.Keys && IsShared(nodes[k], requester);
      NewestFirstIsTotalPreorder();
      files := Listing(ids, NewestFirst);
    }

    /** getFileUrl: the object key to sign for a file the requester may view. */
    method GetFileUrl(id: NodeId, requester: UserId) returns (r: Result<string>)
      ensures id !in nodes ==> r == Err(NotFound("File not found"))
      ensures id in nodes && !MayView(nodes[id], requester) ==> r == Err(Forbidden("Access denied"))
      ensures id in nodes && MayView(nodes[id], requester) && nodes[id].isFolder ==>
                r == Err(BadRequest("Cannot generate URL for folders"))
      ensures r.Ok? <==> id in nodes && MayView(nodes[id], requester) && !nodes[id].isFolder
      ensures r.Ok? ==> r.value == nodes[id].path
    {
      if id !in nodes {
        return Err(NotFound("File not found"));
      }
      var file := nodes[id];
      if !MayView(file, requester) {
        return Err(Forbidden("Access denied"));
      }
      if file.isFolder {
        return Err(BadRequest("Cannot generate URL for folders"));
      }
      r := Ok(file.path);
    }

    /** shareFile: the owner grants `permission` (viewer when empty) on record
        `id` to the user registered under `email`. `users` is the `User`
        collection, by email. Returns the record's new share list. */
    method ShareFile(id: NodeId, requester: UserId, users: map<string, UserId>, email: string,
                     permission: string) returns (r: Result<seq<Share>>)
      requires Valid()
      modifies this
      ensures Valid() && effects == old(effects) && nextId == old(nextId)
      ensures r.Err? ==> nodes == old(nodes)
      ensures email == [] ==> r == Err(BadRequest("Email is required"))
      ensures email != [] && ParsePermission(permission).None? ==>
                r == Err(BadRequest("Invalid permission. Must be viewer or editor."))
      ensures email != [] && ParsePermission(permission).Some? && id !in old(nodes) ==>
                r == Err(NotFound("File not found"))
      ensures email != [] && ParsePermission(permission).Some? && id in old(nodes) &&
              !MayShare(old(nodes)[id], requester) ==>
                r == Err(Forbidden("Only the owner can share this file"))
      ensures email != [] && ParsePermission(permission).Some? && id in old(nodes) &&
              MayShare(old(nodes)[id], requester) && email !in users ==>
                r == Err(NotFound("User not found"))
      ensures email != [] && ParsePermission(permission).Some? && id in old(nodes) &&
              MayShare(old(nodes)[id], requester) && email in users && users[email] == requester ==>
                r == Err(BadRequest("Cannot share with yourself"))
      ensures r.Ok? <==>
                email != [] && ParsePermission(permission).Some? && id in old(nodes) &&
                MayShare(old(nodes)[id], requester) && email in users && users[email] != requester
      ensures r.Ok? ==>
                r.value == Upsert(old(nodes)[id].sharedWith, users[email], ParsePermission(permission).value) &&
                nodes == old(nodes)[id := old(nodes)[id].(sharedWith := r.value)]
    {
      if email == [] {
        return Err(BadRequest("Email is required"));
      }
      var p := ParsePermission(permission);
      if p.None? {
        return Err(BadRequest("Invalid permission. Must be viewer or editor."));
      }
      if id !in nodes {
        return Err(NotFound("File not found"));
      }
      var file := nodes[id];
      if !MayShare(file, requester) {
        return Err(Forbidden("Only the owner can share this file"));
      }
      if email !in users {
        return Err(NotFound("User not found"));
      }
      var target := users[email];
      if target == requester {
        return Err(BadRequest("Cannot share with yourself"));
      }
      var shares := file.sharedWith;
      var i := FindShare(shares, target);
      if i < |shares| {
        if shares[i].permission != p.value {
          shares := shares[i := Share(target, p.value)];
        }
      } else {
        shares := shares + [Share(target, p.value)];
      }
      UpsertSingleEntry(file.sharedWith, target, p.value);
      nodes := nodes[id := file.(sharedWith := shares)];
      r := Ok(shares);
    }

    /** toggleStar: flips the star of a record the requester may view and
        returns its new value. */
    method ToggleStar(id: NodeId, requester: UserId) returns (r: Result<bool>)
      requires Valid()
      modifies this
      ensures Valid() && effects == old(effects) && nextId == old(nextId)
      ensures id !in old(nodes) ==> r == Err(NotFound("File not found")) && nodes == old(nodes)
      ensures id in old(nodes) && !MayView(old(nodes)[id], requester) ==>
                r == Err(Forbidden("Access denied")) && nodes == old(nodes)
      ensures id in old(nodes) && MayView(old(nodes)[id], requester) ==>
                r == Ok(!old(nodes)[id].starred) && nodes == StarToggled(old(nodes), id)
    {
      if id !in nodes {
        return Err(NotFound("File not found"));
      }
      var file := nodes[id];
      if !MayView(file, requester) {
        return Err(Forbidden("Access denied"));
      }
      file := file.(starred := !file.starred);
      nodes := nodes[id := file];
      r := Ok(file.starred);
    }

    /** deleteFile: moves record `id` and what the cascade reaches from it to
        the trash, or with `permanent` (`permanent=true` in the query string)
        removes those records and the stored objects of the files among them.

        The handler re-enters itself for child folders, passing a stub
        response that has no `json` method: a child call that succeeds throws
        when it answers, after its writes, and its catch block answers 500.
        `viaStub` marks such a call; the caller ignores the outcome. */
    method DeleteFile(id: NodeId, requester: UserId, permanent: bool, viaStub: bool, now: Time)
      returns (r: Result<string>)
      requires Valid()
      modifies this
      ensures Valid() && nextId == old(nextId)
      ensures id !in old(nodes) ==>
                r == Err(NotFound("File not found")) && nodes == old(nodes) && effects == old(effects)
      ensures id in old(nodes) && !MayDelete(old(nodes)[id], requester) ==>
                r == Err(Forbidden("You do not have permission to delete this file")) &&
                nodes == old(nodes) && effects == old(effects)
      ensures id in old(nodes) && MayDelete(old(nodes)[id], requester) ==>
                r == (if viaStub then Err(ServerError("Server error when deleting file"))
                      else Ok(if permanent then "File permanently deleted" else "File moved to trash"))
      ensures id in old(nodes) && MayDelete(old(nodes)[id], requester) && !permanent ==>
                nodes == MarkDeleted(old(nodes), Cascade(old(nodes), requester, id), now) &&
                effects == old(effects)
      ensures id in old(nodes) && MayDelete(old(nodes)[id], requester) && permanent ==>
                nodes == old(nodes) - Cascade(old(nodes), requester, id) &&
                old(effects) <= effects &&
                PurgeLog(old(nodes), Cascade(old(nodes), requester, id), effects[|old(effects)|..])
      decreases nextId - id, 3
    {
      if id !in nodes {
        return Err(NotFound("File not found"));
      }
      var file := nodes[id];
      if !MayDelete(file, requester) {
        return Err(Forbidden("You do not have permission to delete this file"));
      }
      if permanent {
        PurgeCascade(id, requester, now);
        r := Ok("File permanently deleted");
      } else {
        TrashCascade(id, requester, now);
        r := Ok("File moved to trash");
      }
      if viaStub {
        r := Err(ServerError("Server error when deleting file"));
      }
    }

    /** The permitted permanent delete of `id`: its children first, then the
        object of `id` when it is a file, then its record. */
    method PurgeCascade(id: NodeId, requester: UserId, now: Time)
      requires Valid() && id in nodes
      modifies this
      ensures Valid() && nextId == old(nextId)
      ensures nodes == old(nodes) - Cascade(old(nodes), requester, id)
      ensures old(effects) <= effects &&
              PurgeLog(old(nodes), Cascade(old(nodes), requester, id), effects[|old(effects)|..])
      decreases nextId - id, 2
    {
      ghost var n0, e0 := nodes, effects;
      var file := nodes[id];
      if file.isFolder {
        PurgeChildren(id, requester, now);
      }
      RootPurged(n0, requester, id, nodes, e0, effects);
      if !file.isFolder {
        DeleteObject(id, file.path);
      }
      FindByIdAndDelete(id);
    }

    /** The permitted soft delete of `id`: its children first, then `id`
        itself is moved to the trash. */
    method TrashCascade(id: NodeId, requester: UserId, now: Time)
      requires Valid() && id in nodes
      modifies this
      ensures Valid() && nextId == old(nextId) && effects == old(effects)
      ensures nodes == MarkDeleted(old(nodes), Cascade(old(nodes), requester, id), now)
      decreases nextId - id, 2
    {
      ghost var n0 := nodes;
      var file := nodes[id];
      if file.isFolder {
        TrashChildren(id, requester, now);
      }
      RootTrashed(n0, requester, id, now, nodes);
      file := Trashed(file, now);
      Save(id, file);
    }

    /** The children `done` of a folder are processed in a permanent delete
        that started from `n0` with the effect log at `e0`. */
    ghost predicate PurgedUpTo(n0: Store, e0: seq<Effect>, requester: UserId, done: set<NodeId>)
      requires Ordered(n0)
      reads this
    {
      nodes == n0 - Below(n0, requester, done) &&
      e0 <= effects && PurgeLog(n0, Below(n0, requester, done), effects[|e0|..])
    }

    /** The loop over `childFiles` in a permanent delete: every record whose
        parent is `id`, in whatever order the query returns them. */
    method PurgeChildren(id: NodeId, requester: UserId, now: Time)
      requires Valid() && id in nodes
      modifies this
      ensures Valid() && nextId == old(nextId)
      ensures nodes == old(nodes) - Below(old(nodes), requester, Children(old(nodes), id))
      ensures old(effects) <= effects &&
              PurgeLog(old(nodes), Below(old(nodes), requester, Children(old(nodes), id)),
                       effects[|old(effects)|..])
      decreases nextId - id, 1
    {
      ghost var n0, e0 := nodes, effects;
      PurgeLogEmpty(n0);
      var childFiles := Children(nodes, id);
      var todo := childFiles;
      ghost var done: set<NodeId> := {};
      while todo != {}
        invariant todo !! done && todo + done == childFiles
        invariant Valid() && nextId == old(nextId)
        invariant PurgedUpTo(n0, e0, requester, done)
        decreases todo
      {
        var c :| c in todo;
        PurgeChild(id, requester, c, now, n0, e0, done);
        done := done + {c};
        todo := todo - {c};
      }
    }

    /** One pass of that loop: a file child's object and then its record are
        deleted; a folder child is handed to the handler again. */
    method PurgeChild(id: NodeId, requester: UserId, c: NodeId, now: Time,
                      ghost n0: Store, ghost e0: seq<Effect>, ghost done: set<NodeId>)
      requires Valid() && Ordered(n0)
      requires c in Children(n0, id) && c !in done && done <= Children(n0, id)
      requires PurgedUpTo(n0, e0, requester, done)
      modifies this
      ensures Valid() && nextId == old(nextId)
      ensures PurgedUpTo(n0, e0, requester, done + {c})
      decreases nextId - id, 0
    {
      ChildFrame(n0, requester, id, done, c, true, now);
      var childFile := nodes[c];
      if childFile.isFolder {
        ghost var l1 := effects;
        var _ := DeleteFile(c, requester, true, true, now);
        FolderChildPurged(n0, requester, id, done, c, nodes, e0, l1, effects);
      } else {
        FileChildPurged(n0, requester, id, done, c, e0, effects);
        DeleteObject(c, childFile.path);
        FindByIdAndDelete(c);
      }
    }

    /** The children `done` of a folder are processed in a soft delete that
        started from `n0`. */
    ghost predicate TrashedUpTo(n0: Store, requester: UserId, done: set<NodeId>, now: Time)
      requires Ordered(n0)
      reads this
    {
      nodes == MarkDeleted(n0, Below(n0, requester, done), now)
    }

    /** The loop over `childFiles` in a soft delete. */
    method TrashChildren(id: NodeId, requester: UserId, now: Time)
      requires Valid() && id in nodes
      modifies this
      ensures Valid() && nextId == old(nextId) && effects == old(effects)
      ensures nodes == MarkDeleted(old(nodes), Below(old(nodes), requester, Children(old(nodes), id)), now)
      decreases nextId - id, 1
    {
      ghost var n0 := nodes;
      var childFiles := Children(nodes, id);
      var todo := childFiles;
      ghost var done: set<NodeId> := {};
      assert Below(n0, requester, done) == {};
      while todo != {}
        invariant todo !! done && todo + done == childFiles
        invariant Valid() && nextId == old(nextId) && effects == old(effects)
        invariant TrashedUpTo(n0, requester, done, now)
        decreases todo
      {
        var c :| c in todo;
        TrashChild(id, requester, c, now, n0, done);
        done := done + {c};
        todo := todo - {c};
      }
    }

    /** One pass of that loop: a file child is moved to the trash; a folder
        child is handed to the handler again. */
    method TrashChild(id: NodeId, requester: UserId, c: NodeId, now: Time,
                      ghost n0: Store, ghost done: set<NodeId>)
      requires Valid() && Ordered(n0)
      requires c in Children(n0, id) && c !in done && done <= Children(n0, id)
      requires TrashedUpTo(n0, requester, done, now)
      modifies this
      ensures Valid() && nextId == old(nextId) && effects == old(effects)
      ensures TrashedUpTo(n0, requester, done + {c}, now)
      decreases nextId - id, 0
    {
      ChildFrame(n0, requester, id, done, c, false, now);
      var childFile := nodes[c];
      if childFile.isFolder {
        var _ := DeleteFile(c, requester, false, true, now);
        FolderChildTrashed(n0, requester, id, done, c, now, nodes);
      } else {
        FileChildTrashed(n0, requester, id, done, c, now);
        childFile := Trashed(childFile, now);
        Save(c, childFile);
      }
    }
  }

  /** `folders/<owner>/<Date.now()>-<name>`, the key recorded for a folder: the
      name as given, before the schema trims it. */
  function FolderPath(owner: UserId, now: Time, name: string): (path: string)
    ensures |path| > 10 + |owner| + |name|
    ensures path[..9 + |owner|] == "folders/" + owner + "/"
    ensures path[|path| - |name| - 1..] == "-" + name
    ensures AllDigits(path[9 + |owner|..|path| - |name| - 1])
    ensures DigitsValue(path[9 + |owner|..|path| - |name| - 1]) == now
  {
    var prefix, stamp := "folders/" + owner + "/", Decimal(now);
    var path := prefix + stamp + "-" + name;
    assert path[..|prefix|] == prefix;
    assert path[|prefix|..|path| - |name| - 1] == stamp;
    assert path[|path| - |name| - 1..] == "-" + name;
    path
  }

  /** The collection after toggling the star of record `id`. */
  function StarToggled(nodes: Store, id: NodeId): (r: Store)
    requires id in nodes
    ensures r.Keys == nodes.Keys
    ensures r[id].starred == !nodes[id].starred && r[id].(starred := nodes[id].starred) == nodes[id]
    ensures forall k :: k in nodes && k != id ==> r[k] == nodes[k]
  {
    nodes[id := nodes[id].(starred := !nodes[id].starred)]
  }

  /** Two toggles by users with access restore the collection. */
  lemma StarToggledTwice(nodes: Store, id: NodeId)
    requires id in nodes
    ensures StarToggled(StarToggled(nodes, id), id) == nodes
  {
  }
}
