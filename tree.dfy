/** The folder tree formed by the `parent` links of the records, and the set
    of records a delete request reaches (backend/controllers/fileController.js,
    deleteFile). These definitions are the specification the recursive
    `FileController.FileStore.DeleteFile` is proved against. */
module Tree {
  import opened Wrappers
  import opened FileModel
  import opened Sorting

  /** The `File` collection: record id to record. */
  type Store = map<NodeId, Node>

  /** Every parent link points to an older record. Record ids grow with time
      and no operation ever changes a record's `parent`, so this holds of
      every store the controller builds; it is what rules out cycles. */
  ghost predicate Ordered(nodes: Store) {
    forall k :: k in nodes && nodes[k].parent.Some? ==> nodes[k].parent.value < k
  }

  /** Following parent links up from `k` reaches `a`. */
  ghost predicate IsDescendant(nodes: Store, a: NodeId, k: NodeId)
    requires Ordered(nodes)
    decreases k
  {
    k in nodes && nodes[k].parent.Some? &&
    (nodes[k].parent.value == a || IsDescendant(nodes, a, nodes[k].parent.value))
  }

  /** Whether the cascade descends into child `n` of a folder it processes:
      a file child always is deleted, a folder child only when the requester
      passes the permission check that the re-entered handler runs on it. */
  predicate Enters(user: UserId, n: Node) {
    !n.isFolder || MayDelete(n, user)
  }

  ghost function Above(nodes: Store, id: NodeId): set<NodeId> {
    set k | k in nodes && id <= k
  }

  /** The records a permitted delete of `id` by `user` reaches: `id` itself and,
      when `id` is a folder, for every record whose parent is `id` and that the
      cascade enters, everything the cascade reaches from that child. */
  ghost function Cascade(nodes: Store, user: UserId, id: NodeId): (s: set<NodeId>)
    requires Ordered(nodes)
    ensures id in s
    ensures forall k :: k in s ==> id <= k
    ensures forall k :: k in s && k != id ==> k in nodes
    decreases Above(nodes, id)
  {
    {id} +
    if id in nodes && nodes[id].isFolder then
      set c, k | c in nodes && nodes[c].parent == Some(id) && Enters(user, nodes[c]) &&
                 id in Above(nodes, id) && k in Cascade(nodes, user, c) :: k
    else {}
  }

  lemma AboveShrinks(nodes: Store, id: NodeId, c: NodeId)
    requires id in nodes && id < c
    ensures Above(nodes, c) < Above(nodes, id)
  {
    assert id in Above(nodes, id);
  }

  /** Everything the cascade reaches from the children `cs` it has entered. */
  ghost function Below(nodes: Store, user: UserId, cs: set<NodeId>): set<NodeId>
    requires Ordered(nodes)
  {
    set c, k | c in cs && c in nodes && Enters(user, nodes[c]) && k in Cascade(nodes, user, c) :: k
  }

  /** `File.find({ parent: id })`: the records whose parent is `id`. */
  function Children(nodes: Store, id: NodeId): (cs: set<NodeId>)
    ensures forall c :: c in cs ==> c in nodes && nodes[c].parent == Some(id)
    ensures Ordered(nodes) ==> forall c :: c in cs ==> id < c
  {
    set c | c in nodes && nodes[c].parent == Some(id)
  }

  lemma CascadeUnfold(nodes: Store, user: UserId, id: NodeId)
    requires Ordered(nodes) && id in nodes
    ensures Cascade(nodes, user, id) ==
            {id} + (if nodes[id].isFolder then Below(nodes, user, Children(nodes, id)) else {})
  {
  }

  lemma BelowAdd(nodes: Store, user: UserId, cs: set<NodeId>, c: NodeId)
    requires Ordered(nodes) && c in nodes
    ensures Below(nodes, user, cs + {c}) ==
            Below(nodes, user, cs) + (if Enters(user, nodes[c]) then Cascade(nodes, user, c) else {})
  {
  }

  /** The descendant relation follows the id order. */
  lemma {:induction false} DescendantIsYounger(nodes: Store, a: NodeId, k: NodeId)
    requires Ordered(nodes) && IsDescendant(nodes, a, k)
    ensures a < k
    decreases k
  {
    var p := nodes[k].parent.value;
    if p != a {
      DescendantIsYounger(nodes, a, p);
    }
  }

  lemma {:induction false} DescendantTransitive(nodes: Store, a: NodeId, b: NodeId, k: NodeId)
    requires Ordered(nodes) && IsDescendant(nodes, a, b) && IsDescendant(nodes, b, k)
    ensures IsDescendant(nodes, a, k)
    decreases k
  {
    var p := nodes[k].parent.value;
    if p != b {
      DescendantTransitive(nodes, a, b, p);
    }
  }

  /** Two different children of one record have disjoint subtrees: a record
      has one parent, so it lies below at most one of them. */
  lemma {:induction false} SiblingSubtreesDisjoint(nodes: Store, c1: NodeId, c2: NodeId, k: NodeId)
    requires Ordered(nodes) && c1 in nodes && c2 in nodes && c1 != c2
    requires nodes[c1].parent.Some? && nodes[c1].parent == nodes[c2].parent
    requires k == c1 || IsDescendant(nodes, c1, k)
    ensures !(k == c2 || IsDescendant(nodes, c2, k))
    decreases k
  {
    var r := nodes[c1].parent.value;
    if k == c1 {
      if IsDescendant(nodes, c2, c1) {
        if r != c2 {
          DescendantIsYounger(nodes, c2, r);
        }
      }
    } else if k == c2 {
      if r != c1 {
        DescendantIsYounger(nodes, c1, r);
      }
    } else {
      var p := nodes[k].parent.value;
      if p != c1 {
        SiblingSubtreesDisjoint(nodes, c1, c2, p);
      } else if IsDescendant(nodes, c2, k) {
        assert IsDescendant(nodes, c2, c1);
        SiblingSubtreesDisjoint(nodes, c1, c2, c1);
      }
    }
  }

  /** Membership in the cascade, one parent link at a time: a record other
      than the root is reached exactly when its parent is a reached folder and
      the cascade enters it. */
  lemma {:induction false} CascadeStep(nodes: Store, user: UserId, id: NodeId, k: NodeId)
    requires Ordered(nodes) && k != id
    ensures k in Cascade(nodes, user, id) <==>
            k in nodes && nodes[k].parent.Some? && nodes[k].parent.value in nodes &&
            nodes[nodes[k].parent.value].isFolder && Enters(user, nodes[k]) &&
            nodes[k].parent.value in Cascade(nodes, user, id)
    decreases Above(nodes, id)
  {
    if k in Cascade(nodes, user, id) {
      var c :| c in nodes && nodes[c].parent == Some(id) && Enters(user, nodes[c]) &&
               k in Cascade(nodes, user, c);
      if k != c {
        AboveShrinks(nodes, id, c);
        CascadeStep(nodes, user, c, k);
        var p := nodes[k].parent.value;
        assert p in Cascade(nodes, user, c);
      }
    }
    if k in nodes && nodes[k].parent.Some? && nodes[k].parent.value in nodes &&
       nodes[nodes[k].parent.value].isFolder && Enters(user, nodes[k]) &&
       nodes[k].parent.value in Cascade(nodes, user, id)
    {
      var p := nodes[k].parent.value;
      if p == id {
        assert k in Cascade(nodes, user, k);
      } else {
        var c :| c in nodes && nodes[c].parent == Some(id) && Enters(user, nodes[c]) &&
                 p in Cascade(nodes, user, c);
        AboveShrinks(nodes, id, c);
        CascadeStep(nodes, user, c, k);
        assert k in Cascade(nodes, user, c);
      }
    }
  }

  /** The cascade stays inside the subtree of its root. */
  lemma {:induction false} CascadeInSubtree(nodes: Store, user: UserId, id: NodeId, k: NodeId)
    requires Ordered(nodes) && k in Cascade(nodes, user, id) && k != id
    ensures IsDescendant(nodes, id, k)
    decreases k
  {
    CascadeStep(nodes, user, id, k);
    var p := nodes[k].parent.value;
    if p != id {
      CascadeInSubtree(nodes, user, id, p);
    }
  }

  /** Every child of a reached folder is reached when it is a file, or a
      folder the requester may delete. */
  lemma ChildReached(nodes: Store, user: UserId, id: NodeId, x: NodeId, k: NodeId)
    requires Ordered(nodes) && x in Cascade(nodes, user, id) && x in nodes && nodes[x].isFolder
    requires k in nodes && nodes[k].parent == Some(x)
    requires !nodes[k].isFolder || MayDelete(nodes[k], user)
    ensures k in Cascade(nodes, user, id)
  {
    CascadeStep(nodes, user, id, k);
  }

  /** A folder below the root that the requester may not delete is skipped
      together with everything under it. */
  lemma {:induction false} SkippedFolderPrunesSubtree(nodes: Store, user: UserId, id: NodeId, c: NodeId, k: NodeId)
    requires Ordered(nodes) && IsDescendant(nodes, id, c)
    requires nodes[c].isFolder && !MayDelete(nodes[c], user)
    requires k == c || IsDescendant(nodes, c, k)
    ensures k !in Cascade(nodes, user, id)
    decreases k
  {
    DescendantIsYounger(nodes, id, c);
    if k != c {
      DescendantIsYounger(nodes, c, k);
    }
    CascadeStep(nodes, user, id, k);
    if k != c {
      var p := nodes[k].parent.value;
      if p != c {
        DescendantIsYounger(nodes, c, p);
      }
      SkippedFolderPrunesSubtree(nodes, user, id, c, p);
    }
  }

  /** When the root is a folder, every record below it hangs from a folder and
      the requester may delete every folder below it, the cascade reaches the
      whole subtree. */
  lemma {:induction false} CascadeCoversSubtree(nodes: Store, user: UserId, id: NodeId, k: NodeId)
    requires Ordered(nodes)
    requires forall d :: IsDescendant(nodes, id, d) ==>
               nodes[d].parent.value in nodes && nodes[nodes[d].parent.value].isFolder &&
               Enters(user, nodes[d])
    requires IsDescendant(nodes, id, k)
    ensures k in Cascade(nodes, user, id)
    decreases k
  {
    DescendantIsYounger(nodes, id, k);
    var p := nodes[k].parent.value;
    if p != id {
      CascadeCoversSubtree(nodes, user, id, p);
    }
    CascadeStep(nodes, user, id, k);
  }

  /** The parent links, kind and access fields of a record: everything the
      cascade looks at. Trashing a record leaves them alone. */
  predicate SameShape(a: Node, b: Node) {
    a.parent == b.parent && a.isFolder == b.isFolder && a.owner == b.owner &&
    a.sharedWith == b.sharedWith
  }

  /** The cascade from `r` depends only on the shape of the records in the
      subtree of `r`: it is the same in any store that keeps that subtree and
      adds nothing new. */
  lemma {:induction false} CascadeFrame(n1: Store, n2: Store, user: UserId, r: NodeId)
    requires Ordered(n1) && Ordered(n2)
    requires forall k :: k in n2 ==> k in n1 && SameShape(n1[k], n2[k])
    requires forall k :: k in n1 && (k == r || IsDescendant(n1, r, k)) ==> k in n2
    ensures Cascade(n2, user, r) == Cascade(n1, user, r)
    decreases Above(n1, r)
  {
    if r in n1 && n1[r].isFolder {
      var cs := Children(n1, r);
      assert Children(n2, r) == cs;
      forall c | c in cs ensures Cascade(n2, user, c) == Cascade(n1, user, c) {
        SubtreeKept(n1, n2, r, c);
        AboveShrinks(n1, r, c);
        CascadeFrame(n1, n2, user, c);
      }
      BelowFrame(n1, n2, user, cs);
      CascadeUnfold(n1, user, r);
      CascadeUnfold(n2, user, r);
    } else {
      assert r in n2 ==> r in n1;
    }
  }

  lemma SubtreeKept(n1: Store, n2: Store, r: NodeId, c: NodeId)
    requires Ordered(n1) && c in n1 && n1[c].parent == Some(r)
    requires forall k :: k in n1 && (k == r || IsDescendant(n1, r, k)) ==> k in n2
    ensures forall k :: k in n1 && (k == c || IsDescendant(n1, c, k)) ==> k in n2
  {
    assert IsDescendant(n1, r, c);
    forall k | k in n1 && IsDescendant(n1, c, k) ensures k in n2 {
      DescendantTransitive(n1, r, c, k);
    }
  }

  lemma BelowFrame(n1: Store, n2: Store, user: UserId, cs: set<NodeId>)
    requires Ordered(n1) && Ordered(n2)
    requires forall c :: c in cs ==> c in n1 && c in n2 && SameShape(n1[c], n2[c])
    requires forall c :: c in cs ==> Cascade(n2, user, c) == Cascade(n1, user, c)
    ensures Below(n2, user, cs) == Below(n1, user, cs)
  {
  }

  // ---- Soft delete: the records the cascade reaches are marked as trashed ----

  /** `deleted = true; deletedAt = new Date()` */
  function Trashed(n: Node, now: Time): (t: Node)
    ensures t.deleted && t.deletedAt == Some(now) && SameShape(n, t)
    ensures t.(deleted := n.deleted, deletedAt := n.deletedAt) == n
  {
    n.(deleted := true, deletedAt := Some(now))
  }

  /** A trashed record stays well formed: `deleted` and `deletedAt` still agree. */
  lemma TrashedWellFormed(n: Node, now: Time)
    requires WellFormed(n)
    ensures WellFormed(Trashed(n, now))
  {
  }

  /** The store after every record of `s` has been moved to the trash at time
      `now`; nothing else changes. */
  function MarkDeleted(nodes: Store, s: set<NodeId>, now: Time): (r: Store)
    ensures r.Keys == nodes.Keys
  {
    map k | k in nodes :: if k in s then Trashed(nodes[k], now) else nodes[k]
  }

  /** What trashing does to each record: a record of `s` is marked deleted at
      `now` and keeps every other field; a record outside `s` is unchanged. */
  lemma MarkDeletedMarks(nodes: Store, s: set<NodeId>, now: Time)
    ensures forall k :: k in nodes && k in s ==>
              MarkDeleted(nodes, s, now)[k].deleted && MarkDeleted(nodes, s, now)[k].deletedAt == Some(now) &&
              MarkDeleted(nodes, s, now)[k].(deleted := nodes[k].deleted, deletedAt := nodes[k].deletedAt) == nodes[k]
    ensures forall k :: k in nodes && k !in s ==> MarkDeleted(nodes, s, now)[k] == nodes[k]
  {
  }

  lemma MarkDeletedTwice(nodes: Store, s1: set<NodeId>, s2: set<NodeId>, now: Time)
    ensures MarkDeleted(MarkDeleted(nodes, s1, now), s2, now) == MarkDeleted(nodes, s1 + s2, now)
  {
  }

  /** Trashing keeps the shape of every record, hence the tree and the cascade. */
  lemma MarkDeletedKeepsShape(nodes: Store, s: set<NodeId>, now: Time)
    ensures forall k :: k in nodes ==> SameShape(nodes[k], MarkDeleted(nodes, s, now)[k])
    ensures Ordered(nodes) ==> Ordered(MarkDeleted(nodes, s, now))
  {
  }

  // ---- Permanent delete: the order of the external effects ----

  /** The writes a permanent delete issues: `s3Service.deleteFile(path)` for a
      file's stored object, and `File.findByIdAndDelete(id)` for a record. */
  datatype Effect = BlobDeleted(node: NodeId, key: string) | RecordRemoved(node: NodeId)

  /** `log` is a valid trace of purging the records `s` of `nodes`: every
      record of `s` is removed once, every file's object is deleted once
      immediately before its record and no folder's object is, and a child's
      record is removed before its parent's. */
  ghost predicate PurgeLog(nodes: Store, s: set<NodeId>, log: seq<Effect>) {
    NoDuplicates(log) &&
    (forall i :: 0 <= i < |log| ==> log[i].node in s && log[i].node in nodes) &&
    (forall k :: k in s ==> RecordRemoved(k) in log) &&
    (forall i :: 0 <= i < |log| && log[i].BlobDeleted? ==>
       !nodes[log[i].node].isFolder && log[i].key == nodes[log[i].node].path) &&
    (forall k :: k in s && k in nodes && !nodes[k].isFolder ==>
       exists i :: 0 < i < |log| && log[i - 1] == BlobDeleted(k, nodes[k].path) && log[i] == RecordRemoved(k)) &&
    (forall i, j ::
       0 <= i < |log| && 0 <= j < |log| && log[i].RecordRemoved? && log[j].RecordRemoved? &&
       nodes[log[i].node].parent == Some(log[j].node)
       ==> i < j)
  }

  /** In a purge trace, the object of each purged file is deleted exactly once,
      and no object is deleted for a purged folder. */
  lemma PurgeLogBlobOnce(nodes: Store, s: set<NodeId>, log: seq<Effect>, k: NodeId)
    requires PurgeLog(nodes, s, log) && k in s
    ensures !nodes[k].isFolder ==> multiset(log)[BlobDeleted(k, nodes[k].path)] == 1
    ensures nodes[k].isFolder ==> forall key :: BlobDeleted(k, key) !in log
  {
    if !nodes[k].isFolder {
      var i :| 0 < i < |log| && log[i - 1] == BlobDeleted(k, nodes[k].path) && log[i] == RecordRemoved(k);
      assert BlobDeleted(k, nodes[k].path) in multiset(log) by {
        assert log[i - 1] in log;
      }
      MultiplicityOfDistinct(log, BlobDeleted(k, nodes[k].path));
    } else {
      forall key, i | 0 <= i < |log| ensures log[i] != BlobDeleted(k, key) {
        if log[i].BlobDeleted? {
          assert !nodes[log[i].node].isFolder;
        }
      }
    }
  }

  lemma PurgeLogEmpty(nodes: Store)
    ensures PurgeLog(nodes, {}, [])
  {
  }

  /** Two purge traces of disjoint record sets, where no record of the second
      has its parent in the first, chain into one trace. */
  lemma PurgeLogConcat(nodes: Store, s1: set<NodeId>, l1: seq<Effect>, s2: set<NodeId>, l2: seq<Effect>)
    requires PurgeLog(nodes, s1, l1) && PurgeLog(nodes, s2, l2) && s1 !! s2
    requires forall k :: k in s2 && k in nodes && nodes[k].parent.Some? ==> nodes[k].parent.value !in s1
    ensures PurgeLog(nodes, s1 + s2, l1 + l2)
  {
    ConcatDistinct(s1, l1, s2, l2);
    ConcatRemoved(s1, l1, s2, l2);
    ConcatAdjacent(nodes, s1, l1, s2, l2);
    ConcatOrder(nodes, s1, l1, s2, l2);
  }

  lemma ConcatRemoved(s1: set<NodeId>, l1: seq<Effect>, s2: set<NodeId>, l2: seq<Effect>)
    requires forall k :: k in s1 ==> RecordRemoved(k) in l1
    requires forall k :: k in s2 ==> RecordRemoved(k) in l2
    ensures forall k :: k in s1 + s2 ==> RecordRemoved(k) in l1 + l2
  {
    var l := l1 + l2;
    forall k | k in s1 + s2 ensures RecordRemoved(k) in l {
      if k in s1 {
        var i :| 0 <= i < |l1| && l1[i] == RecordRemoved(k);
        assert l[i] == RecordRemoved(k);
      } else {
        var i :| 0 <= i < |l2| && l2[i] == RecordRemoved(k);
        assert l[|l1| + i] == RecordRemoved(k);
      }
    }
  }

  lemma ConcatAdjacent(nodes: Store, s1: set<NodeId>, l1: seq<Effect>, s2: set<NodeId>, l2: seq<Effect>)
    requires forall k :: k in s1 && k in nodes && !nodes[k].isFolder ==>
               exists i :: 0 < i < |l1| && l1[i - 1] == BlobDeleted(k, nodes[k].path) && l1[i] == RecordRemoved(k)
    requires forall k :: k in s2 && k in nodes && !nodes[k].isFolder ==>
               exists i :: 0 < i < |l2| && l2[i - 1] == BlobDeleted(k, nodes[k].path) && l2[i] == RecordRemoved(k)
    ensures var l := l1 + l2;
            forall k :: k in s1 + s2 && k in nodes && !nodes[k].isFolder ==>
              exists i :: 0 < i < |l| && l[i - 1] == BlobDeleted(k, nodes[k].path) && l[i] == RecordRemoved(k)
  {
    var l := l1 + l2;
    forall k | k in s1 + s2 && k in nodes && !nodes[k].isFolder
      ensures exists i :: 0 < i < |l| && l[i - 1] == BlobDeleted(k, nodes[k].path) && l[i] == RecordRemoved(k)
    {
      if k in s1 {
        var i :| 0 < i < |l1| && l1[i - 1] == BlobDeleted(k, nodes[k].path) && l1[i] == RecordRemoved(k);
        assert l[i - 1] == l1[i - 1] && l[i] == l1[i];
      } else {
        var i :| 0 < i < |l2| && l2[i - 1] == BlobDeleted(k, nodes[k].path) && l2[i] == RecordRemoved(k);
        assert l[|l1| + i - 1] == l2[i - 1] && l[|l1| + i] == l2[i];
      }
    }
  }

  lemma ConcatDistinct(s1: set<NodeId>, l1: seq<Effect>, s2: set<NodeId>, l2: seq<Effect>)
    requires NoDuplicates(l1) && NoDuplicates(l2) && s1 !! s2
    requires forall i :: 0 <= i < |l1| ==> l1[i].node in s1
    requires forall i :: 0 <= i < |l2| ==> l2[i].node in s2
    ensures NoDuplicates(l1 + l2)
  {
    var l := l1 + l2;
    forall i, j | 0 <= i < j < |l| ensures l[i] != l[j] {
      if i < |l1| && |l1| <= j {
        assert l[i] == l1[i] && l[j] == l2[j - |l1|];
      } else if |l1| <= i {
        assert l[i] == l2[i - |l1|] && l[j] == l2[j - |l1|];
      }
    }
  }

  lemma ConcatOrder(nodes: Store, s1: set<NodeId>, l1: seq<Effect>, s2: set<NodeId>, l2: seq<Effect>)
    requires forall i :: 0 <= i < |l1| ==> l1[i].node in s1 && l1[i].node in nodes
    requires forall i :: 0 <= i < |l2| ==> l2[i].node in s2 && l2[i].node in nodes
    requires forall i, j ::
               0 <= i < |l1| && 0 <= j < |l1| && l1[i].RecordRemoved? && l1[j].RecordRemoved? &&
               nodes[l1[i].node].parent == Some(l1[j].node)
               ==> i < j
    requires forall i, j ::
               0 <= i < |l2| && 0 <= j < |l2| && l2[i].RecordRemoved? && l2[j].RecordRemoved? &&
               nodes[l2[i].node].parent == Some(l2[j].node)
               ==> i < j
    requires forall k :: k in s2 && k in nodes && nodes[k].parent.Some? ==> nodes[k].parent.value !in s1
    ensures var l := l1 + l2;
            forall i, j ::
              0 <= i < |l| && 0 <= j < |l| && l[i].RecordRemoved? && l[j].RecordRemoved? &&
              nodes[l[i].node].parent == Some(l[j].node)
              ==> i < j
  {
    var l := l1 + l2;
    forall i, j | 0 <= i < |l| && 0 <= j < |l| && l[i].RecordRemoved? && l[j].RecordRemoved? &&
                  nodes[l[i].node].parent == Some(l[j].node)
      ensures i < j
    {
      if i >= |l1| && j >= |l1| {
        assert l2[i - |l1|] == l[i] && l2[j - |l1|] == l[j];
      } else if i < |l1| && j < |l1| {
        assert l1[i] == l[i] && l1[j] == l[j];
      }
    }
  }

  /** A purge trace stays valid against any store that holds the same records
      for the purged ids. */
  lemma PurgeLogTransfer(n1: Store, n2: Store, s: set<NodeId>, log: seq<Effect>)
    requires PurgeLog(n2, s, log)
    requires forall k :: k in s && k in n2 ==> k in n1 && n1[k] == n2[k]
    ensures PurgeLog(n1, s, log)
  {
  }

  /** The trace of purging one record on its own. */
  lemma PurgeLogSingle(nodes: Store, id: NodeId)
    requires Ordered(nodes) && id in nodes
    ensures PurgeLog(nodes, {id}, RootEffects(nodes, id))
  {
    var t := RootEffects(nodes, id);
    assert forall i :: 0 <= i < |t| ==> t[i].node == id;
    if !nodes[id].isFolder {
      assert t[0] == BlobDeleted(id, nodes[id].path) && t[1] == RecordRemoved(id);
    }
  }

  /** What the handler issues for the record it was called on, once its
      children are done: the object delete for a file, then the record delete. */
  function RootEffects(nodes: Store, id: NodeId): seq<Effect>
    requires id in nodes
  {
    (if nodes[id].isFolder then [] else [BlobDeleted(id, nodes[id].path)]) + [RecordRemoved(id)]
  }

  // ---- Facts the cascade's loop over the children of a folder relies on ----

  /** What the cascade reaches from the children already processed lies
      strictly below the folder and outside the subtree of any child not yet
      processed. */
  lemma BelowAvoidsSibling(nodes: Store, user: UserId, id: NodeId, done: set<NodeId>, c: NodeId, k: NodeId)
    requires Ordered(nodes) && c in nodes && nodes[c].parent == Some(id) && c !in done
    requires forall d :: d in done ==> d in nodes && nodes[d].parent == Some(id)
    requires k == c || IsDescendant(nodes, c, k)
    ensures k !in Below(nodes, user, done)
  {
    if k in Below(nodes, user, done) {
      var d :| d in done && d in nodes && Enters(user, nodes[d]) && k in Cascade(nodes, user, d);
      if k != d {
        CascadeInSubtree(nodes, user, d, k);
      }
      SiblingSubtreesDisjoint(nodes, c, d, k);
    }
  }

  lemma BelowIsBelow(nodes: Store, user: UserId, id: NodeId, done: set<NodeId>)
    requires Ordered(nodes)
    requires forall d :: d in done ==> d in nodes && nodes[d].parent == Some(id)
    ensures forall k :: k in Below(nodes, user, done) ==> id < k && k in nodes
  {
  }

  /** No record the cascade reaches from child `c` has its parent among the
      records reached from the children already processed. */
  lemma CascadeParentsOutsideBelow(nodes: Store, user: UserId, id: NodeId, done: set<NodeId>, c: NodeId)
    requires Ordered(nodes) && c in nodes && nodes[c].parent == Some(id) && c !in done
    requires forall d :: d in done ==> d in nodes && nodes[d].parent == Some(id)
    ensures forall k :: k in Cascade(nodes, user, c) && k in nodes && nodes[k].parent.Some? ==>
              nodes[k].parent.value !in Below(nodes, user, done)
  {
    BelowIsBelow(nodes, user, id, done);
    forall k | k in Cascade(nodes, user, c) && k in nodes && nodes[k].parent.Some?
      ensures nodes[k].parent.value !in Below(nodes, user, done)
    {
      var p := nodes[k].parent.value;
      if k != c {
        CascadeStep(nodes, user, c, k);
        if p != c {
          CascadeInSubtree(nodes, user, c, p);
        }
        BelowAvoidsSibling(nodes, user, id, done, c, p);
      }
    }
  }

  /** The store in the middle of the cascade from a folder, once the children
      `done` are processed: what they reach is removed, or moved to the trash. */
  ghost function Processed(n0: Store, user: UserId, done: set<NodeId>, permanent: bool, now: Time): Store
    requires Ordered(n0)
  {
    if permanent then n0 - Below(n0, user, done) else MarkDeleted(n0, Below(n0, user, done), now)
  }

  /** The store a child folder's call starts from holds the child's subtree
      unchanged in shape, so the child's cascade is the one computed on the
      store before the parent call; it is disjoint from what is already
      processed, and none of its records hangs from a processed record. */
  lemma ChildFrame(n0: Store, user: UserId, id: NodeId, done: set<NodeId>, c: NodeId,
                   permanent: bool, now: Time)
    requires Ordered(n0) && c in n0 && n0[c].parent == Some(id) && c !in done
    requires forall d :: d in done ==> d in n0 && n0[d].parent == Some(id)
    ensures var nodes := Processed(n0, user, done, permanent, now);
            Ordered(nodes) && c in nodes && SameShape(n0[c], nodes[c]) &&
            Cascade(nodes, user, c) == Cascade(n0, user, c) &&
            Cascade(n0, user, c) !! Below(n0, user, done) &&
            (forall k :: k in Cascade(n0, user, c) && k in n0 && n0[k].parent.Some? ==>
               n0[k].parent.value !in Below(n0, user, done))
  {
    var nodes := Processed(n0, user, done, permanent, now);
    var b := Below(n0, user, done);
    MarkDeletedKeepsShape(n0, b, now);
    forall k | k in n0 && (k == c || IsDescendant(n0, c, k)) ensures k !in b {
      BelowAvoidsSibling(n0, user, id, done, c, k);
    }
    CascadeFrame(n0, nodes, user, c);
    forall k | k in Cascade(n0, user, c) ensures k !in b {
      if k != c {
        CascadeInSubtree(n0, user, c, k);
      }
    }
    CascadeParentsOutsideBelow(n0, user, id, done, c);
  }

  /** Processing a child folder by re-entering the handler on it, in a
      permanent delete: the processed part of the cascade grows by that
      child's cascade (or by nothing when the handler refuses the child). */
  lemma FolderChildPurged(n0: Store, user: UserId, id: NodeId, done: set<NodeId>, c: NodeId,
                          after: Store, l0: seq<Effect>, l1: seq<Effect>, l2: seq<Effect>)
    requires Ordered(n0) && c in n0 && n0[c].parent == Some(id) && c !in done && n0[c].isFolder
    requires forall d :: d in done ==> d in n0 && n0[d].parent == Some(id)
    requires l0 <= l1 && PurgeLog(n0, Below(n0, user, done), l1[|l0|..])
    requires var before := n0 - Below(n0, user, done);
             c in before &&
             (!MayDelete(before[c], user) ==> after == before && l2 == l1) &&
             (MayDelete(before[c], user) ==>
                after == before - Cascade(before, user, c) && l1 <= l2 &&
                PurgeLog(before, Cascade(before, user, c), l2[|l1|..]))
    ensures after == n0 - Below(n0, user, done + {c})
    ensures l0 <= l2 && PurgeLog(n0, Below(n0, user, done + {c}), l2[|l0|..])
  {
    var before := n0 - Below(n0, user, done);
    var b := Below(n0, user, done);
    var cc := Cascade(n0, user, c);
    ChildFrame(n0, user, id, done, c, true, 0);
    BelowAdd(n0, user, done, c);
    if MayDelete(before[c], user) {
      PurgeLogExtend(n0, before, b, cc, l0, l1, l2);
      RemoveTwice(n0, b, cc);
    }
  }

  /** A trace of purging `s1`, followed by a trace of purging `s2` from what
      is left, is a trace of purging both. */
  lemma PurgeLogExtend(n0: Store, rest: Store, s1: set<NodeId>, s2: set<NodeId>,
                       l0: seq<Effect>, l1: seq<Effect>, l2: seq<Effect>)
    requires l0 <= l1 <= l2 && PurgeLog(n0, s1, l1[|l0|..]) && PurgeLog(rest, s2, l2[|l1|..])
    requires forall k :: k in rest ==> k in n0 && n0[k] == rest[k]
    requires s1 !! s2
    requires forall k :: k in s2 && k in n0 && n0[k].parent.Some? ==> n0[k].parent.value !in s1
    ensures PurgeLog(n0, s1 + s2, l2[|l0|..])
  {
    PurgeLogTransfer(n0, rest, s2, l2[|l1|..]);
    PurgeLogConcat(n0, s1, l1[|l0|..], s2, l2[|l1|..]);
    SliceSplit(l0, l1, l2);
  }

  lemma RemoveTwice(nodes: Store, s1: set<NodeId>, s2: set<NodeId>)
    ensures nodes - s1 - s2 == nodes - (s1 + s2)
  {
  }

  /** Processing a child folder by re-entering the handler on it, in a soft
      delete. */
  lemma FolderChildTrashed(n0: Store, user: UserId, id: NodeId, done: set<NodeId>, c: NodeId,
                           now: Time, after: Store)
    requires Ordered(n0) && c in n0 && n0[c].parent == Some(id) && c !in done && n0[c].isFolder
    requires forall d :: d in done ==> d in n0 && n0[d].parent == Some(id)
    requires var before := MarkDeleted(n0, Below(n0, user, done), now);
             c in before &&
             (!MayDelete(before[c], user) ==> after == before) &&
             (MayDelete(before[c], user) ==> after == MarkDeleted(before, Cascade(before, user, c), now))
    ensures after == MarkDeleted(n0, Below(n0, user, done + {c}), now)
  {
    ChildFrame(n0, user, id, done, c, false, now);
    BelowAdd(n0, user, done, c);
    MarkDeletedTwice(n0, Below(n0, user, done), Cascade(n0, user, c), now);
  }

  /** Processing a file child in a permanent delete: its object and then its
      record are deleted. */
  lemma FileChildPurged(n0: Store, user: UserId, id: NodeId, done: set<NodeId>, c: NodeId,
                        l0: seq<Effect>, l1: seq<Effect>)
    requires Ordered(n0) && c in n0 && n0[c].parent == Some(id) && c !in done && !n0[c].isFolder
    requires forall d :: d in done ==> d in n0 && n0[d].parent == Some(id)
    requires l0 <= l1 && PurgeLog(n0, Below(n0, user, done), l1[|l0|..])
    ensures n0 - Below(n0, user, done) - {c} == n0 - Below(n0, user, done + {c})
    ensures l0 <= l1 + [BlobDeleted(c, n0[c].path)] + [RecordRemoved(c)]
    ensures PurgeLog(n0, Below(n0, user, done + {c}),
                     (l1 + [BlobDeleted(c, n0[c].path)] + [RecordRemoved(c)])[|l0|..])
  {
    var b := Below(n0, user, done);
    BelowAvoidsSibling(n0, user, id, done, c, c);
    BelowIsBelow(n0, user, id, done);
    FileChildBelow(n0, user, done, c);
    RemoveTwice(n0, b, {c});
    PurgeLogAppend(n0, b, l1[|l0|..], c);
    RootEffectsAppended(n0, c, l1);
    SliceAppend(l0, l1, RootEffects(n0, c));
  }

  /** Purging one more record, whose parent is not among those already purged. */
  lemma PurgeLogAppend(nodes: Store, s: set<NodeId>, log: seq<Effect>, c: NodeId)
    requires Ordered(nodes) && c in nodes && c !in s && PurgeLog(nodes, s, log)
    requires nodes[c].parent.Some? ==> nodes[c].parent.value !in s
    ensures PurgeLog(nodes, s + {c}, log + RootEffects(nodes, c))
  {
    PurgeLogSingle(nodes, c);
    PurgeLogConcat(nodes, s, log, {c}, RootEffects(nodes, c));
  }

  /** Processing a file child in a soft delete: it is moved to the trash. */
  lemma FileChildTrashed(n0: Store, user: UserId, id: NodeId, done: set<NodeId>, c: NodeId, now: Time)
    requires Ordered(n0) && c in n0 && n0[c].parent == Some(id) && c !in done && !n0[c].isFolder
    requires forall d :: d in done ==> d in n0 && n0[d].parent == Some(id)
    ensures MarkDeleted(n0, Below(n0, user, done), now)[c := Trashed(n0[c], now)] ==
            MarkDeleted(n0, Below(n0, user, done + {c}), now)
  {
    BelowAvoidsSibling(n0, user, id, done, c, c);
    FileChildBelow(n0, user, done, c);
  }

  /** A file child adds itself, and only itself, to the processed records. */
  lemma FileChildBelow(n0: Store, user: UserId, done: set<NodeId>, c: NodeId)
    requires Ordered(n0) && c in n0 && !n0[c].isFolder
    ensures Below(n0, user, done + {c}) == Below(n0, user, done) + {c}
  {
    BelowAdd(n0, user, done, c);
    assert Cascade(n0, user, c) == {c};
  }

  /** The record the handler was called on goes last. In a permanent delete,
      once its children are processed (`mid`, `l1`), deleting its object when
      it is a file and then its record completes the purge of its cascade. */
  lemma RootPurged(n0: Store, user: UserId, id: NodeId, mid: Store, l0: seq<Effect>, l1: seq<Effect>)
    requires Ordered(n0) && id in n0
    requires n0[id].isFolder ==>
               mid == n0 - Below(n0, user, Children(n0, id)) &&
               l0 <= l1 && PurgeLog(n0, Below(n0, user, Children(n0, id)), l1[|l0|..])
    requires !n0[id].isFolder ==> mid == n0 && l1 == l0
    ensures id in mid && mid[id] == n0[id]
    ensures mid - {id} == n0 - Cascade(n0, user, id)
    ensures n0[id].isFolder ==>
              l0 <= l1 + [RecordRemoved(id)] &&
              PurgeLog(n0, Cascade(n0, user, id), (l1 + [RecordRemoved(id)])[|l0|..])
    ensures !n0[id].isFolder ==>
              l0 <= l1 + [BlobDeleted(id, n0[id].path)] + [RecordRemoved(id)] &&
              PurgeLog(n0, Cascade(n0, user, id),
                       (l1 + [BlobDeleted(id, n0[id].path)] + [RecordRemoved(id)])[|l0|..])
  {
    var acc := if n0[id].isFolder then Below(n0, user, Children(n0, id)) else {};
    var log := l1[|l0|..];
    assert PurgeLog(n0, acc, log) by {
      if !n0[id].isFolder {
        PurgeLogEmpty(n0);
        assert log == [];
      }
    }
    assert Cascade(n0, user, id) == acc + {id} && id !in acc by {
      CascadeUnfold(n0, user, id);
      BelowIsBelow(n0, user, id, Children(n0, id));
    }
    assert mid == n0 - acc;
    PurgeLogAppend(n0, acc, log, id);
    SliceAppend(l0, l1, RootEffects(n0, id));
    RootEffectsAppended(n0, id, l1);
    RemoveTwice(n0, acc, {id});
  }

  lemma SliceSplit(l0: seq<Effect>, l1: seq<Effect>, l2: seq<Effect>)
    requires l0 <= l1 <= l2
    ensures l2[|l0|..] == l1[|l0|..] + l2[|l1|..]
  {
  }

  /** What a log holds past a prefix `l0`, once more is appended. */
  lemma SliceAppend(l0: seq<Effect>, l1: seq<Effect>, t: seq<Effect>)
    requires l0 <= l1
    ensures l0 <= l1 + t && (l1 + t)[|l0|..] == l1[|l0|..] + t
  {
  }

  /** The log after the handler's writes for `id`, as the writes append them. */
  lemma RootEffectsAppended(nodes: Store, id: NodeId, log: seq<Effect>)
    requires id in nodes
    ensures nodes[id].isFolder ==> log + [RecordRemoved(id)] == log + RootEffects(nodes, id)
    ensures !nodes[id].isFolder ==>
              log + [BlobDeleted(id, nodes[id].path)] + [RecordRemoved(id)] == log + RootEffects(nodes, id)
  {
  }

  /** In a soft delete, trashing the record the handler was called on, once
      its children are processed, completes the trashing of its cascade. */
  lemma RootTrashed(n0: Store, user: UserId, id: NodeId, now: Time, mid: Store)
    requires Ordered(n0) && id in n0
    requires n0[id].isFolder ==> mid == MarkDeleted(n0, Below(n0, user, Children(n0, id)), now)
    requires !n0[id].isFolder ==> mid == n0
    ensures id in mid && mid[id] == n0[id]
    ensures mid[id := Trashed(n0[id], now)] == MarkDeleted(n0, Cascade(n0, user, id), now)
  {
    CascadeUnfold(n0, user, id);
    BelowIsBelow(n0, user, id, Children(n0, id));
  }

}
