/** What the record pass of the payload check finds at a path, and which record it blames. */
module PayloadMeaning {
  import opened Wrappers
  import opened Bytes
  import opened Text
  import opened PackageLimits
  import opened Payload

  /** `n` leads to `m` through links alone. */
  ghost predicate Links(n: Node, m: Node, hops: seq<Node>) {
    && hops != [] && hops[0] == n && hops[|hops| - 1] == m && !m.Symlink?
    && forall i :: 0 <= i < |hops| - 1 ==> hops[i] == Symlink(Some(hops[i + 1]))
  }

  lemma {:induction false} ResolveFound(n: Node) returns (hops: seq<Node>)
    requires Resolve(n).Some?
    ensures Links(n, Resolve(n).value, hops)
  {
    if n.Symlink? {
      var rest := ResolveFound(n.target.value);
      hops := [n] + rest;
    } else {
      hops := [n];
    }
  }

  lemma {:induction false} LinksResolve(n: Node, m: Node, hops: seq<Node>)
    requires Links(n, m, hops)
    ensures Resolve(n) == Some(m)
    decreases |hops|
  {
    if |hops| > 1 { LinksResolve(hops[1], m, hops[1..]); }
  }

  /** Resolving finds an object exactly when a chain of links ends there. */
  lemma ResolveExact(n: Node, m: Node)
    ensures Resolve(n) == Some(m) <==> exists hops :: Links(n, m, hops)
  {
    if Resolve(n) == Some(m) { var hops := ResolveFound(n); }
    if hops :| Links(n, m, hops) { LinksResolve(n, m, hops); }
  }

  /** One step of a path: `n` is a directory, or links to one, with that entry. */
  ghost predicate Enters(n: Node, name: string, m: Node) {
    Resolve(n).Some? && Resolve(n).value.Dir? && Entry(name, m) in Resolve(n).value.entries
  }

  ghost predicate Route(n: Node, parts: seq<string>, m: Node, nodes: seq<Node>) {
    && |nodes| == |parts| + 1 && nodes[0] == n && nodes[|parts|] == m
    && forall i :: 0 <= i < |parts| ==> Enters(nodes[i], parts[i], nodes[i + 1])
  }

  lemma EntersChild(n: Node, name: string, m: Node)
    requires TreeOk(n)
    ensures Enters(n, name, m) <==>
      Resolve(n).Some? && Resolve(n).value.Dir? && Child(Resolve(n).value.entries, name) == Some(m)
    ensures Enters(n, name, m) ==> TreeOk(m)
  {
    if Resolve(n).Some? && Resolve(n).value.Dir? {
      ResolveOk(n);
      var entries := Resolve(n).value.entries;
      var found := Child(entries, name);
      if Entry(name, m) in entries {
        var i :| 0 <= i < |entries| && entries[i] == Entry(name, m);
        assert found.Some?;
        var j :| 0 <= j < |entries| && entries[j] == Entry(name, found.value);
        assert i == j;
        assert TreeOk(entries[i].node);
      }
    }
  }

  /** An object is found at a path exactly when the path leads to it, links on the way followed and the last one not. */
  lemma {:induction false} MetadataExact(n: Node, parts: seq<string>, m: Node)
    requires TreeOk(n)
    ensures Metadata(n, parts) == Some(m) <==> exists nodes :: Route(n, parts, m, nodes)
    decreases |parts|
  {
    hide TreeOk, Enters;
    if parts == [] {
      if n == m { assert Route(n, parts, m, [n]); }
    } else {
      if Metadata(n, parts) == Some(m) {
        var next := Child(Resolve(n).value.entries, parts[0]).value;
        EntersChild(n, parts[0], next);
        MetadataExact(next, parts[1..], m);
        var rest :| Route(next, parts[1..], m, rest);
        assert Route(n, parts, m, [n] + rest);
      }
      if nodes :| Route(n, parts, m, nodes) {
        assert Enters(nodes[0], parts[0], nodes[1]);
        EntersChild(n, parts[0], nodes[1]);
        assert Route(nodes[1], parts[1..], m, nodes[1..]);
        MetadataExact(nodes[1], parts[1..], m);
      }
    }
  }

  /** The record at fault is the first; nothing at a good path is an I/O error, anything else bad metadata. */
  lemma {:induction false} FirstErrorExact(digest: seq<byte> -> string, payload: Option<Node>, inventory: seq<InventoryRecord>, e: PackageError)
    ensures FirstRecordError(digest, payload, inventory) == Some(e) <==>
      exists i :: FirstAtFault(digest, payload, inventory, i, e)
    ensures FirstRecordError(digest, payload, inventory).None? <==>
      forall i :: 0 <= i < |inventory| ==> RecordMatches(digest, payload, inventory[i])
  {
    hide RecordMatches, Metadata, ValidPath;
    if inventory != [] {
      var rest := inventory[1..];
      FirstErrorExact(digest, payload, rest, e);
      assert forall i :: 1 <= i < |inventory| ==> rest[i - 1] == inventory[i];
      if i :| FirstAtFault(digest, payload, rest, i, e) {
        if RecordMatches(digest, payload, inventory[0]) { assert FirstAtFault(digest, payload, inventory, i + 1, e); }
      }
      if i :| FirstAtFault(digest, payload, inventory, i, e) {
        if i > 0 {
          assert RecordMatches(digest, payload, inventory[0]);
          assert FirstAtFault(digest, payload, rest, i - 1, e);
        }
      }
      if RecordError(digest, payload, inventory[0]) == Some(e) { assert FirstAtFault(digest, payload, inventory, 0, e); }
    }
  }

  /** The payload holds nothing at this path. */
  ghost predicate Absent(payload: Option<Node>, path: string) {
    payload.None? || Metadata(payload.value, Split(path, '/')).None?
  }

  ghost predicate FirstAtFault(digest: seq<byte> -> string, payload: Option<Node>, inventory: seq<InventoryRecord>, i: int, e: PackageError) {
    && 0 <= i < |inventory| && !RecordMatches(digest, payload, inventory[i])
    && (forall j :: 0 <= j < i ==> RecordMatches(digest, payload, inventory[j]))
    && e == if ValidPath(inventory[i].path) && Absent(payload, inventory[i].path) then Io else InvalidMetadata
  }

  /** A record matches exactly when its path is good and leads to a file of the recorded size and digest. */
  lemma RecordExact(digest: seq<byte> -> string, n: Node, r: InventoryRecord)
    requires TreeOk(n)
    ensures RecordMatches(digest, Some(n), r) <==>
      ValidPath(r.path) && exists content :: Holds(n, r.path, content) && |content| == r.size && digest(content) == r.sha256
  {
    hide TreeOk, Metadata, Route, ValidPath, Split;
    var found := Metadata(n, Split(r.path, '/'));
    if RecordMatches(digest, Some(n), r) {
      MetadataExact(n, Split(r.path, '/'), found.value);
      assert Holds(n, r.path, found.value.content);
    }
    if content :| Holds(n, r.path, content) && |content| == r.size && digest(content) == r.sha256 {
      MetadataExact(n, Split(r.path, '/'), File(content));
    }
  }

  ghost predicate Nowhere(n: Node, parts: seq<string>) { forall m, nodes :: !Route(n, parts, m, nodes) }

  /** Nothing is at a path exactly when it leads nowhere. */
  lemma AbsentExact(n: Node, path: string)
    requires TreeOk(n)
    ensures Absent(Some(n), path) <==> Nowhere(n, Split(path, '/'))
  {
    hide TreeOk, Route, Split;
    var parts := Split(path, '/');
    if Metadata(n, parts).Some? {
      MetadataExact(n, parts, Metadata(n, parts).value);
    } else {
      forall m, nodes ensures !Route(n, parts, m, nodes) { MetadataExact(n, parts, m); }
    }
  }

  /** Following the path leads to a regular file with these bytes. */
  ghost predicate Holds(n: Node, path: string, content: seq<byte>) {
    exists nodes :: Route(n, Split(path, '/'), File(content), nodes)
  }

  /** The total adds up: one record counts its size, and two inventories their totals. */
  lemma {:induction false} TotalExact(a: seq<InventoryRecord>, b: seq<InventoryRecord>)
    ensures TotalSize(a + b) == TotalSize(a) + TotalSize(b)
    ensures |a| == 1 ==> TotalSize(a) == a[0].size
  {
    if |a| == 1 { assert a[..0] == []; }
    if b == [] {
      assert a + b == a;
    } else {
      var front := b[..|b| - 1];
      assert (a + b)[..|a + b| - 1] == a + front;
      TotalExact(a, front);
    }
  }
}
