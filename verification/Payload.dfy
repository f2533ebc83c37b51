/** Inventory parsing, the materialized-payload check and the signed transcript of a package. */
module Payload {
  import opened Wrappers
  import opened Bytes
  import opened Text
  import opened OrderedKeys
  import opened PackageLimits

  datatype InventoryRecord = InventoryRecord(path: string, size: nat, sha256: string, executable: bool)

  // ----- package paths -----

  predicate PathByte(c: char) { IsAlphanumeric(c) || c in {'/', '.', '_', '-'} }

  /** `PackagePath::parse`: relative, ASCII from a small alphabet, no empty, `.` or `..` component. */
  predicate ValidPath(path: string) {
    && path != [] && |path| <= 512
    && (forall i :: 0 <= i < |path| ==> PathByte(path[i]))
    && forall i :: 0 <= i < |Split(path, '/')| ==> Split(path, '/')[i] !in {"", ".", ".."}
  }

  function Upper(c: char): char { if IsLower(c) then (c as int - 32) as char else c }

  predicate DeviceStem(stem: string) {
    var up := seq(|stem|, i requires 0 <= i < |stem| => Upper(stem[i]));
    || up in {"CON", "PRN", "AUX", "NUL"}
    || (|up| == 4 && (up[..3] == "COM" || up[..3] == "LPT") && '1' <= up[3] <= '9')
  }

  predicate Reserved(path: string) {
    exists i :: 0 <= i < |Split(path, '/')| && DeviceStem(Split(Split(path, '/')[i], '.')[0])
  }

  predicate IsDigest(s: string) {
    |s| == 64 && forall i :: 0 <= i < |s| ==> IsDigit(s[i]) || 'a' <= s[i] <= 'f'
  }

  // ----- the inventory -----

  function TotalSize(records: seq<InventoryRecord>): nat {
    if records == [] then 0 else TotalSize(records[..|records| - 1]) + records[|records| - 1].size
  }

  ghost predicate RecordShaped(r: InventoryRecord) {
    ValidPath(r.path) && !Reserved(r.path) && IsDigest(r.sha256) && r.size <= MAX_PAYLOAD_FILE_BYTES
  }

  /** Ascending paths, distinct even without regard to case, bounded sizes. */
  ghost predicate InventoryOk(records: seq<InventoryRecord>) {
    && (forall i :: 0 <= i < |records| ==> RecordShaped(records[i]))
    && (forall i, j :: 0 <= i < j < |records| ==> LexLess(records[i].path, records[j].path))
    && (forall i, j :: 0 <= i < j < |records| ==> Lower(records[i].path) != Lower(records[j].path))
    && TotalSize(records) <= MAX_TOTAL_PAYLOAD_BYTES
  }

  ghost predicate BadName(records: seq<InventoryRecord>, i: nat)
    requires i < |records|
  {
    || !ValidPath(records[i].path) || Reserved(records[i].path) || !IsDigest(records[i].sha256)
    || exists j :: 0 <= j < i && (!LexLess(records[j].path, records[i].path)
                                  || Lower(records[j].path) == Lower(records[i].path))
  }

  /** Record `i` is the first that makes the inventory bad; a size is blamed only when the name is good. */
  ghost predicate RefusedAt(records: seq<InventoryRecord>, i: nat, e: PackageError) {
    && i < |records| && InventoryOk(records[..i]) && !InventoryOk(records[..i + 1])
    && e == if BadName(records, i) then InvalidMetadata
            else Limit(if records[i].size > MAX_PAYLOAD_FILE_BYTES then PayloadFileBytes else PayloadTotal)
  }

  /** Comparing each path with its predecessor only, one growing set of folded paths and a running total decide it. */
  method ParseInventory(records: seq<InventoryRecord>) returns (r: Result<(), PackageError>)
    ensures r.Ok? <==> |records| <= MAX_PAYLOAD_FILES && InventoryOk(records)
    ensures r.Err? ==>
      if |records| > MAX_PAYLOAD_FILES then r.error == Limit(PayloadFiles) else exists i :: RefusedAt(records, i, r.error)
  {
    hide ValidPath, Reserved, IsDigest, LexLess;
    if |records| > MAX_PAYLOAD_FILES { return Err(Limit(PayloadFiles)); }
    var folded: set<string> := {};
    var total := 0;
    for i := 0 to |records|
      invariant folded == set j | 0 <= j < i :: Lower(records[j].path)
      invariant total == TotalSize(records[..i])
      invariant InventoryOk(records[..i])
    {
      var value := records[i];
      var front := records[..i + 1];
      assert front[..i] == records[..i] && front[i] == value;
      if !ValidPath(value.path) || Reserved(value.path) || !IsDigest(value.sha256) {
        assert !RecordShaped(front[i]);
        assert RefusedAt(records, i, InvalidMetadata);
        BadPrefix(records, i + 1);
        return Err(InvalidMetadata);
      }
      if i > 0 && !LexLess(records[i - 1].path, value.path) {
        assert !LexLess(front[i - 1].path, front[i].path);
        assert RefusedAt(records, i, InvalidMetadata);
        BadPrefix(records, i + 1);
        return Err(InvalidMetadata);
      }
      if Lower(value.path) in folded {
        var j :| 0 <= j < i && Lower(records[j].path) == Lower(value.path);
        assert Lower(front[j].path) == Lower(front[i].path);
        assert RefusedAt(records, i, InvalidMetadata);
        BadPrefix(records, i + 1);
        return Err(InvalidMetadata);
      }
      folded := folded + {Lower(value.path)};
      AboveAll(records, i);
      if value.size > MAX_PAYLOAD_FILE_BYTES {
        assert !RecordShaped(front[i]);
        assert RefusedAt(records, i, Limit(PayloadFileBytes));
        BadPrefix(records, i + 1);
        return Err(Limit(PayloadFileBytes));
      }
      total := total + value.size;
      if total > MAX_TOTAL_PAYLOAD_BYTES {
        assert RefusedAt(records, i, Limit(PayloadTotal));
        BadPrefix(records, i + 1);
        return Err(Limit(PayloadTotal));
      }
      Extends(records, i);
    }
    assert records[..|records|] == records;
    return Ok(());
  }

  lemma {:induction false} TotalGrows(records: seq<InventoryRecord>, n: nat)
    requires n <= |records|
    ensures TotalSize(records[..n]) <= TotalSize(records)
  {
    if n < |records| {
      TotalGrows(records[..|records| - 1], n);
      assert records[..|records| - 1][..n] == records[..n];
    } else {
      assert records[..n] == records;
    }
  }

  lemma BadPrefix(records: seq<InventoryRecord>, n: nat)
    requires n <= |records|
    ensures InventoryOk(records) ==> InventoryOk(records[..n])
  {
    hide RecordShaped, LexLess, TotalSize;
    TotalGrows(records, n);
  }

  /** A path above its predecessor is above every earlier path. */
  lemma AboveAll(records: seq<InventoryRecord>, i: nat)
    requires i < |records| && InventoryOk(records[..i])
    requires i > 0 ==> LexLess(records[i - 1].path, records[i].path)
    ensures forall j :: 0 <= j < i ==> LexLess(records[j].path, records[i].path)
  {
    hide RecordShaped, LexLess, TotalSize;
    var front := records[..i];
    forall j | 0 <= j < i ensures LexLess(records[j].path, records[i].path) {
      if j < i - 1 {
        assert LexLess(front[j].path, front[i - 1].path);
        LexTransitive(records[j].path, records[i - 1].path, records[i].path);
      }
    }
  }

  lemma Extends(records: seq<InventoryRecord>, i: nat)
    requires i < |records| && InventoryOk(records[..i]) && RecordShaped(records[i])
    requires i > 0 ==> LexLess(records[i - 1].path, records[i].path)
    requires forall j :: 0 <= j < i ==> Lower(records[j].path) != Lower(records[i].path)
    requires TotalSize(records[..i + 1]) <= MAX_TOTAL_PAYLOAD_BYTES
    ensures InventoryOk(records[..i + 1])
  {
    hide ValidPath, Reserved, IsDigest, LexLess, TotalSize;
    var front, back := records[..i], records[..i + 1];
    assert forall j :: 0 <= j < i ==> front[j] == back[j];
    AboveAll(records, i);
  }

  // ----- the directory tree -----

  /** A file-system object; a symbolic link carries what it resolves to, if anything. */
  datatype Node = File(content: seq<byte>) | Dir(entries: seq<Entry>) | Symlink(target: Option<Node>) | Special

  /** One directory entry, in the order the directory is read. */
  datatype Entry = Entry(name: string, node: Node)

  /** What a file system guarantees: names in a directory are distinct, non-empty and contain no separator. */
  ghost predicate NamesOk(entries: seq<Entry>) {
    && (forall i :: 0 <= i < |entries| ==> entries[i].name != [] && '/' !in entries[i].name)
    && (forall i, j :: 0 <= i < j < |entries| ==> entries[i].name != entries[j].name)
  }

  ghost predicate TreeOk(n: Node) {
    match n
    case Dir(entries) => NamesOk(entries) && forall i :: 0 <= i < |entries| ==> TreeOk(entries[i].node)
    case Symlink(target) => target.Some? ==> TreeOk(target.value)
    case _ => true
  }

  ghost predicate EntriesOk(entries: seq<Entry>) {
    NamesOk(entries) && forall i :: 0 <= i < |entries| ==> TreeOk(entries[i].node)
  }

  /** No symbolic link, no special file, and every name is text. */
  ghost predicate Plain(entries: seq<Entry>) {
    forall i :: 0 <= i < |entries| ==>
      IsUtf8(entries[i].name) && match entries[i].node
                                 case File(_) => true
                                 case Dir(inner) => Plain(inner)
                                 case _ => false
  }

  function Resolve(n: Node): Option<Node> {
    match n
    case Symlink(target) => if target.Some? then Resolve(target.value) else None
    case _ => Some(n)
  }

  function Child(entries: seq<Entry>, name: string): (r: Option<Node>)
    ensures r.Some? ==> exists i :: 0 <= i < |entries| && entries[i] == Entry(name, r.value)
    ensures r.None? ==> forall i :: 0 <= i < |entries| ==> entries[i].name != name
  {
    if entries == [] then None
    else if entries[0].name == name then Some(entries[0].node)
    else
      var rest := Child(entries[1..], name);
      assert rest.Some? ==> forall i :: 0 <= i < |entries| - 1 ==> entries[1..][i] == entries[i + 1];
      assert rest.None? ==> forall i :: 1 <= i < |entries| ==> entries[1..][i - 1] == entries[i];
      rest
  }

  /** `symlink_metadata` along a path: links are followed on the way but not at the last component. */
  function Metadata(n: Node, parts: seq<string>): Option<Node>
    decreases |parts|
  {
    if parts == [] then Some(n)
    else
      var dir := Resolve(n);
      if dir.Some? && dir.value.Dir? && Child(dir.value.entries, parts[0]).Some?
      then Metadata(Child(dir.value.entries, parts[0]).value, parts[1..])
      else None
  }

  /** The regular file at a path reached through directories only. */
  function FileAt(entries: seq<Entry>, parts: seq<string>): Option<seq<byte>>
    decreases |parts|
  {
    if parts == [] then None
    else
      match Child(entries, parts[0])
      case None => None
      case Some(File(content)) => if |parts| == 1 then Some(content) else None
      case Some(Dir(inner)) => FileAt(inner, parts[1..])
      case Some(_) => None
  }

  // ----- the check -----

  /** First pass, one record: the named object is a regular file of the recorded size and digest. */
  predicate RecordMatches(digest: seq<byte> -> string, payload: Option<Node>, r: InventoryRecord) {
    && ValidPath(r.path)
    && payload.Some?
    && var found := Metadata(payload.value, Split(r.path, '/'));
       found.Some? && found.value.File? && |found.value.content| == r.size && digest(found.value.content) == r.sha256
  }

  /** How a record is refused: an object that is not there is an I/O error, anything else bad metadata. */
  function RecordError(digest: seq<byte> -> string, payload: Option<Node>, r: InventoryRecord): Option<PackageError> {
    if RecordMatches(digest, payload, r) then None
    else if ValidPath(r.path) && (payload.None? || Metadata(payload.value, Split(r.path, '/')).None?) then Some(Io)
    else Some(InvalidMetadata)
  }

  function FirstRecordError(digest: seq<byte> -> string, payload: Option<Node>, inventory: seq<InventoryRecord>)
    : Option<PackageError>
  {
    if inventory == [] then None
    else if RecordError(digest, payload, inventory[0]).Some? then RecordError(digest, payload, inventory[0])
    else FirstRecordError(digest, payload, inventory[1..])
  }

  function Paths(inventory: seq<InventoryRecord>): set<string> { set i | 0 <= i < |inventory| :: inventory[i].path }

  function JoinPath(prefix: string, name: string): string { if prefix == [] then name else prefix + "/" + name }

  /** Second pass: removes every file met from `expected`; `None` is a rejection. */
  function WalkTree(entries: seq<Entry>, prefix: string, expected: set<string>): Option<set<string>>
    decreases entries
  {
    if entries == [] then Some(expected)
    else
      var e := entries[0];
      var path := JoinPath(prefix, e.name);
      if !IsUtf8(e.name) then None
      else
        var after := match e.node
          case Symlink(_) => None
          case Dir(inner) => WalkTree(inner, path, expected)
          case File(_) => if path in expected then Some(expected - {path}) else None
          case Special => None;
        if after.None? then None else WalkTree(entries[1..], prefix, after.value)
  }

  function Verify(digest: seq<byte> -> string, payload: Option<Node>, inventory: seq<InventoryRecord>): bool {
    && (forall i :: 0 <= i < |inventory| ==> RecordMatches(digest, payload, inventory[i]))
    && var root := if payload.Some? then Resolve(payload.value) else None;
       if root.None? then inventory == []
       else root.value.Dir? && WalkTree(root.value.entries, "", Paths(inventory)) == Some({})
  }

  // ----- files as component lists -----

  ghost function Files(entries: seq<Entry>): set<seq<string>>
    decreases entries
  {
    if entries == [] then {}
    else
      var e := entries[0];
      (match e.node
       case File(_) => {[e.name]}
       case Dir(inner) => set r | r in Files(inner) :: [e.name] + r
       case _ => {})
      + Files(entries[1..])
  }

  ghost predicate Slashless(parts: seq<string>) { forall i :: 0 <= i < |parts| ==> '/' !in parts[i] }

  lemma TailOk(entries: seq<Entry>)
    requires EntriesOk(entries) && entries != []
    ensures EntriesOk(entries[1..])
    ensures forall i :: 0 <= i < |entries[1..]| ==> entries[1..][i].name != entries[0].name
  {
    assert forall i :: 0 <= i < |entries[1..]| ==> entries[1..][i] == entries[i + 1];
  }

  lemma {:induction false} FilesNamed(entries: seq<Entry>, r: seq<string>)
    requires EntriesOk(entries) && r in Files(entries)
    ensures r != [] && Slashless(r)
    ensures exists i :: 0 <= i < |entries| && entries[i].name == r[0]
    decreases entries
  {
    var e := entries[0];
    TailOk(entries);
    if r in Files(entries[1..]) {
      FilesNamed(entries[1..], r);
      var i :| 0 <= i < |entries[1..]| && entries[1..][i].name == r[0];
      assert entries[i + 1].name == r[0];
    } else {
      assert entries[0].name == r[0];
      if e.node.Dir? {
        var rest :| rest in Files(e.node.entries) && r == [e.name] + rest;
        assert TreeOk(e.node);
        FilesNamed(e.node.entries, rest);
        assert forall i :: 1 <= i < |r| ==> r[i] == rest[i - 1];
      }
    }
  }

  lemma {:induction false} ChildTail(entries: seq<Entry>, name: string)
    requires entries != [] && entries[0].name != name
    ensures Child(entries, name) == Child(entries[1..], name)
  {
  }

  /** The component lists collected are exactly those at which a regular file lies. */
  lemma {:induction false} FilesExact(entries: seq<Entry>, r: seq<string>)
    requires EntriesOk(entries)
    ensures r in Files(entries) <==> FileAt(entries, r).Some?
    decreases entries
  {
    if entries != [] {
      var e, rest := entries[0], entries[1..];
      TailOk(entries);
      FilesExact(rest, r);
      if r in Files(rest) { FilesNamed(rest, r); }
      if r != [] {
        if e.name == r[0] {
          assert FileAt(rest, r).None?;
          assert r == [e.name] + r[1..];
          if e.node.Dir? {
            assert TreeOk(e.node);
            FilesExact(e.node.entries, r[1..]);
            assert r in Files(entries) <==> r[1..] in Files(e.node.entries) by {
              if r in Files(entries) {
                var q :| q in Files(e.node.entries) && r == [e.name] + q;
                assert r[1..] == q;
              }
            }
          } else if e.node.File? {
            assert r == [e.name] <==> |r| == 1;
          }
        } else {
          ChildTail(entries, r[0]);
        }
      } else if e.node.Dir? {
        assert forall q :: q in Files(e.node.entries) ==> [e.name] + q != [];
      }
    } else if r != [] {
      assert Child(entries, r[0]).None?;
    }
  }

  // ----- the walk is a set difference -----

  ghost predicate PrefixOk(pre: seq<string>) { Slashless(pre) && forall i :: 0 <= i < |pre| ==> pre[i] != [] }

  lemma {:induction false} JoinSnoc(pre: seq<string>, name: string)
    requires PrefixOk(pre) && name != []
    ensures JoinPath(Join(pre, '/'), name) == Join(pre + [name], '/')
    ensures pre != [] ==> Join(pre, '/') != []
  {
    if |pre| == 1 {
      assert (pre + [name])[1..] == [name];
    } else if |pre| > 1 {
      assert PrefixOk(pre[1..]);
      JoinSnoc(pre[1..], name);
      assert (pre + [name])[1..] == pre[1..] + [name];
    }
  }

  lemma JoinInjective(a: seq<string>, b: seq<string>)
    requires a != [] && b != [] && Slashless(a) && Slashless(b) && Join(a, '/') == Join(b, '/')
    ensures a == b
  {
    SplitJoin(a, '/');
    SplitJoin(b, '/');
  }

  /** The path texts of all regular files below `pre`. */
  ghost function FilePaths(entries: seq<Entry>, pre: seq<string>): set<string> {
    set r | r in Files(entries) :: Join(pre + r, '/')
  }

  ghost function HeadPaths(e: Entry, pre: seq<string>): set<string> {
    match e.node
    case File(_) => {Join(pre + [e.name], '/')}
    case Dir(inner) => FilePaths(inner, pre + [e.name])
    case _ => {}
  }

  lemma HeadFiles(e: Entry, pre: seq<string>)
    ensures HeadPaths(e, pre) == set r | r in Files([e]) :: Join(pre + r, '/')
  {
    assert [e][1..] == [];
    if e.node.Dir? {
      var inner := e.node.entries;
      assert Files([e]) == set r | r in Files(inner) :: [e.name] + r;
      forall q | q in Files(inner) ensures pre + ([e.name] + q) == pre + [e.name] + q {}
      forall p | p in HeadPaths(e, pre) ensures p in set r | r in Files([e]) :: Join(pre + r, '/') {
        var q :| q in Files(inner) && p == Join(pre + [e.name] + q, '/');
        assert [e.name] + q in Files([e]);
        assert pre + ([e.name] + q) == pre + [e.name] + q;
      }
    } else if e.node.File? {
      assert Files([e]) == {[e.name]};
    }
  }

  lemma FilesSplit(entries: seq<Entry>)
    requires entries != []
    ensures Files(entries) == Files([entries[0]]) + Files(entries[1..])
  {
    assert [entries[0]][1..] == [];
  }

  lemma PathsSplit(entries: seq<Entry>, pre: seq<string>)
    requires entries != []
    ensures FilePaths(entries, pre) == HeadPaths(entries[0], pre) + FilePaths(entries[1..], pre)
  {
    hide Files;
    HeadFiles(entries[0], pre);
    FilesSplit(entries);
  }

  /** Different entries of one directory contribute different paths. */
  lemma PathsDisjoint(entries: seq<Entry>, pre: seq<string>)
    requires EntriesOk(entries) && entries != [] && PrefixOk(pre)
    ensures HeadPaths(entries[0], pre) * FilePaths(entries[1..], pre) == {}
  {
    hide Files;
    var e, rest := entries[0], entries[1..];
    TailOk(entries);
    HeadFiles(e, pre);
    assert EntriesOk([e]);
    forall p | p in HeadPaths(e, pre) && p in FilePaths(rest, pre) ensures false {
      var a :| a in Files([e]) && p == Join(pre + a, '/');
      var b :| b in Files(rest) && p == Join(pre + b, '/');
      FilesNamed([e], a);
      FilesNamed(rest, b);
      DifferentFirst(pre, a, b);
    }
  }

  lemma DifferentFirst(pre: seq<string>, a: seq<string>, b: seq<string>)
    requires Slashless(pre + a) && Slashless(pre + b) && a != [] && b != [] && a[0] != b[0]
    ensures Join(pre + a, '/') != Join(pre + b, '/')
  {
    assert (pre + a)[|pre|] == a[0] && (pre + b)[|pre|] == b[0];
    if Join(pre + a, '/') == Join(pre + b, '/') { JoinInjective(pre + a, pre + b); }
  }

  lemma PlainSplit(entries: seq<Entry>)
    requires entries != []
    ensures Plain(entries) <==> Plain([entries[0]]) && Plain(entries[1..])
  {
    assert forall i :: 0 <= i < |entries| - 1 ==> entries[1..][i] == entries[i + 1];
    if Plain([entries[0]]) { assert [entries[0]][0] == entries[0]; }
  }

  lemma SetStep(head: set<string>, rest: set<string>, expected: set<string>)
    requires head * rest == {}
    ensures head + rest <= expected <==> head <= expected && rest <= expected - head
    ensures expected - head - rest == expected - (head + rest)
  {
    if head + rest <= expected {
      forall p | p in rest ensures p in expected - head { assert p !in head * rest; }
    }
  }

  ghost function WalkResult(ok: bool, left: set<string>): Option<set<string>> { if ok then Some(left) else None }

  /** The walk accepts a plain tree all of whose files are expected, and leaves exactly the others. */
  lemma {:induction false} WalkExact(entries: seq<Entry>, pre: seq<string>, expected: set<string>)
    requires EntriesOk(entries) && PrefixOk(pre)
    ensures WalkTree(entries, Join(pre, '/'), expected)
         == WalkResult(Plain(entries) && FilePaths(entries, pre) <= expected, expected - FilePaths(entries, pre))
    decreases entries
  {
    hide FilePaths, Files, Join, JoinPath, IsUtf8, Plain, TreeOk;
    if entries == [] {
      assert FilePaths(entries, pre) == {} && Plain(entries) by { EmptyDirectory(pre); }
      assert expected - {} == expected;
    } else {
      var e, rest, prefix := entries[0], entries[1..], Join(pre, '/');
      TailOk(entries);
      PathsSplit(entries, pre);
      PathsDisjoint(entries, pre);
      PlainSplit(entries);
      var path, head := JoinPath(prefix, e.name), HeadPaths(e, pre);
      JoinSnoc(pre, e.name);
      SetStep(head, FilePaths(rest, pre), expected);
      PlainOne(e);
      match e.node {
        case Dir(inner) =>
          DirOk(e.node);
          assert PrefixOk(pre + [e.name]);
          WalkExact(inner, pre + [e.name], expected);
        case _ =>
      }
      WalkExact(rest, pre, expected - head);
    }
  }

  lemma EmptyDirectory(pre: seq<string>)
    ensures FilePaths([], pre) == {} && Plain([])
  {
  }

  lemma PlainOne(e: Entry)
    ensures Plain([e]) <==> IsUtf8(e.name) && (e.node.File? || (e.node.Dir? && Plain(e.node.entries)))
  {
    var one := [e];
    if Plain(one) { assert one[0] == e; }
  }

  lemma DirOk(n: Node)
    requires n.Dir? && TreeOk(n)
    ensures EntriesOk(n.entries)
  {
  }

  // ----- the whole check is a set comparison -----

  /** Every text is the path of a regular file exactly if the inventory lists it. */
  ghost predicate SameFiles(entries: seq<Entry>, inventory: seq<InventoryRecord>) {
    forall path: string :: FileAt(entries, Split(path, '/')).Some? <==> exists r :: r in inventory && r.path == path
  }

  ghost predicate ContentMatches(digest: seq<byte> -> string, entries: seq<Entry>, r: InventoryRecord) {
    var content := FileAt(entries, Split(r.path, '/'));
    content.Some? && |content.value| == r.size && digest(content.value) == r.sha256
  }

  ghost predicate Matches(digest: seq<byte> -> string, entries: seq<Entry>, inventory: seq<InventoryRecord>) {
    && Plain(entries)
    && SameFiles(entries, inventory)
    && forall i :: 0 <= i < |inventory| ==> ValidPath(inventory[i].path) && ContentMatches(digest, entries, inventory[i])
  }

  lemma FilePathsExact(entries: seq<Entry>, path: string)
    requires EntriesOk(entries)
    ensures path in FilePaths(entries, []) <==> FileAt(entries, Split(path, '/')).Some?
  {
    hide Files, FileAt;
    var parts := Split(path, '/');
    JoinSplit(path, '/');
    FilesExact(entries, parts);
    if path in FilePaths(entries, []) {
      var r :| r in Files(entries) && path == Join([] + r, '/');
      assert [] + r == r;
      FilesNamed(entries, r);
      SplitJoin(r, '/');
    }
    if parts in Files(entries) { assert [] + parts == parts; }
  }

  /** On a plain tree, following links on the way makes no difference. */
  lemma {:induction false} MetadataPlain(entries: seq<Entry>, parts: seq<string>)
    requires Plain(entries) && parts != []
    ensures var found := Metadata(Dir(entries), parts);
            (if found.Some? && found.value.File? then Some(found.value.content) else None) == FileAt(entries, parts)
    decreases |parts|
  {
    var child := Child(entries, parts[0]);
    if child.Some? {
      var i :| 0 <= i < |entries| && entries[i] == Entry(parts[0], child.value);
      if child.value.Dir? {
        if |parts| > 1 { MetadataPlain(child.value.entries, parts[1..]); }
      } else if |parts| > 1 {
        assert parts[1..] != [];
      }
    }
  }

  lemma MetadataResolves(n: Node, parts: seq<string>)
    requires parts != [] && Resolve(n).Some?
    ensures Metadata(n, parts) == Metadata(Resolve(n).value, parts)
  {
    ResolveTwice(n);
  }

  lemma {:induction false} ResolveTwice(n: Node)
    requires Resolve(n).Some?
    ensures Resolve(Resolve(n).value) == Resolve(n)
    decreases n
  {
    if n.Symlink? { ResolveTwice(n.target.value); }
  }

  lemma {:induction false} ResolveOk(n: Node)
    requires TreeOk(n) && Resolve(n).Some?
    ensures TreeOk(Resolve(n).value)
    decreases n
  {
    if n.Symlink? { ResolveOk(n.target.value); }
  }

  lemma RecordMatchesPlain(digest: seq<byte> -> string, payload: Node, entries: seq<Entry>, r: InventoryRecord)
    requires Resolve(payload) == Some(Dir(entries)) && Plain(entries)
    ensures RecordMatches(digest, Some(payload), r) <==> ValidPath(r.path) && ContentMatches(digest, entries, r)
  {
    hide Metadata, FileAt, ValidPath;
    var parts := Split(r.path, '/');
    MetadataResolves(payload, parts);
    MetadataPlain(entries, parts);
  }

  lemma SameFilesExact(entries: seq<Entry>, inventory: seq<InventoryRecord>)
    requires EntriesOk(entries)
    ensures SameFiles(entries, inventory) <==> FilePaths(entries, []) == Paths(inventory)
  {
    hide FilePaths, FileAt, Paths, Split;
    forall path: string ensures path in FilePaths(entries, []) <==> FileAt(entries, Split(path, '/')).Some? {
      FilePathsExact(entries, path);
    }
    forall path: string ensures path in Paths(inventory) <==> exists r :: r in inventory && r.path == path {
      PathListed(inventory, path);
    }
  }

  lemma PathListed(inventory: seq<InventoryRecord>, path: string)
    ensures path in Paths(inventory) <==> exists r :: r in inventory && r.path == path
  {
    if path in Paths(inventory) {
      var i :| 0 <= i < |inventory| && inventory[i].path == path;
      assert inventory[i] in inventory;
    }
  }

  /**
   The two passes together accept exactly when the payload directory is plain (no link, no
   special file, every name text), its regular files are exactly the inventory's paths,
   and sizes and digests agree. A missing payload directory matches only an empty inventory.
   */
  lemma VerifyExact(digest: seq<byte> -> string, payload: Option<Node>, inventory: seq<InventoryRecord>)
    requires payload.Some? ==> TreeOk(payload.value)
    ensures Verify(digest, payload, inventory) <==>
      if payload.None? || Resolve(payload.value).None? then inventory == []
      else Resolve(payload.value).value.Dir? && Matches(digest, Resolve(payload.value).value.entries, inventory)
  {
    hide RecordMatches, WalkTree, Plain, SameFiles, ContentMatches, ValidPath, Paths;
    if payload.None? {
      if inventory != [] { assert !RecordMatches(digest, payload, inventory[0]) by { NothingMatches(digest, inventory[0]); } }
    } else if Resolve(payload.value).Some? && Resolve(payload.value).value.Dir? {
      var entries := Resolve(payload.value).value.entries;
      ResolveOk(payload.value);
      DirOk(Resolve(payload.value).value);
      WalkExact(entries, [], Paths(inventory));
      SameFilesExact(entries, inventory);
      var files, listed := FilePaths(entries, []), Paths(inventory);
      assert files <= listed && listed - files == {} <==> files == listed by { NoneLeft(files, listed); }
      if Plain(entries) {
        forall i | 0 <= i < |inventory|
          ensures RecordMatches(digest, payload, inventory[i]) <==>
                  ValidPath(inventory[i].path) && ContentMatches(digest, entries, inventory[i])
        {
          RecordMatchesPlain(digest, payload.value, entries, inventory[i]);
        }
      }
    }
  }

  lemma NoneLeft(files: set<string>, listed: set<string>)
    ensures files <= listed && listed - files == {} <==> files == listed
  {
    if files <= listed && listed - files == {} {
      forall p | p in listed ensures p in files { assert p !in listed - files; }
    }
  }

  lemma NothingMatches(digest: seq<byte> -> string, r: InventoryRecord)
    ensures !RecordMatches(digest, None, r)
  {
  }

  // ----- the check as it runs -----

  method Walk(entries: seq<Entry>, prefix: string, expected: set<string>) returns (r: Option<set<string>>)
    ensures r == WalkTree(entries, prefix, expected)
    decreases entries
  {
    hide IsUtf8, JoinPath;
    var left := expected;
    for i := 0 to |entries|
      invariant WalkTree(entries, prefix, expected) == WalkTree(entries[i..], prefix, left)
    {
      var e := entries[i];
      assert entries[i..][1..] == entries[i + 1..];
      if !IsUtf8(e.name) { return None; }
      var path := JoinPath(prefix, e.name);
      match e.node {
        case Symlink(_) => return None;
        case Special => return None;
        case Dir(inner) =>
          var below := Walk(inner, path, left);
          if below.None? { return None; }
          left := below.value;
        case File(_) =>
          if path !in left { return None; }
          left := left - {path};
      }
    }
    return Some(left);
  }

  lemma FirstRecordStep(digest: seq<byte> -> string, payload: Option<Node>, inventory: seq<InventoryRecord>, i: nat)
    requires i <= |inventory|
    ensures FirstRecordError(digest, payload, inventory[i..]) ==
            if i == |inventory| then None
            else if RecordError(digest, payload, inventory[i]).Some? then RecordError(digest, payload, inventory[i])
            else FirstRecordError(digest, payload, inventory[i + 1..])
  {
    hide RecordError;
    if i < |inventory| { assert inventory[i..][1..] == inventory[i + 1..]; }
  }

  /** Nothing is found below a root that does not exist. */
  lemma MatchesNeedRoot(digest: seq<byte> -> string, payload: Option<Node>, inventory: seq<InventoryRecord>)
    requires forall i :: 0 <= i < |inventory| ==> RecordMatches(digest, payload, inventory[i])
    ensures inventory == [] || (payload.Some? && Resolve(payload.value).Some?)
  {
    hide ValidPath;
    if inventory != [] { assert RecordMatches(digest, payload, inventory[0]); }
  }

  lemma MatchesFound(digest: seq<byte> -> string, payload: Option<Node>, r: InventoryRecord)
    ensures RecordMatches(digest, payload, r) ==>
      ValidPath(r.path) && payload.Some? && Metadata(payload.value, Split(r.path, '/')).Some?
  {
    hide ValidPath, Metadata;
  }

  method VerifyMaterializedPayload(digest: seq<byte> -> string, payload: Option<Node>, inventory: seq<InventoryRecord>)
    returns (r: Result<(), PackageError>)
    requires payload.Some? ==> TreeOk(payload.value)
    ensures r.Ok? <==>
      if payload.None? || Resolve(payload.value).None? then inventory == []
      else Resolve(payload.value).value.Dir? && Matches(digest, Resolve(payload.value).value.entries, inventory)
    ensures match FirstRecordError(digest, payload, inventory)
            case Some(e) => r == Err(e)
            case None =>
              r.Err? ==> && payload.Some? && Resolve(payload.value).Some?
                         && r.error == if Resolve(payload.value).value.Dir? then InvalidMetadata else Io
  {
    hide RecordMatches, WalkTree, Matches, TreeOk, Metadata, ValidPath, FirstRecordError;
    VerifyExact(digest, payload, inventory);
    var expected: set<string> := {};
    assert inventory[0..] == inventory;
    for i := 0 to |inventory|
      invariant expected == set j | 0 <= j < i :: inventory[j].path
      invariant forall j :: 0 <= j < i ==> RecordMatches(digest, payload, inventory[j])
      invariant FirstRecordError(digest, payload, inventory) == FirstRecordError(digest, payload, inventory[i..])
    {
      FirstRecordStep(digest, payload, inventory, i);
      if !ValidPath(inventory[i].path) {
        assert !RecordMatches(digest, payload, inventory[i]) by { MatchesFound(digest, payload, inventory[i]); }
        return Err(InvalidMetadata);
      }
      if payload.None? || Metadata(payload.value, Split(inventory[i].path, '/')).None? {
        assert !RecordMatches(digest, payload, inventory[i]) by { MatchesFound(digest, payload, inventory[i]); }
        return Err(Io);
      }
      if !RecordMatches(digest, payload, inventory[i]) { return Err(InvalidMetadata); }
      expected := expected + {inventory[i].path};
    }
    FirstRecordStep(digest, payload, inventory, |inventory|);
    MatchesNeedRoot(digest, payload, inventory);
    assert expected == Paths(inventory);
    var root := if payload.Some? then Resolve(payload.value) else None;
    if root.None? { return if expected == {} then Ok(()) else Err(InvalidMetadata); }
    if !root.value.Dir? { return Err(Io); }
    var left := Walk(root.value.entries, "", expected);
    if left != Some({}) { return Err(InvalidMetadata); }
    return Ok(());
  }

  // ----- the signed transcript -----

  const SIGNATURE_PREFIX: seq<byte> :=
    [0x49, 0x32, 0x50, 0x52, 0x2d, 0x41, 0x50, 0x50, 0x2d, 0x50, 0x41, 0x43, 0x4b, 0x41, 0x47, 0x45, 0x2d, 0x56, 0x31, 0x00]

  const U32_MAX: nat := 0xffff_ffff

  function Transcript(manifest: seq<byte>, inventory: seq<byte>, key: seq<byte>): Result<seq<byte>, PackageError> {
    if |manifest| > U32_MAX then Err(Limit(ManifestBytes))
    else if |inventory| > U32_MAX then Err(Limit(InventoryBytes))
    else Ok(SIGNATURE_PREFIX + ToBe(|manifest|, 4) + manifest + ToBe(|inventory|, 4) + inventory + key)
  }

  lemma SplitEqual(x: seq<byte>, y: seq<byte>, x': seq<byte>, y': seq<byte>)
    requires x + y == x' + y' && |x| == |x'|
    ensures x == x' && y == y'
  {
    assert x == (x + y)[..|x|] && x' == (x' + y')[..|x'|];
    assert y == (x + y)[|x|..] && y' == (x' + y')[|x'|..];
  }

  lemma LengthReadBack(a: nat, b: nat)
    requires a <= U32_MAX && b <= U32_MAX && ToBe(a, 4) == ToBe(b, 4)
    ensures a == b
  {
    Widths();
    FromToBe(a, 4);
    FromToBe(b, 4);
  }

  lemma SameLength(a: seq<byte>, b: seq<byte>, rest: seq<byte>, rest': seq<byte>)
    requires |a| <= U32_MAX && |b| <= U32_MAX
    requires ToBe(|a|, 4) + (a + rest) == ToBe(|b|, 4) + (b + rest')
    ensures a == b && rest == rest'
  {
    hide ToBe;
    SplitEqual(ToBe(|a|, 4), a + rest, ToBe(|b|, 4), b + rest');
    LengthReadBack(|a|, |b|);
    SplitEqual(a, rest, b, rest');
  }

  /** One signature binds one manifest, one inventory and one key: equal transcripts have equal parts. */
  lemma TranscriptInjective(m: seq<byte>, i: seq<byte>, k: seq<byte>, m': seq<byte>, i': seq<byte>, k': seq<byte>)
    requires Transcript(m, i, k).Ok? && Transcript(m, i, k) == Transcript(m', i', k')
    ensures m == m' && i == i' && k == k'
  {
    hide ToBe;
    TranscriptNested(m, i, k);
    TranscriptNested(m', i', k');
    var a, b := ToBe(|i|, 4) + (i + k), ToBe(|i'|, 4) + (i' + k');
    SplitEqual(SIGNATURE_PREFIX, ToBe(|m|, 4) + (m + a), SIGNATURE_PREFIX, ToBe(|m'|, 4) + (m' + b));
    SameLength(m, m', a, b);
    SameLength(i, i', k, k');
  }

  lemma TranscriptNested(m: seq<byte>, i: seq<byte>, k: seq<byte>)
    requires Transcript(m, i, k).Ok?
    ensures Transcript(m, i, k).value == SIGNATURE_PREFIX + (ToBe(|m|, 4) + (m + (ToBe(|i|, 4) + (i + k))))
  {
    hide ToBe;
    Regroup(SIGNATURE_PREFIX, ToBe(|m|, 4), m, ToBe(|i|, 4), i, k);
  }
}
