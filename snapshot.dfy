/**
 Snapshot construction (`initiateFileStatus`, `readEADFiles`,
 `collectMetaData`) over a directory tree given as data rather than read from
 a filesystem.
 */
module SnapshotBuilder {
  import opened Records

  /** What the filesystem reports for one regular file. */
  datatype FileEntry = FileEntry(name: string, absolutePath: string, lastModified: int, length: int)

  /** A directory tree; a directory's entries are in the order the filesystem lists them. */
  datatype FsNode = File(file: FileEntry) | Dir(name: string, entries: seq<FsNode>)
  {
    function Name(): string
    {
      if File? then file.name else name
    }
  }

  /** The content directory looked up under a provider directory. */
  const EadSubPath: seq<string> := ["metadata", "__SOR__", "ead"]

  /** The first entry called `name`, if any. */
  function Child(entries: seq<FsNode>, name: string): (r: Option<FsNode>)
    ensures r.Some? ==> r.value in entries && r.value.Name() == name
    ensures r.None? ==> forall e :: e in entries ==> e.Name() != name
  {
    if entries == [] then None
    else if entries[0].Name() == name then Some(entries[0])
    else Child(entries[1..], name)
  }

  /** The node a relative path leads to; a path through a regular file leads nowhere. */
  function Resolve(node: FsNode, path: seq<string>): Option<FsNode>
    decreases |path|
  {
    if path == [] then Some(node)
    else match node
      case File(_) => None
      case Dir(_, entries) =>
        match Child(entries, path[0])
        case None => None
        case Some(c) => Resolve(c, path[1..])
  }

  /**
   The directory whose files make up a provider: `metadata/__SOR__/ead` when
   it exists, otherwise the provider directory itself; nothing for an entry
   that is not a directory.
   */
  function ContentDir(provider: FsNode): (r: Option<FsNode>)
    ensures provider.File? ==> r.None?
    ensures provider.Dir? && Resolve(provider, EadSubPath).None? ==> r == Some(provider)
    ensures provider.Dir? && Resolve(provider, EadSubPath).Some? ==> r == Resolve(provider, EadSubPath)
  {
    if provider.Dir? then
      match Resolve(provider, EadSubPath)
      case Some(d) => Some(d)
      case None => Some(provider)
    else None
  }

  /** Every regular file under the given entries at any depth, depth first in listing order. */
  function ListFiles(entries: seq<FsNode>): seq<FileEntry>
    decreases entries
  {
    if entries == [] then []
    else
      (match entries[0]
       case File(f) => [f]
       case Dir(_, children) => ListFiles(children))
      + ListFiles(entries[1..])
  }

  /** `f` is a regular file somewhere under `entries`. */
  ghost predicate FileUnder(entries: seq<FsNode>, f: FileEntry)
    decreases entries
  {
    exists i :: 0 <= i < |entries| &&
      match entries[i]
      case File(g) => g == f
      case Dir(_, children) => FileUnder(children, f)
  }

  /** The recursive listing holds exactly the files of the tree. */
  lemma {:induction false} ListFilesExactlyFilesUnder(entries: seq<FsNode>, f: FileEntry)
    ensures f in ListFiles(entries) <==> FileUnder(entries, f)
    decreases entries
  {
    if entries != [] {
      ListFilesExactlyFilesUnder(entries[1..], f);
      if entries[0].Dir? {
        ListFilesExactlyFilesUnder(entries[0].entries, f);
      }
      if FileUnder(entries, f) {
        var i :| 0 <= i < |entries| &&
          match entries[i]
          case File(g) => g == f
          case Dir(_, children) => FileUnder(children, f);
        if i > 0 {
          assert entries[1..][i - 1] == entries[i];
        }
      }
      if FileUnder(entries[1..], f) {
        var i :| 0 <= i < |entries[1..]| &&
          match entries[1..][i]
          case File(g) => g == f
          case Dir(_, children) => FileUnder(children, f);
        assert entries[i + 1] == entries[1..][i];
      }
    }
  }

  /** The listing holds exactly the files under `entries`, for every file at once. */
  lemma ListFilesAll(entries: seq<FsNode>)
    ensures forall f :: f in ListFiles(entries) <==> FileUnder(entries, f)
  {
    forall f {
      ListFilesExactlyFilesUnder(entries, f);
    }
  }

  /**
   The file list of one provider entry; `None` plays the source's null list,
   returned for an entry that is not a directory or whose content path is a
   regular file.
   */
  function ReadEadFiles(provider: FsNode): (r: Option<seq<FileEntry>>)
    ensures r.None? <==> provider.File? || ContentDir(provider).value.File?
    ensures r.Some? ==> forall f :: f in r.value <==> FileUnder(ContentDir(provider).value.entries, f)
  {
    match ContentDir(provider)
    case Some(Dir(_, entries)) => ListFilesAll(entries); Some(ListFiles(entries))
    case _ => None
  }

  /** The record `collectMetaData` makes of one file: its fields copied. */
  function RecordOf(f: FileEntry): FileRecord
  {
    FileRecord(f.name, f.absolutePath, f.lastModified, f.length)
  }

  /** One record per listed file, in listing order; none for a null or empty list. */
  method CollectMetaData(files: Option<seq<FileEntry>>) returns (records: seq<FileRecord>)
    ensures files.None? ==> records == []
    ensures files.Some? ==> |records| == |files.value|
    ensures files.Some? ==> forall i :: 0 <= i < |records| ==>
      && records[i].fileName == files.value[i].name
      && records[i].filePath == files.value[i].absolutePath
      && records[i].lastModified == files.value[i].lastModified
      && records[i].fileSize == files.value[i].length
  {
    records := [];
    if files.Some? && |files.value| > 0 {
      for i := 0 to |files.value|
        invariant |records| == i
        invariant forall j :: 0 <= j < i ==> records[j] == RecordOf(files.value[j])
      {
        records := records + [RecordOf(files.value[i])];
      }
    }
  }

  /** The records of one provider entry. */
  function ProviderRecords(provider: FsNode): seq<FileRecord>
  {
    match ReadEadFiles(provider)
    case None => []
    case Some(files) => seq(|files|, i requires 0 <= i < |files| => RecordOf(files[i]))
  }

  /** The snapshot of a list of root entries, a later entry of the same name replacing an earlier one. */
  function BuildFrom(entries: seq<FsNode>): Snapshot
    decreases |entries|
  {
    if entries == [] then map[]
    else
      var last := entries[|entries| - 1];
      BuildFrom(entries[..|entries| - 1])[last.Name() := ProviderRecords(last)]
  }

  /** The snapshot of a root that may be missing or may be a regular file. */
  function BuildSnapshot(root: Option<FsNode>): Snapshot
  {
    if root.Some? && root.value.Dir? then BuildFrom(root.value.entries) else map[]
  }

  /** The source's loop over the root's entries, putting one provider per entry. */
  method InitiateFileStatus(root: Option<FsNode>) returns (snapshot: Snapshot)
    ensures snapshot == BuildSnapshot(root)
  {
    snapshot := map[];
    if root.Some? && root.value.Dir? {
      var providers := root.value.entries;
      for i := 0 to |providers|
        invariant snapshot == BuildFrom(providers[..i])
      {
        var eadFiles := ReadEadFiles(providers[i]);
        var metaData := CollectMetaData(eadFiles);
        assert metaData == ProviderRecords(providers[i]);
        assert providers[..i + 1][..i] == providers[..i];
        snapshot := snapshot[providers[i].Name() := metaData];
      }
      assert providers[..|providers|] == providers;
    }
  }

  /** Every root entry, directory or not, becomes a provider key, and nothing else does. */
  lemma {:induction false} BuildFromKeys(entries: seq<FsNode>)
    ensures BuildFrom(entries).Keys == set e | e in entries :: e.Name()
    decreases |entries|
  {
    if entries != [] {
      var init := entries[..|entries| - 1];
      BuildFromKeys(init);
      assert entries == init + [entries[|entries| - 1]];
    }
  }

  /**
   With distinct entry names, each provider holds the records of its own
   entry: the copied fields of every file of its content directory, in
   listing order, or nothing when the entry is not a directory.
   */
  lemma {:induction false} BuildFromEntry(entries: seq<FsNode>, i: nat)
    requires i < |entries|
    requires forall a, b :: 0 <= a < b < |entries| ==> entries[a].Name() != entries[b].Name()
    ensures entries[i].Name() in BuildFrom(entries)
    ensures BuildFrom(entries)[entries[i].Name()] == ProviderRecords(entries[i])
    decreases |entries|
  {
    var n := |entries| - 1;
    if i < n {
      BuildFromEntry(entries[..n], i);
    }
  }

  /** A missing root, or a root that is a regular file, yields an empty snapshot. */
  lemma NoRootNoProviders(root: Option<FsNode>)
    requires root.None? || root.value.File?
    ensures BuildSnapshot(root) == map[]
  {
  }

  /** What a provider entry contributes, read from its content directory. */
  lemma ProviderRecordsLaws(provider: FsNode)
    ensures provider.File? ==> ProviderRecords(provider) == []
    ensures ContentDir(provider).Some? && ContentDir(provider).value.File? ==> ProviderRecords(provider) == []
    ensures ContentDir(provider).Some? && ContentDir(provider).value.Dir? ==>
      var files := ListFiles(ContentDir(provider).value.entries);
      && |ProviderRecords(provider)| == |files|
      && forall i :: 0 <= i < |files| ==> ProviderRecords(provider)[i] == RecordOf(files[i])
  {
  }
}
