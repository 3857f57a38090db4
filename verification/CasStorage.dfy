/** The content-addressed object store: sharded object files, written once under their digest. */
module CasStorage {
  import opened Wrappers
  import opened Faults

  type Cid = string
  datatype Object = Object(cid: Cid, data: string, meta: string)
  datatype CasError = IoFailed | Missing | Malformed | IntegrityFailed | InvalidCid

  /** A file of a shard directory: a stored obj, or one that holds none, as an interrupted write leaves it. */
  datatype File = Stored(obj: Object) | Temporary
  type Shard = map<string, File>
  /** An entry of the root directory. */
  datatype Entry = Directory(files: Shard) | Plain

  predicate HexDigit(c: char) {
    '0' <= c <= '9' || 'a' <= c <= 'f' || 'A' <= c <= 'F'
  }

  predicate AllHex(s: string) {
    forall i :: 0 <= i < |s| ==> HexDigit(s[i])
  }

  predicate ValidCid(cid: Cid) {
    |cid| >= 2 && AllHex(cid)
  }

  /** What a SHA-256 digest looks like in hexadecimal. */
  predicate DigestText(cid: Cid) {
    |cid| == 64 && AllHex(cid)
  }

  function TemporaryName(cid: Cid): string {
    ".tmp_" + cid
  }

  predicate Hidden(name: string) {
    ".tmp_" <= name || "_" <= name
  }

  /** What names an object: at least the two digits of a shard, in either case. */
  lemma CidExact(cid: Cid)
    ensures ValidCid(cid) <==> 2 <= |cid| && forall i :: 0 <= i < |cid| ==> cid[i] in "0123456789abcdefABCDEF"
  {
    forall i | 0 <= i < |cid|
      ensures HexDigit(cid[i]) <==> cid[i] in "0123456789abcdefABCDEF"
    {
      HexDigits(cid[i]);
    }
  }

  lemma HexDigits(c: char)
    ensures HexDigit(c) <==> c in "0123456789abcdefABCDEF"
  {
    var s := "0123456789abcdefABCDEF";
    if '0' <= c <= '9' {
      assert s[c as int - '0' as int] == c;
    } else if 'a' <= c <= 'f' {
      assert s[10 + c as int - 'a' as int] == c;
    } else if 'A' <= c <= 'F' {
      assert s[16 + c as int - 'A' as int] == c;
    }
  }

  /** No listing shows a file that a write left behind, and none shows a name that starts with an underscore. */
  lemma HiddenExact(name: string)
    ensures Hidden(name) <==>
            || (1 <= |name| && name[0] == '_')
            || exists cid :: name == TemporaryName(cid)
  {
    if ".tmp_" <= name {
      assert name == TemporaryName(name[5..]);
    }
  }

  predicate ShardName(name: string) {
    |name| == 2 && AllHex(name)
  }

  /** The file at a path below the root. */
  predicate Exists(root: map<string, Entry>, cid: Cid)
    requires |cid| >= 2
  {
    cid[..2] in root && root[cid[..2]].Directory? && cid[2..] in root[cid[..2]].files
  }

  function At(root: map<string, Entry>, cid: Cid): File
    requires |cid| >= 2 && Exists(root, cid)
  {
    root[cid[..2]].files[cid[2..]]
  }

  /** The root holds exactly these objects, each under its own name, next to files of other kinds. */
  ghost predicate Holds(root: map<string, Entry>, objects: map<Cid, Object>) {
    && (forall cid :: cid in objects ==> DigestText(cid) && Exists(root, cid) && At(root, cid) == Stored(objects[cid]))
    && (forall dir :: dir in root && root[dir].Directory? ==>
                        && ShardName(dir)
                        && forall name :: name in root[dir].files && !Hidden(name) ==> dir + name in objects)
    && (forall dir :: dir in root && ShardName(dir) ==> root[dir].Directory?)
  }

  /** Digits never look like the name of a temporary or a private file. */
  lemma DigestNotHidden(cid: Cid)
    requires DigestText(cid)
    ensures !Hidden(cid[2..]) && ShardName(cid[..2]) && cid[..2] + cid[2..] == cid
    ensures cid[2..] != TemporaryName(cid)
  {
    assert cid[2..][0] == cid[2] && HexDigit(cid[2]);
    assert TemporaryName(cid)[0] == '.';
  }

  lemma Sharded(root: map<string, Entry>, objects: map<Cid, Object>)
    requires Holds(root, objects)
    ensures forall cid :: cid in objects ==> |cid| == 64 && cid[..2] in root && ShardName(cid[..2])
  {
  }

  /** The visible files of a shard are the objects whose cids start with its name. */
  lemma InShard(root: map<string, Entry>, objects: map<Cid, Object>, dir: string)
    requires Holds(root, objects) && dir in root && ShardName(dir)
    ensures root[dir].Directory?
    ensures forall cid :: cid in objects && |cid| >= 2 && cid[..2] == dir ==>
                            cid[2..] in root[dir].files && !Hidden(cid[2..]) && cid == dir + cid[2..]
    ensures forall name :: name in root[dir].files && !Hidden(name) ==>
                             dir + name in objects && (dir + name)[..2] == dir && (dir + name)[2..] == name
  {
    forall cid | cid in objects && |cid| >= 2 && cid[..2] == dir
      ensures cid[2..] in root[dir].files && !Hidden(cid[2..]) && cid == dir + cid[2..]
    {
      DigestNotHidden(cid);
    }
  }

  function FilesOf(root: map<string, Entry>, dir: string): Shard {
    if dir in root && root[dir].Directory? then root[dir].files else map[]
  }

  /** A shard may gain a temporary file without anyone noticing. */
  lemma HoldsTemporary(root: map<string, Entry>, objects: map<Cid, Object>, cid: Cid, files: Shard)
    requires Holds(root, objects) && DigestText(cid)
    requires files == FilesOf(root, cid[..2]) || files == FilesOf(root, cid[..2])[TemporaryName(cid) := Temporary]
    ensures Holds(root[cid[..2] := Directory(files)], objects)
  {
  }

  /** A renamed object joins the others, and nothing else changes. */
  lemma HoldsObject(root: map<string, Entry>, objects: map<Cid, Object>, obj: Object, files: Shard)
    requires Holds(root, objects) && DigestText(obj.cid) && obj.cid !in objects
    requires files == (FilesOf(root, obj.cid[..2]) - {TemporaryName(obj.cid)})[obj.cid[2..] := Stored(obj)]
    ensures Holds(root[obj.cid[..2] := Directory(files)], objects[obj.cid := obj])
  {
    var cid := obj.cid;
    var next, all := root[cid[..2] := Directory(files)], objects[cid := obj];
    DigestNotHidden(cid);
    forall c | c in all
      ensures DigestText(c) && Exists(next, c) && At(next, c) == Stored(all[c])
    {
      DigestNotHidden(c);
      if c[..2] == cid[..2] && c[2..] == cid[2..] {
        assert c == c[..2] + c[2..] == cid;
      }
    }
  }

  /** A file under the path of a cid is an object that was put. */
  lemma Visible(root: map<string, Entry>, objects: map<Cid, Object>, cid: Cid)
    requires Holds(root, objects) && ValidCid(cid) && |cid| > 2
    ensures Exists(root, cid) <==> cid in objects
    ensures cid in objects ==> At(root, cid) == Stored(objects[cid])
  {
    assert cid[..2] + cid[2..] == cid;
    assert !Hidden(cid[2..]) by { assert HexDigit(cid[2]) && cid[2..][0] == cid[2]; }
  }

  class ObjectStore {
    const io: Io
    const digest: string -> Cid
    var root: map<string, Entry>
    /** The first object put under each cid. */
    ghost var first: map<Cid, Object>

    ghost predicate Valid()
      reads this
    {
      && (forall data :: DigestText(digest(data)))
      && Holds(root, first)
      && forall cid :: cid in first ==> first[cid].cid == cid && digest(first[cid].data) == cid
    }

    constructor (io: Io, digest: string -> Cid)
      requires forall data :: DigestText(digest(data))
      ensures Valid() && this.io == io && this.digest == digest && first == map[]
    {
      this.io, this.digest := io, digest;
      root, first := map[], map[];
    }

    /** A put under a known cid changes nothing; a new object becomes visible all at once. */
    method Put(obj: Object) returns (ok: bool)
      requires Valid()
      modifies `root, `first, io
      ensures Valid() && (old(io.faulted) ==> io.faulted)
      ensures ok ==> digest(obj.data) == obj.cid
      ensures first == if ok && obj.cid !in old(first) then old(first)[obj.cid := obj] else old(first)
      ensures !io.faulted ==> (ok <==> digest(obj.data) == obj.cid)
    {
      var cid := obj.cid;
      if digest(obj.data) != cid {
        return false;
      }
      DigestNotHidden(cid);
      if Exists(root, cid) {
        return true;
      }
      var e := io.Try();
      if e.Some? {
        return false;
      }
      HoldsTemporary(root, first, cid, FilesOf(root, cid[..2]));
      root := root[cid[..2] := Directory(FilesOf(root, cid[..2]))];
      HoldsTemporary(root, first, cid, FilesOf(root, cid[..2])[TemporaryName(cid) := Temporary]);
      root := root[cid[..2] := Directory(FilesOf(root, cid[..2])[TemporaryName(cid) := Temporary])];
      e := io.Try();
      if e.Some? {
        return false;
      }
      e := io.Try();
      if e.Some? {
        return false;
      }
      var files := (FilesOf(root, cid[..2]) - {TemporaryName(cid)})[cid[2..] := Stored(obj)];
      HoldsObject(root, first, obj, files);
      root := root[cid[..2] := Directory(files)];
      first := first[cid := obj];
      return true;
    }

    /**
      Reads back the first object put under a cid.  Whatever is under the root, nothing is ever
      returned that does not have the digest asked for.
     */
    method GetRaw(cid: Cid) returns (res: Result<Object, CasError>)
      modifies io
      ensures old(io.faulted) ==> io.faulted
      ensures res.Success? ==>
                && |cid| > 2 && Exists(root, cid) && At(root, cid) == Stored(res.value)
                && res.value.cid == cid && digest(res.value.data) == cid
      ensures res == Failure(InvalidCid) <==> !ValidCid(cid)
      ensures ValidCid(cid) && |cid| > 2 ==> (res == Failure(Missing) <==> !Exists(root, cid))
      ensures ValidCid(cid) && |cid| == 2 ==>
                res == Failure(if cid in root && root[cid].Directory? then IoFailed else Missing)
      ensures res == Failure(IoFailed) ==> io.faulted || |cid| == 2
      ensures res == Failure(IntegrityFailed) ==>
                && Exists(root, cid) && At(root, cid).Stored?
                && (At(root, cid).obj.cid != cid || digest(At(root, cid).obj.data) != cid)
      ensures !io.faulted && ValidCid(cid) && |cid| > 2 && Exists(root, cid) ==>
                (res == Failure(Malformed) <==> At(root, cid) == Temporary)
      ensures !io.faulted && res.Failure? && ValidCid(cid) && |cid| > 2 ==>
                res.error == Missing || res.error == Malformed || res.error == IntegrityFailed
      ensures Valid() ==>
                && (res.Success? ==> cid in first && res.value == first[cid])
                && (res == Failure(Missing) ==> cid !in first)
                && (ValidCid(cid) && |cid| > 2 && cid !in first ==> res == Failure(Missing))
                && res != Failure(IntegrityFailed) && res != Failure(Malformed)
                && (!io.faulted ==> (res.Success? <==> cid in first))
    {
      if !ValidCid(cid) {
        return Failure(InvalidCid);
      }
      if cid[2..] == "" {
        // The path is the shard directory itself, which cannot be read as a file.
        return Failure(if cid in root && root[cid].Directory? then IoFailed else Missing);
      }
      if Valid() {
        Visible(root, first, cid);
      }
      if !Exists(root, cid) {
        return Failure(Missing);
      }
      var e := io.Try();
      if e.Some? {
        return Failure(IoFailed);
      }
      var file := At(root, cid);
      if file.Temporary? {
        return Failure(Malformed);
      }
      if file.obj.cid != cid || digest(file.obj.data) != file.obj.cid {
        return Failure(IntegrityFailed);
      }
      return Success(file.obj);
    }

    /** Lists every cid put so far, once each, and nothing else. */
    method ListCids() returns (res: Option<seq<Cid>>)
      requires Valid()
      modifies io
      ensures old(io.faulted) ==> io.faulted
      ensures !io.faulted ==> res.Some?
      ensures res.Some? ==>
                && (forall cid :: cid in res.value <==> cid in first)
                && (forall i, j :: 0 <= i < j < |res.value| ==> res.value[i] != res.value[j])
    {
      var e := io.Try();
      if e.Some? {
        return None;
      }
      var cids: seq<Cid> := [];
      var dirs := root.Keys;
      Sharded(root, first);
      hide Holds, AllHex;
      while dirs != {}
        invariant io.faulted == old(io.faulted) && dirs <= root.Keys
        invariant forall cid :: cid in cids <==> cid in first && cid[..2] !in dirs
        invariant forall i, j :: 0 <= i < j < |cids| ==> cids[i] != cids[j]
        decreases |dirs|
      {
        var dir :| dir in dirs;
        if ShardName(dir) {
          e := io.Try();
          if e.Some? {
            return None;
          }
          var found := ListShard(dir);
          cids := cids + found;
        }
        dirs := dirs - {dir};
      }
      return Some(cids);
    }

    method ListShard(dir: string) returns (cids: seq<Cid>)
      requires Valid() && dir in root && ShardName(dir)
      ensures forall cid :: cid in cids <==> cid in first && cid[..2] == dir
      ensures forall i, j :: 0 <= i < j < |cids| ==> cids[i] != cids[j]
    {
      Sharded(root, first);
      InShard(root, first, dir);
      var files := root[dir].files;
      hide Holds, AllHex, Hidden;
      cids := [];
      var names := files.Keys;
      while names != {}
        invariant names <= files.Keys
        invariant forall cid :: cid in cids <==> cid in first && cid[..2] == dir && cid[2..] !in names
        invariant forall i, j :: 0 <= i < j < |cids| ==> cids[i] != cids[j]
        decreases |names|
      {
        var name :| name in names;
        if !Hidden(name) {
          cids := cids + [dir + name];
        }
        names := names - {name};
      }
    }
  }
}
