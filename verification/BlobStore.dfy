/** The storage backend contract and its two implementations: one file per artifact, and an
    S3-compatible object store.  Both stage the upload in a temporary file first. */
module BlobStore {
  import opened Int64

  newtype Byte = b: int | 0 <= b < 256
  datatype Key = Key(userId: string, name: string)

  /** A digest stands for the content it was computed from. */
  datatype Digest = Sha256(of: seq<Byte>)

  /** A request body: the bytes it delivers, and whether a read error stands at their end; it comes after
      the last bytes or together with them. */
  datatype Body = Body(data: seq<Byte>, readFails: bool)

  datatype Outcome =
    | Stored(size: int, digest: Digest)
    | OverQuota(size: int)
    | Failed

  /** What a write keeps of a body it accepts.  A limit of 2^63 - 1 makes limit + 1 negative, so
      the copy stops before its first byte. */
  function Kept(body: Body, limit: int): seq<Byte> {
    if limit == MAX_INT64 then [] else body.data
  }

  predicate Fits(body: Body, limit: int) {
    |Kept(body, limit)| <= limit
  }

  /** Reading does not meet the body's error, which can come with its last bytes. */
  predicate ReadsCleanly(body: Body, limit: int) {
    body.readFails ==> limit == MAX_INT64 || |body.data| > limit + 1
  }

  /** The Write contract: a full success, a refusal that saw one byte too many, or an error; the old
      blob is replaced only by a whole new one, and without faults the size alone decides. */
  ghost predicate WriteContract(before: map<Key, seq<Byte>>, after: map<Key, seq<Byte>>,
                                key: Key, body: Body, limit: int, faultless: bool, out: Outcome)
  {
    && (match out
        case Stored(size, digest) =>
          && Fits(body, limit) && size == |Kept(body, limit)| && digest == Sha256(Kept(body, limit))
          && after == before[key := Kept(body, limit)]
        case OverQuota(size) => !Fits(body, limit) && size == limit + 1 && after == before
        case Failed => after == before)
    && (faultless && ReadsCleanly(body, limit) ==> !out.Failed?)
  }

  /** Under the contract an outcome other than an error is decided by size and limit alone, and the
      whole body is what is stored exactly when the limit is below 2^63 - 1 or the body is empty. */
  lemma ContractDecides(before: map<Key, seq<Byte>>, after: map<Key, seq<Byte>>,
                        key: Key, body: Body, limit: int, faultless: bool, out: Outcome)
    requires 0 <= limit <= MAX_INT64
    requires WriteContract(before, after, key, body, limit, faultless, out) && !out.Failed?
    ensures limit < MAX_INT64 ==> (out.OverQuota? <==> |body.data| > limit)
    ensures out.Stored? ==>
      ((key in after && after[key] == body.data && out.size == |body.data|) <==> (limit < MAX_INT64 || body.data == []))
    ensures limit == MAX_INT64 ==> out.Stored?
  {
  }

  /** What goes wrong during a write; a temporary file's writes may fail at any read, or at none. */
  datatype Faults = Faults(mkdir: bool, create: bool, tempWrite: bool, close: bool, rename: bool, open: bool, put: bool)

  predicate StagesWell(f: Faults) { !f.create && !f.tempWrite && !f.close }

  datatype Staged = StagedFile(path: nat, size: int, digest: Digest) | StageOverQuota(size: int) | StageFailed

  /** A directory of temporary upload files. */
  class ScratchDir {
    var files: map<nat, seq<Byte>>

    constructor ()
      ensures files == map[]
    {
      files := map[];
    }

    /** Streams the body into a fresh temporary file, reading at most limit + 1 bytes. */
    method StageBlob(body: Body, limit: int, f: Faults) returns (r: Staged, consumed: nat)
      requires 0 <= limit <= MAX_INT64
      modifies this
      ensures consumed <= limit + 1 && consumed <= |body.data|
      ensures match r
        case StagedFile(path, size, digest) =>
          && path !in old(files) && files == old(files)[path := Kept(body, limit)]
          && Fits(body, limit) && size == |Kept(body, limit)| && digest == Sha256(Kept(body, limit))
        case StageOverQuota(size) => files == old(files) && !Fits(body, limit) && size == limit + 1
        case StageFailed => files == old(files)
      ensures StagesWell(f) && ReadsCleanly(body, limit) ==> !r.StageFailed?
    {
      consumed := 0;
      if f.create {
        return StageFailed, 0;
      }
      var path := FreshName();
      files := files[path := []];
      var remaining := Wrap(limit + 1);
      assert limit < MAX_INT64 ==> remaining == limit + 1;
      if limit == MAX_INT64 {
        WrapUnique(limit + 1, MIN_INT64, 1);
      }
      ghost var quota := if remaining <= 0 then 0 else remaining;
      var failed := false;
      while remaining > 0 && consumed < |body.data| && !failed
        invariant path in files && files == old(files)[path := files[path]]
        invariant consumed <= |body.data| && consumed <= quota
        invariant remaining > 0 ==> remaining == quota - consumed
        invariant remaining <= 0 ==> consumed == quota
        invariant !failed ==> files[path] == body.data[..consumed]
        invariant failed ==> 0 < consumed && (f.tempWrite || (body.readFails && consumed == |body.data|))
        decreases |body.data| - consumed, !failed
      {
        var n: nat :| 1 <= n <= remaining && n <= |body.data| - consumed;  // one Read
        var now: bool := *;
        if f.tempWrite && now {
          failed := true;
        } else {
          files := files[path := files[path] + body.data[consumed..consumed + n]];
          assert body.data[..consumed] + body.data[consumed..consumed + n] == body.data[..consumed + n];
        }
        consumed, remaining := consumed + n, remaining - n;
        var together: bool := *;
        if body.readFails && consumed == |body.data| && together {
          failed := true;
        }
      }
      if failed || (remaining > 0 && body.readFails) {
        Remove(path);
        return StageFailed, consumed;
      }
      if consumed > limit {
        Remove(path);
        return StageOverQuota(consumed), consumed;
      }
      assert files[path] == Kept(body, limit);
      if f.close {
        Remove(path);
        return StageFailed, consumed;
      }
      return StagedFile(path, consumed, Sha256(files[path])), consumed;
    }

    method FreshName() returns (path: nat)
      ensures path !in files
    {
      path := 0;
      var left := files.Keys;
      while path in left
        invariant left <= files.Keys
        invariant forall p :: p in files && p !in left ==> p < path
        decreases left
      {
        left := left - {path};
        path := path + 1;
      }
    }

    method Remove(path: nat)
      modifies this
      ensures files == old(files) - {path}
    {
      files := files - {path};
    }
  }

  /** Artifacts as files, staged in the artifact's own directory and renamed into place. */
  class FsStore {
    var blobs: map<Key, seq<Byte>>
    const scratch: ScratchDir

    constructor ()
      ensures blobs == map[] && fresh(scratch) && scratch.files == map[]
    {
      blobs := map[];
      scratch := new ScratchDir();
    }

    method Write(key: Key, body: Body, limit: int, f: Faults) returns (out: Outcome)
      requires 0 <= limit <= MAX_INT64
      modifies this, scratch
      ensures WriteContract(old(blobs), blobs, key, body, limit, StagesWell(f) && !f.mkdir && !f.rename, out)
      ensures scratch.files == old(scratch.files)
    {
      if f.mkdir {
        return Failed;
      }
      var staged, _ := scratch.StageBlob(body, limit, f);
      match staged
      case StageFailed => out := Failed;
      case StageOverQuota(size) => out := OverQuota(size);
      case StagedFile(tmp, size, digest) =>
        if f.rename {
          scratch.Remove(tmp);
          return Failed;
        }
        blobs := blobs[key := scratch.files[tmp]];
        scratch.Remove(tmp);
        out := Stored(size, digest);
    }

    method Remove(key: Key, fails: bool) returns (ok: bool)
      modifies this
      ensures ok == !fails && blobs == if fails then old(blobs) else old(blobs) - {key}
    {
      if !fails {
        blobs := blobs - {key};
      }
      ok := !fails;
    }
  }

  /** Artifacts as objects, staged in a per-pod scratch directory and put in one request. */
  class S3Store {
    var objects: map<Key, seq<Byte>>
    const scratch: ScratchDir

    constructor ()
      ensures objects == map[] && fresh(scratch) && scratch.files == map[]
    {
      objects := map[];
      scratch := new ScratchDir();
    }

    method Write(key: Key, body: Body, limit: int, f: Faults) returns (out: Outcome)
      requires 0 <= limit <= MAX_INT64
      modifies this, scratch
      ensures WriteContract(old(objects), objects, key, body, limit, StagesWell(f) && !f.open && !f.put, out)
      ensures scratch.files == old(scratch.files)
    {
      var staged, _ := scratch.StageBlob(body, limit, f);
      match staged
      case StageFailed => out := Failed;
      case StageOverQuota(size) => out := OverQuota(size);
      case StagedFile(tmp, size, digest) =>
        if f.open {
          out := Failed;
        } else if f.put {
          out := Failed;
        } else {
          objects := objects[key := scratch.files[tmp]];
          out := Stored(size, digest);
        }
        scratch.Remove(tmp);
    }

    method Remove(key: Key, fails: bool) returns (ok: bool)
      modifies this
      ensures ok == !fails && objects == if fails then old(objects) else old(objects) - {key}
    {
      if !fails {
        objects := objects - {key};
      }
      ok := !fails;
    }
  }
}
