/** The upload and delete handlers of the artifact service: two stores, database rows and blobs, that
    every request moves one after the other and either of which can fail.  A call that changes a row can
    also take effect and lose its reply. */
module ArtifactService {
  import opened Int64
  import opened BlobStore
  import opened Totals
  import opened Text
  import opened Network

  datatype Row = Row(size: nat, digest: Digest)

  /** The row that describes a content. */
  function Describe(content: seq<Byte>): Row { Row(|content|, Sha256(content)) }

  datatype World = World(rows: map<Key, Row>, blobs: map<Key, seq<Byte>>)

  /** Which reads fail, what becomes of the row, and whether a blob that is to be removed stays; what the
      removal answers is not looked at. */
  datatype SaveFaults = SaveFaults(quota: bool, usage: bool, lookup: bool, record: Net, remove: bool)
  datatype DropFaults = DropFaults(lookup: bool, rowDelete: Net, remove: bool)

  datatype BlobWrite = NotCalled | Wrote(out: Outcome)

  /** A finished request: what it asked for, what its blob write answered and which calls failed. */
  datatype Request =
    | Save(key: Key, body: Body, limit: int, write: BlobWrite, faults: SaveFaults)
    | Drop(key: Key, dropFaults: DropFaults)

  // ---- What a request does to the two stores. ----

  predicate Stores(r: Request) { r.Save? && r.write.Wrote? && r.write.out.Stored? }

  /** A save is taken for a replace when the lookup finds the row. */
  predicate Replacing(w: World, r: Request)
    requires r.Save?
  {
    r.key in w.rows && !r.faults.lookup
  }

  function Content(r: Request): seq<Byte>
    requires r.Save?
  {
    Kept(r.body, r.limit)
  }

  /** The delete takes the row away. */
  predicate Drops(w: World, r: Request) {
    r.Drop? && r.key in w.rows && !r.dropFaults.lookup && !r.dropFaults.rowDelete.Refused?
  }

  /** A save whose row was not answered for takes its blob away again, unless it saw itself as a replace. */
  predicate Compensates(w: World, r: Request) {
    Stores(r) && !r.faults.record.Answered? && !Replacing(w, r) && !r.faults.remove
  }

  function After(w: World, r: Request): World {
    if Stores(r) then
      World(if r.faults.record.Refused? then w.rows else w.rows[r.key := Describe(Content(r))],
            if Compensates(w, r) then w.blobs - {r.key} else w.blobs[r.key := Content(r)])
    else if Drops(w, r) then
      World(w.rows - {r.key}, if r.dropFaults.rowDelete.ReplyLost? || r.dropFaults.remove then w.blobs else w.blobs - {r.key})
    else w
  }

  function Sizes(rows: map<Key, Row>, user: string): map<string, nat> {
    map k | k in rows && k.userId == user :: k.name := rows[k].size
  }

  function SizesWithout(rows: map<Key, Row>, left: set<Key>, user: string): map<string, nat> {
    map k | k in rows && k !in left && k.userId == user :: k.name := rows[k].size
  }

  lemma SizesWithoutStep(rows: map<Key, Row>, left: set<Key>, k: Key, user: string)
    requires k in left && k in rows
    ensures Total(SizesWithout(rows, left - {k}, user)) ==
      Total(SizesWithout(rows, left, user)) + if k.userId == user then rows[k].size else 0
  {
    var before, after := SizesWithout(rows, left, user), SizesWithout(rows, left - {k}, user);
    if k.userId == user {
      assert k.name !in before && before - {k.name} == before;
      assert after == before[k.name := rows[k].size];
      TotalInsert(before, k.name, rows[k].size);
    } else {
      assert after == before;
    }
  }

  function PrevSize(w: World, key: Key, lookupFails: bool): nat {
    if key in w.rows && !lookupFails then w.rows[key].size else 0
  }

  /** In the 64 bits the handler computes with. */
  ghost function Headroom(w: World, cap: int, key: Key, lookupFails: bool): int {
    Wrap(cap - Wrap(Total(Sizes(w.rows, key.userId)) - PrevSize(w, key, lookupFails)))
  }

  /** With a cap that did not wrap, and usage within 64 bits, the headroom is exact and at most the cap. */
  lemma HeadroomMeaning(w: World, cap: int, key: Key, lookupFails: bool)
    requires 0 <= cap <= MAX_INT64 && Total(Sizes(w.rows, key.userId)) <= MAX_INT64
    ensures Headroom(w, cap, key, lookupFails) == cap - (Total(Sizes(w.rows, key.userId)) - PrevSize(w, key, lookupFails)) <= cap
  {
    PrevWithinUsage(w, key);
  }

  /** The blob write a save reaches, if any, was limited to the headroom left under `cap` and kept
      the Write contract. */
  ghost predicate Possible(w: World, cap: int, r: Request) {
    r.Save? && r.write.Wrote? ==>
      && 0 < r.limit == Headroom(w, cap, r.key, r.faults.lookup)
      && (r.write.out.Stored? ==>
            Fits(r.body, r.limit) && r.write.out == BlobStore.Stored(|Content(r)|, Sha256(Content(r))))
  }

  /** What the user stores beside the key's own row. */
  ghost function Beside(rows: map<Key, Row>, key: Key): nat { Total(Sizes(rows, key.userId) - {key.name}) }

  /** Usage within 64 bits, under a number of bytes that is not the largest. */
  ghost predicate Counted(rows: map<Key, Row>, user: string, bytes: int) {
    0 <= bytes < MAX_INT64 && Total(Sizes(rows, user)) <= MAX_INT64
  }

  lemma SizesUpdate(rows: map<Key, Row>, key: Key, row: Row)
    ensures Sizes(rows[key := row], key.userId) == Sizes(rows, key.userId)[key.name := row.size]
  {
    var a, b := Sizes(rows[key := row], key.userId), Sizes(rows, key.userId)[key.name := row.size];
    forall n ensures n in a <==> n in b {
      assert n in a <==> Key(key.userId, n) in rows[key := row];
      assert n in Sizes(rows, key.userId) <==> Key(key.userId, n) in rows;
    }
  }

  /** A recorded save leaves the user within the bytes it was measured against. */
  lemma RecordedWithin(w: World, cap: int, r: Request)
    requires Possible(w, cap, r) && Stores(r) && !r.faults.record.Refused? && Counted(w.rows, r.key.userId, cap)
    ensures Total(Sizes(After(w, r).rows, r.key.userId)) <= cap
  {
    HeadroomMeaning(w, cap, r.key, r.faults.lookup);
    SizesUpdate(w.rows, r.key, Describe(Content(r)));
    TotalInsert(Sizes(w.rows, r.key.userId), r.key.name, |Content(r)|);
    BesideOthers(w, r.key);
  }

  lemma BesideOthers(w: World, key: Key)
    ensures Total(Sizes(w.rows, key.userId)) == Beside(w.rows, key) + if key in w.rows then w.rows[key].size else 0
  {
    TotalRemove(Sizes(w.rows, key.userId), key.name);
    assert key.name in Sizes(w.rows, key.userId) <==> key in w.rows;
  }

  lemma RoomBeside(w: World, cap: int, key: Key)
    requires Counted(w.rows, key.userId, cap)
    ensures Headroom(w, cap, key, false) == cap - Beside(w.rows, key)
  {
    HeadroomMeaning(w, cap, key, false);
    BesideOthers(w, key);
  }

  /** The save gets as far as writing: cap and usage were read and leave room for what it declares. */
  ghost predicate Admits(w: World, cap: int, r: Request, contentLength: int)
    requires r.Save?
  {
    && !r.faults.quota && !r.faults.usage
    && var headroom := Headroom(w, cap, r.key, r.faults.lookup);
       0 < headroom && (contentLength > 0 ==> contentLength <= headroom)
  }

  /** Under the largest cap of 64 bits a first save of any body is accepted, and stores nothing of it. */
  lemma LargestCapStoresNothing(key: Key, body: Body)
    ensures var w := World(map[], map[]);
      var r := Save(key, body, MAX_INT64, Wrote(BlobStore.Stored(0, Sha256([]))), SaveFaults(false, false, false, Answered, false));
      && Possible(w, MAX_INT64, r) && Admits(w, MAX_INT64, r, |body.data|) == (|body.data| <= MAX_INT64)
      && After(w, r) == World(map[key := Row(0, Sha256([]))], map[key := []])
  {
    assert Sizes(map[], key.userId) == map[];
  }

  predicate Sound(f: Faults) { StagesWell(f) && !f.mkdir && !f.rename }

  // ---- The handlers. ----

  const CREATED := 201
  const NO_CONTENT := 204
  const BAD_REQUEST := 400
  const NOT_FOUND := 404
  const TOO_LARGE := 413
  const SERVER_ERROR := 500

  const MAX_NAME_LEN := 200

  predicate ValidName(name: string) {
    && 0 < |name| <= MAX_NAME_LEN
    && Alphanumeric(name[0])
    && (forall i :: 0 <= i < |name| ==> Alphanumeric(name[i]) || name[i] in "._-")
    && (forall i :: 0 <= i < |name| - 1 ==> !(name[i] == '.' && name[i + 1] == '.'))
  }

  /** What an upload promises about the user's bytes: a recorded save leaves them within `bytes`, and a save
      that meets no fault and declares no more than it holds is created exactly when there is room beside the
      other rows and the body fits in it; one that declares more than there is room for is refused unread. */
  ghost predicate UploadCounts(before: map<Key, Row>, after: map<Key, Row>, bytes: int, r: Request, contentLength: int,
                               sound: bool, status: int)
    requires r.Save?
  {
    && (Stores(r) && !r.faults.record.Refused? ==> Total(Sizes(after, r.key.userId)) <= bytes)
    && (ValidName(r.key.name) && Faultless(r.faults) && sound && !r.body.readFails && contentLength <= |r.body.data| ==>
          (status == 201 <==> Beside(before, r.key) < bytes && Beside(before, r.key) + |r.body.data| <= bytes))
    && (ValidName(r.key.name) && Faultless(r.faults) && contentLength > 0 && Beside(before, r.key) + contentLength > bytes ==>
          status == 413 && r.write.NotCalled?)
  }

  predicate Faultless(f: SaveFaults) { !f.quota && !f.usage && !f.lookup && f.record.Answered? }

  lemma UploadMeaning(w: World, cap: int, r: Request, contentLength: int, sound: bool, status: int)
    requires r.Save? && Counted(w.rows, r.key.userId, cap) && Possible(w, cap, r)
    requires status == 201 <==> Stores(r) && r.faults.record.Answered?
    requires r.write.Wrote? <==> Admits(w, cap, r, contentLength)
    requires r.write.Wrote? && r.write.out.OverQuota? ==> !Fits(r.body, r.limit)
    requires ValidName(r.key.name) && !r.faults.quota && !r.faults.usage && r.write.NotCalled? ==> status == 413
    requires r.write.Wrote? && sound && ReadsCleanly(r.body, r.limit) ==> !r.write.out.Failed?
    ensures UploadCounts(w.rows, After(w, r).rows, cap, r, contentLength, sound, status)
  {
    RoomBeside(w, cap, r.key);
    if Stores(r) && !r.faults.record.Refused? { RecordedWithin(w, cap, r); }
  }

  class Service {
    var rows: map<Key, Row>
    var overrides: map<string, int>
    const defaultQuota: int
    const store: FsStore

    constructor (defaultQuota: int)
      requires Representable(defaultQuota)
      ensures Valid() && fresh(store) && fresh(store.scratch)
      ensures Contents() == World(map[], map[]) && overrides == map[]
    {
      this.defaultQuota := defaultQuota;
      rows, overrides := map[], map[];
      store := new FsStore();
    }

    ghost predicate Valid()
      reads this
    {
      Representable(defaultQuota) && forall u :: u in overrides ==> Representable(overrides[u])
    }

    ghost function Contents(): World
      reads this, store
    {
      World(rows, store.blobs)
    }

    function Cap(user: string): int
      reads this
    {
      if user in overrides then overrides[user] else defaultQuota
    }

    /** The SUM(size_bytes) of the usage query. */
    method Usage(user: string) returns (bytes: nat)
      ensures bytes == Total(Sizes(rows, user))
    {
      bytes := 0;
      var left := rows.Keys;
      assert SizesWithout(rows, left, user) == map[];
      while left != {}
        invariant left <= rows.Keys
        invariant bytes == Total(SizesWithout(rows, left, user))
        decreases left
      {
        var k :| k in left;
        ghost var before := left;
        left := left - {k};
        SizesWithoutStep(rows, before, k, user);
        if k.userId == user {
          bytes := bytes + rows[k].size;
        }
      }
      assert SizesWithout(rows, {}, user) == Sizes(rows, user);
    }

    /** The room an upload has, and whether it replaces a row. */
    method Measure(key: Key, maxBytes: int, lookupFails: bool) returns (headroom: int, replacing: bool)
      ensures headroom == Headroom(Contents(), maxBytes, key, lookupFails)
      ensures replacing == (key in rows && !lookupFails)
    {
      var used: int := Usage(key.userId);
      var prevSize: int := 0;
      replacing := false;
      if key in rows && !lookupFails {
        prevSize, replacing := rows[key].size, true;
      }
      headroom := Wrap(maxBytes - Wrap(used - prevSize));
    }

    /** The row of an upload; a refused or lost call reports an error. */
    method RecordRow(key: Key, row: Row, record: Net) returns (ok: bool)
      modifies this`rows
      ensures ok == record.Answered?
      ensures rows == if record.Refused? then old(rows) else old(rows)[key := row]
    {
      if !record.Refused? {
        rows := rows[key := row];
      }
      ok := record.Answered?;
    }

    /** Writes the blob, then the row; a first save whose row fails takes its blob away again. */
    method WriteAndRecord(key: Key, body: Body, headroom: int, replacing: bool, faults: SaveFaults, storeFaults: Faults)
      returns (status: int, r: Request)
      requires Valid() && 0 < headroom <= MAX_INT64 && replacing == (key in rows && !faults.lookup)
      modifies this`rows, store, store.scratch
      ensures r.Save? && r.key == key && r.body == body && r.limit == headroom && r.faults == faults && r.write.Wrote?
      ensures r.write.out.Stored? ==> Fits(body, headroom) && r.write.out == BlobStore.Stored(|Content(r)|, Sha256(Content(r)))
      ensures r.write.out.OverQuota? ==> !Fits(body, headroom)
      ensures Sound(storeFaults) && ReadsCleanly(body, headroom) ==> !r.write.out.Failed?
      ensures Contents() == After(old(Contents()), r)
      ensures status == match r.write.out
        case OverQuota(_) => 413
        case Failed => 500
        case Stored(_, _) => if faults.record.Answered? then 201 else 500
    {
      var out := store.Write(key, body, headroom, storeFaults);
      r := Save(key, body, headroom, Wrote(out), faults);
      match out {
        case OverQuota(_) => return TOO_LARGE, r;
        case Failed => return SERVER_ERROR, r;
        case Stored(size, digest) =>
          var ok := RecordRow(key, Row(size, digest), faults.record);
          if !ok {
            if !replacing {
              var _ := store.Remove(key, faults.remove);
            }
            return SERVER_ERROR, r;
          }
          return CREATED, r;
      }
    }

    /** An upload of a valid name, measured against a cap. */
    method UploadUnder(maxBytes: int, key: Key, body: Body, contentLength: int, faults: SaveFaults, storeFaults: Faults)
      returns (status: int, r: Request)
      requires Valid() && ValidName(key.name) && !faults.quota
      modifies this`rows, store, store.scratch
      ensures Valid()
      ensures r.Save? && r.key == key && r.body == body && r.faults == faults
      ensures old(Possible(Contents(), maxBytes, r))
      ensures Contents() == After(old(Contents()), r)
      ensures status == 201 <==> Stores(r) && faults.record.Answered?
      ensures status == 201 || status == 413 || status == 500
      ensures r.write.Wrote? <==> old(Admits(Contents(), maxBytes, r, contentLength))
      ensures status == 413 <==> !faults.usage && (r.write.NotCalled? || r.write.out.OverQuota?)
      ensures r.write.Wrote? && r.write.out.OverQuota? ==> !Fits(body, r.limit)
      ensures r.write.Wrote? && Sound(storeFaults) && ReadsCleanly(body, r.limit) ==> !r.write.out.Failed?
    {
      r := Save(key, body, 0, NotCalled, faults);
      if faults.usage { return SERVER_ERROR, r; }
      var headroom, replacing := Measure(key, maxBytes, faults.lookup);
      if headroom <= 0 { return TOO_LARGE, r; }
      if contentLength > 0 && contentLength > headroom { return TOO_LARGE, r; }
      status, r := WriteAndRecord(key, body, headroom, replacing, faults, storeFaults);
    }

    method HandleUpload(key: Key, body: Body, contentLength: int, faults: SaveFaults, storeFaults: Faults)
      returns (status: int, r: Request)
      requires Valid()
      modifies this`rows, store, store.scratch
      ensures Valid()
      ensures r.Save? && r.key == key && r.body == body && r.faults == faults
      ensures old(Possible(Contents(), Cap(key.userId), r))
      ensures Contents() == After(old(Contents()), r)
      ensures status == 201 <==> Stores(r) && faults.record.Answered?
      ensures status == 400 <==> !ValidName(key.name)
      ensures status == 201 || status == 400 || status == 413 || status == 500
      ensures r.write.Wrote? <==> ValidName(key.name) && old(Admits(Contents(), Cap(key.userId), r, contentLength))
      ensures status == 413 <==>
        ValidName(key.name) && !faults.quota && !faults.usage && (r.write.NotCalled? || r.write.out.OverQuota?)
      ensures r.write.Wrote? && Sound(storeFaults) && ReadsCleanly(body, r.limit) ==> !r.write.out.Failed?
      ensures key.userId in overrides && Counted(old(rows), key.userId, overrides[key.userId]) ==>
        UploadCounts(old(rows), rows, overrides[key.userId], r, contentLength, Sound(storeFaults), status)
      ensures key.userId !in overrides && Counted(old(rows), key.userId, defaultQuota) ==>
        UploadCounts(old(rows), rows, defaultQuota, r, contentLength, Sound(storeFaults), status)
    {
      r := Save(key, body, 0, NotCalled, faults);
      if !ValidName(key.name) { return BAD_REQUEST, r; }
      if faults.quota { return SERVER_ERROR, r; }
      var maxBytes := Cap(key.userId);
      ghost var w := Contents();
      status, r := UploadUnder(maxBytes, key, body, contentLength, faults, storeFaults);
      if Counted(w.rows, key.userId, maxBytes) { UploadMeaning(w, maxBytes, r, contentLength, Sound(storeFaults), status); }
    }

    method DeleteRow(key: Key, rowDelete: Net) returns (ok: bool)
      modifies this`rows
      ensures ok == rowDelete.Answered?
      ensures rows == if rowDelete.Refused? then old(rows) else old(rows) - {key}
    {
      if !rowDelete.Refused? {
        rows := rows - {key};
      }
      ok := rowDelete.Answered?;
    }

    method HandleDelete(key: Key, faults: DropFaults) returns (status: int)
      requires Valid()
      modifies this, store
      ensures Valid() && overrides == old(overrides)
      ensures Contents() == After(old(Contents()), Drop(key, faults))
      ensures status == 204 <==> old(Drops(Contents(), Drop(key, faults))) && faults.rowDelete.Answered?
      ensures status == 404 <==> key !in old(rows) && !faults.lookup
      ensures status == 204 || status == 404 || status == 500
    {
      if faults.lookup { return SERVER_ERROR; }
      if key !in rows { return NOT_FOUND; }
      var ok := DeleteRow(key, faults.rowDelete);
      if !ok { return SERVER_ERROR; }
      var _ := store.Remove(key, faults.remove);
      return NO_CONTENT;
    }
  }

  lemma PrevWithinUsage(w: World, key: Key)
    ensures key in w.rows ==> w.rows[key].size <= Total(Sizes(w.rows, key.userId))
  {
    if key in w.rows {
      assert key.name in Sizes(w.rows, key.userId);
      TotalSplit(Sizes(w.rows, key.userId), key.name);
    }
  }

  /** The names that are accepted: one to two hundred letters, digits, dots, underscores and dashes, the first a
      letter or a digit, and no two dots in a row. */
  lemma NamesAccepted(name: string)
    ensures ValidName(name) <==>
      && 1 <= |name| <= 200
      && ('A' <= name[0] <= 'Z' || 'a' <= name[0] <= 'z' || '0' <= name[0] <= '9')
      && (forall i :: 0 <= i < |name| ==>
            'A' <= name[i] <= 'Z' || 'a' <= name[i] <= 'z' || '0' <= name[i] <= '9'
            || name[i] == '.' || name[i] == '_' || name[i] == '-')
      && !(exists i :: 0 <= i < |name| - 1 && name[i] == '.' && name[i + 1] == '.')
  {
  }
}
