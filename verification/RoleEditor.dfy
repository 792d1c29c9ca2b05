/** The role editor: a role and its permissions are edited as one item, and saved as one request per
    permission followed by one for the role, any of which can fail. */
module RoleEditor {
  import opened FreshIds
  import opened Network

  /** A JSON list that may be null. */
  datatype Slice = Nil | Items(items: seq<string>)
  {
    function Values(): seq<string> { if Nil? then [] else items }
  }

  /** A stored permission. */
  datatype Permission = Permission(name: string, service: string, actions: Slice, resources: Slice)

  datatype Role = Role(name: string, permissionIds: seq<string>)

  /** The remote store of permissions and roles. */
  class Gatekeeper {
    var permissions: map<string, Permission>
    var roles: map<string, Role>

    constructor ()
      ensures permissions == map[] && roles == map[]
    {
      permissions, roles := map[], map[];
    }

    method GetPermission(id: string, net: Net) returns (ok: bool, p: Permission)
      ensures ok <==> net.Answered? && id in permissions
      ensures ok ==> p == permissions[id]
    {
      ok := net.Answered? && id in permissions;
      p := if ok then permissions[id] else Permission("", "", Nil, Nil);
    }

    /** Creates a permission; a reply without an id is the empty one. */
    method PostPermission(p: Permission, net: Net) returns (id: string, ghost made: string)
      modifies this`permissions
      ensures net.Refused? ==> permissions == old(permissions)
      ensures !net.Refused? ==>
        made != "" && made !in old(permissions) && permissions == old(permissions)[made := p]
      ensures id == if net.Answered? then made else ""
    {
      id, made := "", "";
      if !net.Refused? {
        var created := FreshId(permissions.Keys);
        made := created;
        permissions := permissions[created := p];
        if net.Answered? {
          id := created;
        }
      }
    }

    method PutPermission(id: string, p: Permission, net: Net) returns (ok: bool)
      modifies this`permissions
      ensures ok <==> net.Answered? && id in old(permissions)
      ensures permissions == if net.Refused? || id !in old(permissions) then old(permissions) else old(permissions)[id := p]
    {
      ok := net.Answered? && id in permissions;
      if !net.Refused? && id in permissions {
        permissions := permissions[id := p];
      }
    }

    method PostRole(r: Role, net: Net) returns (ok: bool, ghost id: string)
      modifies this`roles
      ensures ok <==> net.Answered?
      ensures id !in old(roles) && roles == if net.Refused? then old(roles) else old(roles)[id := r]
    {
      var made := FreshId(roles.Keys);
      id := made;
      ok := net.Answered?;
      if !net.Refused? {
        roles := roles[made := r];
      }
    }

    method PutRole(id: string, r: Role, net: Net) returns (ok: bool)
      modifies this`roles
      ensures ok <==> net.Answered? && id in old(roles)
      ensures roles == if net.Refused? || id !in old(roles) then old(roles) else old(roles)[id := r]
    {
      ok := net.Answered? && id in roles;
      if !net.Refused? && id in roles {
        roles := roles[id := r];
      }
    }
  }

  // ---- Permissions as edited. ----

  datatype Snapshot = NoSnapshot | Snapshot(of: Permission)

  /** A permission in the editor; its id is empty when it was added in this session. */
  datatype RolePerm = RolePerm(id: string, edited: Permission, snapshot: Snapshot, readonly: bool)

  /** The record a save asks for: null lists become empty ones. */
  function Body(p: RolePerm): Permission {
    var e := p.edited;
    Permission(e.name, e.service, Items(e.actions.Values()), Items(e.resources.Values()))
  }

  predicate Changed(p: RolePerm) { p.snapshot != Snapshot(p.edited) }

  /** The same permission, whichever way an empty list is written. */
  predicate SamePermission(a: Permission, b: Permission) {
    && a.name == b.name && a.service == b.service
    && a.actions.Values() == b.actions.Values() && a.resources.Values() == b.resources.Values()
  }

  /** How the editor opens a permission, readable or not. */
  function Opened(store: map<string, Permission>, id: string, net: Net): RolePerm {
    if net.Answered? && id in store then RolePerm(id, store[id], Snapshot(store[id]), false)
    else RolePerm(id, Permission("(unreadable)", "", Nil, Nil), NoSnapshot, true)
  }

  method Resolve(server: Gatekeeper, ids: seq<string>, nets: seq<Net>) returns (perms: seq<RolePerm>)
    requires |nets| == |ids|
    ensures |perms| == |ids| && forall i :: 0 <= i < |ids| ==> perms[i] == Opened(server.permissions, ids[i], nets[i])
  {
    perms := [];
    for i := 0 to |ids|
      invariant |perms| == i && forall j :: 0 <= j < i ==> perms[j] == Opened(server.permissions, ids[j], nets[j])
    {
      var ok, p := server.GetPermission(ids[i], nets[i]);
      if !ok {
        perms := perms + [RolePerm(ids[i], Permission("(unreadable)", "", Nil, Nil), NoSnapshot, true)];
      } else {
        perms := perms + [RolePerm(ids[i], p, Snapshot(p), false)];
      }
    }
  }

  // ---- Saving. ----

  /** The entries a save keeps: all but read-only ones without an id. */
  function Kept(perms: seq<RolePerm>): seq<RolePerm> {
    if perms == [] then []
    else
      var last := perms[|perms| - 1];
      Kept(perms[..|perms| - 1]) + if last.readonly && last.id == "" then [] else [last]
  }

  /** The editor's picture of a stored permission is current. */
  predicate Current(store: map<string, Permission>, p: RolePerm) {
    p.id != "" && !p.readonly ==> p.id in store && p.snapshot == Snapshot(store[p.id])
  }

  predicate DistinctIds(perms: seq<RolePerm>) {
    forall i, j :: 0 <= i < j < |perms| && perms[i].id != "" ==> perms[i].id != perms[j].id
  }

  /** The id under which an edited permission ended up, and its record there. */
  predicate SavedAs(before: map<string, Permission>, after: map<string, Permission>, p: RolePerm, id: string) {
    if p.readonly then id == p.id
    else
      && id in after && SamePermission(after[id], p.edited)
      && (if p.id == "" then id !in before else id == p.id && id in before && (!Changed(p) ==> after[id] == before[id]))
  }

  /** Permission j of the list was changed in the editor, and `record` is what its save asks for. */
  predicate Asked(perms: seq<RolePerm>, j: int, id: string, record: Permission) {
    && 0 <= j < |perms|
    && perms[j].id == id && !perms[j].readonly && Changed(perms[j]) && record == Body(perms[j])
  }

  /** Permission j of the list was added in the editor, and `record` is what its save asks for. */
  predicate Added(perms: seq<RolePerm>, j: int, record: Permission) {
    0 <= j < |perms| && perms[j].id == "" && !perms[j].readonly && record == Body(perms[j])
  }

  /** A record that a save put where it is: asked for of a stored permission, or for an added one. */
  ghost predicate Accounted(before: map<string, Permission>, perms: seq<RolePerm>, id: string, record: Permission) {
    exists j :: if id in before then Asked(perms, j, id, record) else Added(perms, j, record)
  }

  /** No stored permission was touched but changed ones of the list, and those only to what was asked;
      and no permission was created but for an added one of the list, as it was asked. */
  ghost predicate OnlyChanged(before: map<string, Permission>, after: map<string, Permission>, perms: seq<RolePerm>) {
    && before.Keys <= after.Keys
    && forall id :: id in after && !(id in before && after[id] == before[id]) ==> Accounted(before, perms, id, after[id])
  }

  datatype Saved = Done | PermissionFailed(index: nat) | RoleFailed

  /** Everything the loop keeps: ids and records of the first i permissions, the rest as they were. */
  ghost predicate Progress(before: map<string, Permission>, now: map<string, Permission>,
                           perms: seq<RolePerm>, i: nat, ids: seq<string>)
    requires i <= |perms|
  {
    && |ids| == |Kept(perms[..i])|
    && (forall j :: 0 <= j < |ids| ==> SavedAs(before, now, Kept(perms[..i])[j], ids[j]))
    && OnlyChanged(before, now, perms[..i])
  }

  /** The permissions from i on have not been touched. */
  ghost predicate Untouched(before: map<string, Permission>, now: map<string, Permission>, perms: seq<RolePerm>, i: nat) {
    forall j :: i <= j < |perms| && perms[j].id in before ==> perms[j].id in now && now[perms[j].id] == before[perms[j].id]
  }

  lemma {:induction false} KeptFrom(perms: seq<RolePerm>, j: nat)
    requires j < |Kept(perms)|
    ensures exists i :: 0 <= i < |perms| && perms[i] == Kept(perms)[j]
  {
    var last := |perms| - 1;
    if j < |Kept(perms[..last])| {
      KeptFrom(perms[..last], j);
      var i :| 0 <= i < last && perms[..last][i] == Kept(perms[..last])[j];
      assert perms[i] == Kept(perms)[j];
    } else {
      assert perms[last] == Kept(perms)[j];
    }
  }

  /** The store after saving permission p under `id`. */
  predicate Stored(now: map<string, Permission>, next: map<string, Permission>, p: RolePerm, id: string) {
    && !p.readonly && id != ""
    && (if p.id == "" then id !in now && next == now[id := Body(p)]
        else id == p.id && next == if Changed(p) then now[id := Body(p)] else now)
  }

  lemma AccountedLonger(before: map<string, Permission>, perms: seq<RolePerm>, n: nat, m: nat, id: string, record: Permission)
    requires n <= m <= |perms| && Accounted(before, perms[..n], id, record)
    ensures Accounted(before, perms[..m], id, record)
  {
    var j :| if id in before then Asked(perms[..n], j, id, record) else Added(perms[..n], j, record);
    assert if id in before then Asked(perms[..m], j, id, record) else Added(perms[..m], j, record);
  }

  lemma OnlyChangedLonger(before: map<string, Permission>, now: map<string, Permission>, perms: seq<RolePerm>, n: nat, m: nat)
    requires n <= m <= |perms| && OnlyChanged(before, now, perms[..n])
    ensures OnlyChanged(before, now, perms[..m])
  {
    forall k | k in now && !(k in before && now[k] == before[k]) ensures Accounted(before, perms[..m], k, now[k]) {
      AccountedLonger(before, perms, n, m, k, now[k]);
    }
  }

  lemma OnlyChangedStep(before: map<string, Permission>, now: map<string, Permission>, next: map<string, Permission>,
                        perms: seq<RolePerm>, i: nat, id: string)
    requires i < |perms| && OnlyChanged(before, now, perms[..i]) && Stored(now, next, perms[i], id)
    requires perms[i].id != "" ==> perms[i].id in before
    ensures OnlyChanged(before, next, perms[..i + 1])
  {
    OnlyChangedLonger(before, now, perms, i, i + 1);
    var upTo := perms[..i + 1];
    assert upTo[i] == perms[i];
    forall k | k in next && !(k in before && next[k] == before[k]) ensures Accounted(before, upTo, k, next[k]) {
      if !(k in now && next[k] == now[k]) {
        assert if k in before then Asked(upTo, i, k, next[k]) else Added(upTo, i, next[k]);
      }
    }
  }

  lemma KeptSnoc(perms: seq<RolePerm>, i: nat)
    requires i < |perms|
    ensures Kept(perms[..i + 1]) == Kept(perms[..i]) + if perms[i].readonly && perms[i].id == "" then [] else [perms[i]]
  {
    assert perms[..i + 1][..i] == perms[..i];
  }

  /** A permission saved earlier is not the one being saved now. */
  lemma SavedStays(before: map<string, Permission>, now: map<string, Permission>, next: map<string, Permission>,
                   perms: seq<RolePerm>, i: nat, id: string, q: RolePerm, qid: string)
    requires i < |perms| && DistinctIds(perms) && q in perms[..i] && SavedAs(before, now, q, qid)
    requires Stored(now, next, perms[i], id) && (perms[i].id != "" ==> perms[i].id in before)
    ensures SavedAs(before, next, q, qid)
  {
    if !q.readonly {
      var m :| 0 <= m < i && perms[..i][m] == q;
      assert perms[m] == q;
      assert qid != id;
    }
  }

  /** Storing the next permission under its own or a new id keeps the progress made so far. */
  lemma ProgressStep(before: map<string, Permission>, now: map<string, Permission>, next: map<string, Permission>,
                     perms: seq<RolePerm>, i: nat, ids: seq<string>, id: string)
    requires i < |perms| && DistinctIds(perms) && Current(before, perms[i])
    requires Progress(before, now, perms, i, ids) && Untouched(before, now, perms, i)
    requires Stored(now, next, perms[i], id)
    ensures Progress(before, next, perms, i + 1, ids + [id]) && Untouched(before, next, perms, i + 1)
  {
    var p := perms[i];
    KeptSnoc(perms, i);
    forall j | 0 <= j < |ids| ensures SavedAs(before, next, Kept(perms[..i])[j], ids[j]) {
      KeptFrom(perms[..i], j);
      SavedStays(before, now, next, perms, i, id, Kept(perms[..i])[j], ids[j]);
    }
    OnlyChangedStep(before, now, next, perms, i, id);
    forall j | i + 1 <= j < |perms| && perms[j].id in before
      ensures perms[j].id in next && next[perms[j].id] == before[perms[j].id]
    {
      if p.id != "" { assert perms[i].id != perms[j].id; }
    }
  }

  lemma SkipStep(before: map<string, Permission>, now: map<string, Permission>, perms: seq<RolePerm>, i: nat, ids: seq<string>)
    requires i < |perms| && perms[i].readonly
    requires Progress(before, now, perms, i, ids) && Untouched(before, now, perms, i)
    ensures Progress(before, now, perms, i + 1, if perms[i].id != "" then ids + [perms[i].id] else ids)
    ensures Untouched(before, now, perms, i + 1)
  {
    KeptSnoc(perms, i);
    OnlyChangedLonger(before, now, perms, i, i + 1);
  }

  /** One permission's requests: the id to reference, or "" when it failed. */
  method SavePermission(server: Gatekeeper, p: RolePerm, net: Net) returns (id: string)
    requires !p.readonly && (p.id != "" ==> p.id in server.permissions)
    modifies server`permissions
    ensures id != "" ==> Stored(old(server.permissions), server.permissions, p, id)
    ensures id == "" ==> (server.permissions == old(server.permissions)
                          || exists k :: Stored(old(server.permissions), server.permissions, p, k))
    ensures id == "" ==> !net.Answered?
  {
    if p.id == "" {
      ghost var made;
      id, made := server.PostPermission(Body(p), net);
      if net.ReplyLost? { assert Stored(old(server.permissions), server.permissions, p, made); }
      return;
    }
    if Changed(p) {
      var ok := server.PutPermission(p.id, Body(p), net);
      if !ok {
        if net.ReplyLost? { assert Stored(old(server.permissions), server.permissions, p, p.id); }
        return "";
      }
    }
    return p.id;
  }

  /** Saves the permissions in order; stops at the first failure. */
  method SavePermissions(server: Gatekeeper, perms: seq<RolePerm>, nets: seq<Net>) returns (r: Saved, ids: seq<string>)
    requires |nets| == |perms| && DistinctIds(perms)
    requires forall i :: 0 <= i < |perms| ==> Current(server.permissions, perms[i])
    modifies server`permissions
    ensures OnlyChanged(old(server.permissions), server.permissions, perms)
    ensures r.Done? || (r.PermissionFailed? && r.index < |perms| && !nets[r.index].Answered?)
    ensures r.Done? ==> Progress(old(server.permissions), server.permissions, perms, |perms|, ids)
  {
    ghost var before := server.permissions;
    ids := [];
    assert perms[..0] == [];
    for i := 0 to |perms|
      invariant Progress(before, server.permissions, perms, i, ids) && Untouched(before, server.permissions, perms, i)
    {
      var p := perms[i];
      assert Current(before, p);
      if p.readonly {
        SkipStep(before, server.permissions, perms, i, ids);
        if p.id != "" {
          ids := ids + [p.id];
        }
      } else {
        ghost var now := server.permissions;
        var id := SavePermission(server, p, nets[i]);
        if id == "" {
          if server.permissions != now {
            ghost var k :| Stored(now, server.permissions, p, k);
            OnlyChangedStep(before, now, server.permissions, perms, i, k);
            OnlyChangedLonger(before, server.permissions, perms, i + 1, |perms|);
          } else {
            OnlyChangedLonger(before, server.permissions, perms, i, |perms|);
          }
          assert perms[..|perms|] == perms;
          return PermissionFailed(i), ids;
        }
        ProgressStep(before, now, server.permissions, perms, i, ids, id);
        ids := ids + [id];
      }
    }
    assert perms[..|perms|] == perms;
    return Done, ids;
  }

  /** Saves a role being edited, or a new one when `edit` is false. */
  method Save(server: Gatekeeper, edit: bool, roleId: string, name: string, perms: seq<RolePerm>, nets: seq<Net>, roleNet: Net)
    returns (r: Saved, ids: seq<string>)
    requires |nets| == |perms| && DistinctIds(perms)
    requires forall i :: 0 <= i < |perms| ==> Current(server.permissions, perms[i])
    modifies server
    ensures OnlyChanged(old(server.permissions), server.permissions, perms)
    ensures r.PermissionFailed? ==> server.roles == old(server.roles)
    ensures !r.PermissionFailed? ==> Progress(old(server.permissions), server.permissions, perms, |perms|, ids)
    ensures r.Done? && edit ==> roleId in old(server.roles) && server.roles == old(server.roles)[roleId := Role(name, ids)]
    ensures r.Done? && !edit ==> exists id :: id !in old(server.roles) && server.roles == old(server.roles)[id := Role(name, ids)]
    ensures r.RoleFailed? ==> !roleNet.Answered? || (edit && roleId !in old(server.roles))
    ensures r.RoleFailed? && roleNet.Refused? ==> server.roles == old(server.roles)
  {
    r, ids := SavePermissions(server, perms, nets);
    if !r.Done? {
      return;
    }
    var ok;
    if edit {
      ok := server.PutRole(roleId, Role(name, ids), roleNet);
    } else {
      ghost var id;
      ok, id := server.PostRole(Role(name, ids), roleNet);
    }
    if !ok {
      r := RoleFailed;
    }
  }

  /** Opening a saved role shows exactly the edited permissions, in order: those that could be edited
      with the edited content, read-only ones under the same id.  All entries are kept, as read-only
      ones come from the role and have ids. */
  lemma SaveIsFaithful(before: map<string, Permission>, after: map<string, Permission>, perms: seq<RolePerm>, ids: seq<string>, i: nat)
    requires Progress(before, after, perms, |perms|, ids) && i < |ids|
    ensures |ids| == |Kept(perms)|
    ensures (forall j :: 0 <= j < |perms| ==> !(perms[j].readonly && perms[j].id == "")) ==> Kept(perms) == perms
    ensures var p, q := Kept(perms)[i], Opened(after, ids[i], Answered);
      && (p.id != "" ==> q.id == p.id)
      && (!p.readonly ==> !q.readonly && SamePermission(q.edited, p.edited))
      && (!p.readonly && p.id != "" && !Changed(p) ==> p.id in before && after[p.id] == before[p.id])
  {
    assert perms[..|perms|] == perms;
    assert SavedAs(before, after, Kept(perms)[i], ids[i]);
    if forall j :: 0 <= j < |perms| ==> !(perms[j].readonly && perms[j].id == "") { KeptAll(perms); }
  }

  /** A role opened and saved without an edit writes no permission and keeps its ids. */
  lemma {:induction false} UneditedSaveWritesNothing(before: map<string, Permission>, after: map<string, Permission>,
                                                     perms: seq<RolePerm>, ids: seq<string>)
    requires Progress(before, after, perms, |perms|, ids)
    requires forall i :: 0 <= i < |perms| ==> perms[i].id != "" && (perms[i].readonly || !Changed(perms[i]))
    ensures forall id :: id in before ==> id in after && after[id] == before[id]
    ensures |ids| == |perms| && forall i :: 0 <= i < |perms| ==> ids[i] == perms[i].id
  {
    assert perms[..|perms|] == perms;
    KeptAll(perms);
    forall i | 0 <= i < |perms| ensures ids[i] == perms[i].id {
      assert SavedAs(before, after, Kept(perms)[i], ids[i]);
    }
  }

  lemma {:induction false} KeptAll(perms: seq<RolePerm>)
    requires forall i :: 0 <= i < |perms| ==> !(perms[i].readonly && perms[i].id == "")
    ensures Kept(perms) == perms
  {
    if perms != [] {
      var last := |perms| - 1;
      KeptAll(perms[..last]);
      assert perms[..last] + [perms[last]] == perms;
    }
  }

  /** The role as the editor opens it: every permission of its ids, readable or not. */
  predicate OpenedAs(perms: seq<RolePerm>, store: map<string, Permission>, ids: seq<string>, nets: seq<Net>) {
    && |perms| == |ids| == |nets|
    && forall i :: 0 <= i < |ids| ==> perms[i] == Opened(store, ids[i], nets[i])
  }

  /** A readable permission is opened with its record and can be edited; an unreadable one cannot. */
  lemma OpenedExactly(store: map<string, Permission>, id: string, net: Net)
    ensures var p := Opened(store, id, net);
      && p.id == id
      && (net == Answered && id in store ==> p.edited == store[id] && !p.readonly)
      && (net != Answered || id !in store ==> p.readonly && p.edited == Permission("(unreadable)", "", Nil, Nil))
  {
  }

  lemma NotAsked(perms: seq<RolePerm>, i: nat)
    requires DistinctIds(perms) && i < |perms| && perms[i].id != "" && perms[i].readonly
    ensures forall j, record :: !Asked(perms, j, perms[i].id, record)
  {
    forall j, record ensures !Asked(perms, j, perms[i].id, record) {
      if 0 <= j < |perms| && perms[j].id == perms[i].id { SameEntry(perms, i, j); }
    }
  }

  lemma SameEntry(perms: seq<RolePerm>, i: nat, j: nat)
    requires DistinctIds(perms) && i < |perms| && j < |perms| && perms[i].id == perms[j].id != ""
    ensures i == j
  {
  }

  /** A permission that could not be read when the role was opened keeps its record and its place, whatever
      happened to the others. */
  lemma UnreadableIsKept(before: map<string, Permission>, after: map<string, Permission>, perms: seq<RolePerm>,
                         ids: seq<string>, i: nat, net: Net)
    requires Progress(before, after, perms, |perms|, ids) && DistinctIds(perms) && i < |perms|
    requires perms[i].id != "" && perms[i] == Opened(before, perms[i].id, net) && (net != Answered || perms[i].id !in before)
    ensures perms[i].id in ids && (perms[i].id in before ==> perms[i].id in after && after[perms[i].id] == before[perms[i].id])
  {
    assert perms[..|perms|] == perms;
    NotAsked(perms, i);
    var k := KeptEntry(perms, i);
    assert SavedAs(before, after, Kept(perms)[k], ids[k]);
  }

  /** A role opened and saved as it was opened: no record changes and its ids stay, in order. */
  lemma OpenedSavesUnchanged(before: map<string, Permission>, after: map<string, Permission>, perms: seq<RolePerm>,
                             ids: seq<string>, nets: seq<Net>, saved: seq<string>)
    requires OpenedAs(perms, before, ids, nets) && Progress(before, after, perms, |perms|, saved)
    requires forall i :: 0 <= i < |ids| ==> ids[i] != ""
    ensures (forall id :: id in before ==> id in after && after[id] == before[id]) && saved == ids
  {
    forall i | 0 <= i < |perms| ensures perms[i].id == ids[i] && (perms[i].readonly || !Changed(perms[i])) {
      assert perms[i] == Opened(before, ids[i], nets[i]);
    }
    UneditedSaveWritesNothing(before, after, perms, saved);
  }

  /** What is stored for an edited permission, field by field. */
  lemma SavedContents(before: map<string, Permission>, after: map<string, Permission>, perms: seq<RolePerm>, ids: seq<string>, i: nat)
    requires Progress(before, after, perms, |perms|, ids) && i < |perms| && !perms[i].readonly
    ensures exists k :: 0 <= k < |ids| && Holds(after, ids[k], perms[i].edited) && (perms[i].id != "" ==> ids[k] == perms[i].id)
  {
    assert perms[..|perms|] == perms;
    var k := KeptEntry(perms, i);
    assert SavedAs(before, after, Kept(perms)[k], ids[k]);
  }

  predicate Holds(store: map<string, Permission>, id: string, p: Permission) {
    && id in store && store[id].name == p.name && store[id].service == p.service
    && (p.actions.Items? && p.actions.items != [] ==> store[id].actions == p.actions)
    && (p.resources.Items? && p.resources.items != [] ==> store[id].resources == p.resources)
    && (p.actions.Nil? || p.actions.items == [] ==> store[id].actions == Nil || store[id].actions == Items([]))
    && (p.resources.Nil? || p.resources.items == [] ==> store[id].resources == Nil || store[id].resources == Items([]))
  }

  lemma {:induction false} KeptEntry(perms: seq<RolePerm>, i: nat) returns (k: nat)
    requires i < |perms| && !(perms[i].readonly && perms[i].id == "")
    ensures k < |Kept(perms)| && Kept(perms)[k] == perms[i]
  {
    var last := |perms| - 1;
    if i < last {
      k := KeptEntry(perms[..last], i);
    } else {
      k := |Kept(perms[..last])|;
    }
  }
}
