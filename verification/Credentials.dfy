/**
 * Process identities (src/utility/process.cpp) under the Linux rules of credentials(7):
 * a process whose effective uid is 0 may take any valid id, another one only ids it already
 * holds; changing an effective id changes the file system id with it.
 */
module Credentials {
  import opened Wrappers

  datatype Creds = Creds(
    ruid: nat, euid: nat, suid: nat, fsuid: nat,
    rgid: nat, egid: nat, sgid: nat, fsgid: nat,
    groups: seq<nat>)

  /** `UserIdentity` */
  datatype Identity = Identity(uid: nat, gid: nat, groups: seq<nat>)

  /** What this kernel accepts: ids that are mapped, and lists of groups. */
  datatype Limits = Limits(uidOk: nat -> bool, gidOk: nat -> bool, groupsOk: seq<nat> -> bool)

  predicate MaySetUid(k: Limits, c: Creds, uid: nat) {
    uid == c.ruid || uid == c.euid || uid == c.suid || (c.euid == 0 && k.uidOk(uid))
  }

  predicate MaySetGid(k: Limits, c: Creds, gid: nat) {
    gid == c.rgid || gid == c.egid || gid == c.sgid || (c.euid == 0 && k.gidOk(gid))
  }

  /** An unprivileged process may only take ids it holds, and one with effective uid 0 any that is mapped as well. */
  lemma MaySetIs(k: Limits, c: Creds, id: nat)
    ensures MaySetUid(k, c, id) <==> id in {c.ruid, c.euid, c.suid} || (c.euid == 0 && k.uidOk(id))
    ensures MaySetGid(k, c, id) <==> id in {c.rgid, c.egid, c.sgid} || (c.euid == 0 && k.gidOk(id))
  {
  }

  /** Whether this process may switch to `identity`. */
  predicate SwitchPermitted(k: Limits, c: Creds, identity: Identity) {
    (c.euid == 0 ==> k.groupsOk(identity.groups)) && MaySetGid(k, c, identity.gid) && MaySetUid(k, c, identity.uid)
  }

  /** Real and saved ids are what a process can always come back to. */
  predicate SameAnchors(c: Creds, d: Creds) {
    c.ruid == d.ruid && c.suid == d.suid && c.rgid == d.rgid && c.sgid == d.sgid
  }

  class Process {
    var creds: Creds
    const limits: Limits

    constructor (creds: Creds, limits: Limits)
      ensures this.creds == creds && this.limits == limits
    {
      this.creds, this.limits := creds, limits;
    }

    // ----- System calls -----

    method Setgroups(groups: seq<nat>) returns (ok: bool)
      modifies this
      ensures ok <==> old(creds).euid == 0 && limits.groupsOk(groups)
      ensures creds == if ok then old(creds).(groups := groups) else old(creds)
    {
      ok := creds.euid == 0 && limits.groupsOk(groups);
      if ok {
        creds := creds.(groups := groups);
      }
    }

    method Setegid(gid: nat) returns (ok: bool)
      modifies this
      ensures ok <==> MaySetGid(limits, old(creds), gid)
      ensures creds == if ok then old(creds).(egid := gid, fsgid := gid) else old(creds)
    {
      ok := MaySetGid(limits, creds, gid);
      if ok {
        creds := creds.(egid := gid, fsgid := gid);
      }
    }

    method Seteuid(uid: nat) returns (ok: bool)
      modifies this
      ensures ok <==> MaySetUid(limits, old(creds), uid)
      ensures creds == if ok then old(creds).(euid := uid, fsuid := uid) else old(creds)
    {
      ok := MaySetUid(limits, creds, uid);
      if ok {
        creds := creds.(euid := uid, fsuid := uid);
      }
    }

    /** setfsuid(2) reports no error: it returns the previous file system uid either way. */
    method Setfsuid(uid: nat) returns (previous: nat)
      modifies this
      ensures previous == old(creds).fsuid
      ensures creds == if uid == old(creds).fsuid || MaySetUid(limits, old(creds), uid)
                       then old(creds).(fsuid := uid) else old(creds)
    {
      previous := creds.fsuid;
      if uid == creds.fsuid || MaySetUid(limits, creds, uid) {
        creds := creds.(fsuid := uid);
      }
    }

    // ----- libsarus -----

    method SwitchIdentity(identity: Identity) returns (r: Result<()>)
      modifies this
      ensures SameAnchors(old(creds), creds)
      // on success the process acts as `identity`, except that only a root process takes over its groups
      ensures r.Ok? ==> creds.euid == creds.fsuid == identity.uid && creds.egid == creds.fsgid == identity.gid
      ensures r.Ok? ==> creds.groups == if old(creds).euid == 0 then identity.groups else old(creds).groups
      // on failure the user ids are untouched, and the group id is back unless it could not be restored;
      // the groups are not taken back
      ensures r.Error? ==> creds.euid == old(creds).euid && creds.fsuid == old(creds).fsuid
      ensures r.Error? ==> creds.egid == old(creds).egid || !MaySetGid(limits, creds, old(creds).egid)
      ensures r.Error? ==> creds.groups == if old(creds).euid == 0 && limits.groupsOk(identity.groups)
                                           then identity.groups else old(creds).groups
      ensures r.Ok? <==> SwitchPermitted(limits, old(creds), identity)
    {
      var euid, egid := creds.euid, creds.egid;
      var ok;
      if euid == 0 {
        ok := Setgroups(identity.groups);
        if !ok {
          return Error;
        }
      }
      ok := Setegid(identity.gid);
      if !ok {
        return Error;
      }
      ok := Seteuid(identity.uid);
      if !ok {
        ok := Setegid(egid);
        return Error;
      }
      r := Ok(());
    }

    method SetFilesystemUid(identity: Identity) returns (r: Result<()>)
      modifies this
      ensures r.Ok? <==> identity.uid == old(creds).fsuid || MaySetUid(limits, old(creds), identity.uid)
      ensures creds == if r.Ok? then old(creds).(fsuid := identity.uid) else old(creds)
    {
      var previous := Setfsuid(identity.uid);
      previous := Setfsuid(identity.uid);
      if previous != identity.uid {
        return Error;
      }
      r := Ok(());
    }
  }
}
