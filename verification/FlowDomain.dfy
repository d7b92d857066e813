/**
 The same life in terms of files and advisory locks: every writer holds a shared lock on the data file it
 has open, and a flow may be removed by whoever obtains the exclusive lock.
 */
module FlowDomain {
  import opened Lifecycle

  datatype Lock = Lock(inode: nat, exclusive: bool)

  /** The descriptor each writer has open, the locks by descriptor, and which writer has which descriptor. */
  datatype Table = Table(files: map<Handle, nat>, locks: map<nat, Lock>, owner: map<nat, Handle>, nextFd: nat)

  /** A descriptor with a lock is that of a writer, and the lock is a shared one on the writer's file. */
  predicate LockOwned(writers: map<Handle, Entry>, t: Table, f: nat) {
    f in t.locks ==>
      && f < t.nextFd && f in t.owner && t.owner[f] in writers && t.owner[f] in t.files && t.files[t.owner[f]] == f
      && t.locks[f] == Lock(writers[t.owner[f]].inode, false)
  }

  predicate WriterLocks(writers: map<Handle, Entry>, t: Table, h: Handle) {
    h in writers ==> h in t.files && t.files[h] in t.locks && t.files[h] in t.owner && t.owner[t.files[h]] == h
  }

  ghost predicate Consistent(writers: map<Handle, Entry>, t: Table) {
    (forall f :: LockOwned(writers, t, f)) && (forall h :: WriterLocks(writers, t, h))
  }

  /** What a writer and its descriptor have to do with each other. */
  lemma {:induction false} OwnLock(writers: map<Handle, Entry>, t: Table, h: Handle)
    requires Consistent(writers, t) && h in writers
    ensures h in t.files && t.files[h] in t.locks && t.locks[t.files[h]] == Lock(writers[h].inode, false)
    ensures t.files[h] in t.owner && t.owner[t.files[h]] == h && t.files[h] < t.nextFd
  {
    assert WriterLocks(writers, t, h);
    assert LockOwned(writers, t, t.files[h]);
  }

  lemma {:induction false} AddWriter(writers: map<Handle, Entry>, t: Table, h: Handle, inode: nat, fd: nat)
    requires Consistent(writers, t) && h !in writers && fd >= t.nextFd
    ensures Consistent(writers[h := Entry(1, inode)],
                       Table(t.files[h := fd], t.locks[fd := Lock(inode, false)], t.owner[fd := h], fd + 1))
  {
    var writers' := writers[h := Entry(1, inode)];
    var t' := Table(t.files[h := fd], t.locks[fd := Lock(inode, false)], t.owner[fd := h], fd + 1);
    forall f
      ensures LockOwned(writers', t', f)
    {
      assert LockOwned(writers, t, f);
    }
    forall g
      ensures WriterLocks(writers', t', g)
    {
      if g in writers {
        OwnLock(writers, t, g);
      }
    }
  }

  lemma {:induction false} Recount(writers: map<Handle, Entry>, t: Table, h: Handle, refs: nat, nextFd: nat)
    requires Consistent(writers, t) && h in writers && nextFd >= t.nextFd
    ensures Consistent(writers[h := writers[h].(refs := refs)], t.(nextFd := nextFd))
  {
    var writers', t' := writers[h := writers[h].(refs := refs)], t.(nextFd := nextFd);
    forall f
      ensures LockOwned(writers', t', f)
    {
      assert LockOwned(writers, t, f);
    }
    forall g
      ensures WriterLocks(writers', t', g)
    {
      assert WriterLocks(writers, t, g);
    }
  }

  lemma {:induction false} DropWriter(writers: map<Handle, Entry>, t: Table, h: Handle)
    requires Consistent(writers, t) && h in writers && h in t.files
    ensures var f := t.files[h]; Consistent(writers - {h}, Table(t.files - {h}, t.locks - {f}, t.owner - {f}, t.nextFd))
  {
    var fd := t.files[h];
    var writers', t' := writers - {h}, Table(t.files - {h}, t.locks - {fd}, t.owner - {fd}, t.nextFd);
    OwnLock(writers, t, h);
    forall f
      ensures LockOwned(writers', t', f)
    {
      assert LockOwned(writers, t, f);
    }
    forall g
      ensures WriterLocks(writers', t', g)
    {
      assert WriterLocks(writers, t, g);
    }
  }

  function FilesOf(files: map<Handle, nat>, instance: nat): set<nat> {
    set h | h in files && h.instance == instance :: files[h]
  }

  function OtherFiles(files: map<Handle, nat>, instance: nat): map<Handle, nat> {
    map h | h in files && h.instance != instance :: files[h]
  }

  lemma {:induction false} DropInstance(writers: map<Handle, Entry>, t: Table, instance: nat)
    requires Consistent(writers, t) && t.files.Keys == writers.Keys
    ensures var fds := FilesOf(t.files, instance);
      Consistent(Without(writers, instance),
                 Table(OtherFiles(t.files, instance), t.locks - fds, t.owner - fds, t.nextFd))
  {
    var fds := FilesOf(t.files, instance);
    var writers' := Without(writers, instance);
    var t' := Table(OtherFiles(t.files, instance), t.locks - fds, t.owner - fds, t.nextFd);
    forall f
      ensures LockOwned(writers', t', f)
    {
      assert LockOwned(writers, t, f);
    }
    forall g
      ensures WriterLocks(writers', t', g)
    {
      assert WriterLocks(writers, t, g);
      if g in writers' && t.files[g] in fds {
        var h :| h in t.files && h.instance == instance && t.files[h] == t.files[g];
        OwnLock(writers, t, h);
        assert false;
      }
    }
  }

  /** Some other descriptor has a lock on the file. */
  ghost predicate Contended(locks: map<nat, Lock>, fd: nat, inode: nat) {
    exists f :: f in locks && f != fd && locks[f].inode == inode
  }

  /** A writer's file is locked by another descriptor exactly when another instance writes the flow. */
  lemma {:induction false} LockedElsewhere(d: Domain, t: Table, h: Handle)
    requires d.Valid() && Consistent(d.writers, t) && h in d.writers && h in t.files
    ensures Contended(t.locks, t.files[h], d.writers[h].inode) <==> d.LiveElsewhere(h.id, h.instance)
  {
    OwnLock(d.writers, t, h);
    if f :| f in t.locks && f != t.files[h] && t.locks[f].inode == d.writers[h].inode {
      assert LockOwned(d.writers, t, f);
      var g := t.owner[f];
      assert g.id == h.id && g.instance != h.instance;
    }
    if d.LiveElsewhere(h.id, h.instance) {
      var g :| g in d.writers && g.id == h.id && g.instance != h.instance;
      OwnLock(d.writers, t, g);
    }
  }

  /** A published file is locked at all exactly when some instance writes the flow. */
  lemma {:induction false} LockedAtAll(d: Domain, t: Table, id: nat, fd: nat)
    requires d.Valid() && Consistent(d.writers, t) && id in d.published && fd >= t.nextFd
    ensures Contended(t.locks, fd, d.published[id]) <==> d.Live(id)
  {
    if f :| f in t.locks && f != fd && t.locks[f].inode == d.published[id] {
      assert LockOwned(d.writers, t, f);
      assert t.owner[f].id == id;
    }
    if d.Live(id) {
      var g :| g in d.writers && g.id == id;
      OwnLock(d.writers, t, g);
    }
  }

  lemma {:induction false} LocksTell(d: Domain, t: Table)
    requires d.Valid() && Consistent(d.writers, t)
    ensures forall f | f in t.locks :: f < t.nextFd
    ensures forall id, fd | id in d.published && fd >= t.nextFd ::
      Contended(t.locks, fd, d.published[id]) <==> d.Live(id)
  {
    forall f | f in t.locks
      ensures f < t.nextFd
    {
      assert LockOwned(d.writers, t, f);
    }
    forall id, fd | id in d.published && fd >= t.nextFd
      ensures Contended(t.locks, fd, d.published[id]) <==> d.Live(id)
    {
      LockedAtAll(d, t, id, fd);
    }
  }

  lemma {:induction false} MoreDescriptors(writers: map<Handle, Entry>, t: Table, nextFd: nat)
    requires Consistent(writers, t) && nextFd >= t.nextFd
    ensures Consistent(writers, t.(nextFd := nextFd))
  {
    forall f
      ensures LockOwned(writers, t.(nextFd := nextFd), f)
    {
      assert LockOwned(writers, t, f);
    }
    forall g
      ensures WriterLocks(writers, t.(nextFd := nextFd), g)
    {
      assert WriterLocks(writers, t, g);
    }
  }

  class World {
    /** The flows in the directory, the writers of all instances, and the descriptor each has open. */
    var published: map<nat, nat>
    var writers: map<Handle, Entry>
    var files: map<Handle, nat>
    /** The advisory locks by descriptor. */
    var locks: map<nat, Lock>
    var nextInode: nat
    var nextFd: nat

    /** Which writer has the descriptor open. */
    ghost var owner: map<nat, Handle>

    ghost function View(): Domain
      reads this
    {
      Domain(published, writers, nextInode)
    }

    ghost function Files(): Table
      reads this
    {
      Table(files, locks, owner, nextFd)
    }

    ghost predicate Valid()
      reads this
    {
      View().Valid() && Consistent(writers, Files()) && files.Keys == writers.Keys
    }

    constructor ()
      ensures Valid() && View() == EMPTY
    {
      published, writers, files, locks, nextInode, nextFd, owner := map[], map[], map[], map[], 0, 0, map[];
    }

    // --- Files and locks --------------------------------------------------------------------------

    /** Opens a file and takes the shared lock; fails, with the file closed again, if that would block. */
    method OpenShared(inode: nat) returns (ok: bool, fd: nat)
      modifies this`locks, this`nextFd
      ensures fd == old(nextFd) && nextFd == fd + 1
      ensures ok <==> forall f | f in old(locks) :: !(old(locks)[f].inode == inode && old(locks)[f].exclusive)
      ensures locks == if ok then old(locks)[fd := Lock(inode, false)] else old(locks)
    {
      fd := nextFd;
      nextFd := nextFd + 1;
      ok := forall f | f in locks :: !(locks[f].inode == inode && locks[f].exclusive);
      if ok {
        locks := locks[fd := Lock(inode, false)];
      }
    }

    method Close(fd: nat)
      modifies this`locks
      ensures locks == old(locks) - {fd}
    {
      locks := locks - {fd};
    }

    /** Takes or upgrades to the exclusive lock, unless another descriptor has any lock on the file. */
    method TryExclusive(fd: nat, inode: nat) returns (ok: bool)
      modifies this`locks
      ensures ok <==> !Contended(old(locks), fd, inode)
      ensures locks == if ok then old(locks)[fd := Lock(inode, true)] else old(locks)
    {
      ok := forall f | f in locks :: f != fd ==> locks[f].inode != inode;
      if ok {
        locks := locks[fd := Lock(inode, true)];
      }
    }

    /** A writer's way to the exclusive lock: nothing to do if it has it already. */
    method MakeExclusive(fd: nat, inode: nat) returns (ok: bool)
      requires fd in locks && locks[fd].inode == inode
      modifies this`locks
      ensures ok <==> old(locks)[fd].exclusive || !Contended(old(locks), fd, inode)
      ensures locks == if ok then old(locks)[fd := Lock(inode, true)] else old(locks)
    {
      if locks[fd].exclusive {
        assert locks[fd := Lock(inode, true)] == locks;
        return true;
      }
      ok := TryExclusive(fd, inode);
    }

    method DeleteFlow(id: nat) returns (removed: bool)
      modifies this`published
      ensures removed <==> id in old(published)
      ensures published == old(published) - {id}
    {
      removed := id in published;
      published := published - {id};
    }

    /** Publishing renames a prepared directory; it fails if the flow is there already. */
    method Publish(id: nat, inode: nat) returns (ok: bool)
      modifies this`published
      ensures ok <==> id !in old(published)
      ensures published == if ok then old(published)[id := inode] else old(published)
    {
      ok := id !in published;
      if ok {
        published := published[id := inode];
      }
    }

    // --- The calls ----------------------------------------------------------------------------------

    /** Makes and publishes the flow, or opens the one that is there; `created` says which. */
    method CreateOrOpenFlow(id: nat) returns (created: bool, fd: nat, inode: nat)
      requires forall f | f in locks :: f < nextFd && !locks[f].exclusive
      modifies this`locks, this`published, this`nextInode, this`nextFd
      ensures created <==> id !in old(published)
      ensures inode == if created then old(nextInode) else old(published)[id]
      ensures published == old(published)[id := inode] && nextInode == old(nextInode) + 1
      ensures fd >= old(nextFd) && nextFd == fd + 1 && locks == old(locks)[fd := Lock(inode, false)]
    {
      inode := nextInode;
      nextInode := nextInode + 1;
      var ok;
      ok, fd := OpenShared(inode);
      created := Publish(id, inode);
      if !created {
        var temporary := fd;
        inode := published[id];
        ok, fd := OpenShared(inode);
        Close(temporary);
        assert published == published[id := inode];
      }
    }

    /** A new writer keeps the descriptor it was given; another reference to a writer does not need one. */
    method AddReference(h: Handle, fd: nat, inode: nat, ghost t: Table)
      requires Consistent(writers, t) && files == t.files && owner == t.owner && files.Keys == writers.Keys
      requires fd >= t.nextFd && nextFd == fd + 1 && locks == t.locks[fd := Lock(inode, false)]
      modifies this`writers, this`files, this`owner, this`locks
      ensures Consistent(writers, Files()) && files.Keys == writers.Keys
      ensures var was := old(writers);
        writers == was[h := if h in was then was[h].(refs := was[h].refs + 1) else Entry(1, inode)]
    {
      if h in writers {
        Recount(writers, t, h, writers[h].refs + 1, nextFd);
        writers := writers[h := writers[h].(refs := writers[h].refs + 1)];
        assert fd !in t.locks by {
          assert LockOwned(old(writers), t, fd);
        }
        Close(fd);
        assert Files() == t.(nextFd := nextFd);
      } else {
        AddWriter(writers, t, h, inode, fd);
        writers, files := writers[h := Entry(1, inode)], files[h := fd];
        owner := owner[fd := h];
      }
    }

    method CreateFlowWriter(instance: nat, id: nat) returns (created: bool)
      requires Valid()
      modifies this
      ensures Valid() && View() == CreateStep(old(View()), instance, id)
      ensures created <==> id !in old(published)
    {
      ghost var d, t := View(), Files();
      forall f | f in locks
        ensures f < nextFd && !locks[f].exclusive
      {
        assert LockOwned(writers, t, f);
      }
      var fd, inode;
      created, fd, inode := CreateOrOpenFlow(id);
      AddReference(Handle(instance, id), fd, inode, t);
      assert View() == CreateStep(d, instance, id);
      CreateValid(d, instance, id);
    }

    /** The last reference: the flow goes too if the exclusive lock can be had. */
    method RemoveWriter(h: Handle)
      requires Consistent(writers, Files()) && files.Keys == writers.Keys && h in writers
      modifies this`writers, this`files, this`locks, this`owner, this`published
      ensures Consistent(writers, Files()) && files.Keys == writers.Keys && writers == old(writers) - {h}
      ensures published ==
              if old(Contended(locks, files[h], writers[h].inode)) then old(published) else old(published) - {h.id}
    {
      ghost var t := Files();
      var fd := files[h];
      OwnLock(writers, t, h);
      DropWriter(writers, t, h);
      var last := MakeExclusive(fd, writers[h].inode);
      if last {
        var _ := DeleteFlow(h.id);
      }
      writers, files := writers - {h}, files - {h};
      Close(fd);
      owner := owner - {fd};
      assert Files() == Table(t.files - {h}, t.locks - {fd}, t.owner - {fd}, t.nextFd);
    }

    method ReleaseWriter(instance: nat, id: nat)
      requires Valid()
      modifies this
      ensures Valid() && View() == ReleaseStep(old(View()), instance, id)
    {
      ghost var d := View();
      var h := Handle(instance, id);
      if h in writers {
        if writers[h].refs > 1 {
          Recount(writers, Files(), h, writers[h].refs - 1, nextFd);
          writers := writers[h := writers[h].(refs := writers[h].refs - 1)];
        } else {
          LockedElsewhere(d, Files(), h);
          RemoveWriter(h);
        }
      }
      assert View() == ReleaseStep(d, instance, id);
      ReleaseValid(d, instance, id);
    }

    /** The end of a process: the kernel closes its files, and with them go the locks. */
    method Crash(instance: nat)
      requires Valid()
      modifies this
      ensures Valid() && View() == CrashStep(old(View()), instance)
    {
      ghost var d := View();
      CloseAll(instance, Files());
      CrashValid(d, instance);
    }

    /** `t` is the table before some of the locks of these writers became exclusive. */
    method CloseAll(instance: nat, ghost t: Table)
      requires Consistent(writers, t) && files == t.files && owner == t.owner && nextFd == t.nextFd
      requires files.Keys == writers.Keys
      requires locks - FilesOf(files, instance) == t.locks - FilesOf(files, instance)
      modifies this`locks, this`writers, this`files, this`owner
      ensures writers == Without(old(writers), instance) && Consistent(writers, Files()) && files.Keys == writers.Keys
    {
      DropInstance(writers, t, instance);
      var fds := FilesOf(files, instance);
      locks, owner := locks - fds, owner - fds;
      files := OtherFiles(files, instance);
      writers := Without(writers, instance);
      assert Files() == Table(OtherFiles(t.files, instance), t.locks - fds, t.owner - fds, t.nextFd);
    }

    /** One writer of the instance tries for the exclusive lock. */
    method DeleteOwnFlow(h: Handle, ghost d: Domain, ghost t: Table, ghost done: set<Handle>)
      requires Consistent(d.writers, t) && writers == d.writers && files == t.files
      requires h in writers && h in files && h !in done
      requires Contended(t.locks, t.files[h], d.writers[h].inode) <==> d.LiveElsewhere(h.id, h.instance)
      requires Upgraded(t, locks, done) && published == Remaining(d, done)
      modifies this`locks, this`published
      ensures Upgraded(t, locks, done + {h}) && published == Remaining(d, done + {h})
    {
      UpgradedSame(d, t, locks, done, h);
      UpgradedNext(d.writers, t, locks, if d.LiveElsewhere(h.id, h.instance) then locks
                                        else locks[files[h] := Lock(writers[h].inode, true)], done, h);
      RemainingNext(d, done, h);
      var last := MakeExclusive(files[h], writers[h].inode);
      if last {
        var _ := DeleteFlow(h.id);
      }
    }

    /** Every writer of the instance in turn, whatever its references. */
    method DeleteOwnFlows(mine: set<Handle>, ghost d: Domain, ghost t: Table)
      requires Consistent(d.writers, t) && View() == d && Files() == t && mine <= d.writers.Keys == t.files.Keys
      requires forall h | h in mine ::
        Contended(t.locks, t.files[h], d.writers[h].inode) <==> d.LiveElsewhere(h.id, h.instance)
      modifies this`locks, this`published
      ensures Upgraded(t, locks, mine) && published == Remaining(d, mine)
    {
      var rest := mine;
      ghost var done := {};
      assert published == Remaining(d, done);
      while rest != {}
        invariant rest <= mine && done == mine - rest
        invariant Upgraded(t, locks, done) && published == Remaining(d, done)
        decreases |rest|
      {
        var h :| h in rest;
        DeleteOwnFlow(h, d, t, done);
        assert mine - (rest - {h}) == done + {h};
        rest, done := rest - {h}, done + {h};
      }
      assert done == mine;
    }

    /** The end of an instance in order: whatever flow it alone still writes is removed. */
    method Destroy(instance: nat)
      requires Valid()
      modifies this
      ensures Valid() && View() == DestroyStep(old(View()), instance)
    {
      ghost var d, t := View(), Files();
      var mine := set h | h in writers && h.instance == instance;
      forall h | h in mine
        ensures Contended(t.locks, t.files[h], d.writers[h].inode) <==> d.LiveElsewhere(h.id, h.instance)
      {
        LockedElsewhere(d, t, h);
      }
      DeleteOwnFlows(mine, d, t);
      UpgradedRest(d.writers, t, locks, mine, instance);
      CloseAll(instance, t);
      assert published == DestroyStep(d, instance).published;
      DestroyValid(d, instance);
    }

    /** Looks at every published flow, removes those whose file it can lock, and counts them. */
    method GarbageCollect() returns (count: nat)
      requires Valid()
      modifies this
      ensures Valid() && View() == CollectStep(old(View()))
      ensures count == |old(published)| - |published|
    {
      ghost var d, t := View(), Files();
      LocksTell(d, t);
      count := CollectFlows(published.Keys, d, t);
      CollectedAll(d);
      CollectValid(d);
      MoreDescriptors(d.writers, t, nextFd);
      assert Files() == t.(nextFd := nextFd) && View() == CollectStep(d);
    }

    /** One flow: removed if nobody at all has a lock on its file. */
    method CollectFlow(id: nat) returns (removed: bool)
      requires id in published && forall f | f in locks :: f < nextFd
      modifies this`locks, this`published, this`nextFd
      ensures locks == old(locks) && nextFd == old(nextFd) + 1
      ensures removed <==> !Contended(old(locks), old(nextFd), old(published)[id])
      ensures published == if removed then old(published) - {id} else old(published)
      ensures |published| == |old(published)| - if removed then 1 else 0
    {
      var fd := nextFd;
      nextFd := nextFd + 1;
      removed := TryExclusive(fd, published[id]);
      Close(fd);
      assert locks == old(locks);
      if removed {
        var _ := DeleteFlow(id);
        FewerFlows(old(published), id);
      }
    }

    method CollectFlows(entries: set<nat>, ghost d: Domain, ghost t: Table) returns (count: nat)
      requires View() == d && Files() == t && entries == d.published.Keys
      requires forall f | f in t.locks :: f < t.nextFd
      requires forall id, fd | id in entries && fd >= t.nextFd ::
        Contended(t.locks, fd, d.published[id]) <==> d.Live(id)
      modifies this`locks, this`published, this`nextFd
      ensures nextFd >= t.nextFd && locks == t.locks
      ensures published == Collected(d, entries) && count == |d.published| - |published|
    {
      var rest := entries;
      ghost var seen := {};
      count := 0;
      assert published == Collected(d, seen);
      while rest != {}
        invariant rest <= entries && seen == entries - rest
        invariant locks == t.locks && nextFd >= t.nextFd
        invariant published == Collected(d, seen) && count == |d.published| - |published|
        decreases |rest|
      {
        var id :| id in rest;
        CollectedNext(d, seen, id);
        var removed := CollectFlow(id);
        count := count + if removed then 1 else 0;
        assert entries - (rest - {id}) == seen + {id};
        rest, seen := rest - {id}, seen + {id};
      }
      assert seen == entries;
    }
  }

  lemma {:induction false} FewerFlows(published: map<nat, nat>, id: nat)
    requires id in published
    ensures |published - {id}| == |published| - 1
  {
    assert (published - {id}).Keys == published.Keys - {id};
  }

  /** What is left of the published flows once a collection has looked at those in `seen`. */
  ghost function Collected(d: Domain, seen: set<nat>): map<nat, nat> {
    map id | id in d.published && (id in seen ==> d.Live(id)) :: d.published[id]
  }

  lemma {:induction false} CollectedAll(d: Domain)
    ensures Collected(d, d.published.Keys) == CollectStep(d).published
  {
  }

  lemma {:induction false} CollectedNext(d: Domain, seen: set<nat>, id: nat)
    ensures Collected(d, seen + {id}) == if d.Live(id) then Collected(d, seen) else Collected(d, seen) - {id}
  {
  }

  /** What is left of the published flows once the writers in `done` have been dealt with. */
  ghost function Remaining(d: Domain, done: set<Handle>): map<nat, nat> {
    map id | id in d.published && (forall h | h in done :: h.id == id ==> d.LiveElsewhere(id, h.instance)) ::
      d.published[id]
  }

  lemma {:induction false} RemainingNext(d: Domain, done: set<Handle>, h: Handle)
    ensures Remaining(d, done + {h}) ==
            if d.LiveElsewhere(h.id, h.instance) then Remaining(d, done) else Remaining(d, done) - {h.id}
  {
  }

  /** Some of the locks of the writers in `done` have become exclusive; nothing else has changed. */
  ghost predicate Upgraded(t: Table, locks: map<nat, Lock>, done: set<Handle>) {
    && locks.Keys == t.locks.Keys
    && (forall f | f in locks :: locks[f].inode == t.locks[f].inode)
    && (forall f | f in locks && f in t.owner && t.owner[f] !in done :: locks[f] == t.locks[f])
  }

  lemma {:induction false} UpgradedSame(d: Domain, t: Table, locks: map<nat, Lock>, done: set<Handle>, h: Handle)
    requires Consistent(d.writers, t) && Upgraded(t, locks, done) && h in d.writers && h in t.files && h !in done
    ensures t.files[h] in locks && locks[t.files[h]] == Lock(d.writers[h].inode, false)
    ensures Contended(locks, t.files[h], d.writers[h].inode) <==> Contended(t.locks, t.files[h], d.writers[h].inode)
  {
    OwnLock(d.writers, t, h);
  }

  lemma {:induction false} UpgradedNext(writers: map<Handle, Entry>, t: Table, locks: map<nat, Lock>,
                                        locks': map<nat, Lock>, done: set<Handle>, h: Handle)
    requires Consistent(writers, t) && Upgraded(t, locks, done) && h in writers && h in t.files
    requires locks' == locks || locks' == locks[t.files[h] := Lock(writers[h].inode, true)]
    ensures Upgraded(t, locks', done + {h})
  {
    OwnLock(writers, t, h);
  }

  /** Once these files are closed, no trace of the exclusive locks is left. */
  lemma {:induction false} UpgradedRest(writers: map<Handle, Entry>, t: Table, locks: map<nat, Lock>,
                                        mine: set<Handle>, instance: nat)
    requires Consistent(writers, t) && Upgraded(t, locks, mine)
    requires forall h | h in mine :: h in writers && h.instance == instance
    ensures locks - FilesOf(t.files, instance) == t.locks - FilesOf(t.files, instance)
  {
    forall f | f in locks && f !in FilesOf(t.files, instance)
      ensures locks[f] == t.locks[f]
    {
      assert LockOwned(writers, t, f);
    }
  }
}
