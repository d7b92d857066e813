/**
 The life of flows in a domain shared by any number of instances: what each call does to the published
 flows and their writers, and what no run of calls can do.
 */
module Lifecycle {
  /** A writer belongs to one instance and one flow. */
  datatype Handle = Handle(instance: nat, id: nat)

  datatype Entry = Entry(refs: nat, inode: nat)

  /** `published` gives the inode of the data file of each flow in the domain. */
  datatype Domain = Domain(published: map<nat, nat>, writers: map<Handle, Entry>, nextInode: nat) {
    ghost predicate Live(id: nat) {
      exists h :: h in writers && h.id == id
    }

    ghost predicate LiveElsewhere(id: nat, instance: nat) {
      exists h :: h in writers && h.id == id && h.instance != instance
    }

    /** Every writer is on the published file of its flow, and no two flows share a file. */
    ghost predicate Valid() {
      && (forall h | h in writers :: h.id in published && published[h.id] == writers[h].inode && writers[h].refs >= 1)
      && (forall a, b | a in published && b in published && a != b :: published[a] != published[b])
      && (forall a | a in published :: published[a] < nextInode)
    }
  }

  datatype Action =
    | Create(instance: nat, id: nat)
    | Release(instance: nat, id: nat)
    | Crash(instance: nat)
    | Destroy(instance: nat)
    | Collect

  /** A fresh file is made and published unless the flow is there already; a second reference is counted. */
  function CreateStep(d: Domain, instance: nat, id: nat): Domain {
    var h := Handle(instance, id);
    var published := if id in d.published then d.published else d.published[id := d.nextInode];
    var entry := if h in d.writers then d.writers[h].(refs := d.writers[h].refs + 1) else Entry(1, published[id]);
    Domain(published, d.writers[h := entry], d.nextInode + 1)
  }

  /** The last reference of the last writer takes the flow with it. */
  ghost function ReleaseStep(d: Domain, instance: nat, id: nat): Domain {
    var h := Handle(instance, id);
    if h !in d.writers then d
    else if d.writers[h].refs > 1 then d.(writers := d.writers[h := d.writers[h].(refs := d.writers[h].refs - 1)])
    else Domain(if d.LiveElsewhere(id, instance) then d.published else d.published - {id}, d.writers - {h}, d.nextInode)
  }

  function Without(writers: map<Handle, Entry>, instance: nat): map<Handle, Entry> {
    map h | h in writers && h.instance != instance :: writers[h]
  }

  /** The writers go and the flows stay. */
  function CrashStep(d: Domain, instance: nat): Domain {
    d.(writers := Without(d.writers, instance))
  }

  /** The writers go, whatever their references, and with them the flows nobody else writes. */
  ghost function DestroyStep(d: Domain, instance: nat): Domain {
    Domain(map id | id in d.published && (Handle(instance, id) !in d.writers || d.LiveElsewhere(id, instance)) ::
             d.published[id],
           Without(d.writers, instance), d.nextInode)
  }

  /** The flows without a writer go. */
  ghost function CollectStep(d: Domain): Domain {
    d.(published := map id | id in d.published && d.Live(id) :: d.published[id])
  }

  ghost function Step(d: Domain, a: Action): Domain {
    match a
    case Create(instance, id) => CreateStep(d, instance, id)
    case Release(instance, id) => ReleaseStep(d, instance, id)
    case Crash(instance) => CrashStep(d, instance)
    case Destroy(instance) => DestroyStep(d, instance)
    case Collect => CollectStep(d)
  }

  ghost function After(d: Domain, run: seq<Action>): Domain
    decreases |run|
  {
    if run == [] then d else After(Step(d, run[0]), run[1..])
  }

  const EMPTY := Domain(map[], map[], 0)

  lemma {:induction false} CreateValid(d: Domain, instance: nat, id: nat)
    requires d.Valid()
    ensures CreateStep(d, instance, id).Valid()
  {
  }

  lemma {:induction false} ReleaseValid(d: Domain, instance: nat, id: nat)
    requires d.Valid()
    ensures ReleaseStep(d, instance, id).Valid()
  {
    var e, h := ReleaseStep(d, instance, id), Handle(instance, id);
    forall g | g in e.writers
      ensures g.id in e.published
    {
      assert g.id == id && g != h ==> g.instance != instance;
    }
  }

  lemma {:induction false} CrashValid(d: Domain, instance: nat)
    requires d.Valid()
    ensures CrashStep(d, instance).Valid()
  {
  }

  lemma {:induction false} DestroyValid(d: Domain, instance: nat)
    requires d.Valid()
    ensures DestroyStep(d, instance).Valid()
  {
  }

  lemma {:induction false} CollectValid(d: Domain)
    requires d.Valid()
    ensures CollectStep(d).Valid()
  {
  }

  lemma {:induction false} StepValid(d: Domain, a: Action)
    requires d.Valid()
    ensures Step(d, a).Valid()
  {
    match a
    case Create(instance, id) => CreateValid(d, instance, id);
    case Release(instance, id) => ReleaseValid(d, instance, id);
    case Crash(instance) => CrashValid(d, instance);
    case Destroy(instance) => DestroyValid(d, instance);
    case Collect => CollectValid(d);
  }

  /** In every reachable state all writers of a flow share the one published file. */
  lemma {:induction false} RunValid(d: Domain, run: seq<Action>)
    requires d.Valid()
    ensures After(d, run).Valid()
    decreases |run|
  {
    if run != [] {
      StepValid(d, run[0]);
      RunValid(Step(d, run[0]), run[1..]);
    }
  }

  lemma {:induction false} OneFilePerFlow(run: seq<Action>, h: Handle, g: Handle)
    requires var d := After(EMPTY, run); h in d.writers && g in d.writers && h.id == g.id
    ensures var d := After(EMPTY, run);
      h.id in d.published && d.writers[h].inode == d.writers[g].inode == d.published[h.id]
  {
    RunValid(EMPTY, run);
  }

  // --- What each call does, in terms of writers and published flows -----------------------------

  /** One writer more, or one reference; the flow is there, on the file it was on or else on one never used before. */
  lemma {:induction false} CreateExactly(d: Domain, h: Handle)
    requires d.Valid()
    ensures var e := After(d, [Create(h.instance, h.id)]);
      && e.writers.Keys == d.writers.Keys + {h} && e.published.Keys == d.published.Keys + {h.id}
      && (forall g | g in d.writers && g != h :: e.writers[g] == d.writers[g])
      && (forall id | id in d.published :: e.published[id] == d.published[id])
      && e.writers[h].refs == (if h in d.writers then d.writers[h].refs + 1 else 1)
      && e.writers[h].inode == e.published[h.id]
      && (h.id !in d.published ==> forall id | id in d.published :: d.published[id] < e.published[h.id])
  {
    OneStep(d, Create(h.instance, h.id));
  }

  lemma {:induction false} OneStep(d: Domain, a: Action)
    ensures After(d, [a]) == Step(d, a)
  {
    assert After(d, [a]) == After(Step(d, a), [a][1..]);
  }

  /** One reference less; with the last one the writer goes, and the flow with it unless another instance writes it. */
  lemma {:induction false} ReleaseExactly(d: Domain, h: Handle)
    requires d.Valid()
    ensures var e := After(d, [Release(h.instance, h.id)]);
      var last := h in d.writers && d.writers[h].refs == 1;
      && e.writers.Keys == (if last then d.writers.Keys - {h} else d.writers.Keys)
      && (forall g | g in e.writers && g != h :: e.writers[g] == d.writers[g])
      && (h in e.writers ==> e.writers[h] == d.writers[h].(refs := d.writers[h].refs - 1))
      && (forall id :: id in e.published <==>
           id in d.published && (last && id == h.id ==> exists g :: g in e.writers && g.id == id))
      && (forall id | id in e.published :: e.published[id] == d.published[id])
  {
    OneStep(d, Release(h.instance, h.id));
    var e := ReleaseStep(d, h.instance, h.id);
    if h in d.writers && d.writers[h].refs == 1 {
      if d.LiveElsewhere(h.id, h.instance) {
        var g :| g in d.writers && g.id == h.id && g.instance != h.instance;
        assert g in e.writers;
      } else {
        assert forall g | g in e.writers && g.id == h.id :: g.instance != h.instance;
      }
    }
  }

  /** The writers of other instances are left, as they were. */
  ghost predicate OthersLeft(d: Domain, e: Domain, instance: nat) {
    forall h :: (h in e.writers <==> h in d.writers && h.instance != instance)
                && (h in e.writers ==> e.writers[h] == d.writers[h])
  }

  /** A crash takes the writers of the instance and nothing else. */
  lemma {:induction false} CrashExactly(d: Domain, instance: nat)
    ensures var e := After(d, [Crash(instance)]); OthersLeft(d, e, instance) && e.published == d.published
  {
    OneStep(d, Crash(instance));
  }

  /** An orderly end takes the writers of the instance and the flows that nobody else writes, and nothing else. */
  lemma {:induction false} DestroyExactly(d: Domain, instance: nat)
    ensures var e := After(d, [Destroy(instance)]);
      && OthersLeft(d, e, instance)
      && (forall id :: id in e.published <==>
           id in d.published && (Handle(instance, id) in d.writers ==> exists h :: h in e.writers && h.id == id))
      && (forall id | id in e.published :: e.published[id] == d.published[id])
  {
    OneStep(d, Destroy(instance));
    var e := DestroyStep(d, instance);
    assert OthersLeft(d, e, instance);
    forall id
      ensures d.LiveElsewhere(id, instance) <==> exists h :: h in e.writers && h.id == id
    {
      if d.LiveElsewhere(id, instance) {
        var h :| h in d.writers && h.id == id && h.instance != instance;
        assert h in e.writers;
      }
    }
  }

  /** A collection takes the flows without a writer and nothing else. */
  lemma {:induction false} CollectExactly(d: Domain)
    ensures var e := After(d, [Collect]);
      && e.writers == d.writers
      && (forall id :: id in e.published <==> id in d.published && exists h :: h in d.writers && h.id == id)
      && (forall id | id in e.published :: e.published[id] == d.published[id])
  {
    OneStep(d, Collect);
  }

  /** After a crash a collection removes what only the crashed instance, or nobody, was writing. */
  lemma {:induction false} CrashThenCollect(d: Domain, instance: nat, id: nat)
    ensures var e := After(d, [Crash(instance), Collect]);
      && OthersLeft(d, e, instance)
      && (id in e.published <==>
          id in d.published && exists h :: h in d.writers && h.id == id && h.instance != instance)
  {
    var c := CrashStep(d, instance);
    assert [Crash(instance), Collect][1..] == [Collect];
    assert After(d, [Crash(instance), Collect]) == After(c, [Collect]);
    OneStep(d, Crash(instance));
    CrashExactly(d, instance);
    CollectExactly(c);
    if h :| h in d.writers && h.id == id && h.instance != instance {
      assert h in c.writers;
    }
  }

  // --- What no run can do -------------------------------------------------------------------------

  /** Does the action end this writer, or take a reference from it? */
  predicate Ends(a: Action, h: Handle) {
    match a
    case Release(instance, id) => h == Handle(instance, id)
    case Crash(instance) => h.instance == instance
    case Destroy(instance) => h.instance == instance
    case _ => false
  }

  lemma {:induction false} StepKeepsWriter(d: Domain, a: Action, h: Handle)
    requires d.Valid() && h in d.writers && !Ends(a, h)
    ensures var e := Step(d, a);
      && h in e.writers && h.id in e.published && e.published[h.id] == d.published[h.id]
      && e.writers[h].refs >= d.writers[h].refs
  {
    StepValid(d, a);
  }

  /** Whatever the others do, a flow with a writer is never removed, nor its file replaced under the writer. */
  lemma {:induction false} NeverRemoved(d: Domain, run: seq<Action>, h: Handle)
    requires d.Valid() && h in d.writers && forall a | a in run :: !Ends(a, h)
    ensures var e := After(d, run); h in e.writers && h.id in e.published && e.published[h.id] == d.published[h.id]
    decreases |run|
  {
    if run != [] {
      StepKeepsWriter(d, run[0], h);
      StepValid(d, run[0]);
      NeverRemoved(Step(d, run[0]), run[1..], h);
    }
  }

  /** Right after a collection exactly the flows with a writer are left. */
  lemma {:induction false} CollectedExactly(run: seq<Action>, id: nat)
    ensures var d := After(EMPTY, run); var e := CollectStep(d);
      (id in e.published <==> e.Live(id)) && e.writers == d.writers
      && (id in e.published ==> e.published[id] == d.published[id])
  {
    RunValid(EMPTY, run);
  }

  /** Every published flow has a writer. */
  ghost predicate NoOrphans(d: Domain) {
    forall id | id in d.published :: d.Live(id)
  }

  lemma {:induction false} StepNoOrphans(d: Domain, a: Action)
    requires d.Valid() && NoOrphans(d) && !a.Crash?
    ensures NoOrphans(Step(d, a))
  {
    var e := Step(d, a);
    forall id | id in e.published
      ensures e.Live(id)
    {
      if id in d.published {
        var h :| h in d.writers && h.id == id;
        if h !in e.writers {
          var g :| g in d.writers && g.id == id && g.instance != h.instance;
          assert g in e.writers;
        }
      } else {
        assert Handle(a.instance, id) in e.writers;
      }
    }
  }

  /** Without crashes nothing is left for a collection to do. */
  lemma {:induction false} OrderlyRun(d: Domain, run: seq<Action>)
    requires d.Valid() && NoOrphans(d) && forall a | a in run :: !a.Crash?
    ensures NoOrphans(After(d, run)) && CollectStep(After(d, run)) == After(d, run)
    decreases |run|
  {
    if run == [] {
      assert CollectStep(d).published == d.published;
    } else {
      StepValid(d, run[0]);
      StepNoOrphans(d, run[0]);
      OrderlyRun(Step(d, run[0]), run[1..]);
    }
  }

  function Creates(h: Handle, n: nat): seq<Action> {
    seq(n, _ => Create(h.instance, h.id))
  }

  function Releases(h: Handle, n: nat): seq<Action> {
    seq(n, _ => Release(h.instance, h.id))
  }

  lemma {:induction false} CountsCreates(d: Domain, h: Handle, n: nat)
    requires d.Valid() && n > 0
    ensures var e := After(d, Creates(h, n));
      e.Valid() && h in e.writers && e.writers[h].refs == n + if h in d.writers then d.writers[h].refs else 0
    decreases n
  {
    var e := CreateStep(d, h.instance, h.id);
    StepValid(d, Create(h.instance, h.id));
    assert Creates(h, n)[1..] == Creates(h, n - 1);
    if n > 1 {
      CountsCreates(e, h, n - 1);
    } else {
      assert After(d, Creates(h, n)) == e;
    }
  }

  /** A writer lasts until it has been released as often as it has been created, and no longer. */
  lemma {:induction false} CountsReleases(d: Domain, h: Handle, n: nat)
    requires d.Valid() && h in d.writers && n <= d.writers[h].refs
    ensures var e := After(d, Releases(h, n));
      && (h in e.writers <==> n < d.writers[h].refs)
      && (h.id in e.published <==> n < d.writers[h].refs || d.LiveElsewhere(h.id, h.instance))
    decreases n
  {
    if n > 0 {
      var e := ReleaseStep(d, h.instance, h.id);
      ReleaseValid(d, h.instance, h.id);
      OneRelease(d, h);
      AfterReleases(d, h, n);
      if h in e.writers {
        CountsReleases(e, h, n - 1);
      }
    }
  }

  lemma {:induction false} AfterReleases(d: Domain, h: Handle, n: nat)
    requires n > 0
    ensures After(d, Releases(h, n)) == After(ReleaseStep(d, h.instance, h.id), Releases(h, n - 1))
    ensures n == 1 ==> After(d, Releases(h, n)) == ReleaseStep(d, h.instance, h.id)
  {
    assert Releases(h, n)[1..] == Releases(h, n - 1);
  }

  /** One release takes one reference and leaves the other instances alone. */
  lemma {:induction false} OneRelease(d: Domain, h: Handle)
    requires d.Valid() && h in d.writers
    ensures var e := ReleaseStep(d, h.instance, h.id);
      && (h in e.writers <==> d.writers[h].refs > 1) && (h in e.writers ==> e.writers[h].refs == d.writers[h].refs - 1)
      && (d.LiveElsewhere(h.id, h.instance) <==> e.LiveElsewhere(h.id, h.instance))
      && (h.id in e.published <==> d.writers[h].refs > 1 || d.LiveElsewhere(h.id, h.instance))
  {
    var e := ReleaseStep(d, h.instance, h.id);
    forall g: Handle | g.instance != h.instance
      ensures g in e.writers <==> g in d.writers
    {
    }
  }
}
