/** The device list of `nm/Device.js`: the `devices` setter that keeps one signal handler per
    device path, the job queue that reloads devices one job at a time with up to three
    attempts, the refresh of one device from its properties, and the reset on
    `NM_DeviceChanged`. */
module NetworkDevices {
  import opened Wrappers
  import opened DBusTypes
  import opened Framing
  import opened GattCharacteristic
  import NM = NetworkManager

  const DeviceInterface: string := "org.freedesktop.NetworkManager.Device"

  /** What a job does: reload one device (`StateChanged`, with its `objPath`) or reload the
      whole device list (`DeviceChanged`). Two jobs are the same job when their `op` and
      `data` are deep-equal, that is when their tasks are equal. */
  datatype Task = StateChanged(objPath: string) | DeviceChanged

  /** A job and how often it has been started. */
  datatype Job = Job(task: Task, count: nat)

  /** A device: its object path, the properties read from its `Device` interface, and the
      properties of its `IP4Config` object once read (`Ipv4NetInfo`). */
  datatype DeviceRec = DeviceRec(objPath: string, props: map<string, Js>, ipv4NetInfo: Option<map<string, Js>>)

  /** The object paths of the devices, in order. */
  function Paths(ds: seq<DeviceRec>): (ps: seq<string>)
    ensures |ps| == |ds| && forall k :: 0 <= k < |ds| ==> ps[k] == ds[k].objPath
  {
    seq(|ds|, k requires 0 <= k < |ds| => ds[k].objPath)
  }

  // ---------------------------------------------------------------------------------------
  // Handler registration
  // ---------------------------------------------------------------------------------------

  /** The handler table after `removeSignalHandle(p, cb)` for each `p` of `ps` in turn. */
  function RemoveEach(h: map<string, seq<NM.Callback>>, ps: seq<string>, cb: NM.Callback): map<string, seq<NM.Callback>>
    decreases |ps|
  {
    if ps == [] then h else NM.Removed(RemoveEach(h, ps[..|ps| - 1], cb), ps[|ps| - 1], cb)
  }

  /** The handler table after `addSignalHandle(p, cb)` for each `p` of `ps` in turn. */
  function AddEach(h: map<string, seq<NM.Callback>>, ps: seq<string>, cb: NM.Callback): map<string, seq<NM.Callback>>
    decreases |ps|
  {
    if ps == [] then h else NM.Added(AddEach(h, ps[..|ps| - 1], cb), ps[|ps| - 1], cb)
  }

  function Max0(x: int): nat
  {
    if x < 0 then 0 else x
  }

  /** The occurrences of `p` in `ps` are those before the last element and the last one. */
  lemma LastOccurrence(ps: seq<string>, p: string)
    requires ps != []
    ensures multiset(ps)[p] == multiset(ps[..|ps| - 1])[p] + (if ps[|ps| - 1] == p then 1 else 0)
  {
    assert ps == ps[..|ps| - 1] + [ps[|ps| - 1]];
  }

  /** Removing `cb` under each path of `ps` takes away one registration of `cb` per
      occurrence of the path, as far as there are any, and leaves other callbacks alone. */
  lemma {:induction false} RemoveEachCount(h: map<string, seq<NM.Callback>>, ps: seq<string>, cb: NM.Callback, p: string, c: NM.Callback)
    ensures NM.Count(RemoveEach(h, ps, cb), p, c) ==
              if c == cb then Max0(NM.Count(h, p, c) - multiset(ps)[p]) else NM.Count(h, p, c)
    decreases |ps|
  {
    if ps != [] {
      var n := |ps| - 1;
      RemoveEachCount(h, ps[..n], cb, p, c);
      NM.RemovedCount(RemoveEach(h, ps[..n], cb), ps[n], cb, p, c);
      LastOccurrence(ps, p);
    }
  }

  /** Adding `cb` under each path of `ps` registers it once more per occurrence of the path,
      and leaves other callbacks alone. */
  lemma {:induction false} AddEachCount(h: map<string, seq<NM.Callback>>, ps: seq<string>, cb: NM.Callback, p: string, c: NM.Callback)
    ensures NM.Count(AddEach(h, ps, cb), p, c) == NM.Count(h, p, c) + (if c == cb then multiset(ps)[p] else 0)
    decreases |ps|
  {
    if ps != [] {
      var n := |ps| - 1;
      AddEachCount(h, ps[..n], cb, p, c);
      NM.AddedCount(AddEach(h, ps[..n], cb), ps[n], cb, p, c);
      LastOccurrence(ps, p);
    }
  }

  /** `cb` is registered under each path exactly as often as the path occurs in `ps`. */
  ghost predicate Registered(h: map<string, seq<NM.Callback>>, cb: NM.Callback, ps: seq<string>)
  {
    forall p :: NM.Count(h, p, cb) == multiset(ps)[p]
  }

  /** Replacing the device list moves the handler's registrations from the old paths to the
      new ones, and no other callback's. */
  lemma Reassigned(h: map<string, seq<NM.Callback>>, cb: NM.Callback, olds: seq<string>, news: seq<string>)
    requires Registered(h, cb, olds)
    ensures Registered(AddEach(RemoveEach(h, olds, cb), news, cb), cb, news)
    ensures forall p, c :: c != cb ==> NM.Count(AddEach(RemoveEach(h, olds, cb), news, cb), p, c) == NM.Count(h, p, c)
  {
    var h' := AddEach(RemoveEach(h, olds, cb), news, cb);
    forall p, c
      ensures NM.Count(h', p, c) == if c == cb then multiset(news)[p] else NM.Count(h, p, c)
    {
      AddEachCount(RemoveEach(h, olds, cb), news, cb, p, c);
      RemoveEachCount(h, olds, cb, p, c);
    }
  }

  /** `ps.forEach(p => ctx.removeSignalHandle(p, cb))`. */
  method UnregisterAll(ctx: NM.NetworkManager, ps: seq<string>, cb: NM.Callback)
    modifies ctx
    ensures ctx.handles == RemoveEach(old(ctx.handles), ps, cb)
  {
    var i := 0;
    while i < |ps|
      invariant 0 <= i <= |ps| && ctx.handles == RemoveEach(old(ctx.handles), ps[..i], cb)
    {
      ctx.RemoveSignalHandle(ps[i], cb);
      assert ps[..i + 1][..i] == ps[..i];
      i := i + 1;
    }
    assert ps[..i] == ps;
  }

  /** `ps.forEach(p => ctx.addSignalHandle(p, cb))`. */
  method RegisterAll(ctx: NM.NetworkManager, ps: seq<string>, cb: NM.Callback)
    modifies ctx
    ensures ctx.handles == AddEach(old(ctx.handles), ps, cb)
  {
    var i := 0;
    while i < |ps|
      invariant 0 <= i <= |ps| && ctx.handles == AddEach(old(ctx.handles), ps[..i], cb)
    {
      ctx.AddSignalHandle(ps[i], cb);
      assert ps[..i + 1][..i] == ps[..i];
      i := i + 1;
    }
    assert ps[..i] == ps;
  }

  // ---------------------------------------------------------------------------------------
  // The job queue
  // ---------------------------------------------------------------------------------------

  /** `jobs.find(x => x.op === op && equal(x.data, data))` finds a job. */
  predicate Queued(jobs: seq<Job>, t: Task)
  {
    exists k :: 0 <= k < |jobs| && jobs[k].task == t
  }

  /** The queue after `newJob(op, data)`: unchanged when the same job is queued, else with
      the job appended, not yet started. */
  function Enqueued(jobs: seq<Job>, t: Task): seq<Job>
  {
    if Queued(jobs, t) then jobs else jobs + [Job(t, 0)]
  }

  /** After `newJob` the job is queued, the old queue is kept in front, at most one job is
      added, and asking again changes nothing. */
  lemma EnqueuedSpec(jobs: seq<Job>, t: Task)
    ensures Queued(Enqueued(jobs, t), t)
    ensures |jobs| <= |Enqueued(jobs, t)| <= |jobs| + 1 && Enqueued(jobs, t)[..|jobs|] == jobs
    ensures |Enqueued(jobs, t)| == |jobs| + 1 <==> !Queued(jobs, t)
    ensures Enqueued(Enqueued(jobs, t), t) == Enqueued(jobs, t)
    ensures forall u :: Queued(Enqueued(jobs, t), u) <==> Queued(jobs, u) || u == t
  {
    var js := Enqueued(jobs, t);
    if !Queued(jobs, t) {
      assert js[|jobs|].task == t;
      forall u | Queued(js, u)
        ensures Queued(jobs, u) || u == t
      {
        var k :| 0 <= k < |js| && js[k].task == u;
        if k < |jobs| {
          assert jobs[k].task == u;
        }
      }
    }
    forall u | Queued(jobs, u)
      ensures Queued(js, u)
    {
      var k :| 0 <= k < |jobs| && jobs[k].task == u;
      assert js[k].task == u;
    }
  }

  /** `newJob` adds a job exactly when none like it is queued. */
  lemma EnqueuedGrows(jobs: seq<Job>, t: Task)
    ensures |Enqueued(jobs, t)| == if Queued(jobs, t) then |jobs| else |jobs| + 1
  {
  }

  /** The queue after `newJob('StateChanged', { objPath })` for each path of `ps` in turn. */
  function EnqueueAll(jobs: seq<Job>, ps: seq<string>): seq<Job>
    decreases |ps|
  {
    if ps == [] then jobs else Enqueued(EnqueueAll(jobs, ps[..|ps| - 1]), StateChanged(ps[|ps| - 1]))
  }

  /** After queueing a reload for each path, every path has one queued, the old queue is kept
      in front, and each added job is a fresh reload of one of the paths. */
  lemma {:induction false} EnqueueAllSpec(jobs: seq<Job>, ps: seq<string>)
    ensures forall p :: p in ps ==> Queued(EnqueueAll(jobs, ps), StateChanged(p))
    ensures |jobs| <= |EnqueueAll(jobs, ps)| && EnqueueAll(jobs, ps)[..|jobs|] == jobs
    ensures forall k :: |jobs| <= k < |EnqueueAll(jobs, ps)| ==>
              EnqueueAll(jobs, ps)[k].count == 0 && EnqueueAll(jobs, ps)[k].task.StateChanged?
              && EnqueueAll(jobs, ps)[k].task.objPath in ps
    decreases |ps|
  {
    if ps != [] {
      var n := |ps| - 1;
      var pre := EnqueueAll(jobs, ps[..n]);
      EnqueueAllSpec(jobs, ps[..n]);
      EnqueuedSpec(pre, StateChanged(ps[n]));
      var js := EnqueueAll(jobs, ps);
      assert ps == ps[..n] + [ps[n]];
      forall p | p in ps
        ensures Queued(js, StateChanged(p))
      {
        if p != ps[n] {
          assert p in ps[..n];
          assert Queued(pre, StateChanged(p));
        }
      }
      assert js[..|pre|] == pre;
      assert js[..|jobs|] == pre[..|jobs|];
      forall k | |jobs| <= k < |js|
        ensures js[k].count == 0 && js[k].task.StateChanged? && js[k].task.objPath in ps
      {
        if k < |pre| {
          assert js[k] == pre[k];
          assert pre[k].task.objPath in ps[..n];
        }
      }
    }
  }

  // ---------------------------------------------------------------------------------------
  // Refreshing one device
  // ---------------------------------------------------------------------------------------

  /** `Object.assign({}, device, d, { Ipv4Info: undefined })` as written: the new properties
      over the old ones and a key `Ipv4Info` that nothing reads; the info the program keeps
      is under `Ipv4NetInfo`, which stays as it was. */
  function MergeAsWritten(dev: DeviceRec, d: map<string, Js>): (m: DeviceRec)
  {
    DeviceRec(dev.objPath, (dev.props + d)["Ipv4Info" := JUndefined], dev.ipv4NetInfo)
  }

  /** The merge as evidently intended: the new properties over the old ones, and the IPv4
      information dropped until it is read again. */
  function Merge(dev: DeviceRec, d: map<string, Js>): (m: DeviceRec)
    ensures m.objPath == dev.objPath && m.ipv4NetInfo == None
    ensures m.props.Keys == dev.props.Keys + d.Keys
    ensures forall k :: k in d ==> m.props[k] == d[k]
    ensures forall k :: k in dev.props && k !in d ==> m.props[k] == dev.props[k]
  {
    DeviceRec(dev.objPath, dev.props + d, None)
  }

  /** `device.State === 100 && device.Ip4Config && device.Ip4Config !== '/'`: the device is
      activated and has an `IP4Config` object. */
  predicate Connected(dev: DeviceRec)
  {
    && Opt(dev.props, "State") == JNum(100)
    && Truthy(Opt(dev.props, "Ip4Config")) && Opt(dev.props, "Ip4Config") != JStr("/")
  }

  /** As written, a device that was connected and has its IPv4 information keeps that
      information after a refresh reports it disconnected; the evident intent drops it. */
  lemma StaleInfoKept()
    ensures var info := map["Address" := JStr("192.168.1.5")];
            var dev := DeviceRec("/org/freedesktop/NetworkManager/Devices/3",
                                 map["State" := JNum(100), "Ip4Config" := JStr("/org/freedesktop/NetworkManager/IP4Config/7")],
                                 Some(info));
            var d := map["State" := JNum(30), "Ip4Config" := JStr("/")];
            && Connected(dev) && !Connected(MergeAsWritten(dev, d))
            && MergeAsWritten(dev, d).ipv4NetInfo == Some(info)
            && Merge(dev, d).ipv4NetInfo == None
  {
    var dev := DeviceRec("/org/freedesktop/NetworkManager/Devices/3",
                         map["State" := JNum(100), "Ip4Config" := JStr("/org/freedesktop/NetworkManager/IP4Config/7")],
                         Some(map["Address" := JStr("192.168.1.5")]));
    var d := map["State" := JNum(30), "Ip4Config" := JStr("/")];
    assert Opt(MergeAsWritten(dev, d).props, "State") == JNum(30);
  }

  /** As written, every refresh keeps whatever IPv4 information the device had. */
  lemma InfoNeverDropped(dev: DeviceRec, d: map<string, Js>)
    ensures MergeAsWritten(dev, d).ipv4NetInfo == dev.ipv4NetInfo
    ensures MergeAsWritten(dev, d).objPath == dev.objPath
    ensures forall k :: k in d && k != "Ipv4Info" ==> MergeAsWritten(dev, d).props[k] == d[k]
  {
  }

  /** The first index of a device with path `path`, `-1` when there is none (`findIndex`). */
  function FirstIndex(ds: seq<DeviceRec>, path: string): (i: int)
    ensures -1 <= i < |ds|
    ensures i == -1 ==> forall k :: 0 <= k < |ds| ==> ds[k].objPath != path
    ensures i >= 0 ==> ds[i].objPath == path && forall k :: 0 <= k < i ==> ds[k].objPath != path
    decreases |ds|
  {
    if ds == [] then -1
    else if ds[0].objPath == path then 0
    else
      var i := FirstIndex(ds[1..], path);
      if i == -1 then -1 else i + 1
  }

  // ---------------------------------------------------------------------------------------
  // The device object
  // ---------------------------------------------------------------------------------------

  /** `new Device(ctx)`. `handler` is `handleFunc`, the bound `handleSignals`, known by its
      identity. */
  class Device {
    const ctx: NM.NetworkManager
    const handler: NM.Callback
    var devices: seq<DeviceRec>
    var jobs: seq<Job>
    var working: seq<Job>
    /** A `process.nextTick(() => this.schedule())` is pending. */
    var scheduled: bool
    /** The running job has not been cancelled, so it will call its completion. */
    var live: bool

    /** One job runs at a time; a queued job has been started fewer than three times and a
        running one one to three times; the handler is registered once per device path. */
    ghost predicate Valid()
      reads this, ctx
    {
      && |working| <= 1
      && (forall j :: j in jobs ==> j.count < 3)
      && (forall j :: j in working ==> 1 <= j.count <= 3)
      && Registered(ctx.handles, handler, Paths(devices))
    }

    /** The running job was cancelled: its completion never comes, and `working` is never
        emptied. */
    predicate Stalled()
      reads this
    {
      |working| > 0 && !live
    }

    constructor (ctx: NM.NetworkManager, handler: NM.Callback)
      requires forall p :: NM.Count(ctx.handles, p, handler) == 0
      ensures Valid() && this.ctx == ctx && this.handler == handler
      ensures devices == [] && jobs == [] && working == [] && !scheduled
    {
      this.ctx := ctx;
      this.handler := handler;
      devices := [];
      jobs := [];
      working := [];
      scheduled := false;
      live := false;
    }

    /** The `devices` setter: unregisters the handler for every old device path, then
        registers it for every new one. */
    method SetDevices(v: seq<DeviceRec>)
      requires Valid()
      modifies this, ctx
      ensures Valid() && devices == v
      ensures jobs == old(jobs) && working == old(working) && scheduled == old(scheduled) && live == old(live)
      ensures ctx.handles == AddEach(RemoveEach(old(ctx.handles), Paths(old(devices)), handler), Paths(v), handler)
      ensures forall p, c :: c != handler ==> NM.Count(ctx.handles, p, c) == NM.Count(old(ctx.handles), p, c)
    {
      var olds := Paths(devices);
      ghost var h0 := ctx.handles;
      UnregisterAll(ctx, olds, handler);
      devices := v;
      RegisterAll(ctx, Paths(v), handler);
      Reassigned(h0, handler, olds, Paths(v));
    }

    /** `this.devices = [...devices.slice(0, index), device, ...devices.slice(index + 1)]`. */
    method Replace(index: nat, device: DeviceRec)
      requires Valid() && index < |devices|
      modifies this, ctx
      ensures Valid() && devices == old(devices)[index := device]
      ensures jobs == old(jobs) && working == old(working) && scheduled == old(scheduled) && live == old(live)
      ensures forall p, c :: c != handler ==> NM.Count(ctx.handles, p, c) == NM.Count(old(ctx.handles), p, c)
    {
      var updated := devices[..index] + [device] + devices[index + 1..];
      assert updated == devices[index := device];
      SetDevices(updated);
    }

    /** `reqSched()`: asks for one `schedule` on the next tick unless one is pending; the
        answer says whether a tick was asked for. */
    method ReqSched() returns (ticked: bool)
      requires Valid()
      modifies this
      ensures Valid() && scheduled && (ticked <==> !old(scheduled))
      ensures devices == old(devices) && jobs == old(jobs) && working == old(working) && live == old(live)
    {
      if scheduled {
        return false;
      }
      scheduled := true;
      ticked := true;
    }

    /** `newJob(op, data)`: nothing when the same job is queued; else the job is appended
        with count 0 and a schedule is requested. */
    method NewJob(t: Task)
      requires Valid()
      modifies this
      ensures Valid() && jobs == Enqueued(old(jobs), t)
      ensures scheduled == (old(scheduled) || !Queued(old(jobs), t))
      ensures devices == old(devices) && working == old(working) && live == old(live)
    {
      if Queued(jobs, t) {
        return;
      }
      jobs := jobs + [Job(t, 0)];
      var ticked := ReqSched();
    }

    /** `handleSignals(m)`: a `StateChanged` signal of the device interface queues a reload
        of the device at the signal's path; any other signal is ignored. */
    method HandleSignals(member: string, iface: string, path: string)
      requires Valid()
      modifies this
      ensures Valid() && devices == old(devices) && working == old(working) && live == old(live)
      ensures member == "StateChanged" && iface == DeviceInterface ==>
                jobs == Enqueued(old(jobs), StateChanged(path)) && scheduled == (old(scheduled) || !Queued(old(jobs), StateChanged(path)))
      ensures !(member == "StateChanged" && iface == DeviceInterface) ==> jobs == old(jobs) && scheduled == old(scheduled)
    {
      if member == "StateChanged" && iface == DeviceInterface {
        NewJob(StateChanged(path));
      }
    }

    /** `schedule()`, run by the pending tick: when no job runs and one is queued, the first
        queued job is taken, its count raised, and started; otherwise nothing starts. */
    method Schedule() returns (started: Option<Job>)
      requires Valid() && scheduled
      modifies this
      ensures Valid() && !scheduled && devices == old(devices)
      ensures old(working) != [] || old(jobs) == [] ==>
                started == None && jobs == old(jobs) && working == old(working) && live == old(live)
      ensures old(working) == [] && old(jobs) != [] ==>
                && started == Some(Job(old(jobs)[0].task, old(jobs)[0].count + 1))
                && jobs == old(jobs)[1..] && working == [started.value] && live
      ensures started.Some? ==> started.value.count <= 3
    {
      scheduled := false;
      if |working| > 0 || |jobs| == 0 {
        return None;
      }
      var j := jobs[0];
      assert j in jobs;
      jobs := jobs[1..];
      j := j.(count := j.count + 1);
      working := working + [j];
      live := true;
      started := Some(j);
    }

    /** `finished(err)`, the running job's completion: a failed job started fewer than three
        times goes back at the end of the queue; `working` is emptied and a schedule
        requested. */
    method Finish(failed: bool)
      requires Valid() && |working| == 1 && live
      modifies this
      ensures Valid() && working == [] && scheduled && devices == old(devices) && live == old(live)
      ensures jobs == old(jobs) + (if failed && old(working)[0].count < 3 then old(working) else [])
    {
      var j := working[0];
      if failed && j.count < 3 {
        jobs := jobs + [j];
      }
      working := [];
      var ticked := ReqSched();
    }

    /** `updateDevice(objPath, callback)` once its `GetAll` replies have come: `reply` holds
        the entries of the device's properties, `ip4` those of its `IP4Config` object, read
        only when the refreshed device is connected. The device with that path is replaced
        by its refresh and the others are kept; an unknown path fails with `EUPDATE`; a
        failed `IP4Config` read leaves the list as it was and is no error. */
    method UpdateDevice(objPath: string, reply: Result<seq<(string, Value)>>, ip4: Result<seq<(string, Value)>>)
      returns (r: Result<()>)
      requires Valid()
      modifies this, ctx
      ensures Valid() && jobs == old(jobs) && working == old(working) && scheduled == old(scheduled) && live == old(live)
      ensures forall p, c :: c != handler ==> NM.Count(ctx.handles, p, c) == NM.Count(old(ctx.handles), p, c)
      ensures reply.Err? ==> r == Err(reply.msg) && devices == old(devices) && ctx.handles == old(ctx.handles)
      ensures reply.Ok? && objPath !in Paths(old(devices)) ==>
                r == Err("EUPDATE") && devices == old(devices) && ctx.handles == old(ctx.handles)
      ensures reply.Ok? && objPath in Paths(old(devices)) ==>
                && r == Ok(())
                && var i := FirstIndex(old(devices), objPath);
                   var m := Merge(old(devices)[i], OptsMap(reply.value));
                   devices == if !Connected(m) then old(devices)[i := m]
                              else if ip4.Err? then old(devices)
                              else old(devices)[i := m.(ipv4NetInfo := Some(OptsMap(ip4.value)))]
    {
      if reply.Err? {
        return Err(reply.msg);
      }
      var d := OptsMap(reply.value);
      var index := FirstIndex(devices, objPath);
      if index == -1 {
        return Err("EUPDATE");
      }
      var device := Merge(devices[index], d);
      if Connected(device) {
        if ip4.Err? {
          return Ok(());
        }
        device := device.(ipv4NetInfo := Some(OptsMap(ip4.value)));
      }
      Replace(index, device);
      r := Ok(());
    }

    /** `handleDeviceChanged(callback)` once `initDevices` has answered with the devices
        found: they become the device list and a reload is queued for each. */
    method HandleDeviceChanged(found: Result<seq<DeviceRec>>) returns (r: Result<()>)
      requires Valid()
      modifies this, ctx
      ensures Valid() && working == old(working) && live == old(live)
      ensures found.Err? ==>
                && r == Err(found.msg) && devices == old(devices) && jobs == old(jobs)
                && scheduled == old(scheduled) && ctx.handles == old(ctx.handles)
      ensures found.Ok? ==>
                && r == Ok(()) && devices == found.value
                && ctx.handles == AddEach(RemoveEach(old(ctx.handles), Paths(old(devices)), handler), Paths(found.value), handler)
                && jobs == EnqueueAll(old(jobs), Paths(found.value))
                && scheduled == (old(scheduled) || |jobs| > |old(jobs)|)
    {
      if found.Err? {
        return Err(found.msg);
      }
      SetDevices(found.value);
      QueueReloads(Paths(found.value));
      r := Ok(());
    }

    /** `newJob('StateChanged', { objPath })` for each path of `ps` in turn. */
    method QueueReloads(ps: seq<string>)
      requires Valid()
      modifies this
      ensures Valid() && jobs == EnqueueAll(old(jobs), ps)
      ensures scheduled == (old(scheduled) || |jobs| > |old(jobs)|)
      ensures devices == old(devices) && working == old(working) && live == old(live)
    {
      var i := 0;
      while i < |ps|
        invariant 0 <= i <= |ps| && Valid()
        invariant devices == old(devices) && working == old(working) && live == old(live)
        invariant jobs == EnqueueAll(old(jobs), ps[..i]) && |jobs| >= |old(jobs)|
        invariant scheduled == (old(scheduled) || |jobs| > |old(jobs)|)
      {
        EnqueuedGrows(jobs, StateChanged(ps[i]));
        NewJob(StateChanged(ps[i]));
        assert ps[..i + 1][..i] == ps[..i];
        i := i + 1;
      }
      assert ps[..i] == ps;
    }

    /** The running reload of one device completes with the replies given. */
    method CompleteUpdate(reply: Result<seq<(string, Value)>>, ip4: Result<seq<(string, Value)>>) returns (r: Result<()>)
      requires Valid() && |working| == 1 && live && working[0].task.StateChanged?
      modifies this, ctx
      ensures Valid() && working == [] && scheduled
      ensures r.Err? <==> reply.Err? || old(working)[0].task.objPath !in Paths(old(devices))
      ensures jobs == old(jobs) + (if r.Err? && old(working)[0].count < 3 then old(working) else [])
    {
      r := UpdateDevice(working[0].task.objPath, reply, ip4);
      Finish(r.Err?);
    }

    /** The running reload of the device list completes with the devices found. */
    method CompleteDeviceChanged(found: Result<seq<DeviceRec>>) returns (r: Result<()>)
      requires Valid() && |working| == 1 && live && working[0].task == DeviceChanged
      modifies this, ctx
      ensures Valid() && working == [] && scheduled && (r.Err? <==> found.Err?)
      ensures found.Err? ==> devices == old(devices) && jobs == old(jobs) + (if old(working)[0].count < 3 then old(working) else [])
      ensures found.Ok? ==> devices == found.value && jobs == EnqueueAll(old(jobs), Paths(found.value))
    {
      r := HandleDeviceChanged(found);
      Finish(r.Err?);
    }

    /** The `NM_DeviceChanged` listener as written: the queue and the devices are cleared,
        the running job is cancelled, and a reload of the device list is queued. The
        cancelled job never completes, so `working` keeps it and nothing runs again. */
    method OnDeviceChangedAsWritten()
      requires Valid()
      modifies this, ctx
      ensures Valid() && devices == [] && jobs == [Job(DeviceChanged, 0)] && scheduled
      ensures working == old(working) && !live
      ensures old(working) != [] ==> Stalled()
    {
      jobs := [];
      SetDevices([]);
      live := false;
      NewJob(DeviceChanged);
    }

    /** The listener as evidently intended: the cancelled job is also dropped from
        `working`, so the queued reload of the device list can start. */
    method OnDeviceChanged()
      requires Valid()
      modifies this, ctx
      ensures Valid() && devices == [] && jobs == [Job(DeviceChanged, 0)] && scheduled
      ensures working == [] && !Stalled()
    {
      jobs := [];
      SetDevices([]);
      live := false;
      working := [];
      NewJob(DeviceChanged);
    }
  }

  /** As written: a reset while a reload runs leaves nothing able to start, though a reload
      of the device list is queued. */
  method StalledAfterReset() returns (started: Option<Job>, queued: seq<Job>)
    ensures started == None && queued == [Job(DeviceChanged, 0)]
  {
    var nm := new NM.NetworkManager();
    var dev := new Device(nm, 1);
    dev.NewJob(StateChanged("/org/freedesktop/NetworkManager/Devices/3"));
    var first := dev.Schedule();
    dev.OnDeviceChangedAsWritten();
    started := dev.Schedule();
    queued := dev.jobs;
  }

  /** Corrected: after the same reset the reload of the device list starts. */
  method StartsAfterReset() returns (started: Option<Job>, queued: seq<Job>)
    ensures started == Some(Job(DeviceChanged, 1)) && queued == []
  {
    var nm := new NM.NetworkManager();
    var dev := new Device(nm, 1);
    dev.NewJob(StateChanged("/org/freedesktop/NetworkManager/Devices/3"));
    var first := dev.Schedule();
    dev.OnDeviceChanged();
    started := dev.Schedule();
    queued := dev.jobs;
  }
}
