/** The write-back cache answers every sequence of requests as a plain disk would. */
module CacheRuns {
  import opened SectorCache

  datatype Request = Read(sector: nat) | Store(sector: nat, data: Sector) | Flush
  datatype Reply = Failed | Contents(data: Sector) | Done

  /** A moment of a device: what reads return, what a power cut would leave, and how often it has failed. */
  datatype Device = Device(view: seq<Sector>, disk: seq<Sector>, faults: nat)

  ghost predicate InRange(d: Device, r: Request)
  {
    r.Flush? || r.sector < |d.view|
  }

  /** A disk with no cache: a request fails, and then does nothing, only if the device fails or the sector does not
      exist. */
  ghost predicate PlainStep(a: Device, r: Request, reply: Reply, b: Device)
  {
    && |b.view| == |a.view| && a.faults <= b.faults
    && (reply == Failed ==> b.view == a.view && (a.faults < b.faults || !InRange(a, r)))
    && match r
       case Read(s) => b.view == a.view && (reply == Failed || (s < |a.view| && reply == Contents(a.view[s])))
       case Store(s, data) => reply == Failed || (reply == Done && s < |a.view| && b.view == a.view[s := data])
       case Flush => b.view == a.view && (reply == Failed || (reply == Done && b.disk == b.view))
  }

  /** Every request of a run is one step. */
  ghost predicate PlainRun(devices: seq<Device>, rs: seq<Request>, replies: seq<Reply>)
  {
    && |devices| == |rs| + 1 == |replies| + 1
    && forall i :: 0 <= i < |rs| ==> PlainStep(devices[i], rs[i], replies[i], devices[i + 1])
  }

  /** The sectors once the stores that were answered have been made, and no others. */
  function Latest(disk: seq<Sector>, rs: seq<Request>, replies: seq<Reply>): (d: seq<Sector>)
    requires |rs| == |replies|
    ensures |d| == |disk|
    decreases |rs|
  {
    if rs == [] then disk
    else
      var n := |rs| - 1;
      var before := Latest(disk, rs[..n], replies[..n]);
      if rs[n].Store? && replies[n] == Done && rs[n].sector < |disk| then before[rs[n].sector := rs[n].data] else before
  }

  /** Reads return the latest store that was answered, ... */
  lemma {:induction false} ViewIsLatest(devices: seq<Device>, rs: seq<Request>, replies: seq<Reply>)
    requires PlainRun(devices, rs, replies)
    ensures devices[|rs|].view == Latest(devices[0].view, rs, replies)
    decreases |rs|
  {
    if rs != [] {
      var n := |rs| - 1;
      ViewIsLatest(devices[..n + 1], rs[..n], replies[..n]);
      assert PlainStep(devices[n], rs[n], replies[n], devices[n + 1]);
    }
  }

  /** ... and a flush that was answered has put all of them on the disk. */
  lemma Answered(devices: seq<Device>, rs: seq<Request>, replies: seq<Reply>, i: nat)
    requires PlainRun(devices, rs, replies) && i < |rs|
    ensures replies[i].Contents? ==>
              && rs[i].Read? && rs[i].sector < |devices[0].view|
              && replies[i].data == Latest(devices[0].view, rs[..i], replies[..i])[rs[i].sector]
    ensures rs[i].Flush? && replies[i] == Done ==> devices[i + 1].disk == Latest(devices[0].view, rs[..i], replies[..i])
  {
    ViewIsLatest(devices[..i + 1], rs[..i], replies[..i]);
    assert PlainStep(devices[i], rs[i], replies[i], devices[i + 1]);
  }

  method Serve(cache: Cache, r: Request) returns (reply: Reply)
    requires cache.Valid()
    modifies cache
    ensures cache.Valid()
    ensures PlainStep(Device(old(cache.Seen()), old(cache.disk), old(cache.faults)), r, reply,
                      Device(cache.Seen(), cache.disk, cache.faults))
  {
    match r
    case Read(s) =>
      var ok, data := cache.ReadSector(s);
      reply := if ok then Contents(data) else Failed;
    case Store(s, data) =>
      var ok := cache.WriteSector(s, data);
      reply := if ok then Done else Failed;
    case Flush =>
      var ok := cache.Flush();
      reply := if ok then Done else Failed;
  }

  /** Any sequence of requests, with any pattern of device failures, is answered as a plain disk would answer it. */
  method ServeAll(cache: Cache, rs: seq<Request>) returns (replies: seq<Reply>, ghost devices: seq<Device>)
    requires cache.Valid()
    modifies cache
    ensures cache.Valid() && PlainRun(devices, rs, replies)
    ensures devices[0] == Device(old(cache.Seen()), old(cache.disk), old(cache.faults))
    ensures devices[|rs|] == Device(cache.Seen(), cache.disk, cache.faults)
    ensures cache.Seen() == Latest(old(cache.Seen()), rs, replies)
    ensures cache.faults == old(cache.faults) ==>
              forall i :: 0 <= i < |rs| && InRange(devices[0], rs[i]) ==> replies[i] != Failed
  {
    hide Coherent, View, PlainStep, Latest;
    replies, devices := [], [Device(cache.Seen(), cache.disk, cache.faults)];
    var n := 0;
    while n < |rs|
      invariant n <= |rs| && cache.Valid() && PlainRun(devices, rs[..n], replies)
      invariant devices[0] == Device(old(cache.Seen()), old(cache.disk), old(cache.faults))
      invariant devices[n] == Device(cache.Seen(), cache.disk, cache.faults)
    {
      var reply := Serve(cache, rs[n]);
      replies, devices := replies + [reply], devices + [Device(cache.Seen(), cache.disk, cache.faults)];
      n := n + 1;
    }
    assert rs[..n] == rs;
    ViewIsLatest(devices, rs, replies);
    NoFaultNoFailure(devices, rs, replies);
  }

  lemma {:induction false} NoFaultNoFailure(devices: seq<Device>, rs: seq<Request>, replies: seq<Reply>)
    requires PlainRun(devices, rs, replies)
    ensures devices[0].faults <= devices[|rs|].faults && |devices[|rs|].view| == |devices[0].view|
    ensures devices[|rs|].faults == devices[0].faults ==>
              forall i :: 0 <= i < |rs| && InRange(devices[0], rs[i]) ==> replies[i] != Failed
    decreases |rs|
  {
    if rs != [] {
      var n := |rs| - 1;
      NoFaultNoFailure(devices[..n + 1], rs[..n], replies[..n]);
      assert PlainStep(devices[n], rs[n], replies[n], devices[n + 1]);
    }
  }
}
