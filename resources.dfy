/** `ResourceManager`: an ordered list of resources disposed of together. */
module Resources {
  import opened Outcomes

  /** A registered resource: which disposal methods it has (`hasattr`) and whether the
      method called raises. */
  datatype Resource = Resource(id: nat, hasClose: bool, hasCleanup: bool, disposalRaises: bool)

  /** Which method disposal calls. */
  datatype Via = ViaClose | ViaCleanup | NoDisposer

  /** One disposal attempt: the resource, the method called and whether it raised
      (the exception is then swallowed). */
  datatype Disposal = Disposal(id: nat, via: Via, raised: bool)

  /** Disposal of one resource: `close` if it has one, else `cleanup`, else nothing. */
  function Dispose(r: Resource): (d: Disposal)
    ensures d.id == r.id
    ensures d.via == ViaClose <==> r.hasClose
    ensures d.via == ViaCleanup <==> !r.hasClose && r.hasCleanup
    ensures d.raised <==> d.via != NoDisposer && r.disposalRaises
  {
    var via := if r.hasClose then ViaClose else if r.hasCleanup then ViaCleanup else NoDisposer;
    Disposal(r.id, via, via != NoDisposer && r.disposalRaises)
  }

  /** The disposals `cleanup` performs on `rs`, one per resource, in registration order. */
  function Disposals(rs: seq<Resource>): (ds: seq<Disposal>)
    ensures |ds| == |rs|
    ensures forall i :: 0 <= i < |rs| ==> ds[i] == Dispose(rs[i])
  {
    if rs == [] then [] else Disposals(rs[..|rs| - 1]) + [Dispose(rs[|rs| - 1])]
  }

  function Ids(ds: seq<Disposal>): seq<nat> {
    if ds == [] then [] else Ids(ds[..|ds| - 1]) + [ds[|ds| - 1].id]
  }

  function ResourceIds(rs: seq<Resource>): seq<nat> {
    if rs == [] then [] else ResourceIds(rs[..|rs| - 1]) + [rs[|rs| - 1].id]
  }

  /** Every resource is disposed of exactly once and in registration order: the disposal
      log names exactly the registered resources, in the same order, whichever of them raise. */
  lemma {:induction false} DisposalsFollowRegistration(rs: seq<Resource>)
    ensures Ids(Disposals(rs)) == ResourceIds(rs)
  {
    if rs != [] {
      var ds := Disposals(rs);
      assert ds[..|ds| - 1] == Disposals(rs[..|rs| - 1]);
      DisposalsFollowRegistration(rs[..|rs| - 1]);
    }
  }

  /** Resources registered in two batches are disposed of batch by batch. */
  lemma DisposalsAppend(a: seq<Resource>, b: seq<Resource>)
    ensures Disposals(a + b) == Disposals(a) + Disposals(b)
  {
  }

  class ResourceManager {
    var resources: seq<Resource>

    constructor ()
      ensures resources == []
    {
      resources := [];
    }

    /** `add_resource`: append to the end of the list. */
    method AddResource(r: Resource)
      modifies this
      ensures resources == old(resources) + [r]
    {
      resources := resources + [r];
    }

    /** `cleanup`: dispose of every resource in order, swallowing every disposal error,
        then empty the list. `log` records the disposals made. */
    method Cleanup() returns (log: seq<Disposal>)
      modifies this
      ensures log == Disposals(old(resources))
      ensures resources == []
    {
      log := [];
      for i := 0 to |resources|
        invariant log == Disposals(resources[..i])
      {
        var r := resources[i];
        var d: Disposal;
        if r.hasClose {
          d := Disposal(r.id, ViaClose, r.disposalRaises);
        } else if r.hasCleanup {
          d := Disposal(r.id, ViaCleanup, r.disposalRaises);
        } else {
          d := Disposal(r.id, NoDisposer, false);
        }
        // a raising disposal is logged and the loop goes on to the next resource
        log := log + [d];
        assert resources[..i + 1] == resources[..i] + [r];
      }
      assert resources[..|resources|] == resources;
      resources := [];
    }

    /** `__exit__`: clean up, and return nothing, so the body's exception (if any)
        propagates unchanged; a disposal error never replaces it. */
    method Exit(bodyError: Option<Exception>) returns (propagated: Option<Exception>, log: seq<Disposal>)
      modifies this
      ensures propagated == bodyError
      ensures log == Disposals(old(resources))
      ensures resources == []
    {
      log := Cleanup();
      propagated := bodyError;
    }
  }
}
