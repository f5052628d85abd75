/** The memory of page table pages, the queue of deferred updates and the page table page allocator. */
module Mmu {
  import opened Paging

  /** One element of mmu_updates. */
  datatype Update = Update(slot: Slot, val: Pte)

  /** The hypervisor takes the updates one after the other. */
  function Apply(m: Mem, q: seq<Update>): Mem {
    if q == [] then m else Apply(m, q[..|q| - 1])[q[|q| - 1].slot := q[|q| - 1].val]
  }

  /** The memories it goes through in doing so. */
  ghost function Steps(m: Mem, q: seq<Update>): seq<Mem> {
    if q == [] then [] else Steps(m, q[..|q| - 1]) + [Apply(m, q)]
  }

  lemma ApplyAppend(m: Mem, q: seq<Update>, u: Update)
    ensures Apply(m, q + [u]) == Apply(m, q)[u.slot := u.val]
    ensures Steps(m, q + [u]) == Steps(m, q) + [Apply(m, q + [u])]
  {
    assert (q + [u])[..|q|] == q;
  }

  /** A direct write commutes with updates of other pages. */
  lemma {:induction false} ApplyPut(m: Mem, q: seq<Update>, s: Slot, p: Pte)
    requires forall u :: u in q ==> u.slot != s
    ensures Apply(m[s := p], q) == Apply(m, q)[s := p]
  {
    if q != [] {
      var last := q[|q| - 1];
      assert last in q;
      ApplyPut(m, q[..|q| - 1], s, p);
    }
  }

  /** Flushing changes only entries that are queued. */
  lemma {:induction false} ApplyElsewhere(m: Mem, q: seq<Update>, page: Mfn)
    requires forall u :: u in q ==> u.slot.page != page
    ensures forall i: nat :: Get(Apply(m, q), Slot(page, i)) == Get(m, Slot(page, i))
  {
    if q != [] {
      var last := q[|q| - 1];
      assert last in q;
      ApplyElsewhere(m, q[..|q| - 1], page);
    }
  }

  /** Kernel pages lie in the kernel half and no two frames share one. */
  ghost predicate KernelPagesOk(kernelPage: map<Mfn, nat>) {
    && (forall p, q :: p in kernelPage && q in kernelPage && kernelPage[p] == kernelPage[q] ==> p == q)
    && (forall p :: p in kernelPage ==> USER_PAGES <= kernelPage[p] < PAGES)
  }

  class Mmu {
    /** Memory as it is now; queued updates are not in it. */
    var mem: Mem

    /** mmu_updates, up to mmu_update_count, and its capacity mmu_update_size. */
    var queue: seq<Update>
    const capacity: nat

    /** ptNoWrite, up to ptNoWriteCount: the table pages that still have to lose write access. */
    var noWrite: seq<Mfn>

    /** The pages pageTablePtpAlloc will hand out, in order. */
    var pool: seq<Mfn>

    /** physicalInfo's reference counts; a frame that is not in the map has count 0. */
    var count: map<Mfn, nat>

    /** What has been given back: user frames (pageTablePfnUserFree) and table pages (pageTablePtpFree). */
    var freedFrames: seq<Mfn>
    var freedPages: seq<Mfn>

    /** The memories the hypervisor has gone through, one for each update it has carried out. */
    ghost var history: seq<Mem>

    /** The page at which the kernel maps a frame. */
    const kernelPage: map<Mfn, nat>

    /** The places of the table pages of all trees. */
    ghost var place: Places

    constructor (mem: Mem, capacity: nat, pool: seq<Mfn>, kernelPage: map<Mfn, nat>, ghost place: Places)
      ensures this.mem == mem && queue == [] && this.capacity == capacity && noWrite == [] && count == map[]
      ensures this.pool == pool && this.kernelPage == kernelPage && this.place == place
    {
      this.mem, queue, this.capacity, noWrite, count := mem, [], capacity, [], map[];
      freedFrames, freedPages, history := [], [], [];
      this.pool, this.kernelPage, this.place := pool, kernelPage, place;
    }

    /** Memory as it will be once the queue has been flushed. */
    ghost function Eff(): Mem
      reads this
    {
      Apply(mem, queue)
    }

    /** The history, continued with the memories that flushing the queue will go through. */
    ghost function Trace(): seq<Mem>
      reads this
    {
      history + Steps(mem, queue)
    }

    /** _doUpdate */
    method DoUpdate()
      modifies this`mem, this`queue, this`history
      ensures mem == old(Eff()) && queue == []
      ensures history == Trace() == old(Trace())
      ensures old(PoolOk()) ==> PoolOk()
    {
      if PoolOk() {
        forall p | p in pool
          ensures ZeroPage(Eff(), p)
        {
          ApplyElsewhere(mem, queue, p);
        }
      }
      history := Trace();
      mem := Apply(mem, queue);
      queue := [];
    }

    /** _deferredUpdate */
    method DeferredUpdate(s: Slot, p: Pte)
      modifies this`mem, this`queue, this`history
      ensures Eff() == old(Eff())[s := p] && Trace() == old(Trace()) + [Eff()]
      ensures if old(|queue|) < capacity then mem == old(mem) && queue == old(queue) + [Update(s, p)]
              else mem == old(Eff()) && queue == [Update(s, p)]
      ensures old(|queue|) <= capacity && capacity > 0 ==> |queue| <= capacity
      ensures old(PoolOk()) && s.page in place ==> PoolOk()
    {
      hide ZeroPage, KernelPagesOk;
      if |queue| >= capacity {
        DoUpdate();
        assert Trace() == history;
      }
      ApplyAppend(mem, queue, Update(s, p));
      assert history + (Steps(mem, queue) + [Eff()[s := p]]) == (history + Steps(mem, queue)) + [Eff()[s := p]];
      queue := queue + [Update(s, p)];
      assert [] + [Update(s, p)] == [Update(s, p)];
    }

    /** pageTablePtpAlloc: the next page of the pool. */
    method PtpAlloc() returns (r: Option<Mfn>)
      modifies this`pool
      ensures old(pool) == [] ==> r == None && pool == []
      ensures old(pool) != [] ==> r == Some(old(pool)[0]) && pool == old(pool)[1..]
      ensures old(PoolOk()) ==> PoolOk() && (r.Some? ==> r.value !in pool && r.value in old(pool))
    {
      if pool == [] {
        r := None;
      } else {
        r := Some(pool[0]);
        pool := pool[1..];
      }
    }

    /** Pages of the pool are distinct zero pages outside every tree that no queued update names. */
    ghost predicate PoolOk()
      reads this
    {
      && KernelPagesOk(kernelPage)
      && (forall i, j :: 0 <= i < j < |pool| ==> pool[i] != pool[j])
      && (forall p :: p in pool ==> p in kernelPage && p !in place && ZeroPage(mem, p))
      && (forall u :: u in queue ==> u.slot.page in place)
    }
  }
}
