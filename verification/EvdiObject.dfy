/**
 The persistent kernel mapping of an EVDI buffer object, as patched.

 Kernel calls are counters: a successful `dma_buf_vmap` adds one to the buffer's mapping counter
 and yields a non-null address, a failed one changes nothing; page pins and local mappings
 likewise. Only the references that this mapping owns are counted.
 */
module EvdiObject {
  import opened Wire

  /** Imported through an iosys_map, imported through a plain address, or backed by own pages. */
  datatype Kind = ImportMap | ImportAddress | Local

  /** mapped: `vmapping` is not null; counter: dma-buf mappings; pins: page pins; areas: local mappings. */
  datatype Gem = Gem(kind: Kind, mapped: bool, counter: int, pins: int, areas: int)

  /** What the kernel will answer to the calls that one mapping attempt may make. */
  datatype Kernel = Kernel(mapOk: bool, pinOk: bool, areaOk: bool)

  function Fresh(kind: Kind): (g: Gem) {
    Gem(kind, false, 0, 0, 0)
  }

  /** One reference of each sort that this kind of object needs when mapped, none otherwise. */
  predicate Balanced(g: Gem) {
    if g.kind.Local? then g.counter == 0 && g.pins == g.areas == Bit(g.mapped)
    else g.counter == Bit(g.mapped) && g.pins == g.areas == 0
  }

  /** The kernel grants every call that mapping this kind of object needs. */
  predicate Granted(kind: Kind, k: Kernel) {
    if kind.Local? then k.pinOk && k.areaOk else k.mapOk
  }

  /** What was needed and free is taken once: one mapping for an import, one pin and one area for own pages. */
  predicate Gains(g: Gem, g': Gem) {
    && g'.kind == g.kind && g'.mapped && !g.mapped
    && g'.counter == g.counter + Bit(!g.kind.Local?)
    && g'.pins == g.pins + Bit(g.kind.Local?) && g'.areas == g.areas + Bit(g.kind.Local?)
  }

  /** Mapping shares an existing mapping, makes one, or fails without a trace. */
  function AfterVmap(g: Gem, k: Kernel): (g': Gem)
    ensures Balanced(g) ==> Balanced(g')
    ensures g'.mapped <==> g.mapped || (g.kind.Local? && k.pinOk && k.areaOk) || (!g.kind.Local? && k.mapOk)
    ensures g' == g || Gains(g, g')
  {
    if g.mapped || !Granted(g.kind, k) then g
    else if g.kind.Local? then g.(mapped := true, pins := g.pins + 1, areas := g.areas + 1)
    else g.(mapped := true, counter := g.counter + 1)
  }

  function AfterVunmap(g: Gem): (g': Gem)
    ensures Balanced(g) ==> g' == Fresh(g.kind)
  {
    if !g.mapped then g
    else if g.kind.Local? then g.(mapped := false, pins := g.pins - 1, areas := g.areas - 1)
    else g.(mapped := false, counter := g.counter - 1)
  }

  // ---------- The driver's functions ----------

  class GemObject {
    const kind: Kind
    var vmapping: bool
    var counter: int
    var pins: int
    var areas: int

    ghost function View(): (g: Gem)
      reads this
    {
      Gem(kind, vmapping, counter, pins, areas)
    }

    constructor (kind: Kind)
      ensures View() == Fresh(kind)
    {
      this.kind := kind;
      vmapping, counter, pins, areas := false, 0, 0, 0;
    }

    /** `evdi_gem_vmap` between lock and unlock; `ok` is a zero return value. */
    method Vmap(k: Kernel) returns (ok: bool)
      modifies this
      ensures View() == AfterVmap(old(View()), k)
      ensures ok <==> vmapping
      ensures ok <==> old(vmapping) || (kind.Local? && k.pinOk && k.areaOk) || (!kind.Local? && k.mapOk)
      ensures if ok && !old(vmapping) then Gains(old(View()), View()) else View() == old(View())
    {
      if vmapping {
        return true;
      }
      if kind.ImportMap? || kind.ImportAddress? {
        if k.mapOk {
          counter := counter + 1;
          vmapping := true;
        }
        return k.mapOk;
      }
      if !k.pinOk {
        return false;
      }
      pins := pins + 1;
      if k.areaOk {
        areas := areas + 1;
      }
      vmapping := k.areaOk;
      if !vmapping {
        pins := pins - 1;
        return false;
      }
      return true;
    }

    /** `evdi_gem_vunmap`: does nothing when there is no mapping. */
    method Vunmap()
      modifies this
      ensures View() == AfterVunmap(old(View()))
    {
      if !vmapping {
        return;
      }
      if kind.ImportMap? || kind.ImportAddress? {
        counter := counter - 1;
        vmapping := false;
        return;
      }
      if vmapping {
        areas := areas - 1;
        vmapping := false;
      }
      pins := pins - 1;
    }

    /** `evdi_gem_free_object`: the buffer is released with no reference left. */
    method FreeObject()
      requires Balanced(View())
      modifies this
      ensures View() == Fresh(kind)
    {
      Vunmap();
    }
  }
}
