/** VirtIO glue: the per-driver MMIO probe decision, the boot-time loop that
    registers at most one device per configured MMIO region, and the DMA
    bridge (`VirtIoHal`) between the VirtIO drivers and the kernel's
    allocator and address translation. */
module Virtio {
  import opened Common

  /** `driver_common::DeviceType`, as far as this glue distinguishes it. */
  datatype DeviceType = Block | Char | Net | Display

  /** A transport found by `probe_mmio_device`; its contents are opaque here. */
  type Transport = nat

  /** `driver_common::DevError`, by its code. */
  type DevError = nat

  /** An initialised device (`AxDeviceEnum`): its kind and an opaque identity. */
  datatype Device = Device(kind: DeviceType, id: nat)

  datatype DevResult = DevOk(dev: Device) | DevErr(err: DevError)

  /** A `VirtIoDevMeta` implementation: the device type it serves and its
      `try_new` constructor. */
  datatype DriverMeta = DriverMeta(deviceType: DeviceType, tryNew: Transport -> DevResult)

  /** The hardware side of `driver_virtio::probe_mmio_device`: what it finds at
      a virtual address and size. */
  type MmioProbe = (usize, usize) -> Option<(DeviceType, Transport)>

  /** The kernel's linear physical-to-virtual mapping. */
  datatype Mapping = Mapping(offset: usize)

  /** `axhal::mem::phys_to_virt`, on 64-bit addresses. */
  function PhysToVirt(m: Mapping, paddr: usize): (vaddr: usize)
  {
    (paddr + m.offset) % USIZE_LIMIT
  }

  /** `axhal::mem::virt_to_phys`, on 64-bit addresses. */
  function VirtToPhys(m: Mapping, vaddr: usize): (paddr: usize)
  {
    (vaddr - m.offset) % USIZE_LIMIT
  }

  /** The two translations undo each other, in both directions. */
  lemma TranslationRoundTrip(m: Mapping, a: usize)
    ensures VirtToPhys(m, PhysToVirt(m, a)) == a
    ensures PhysToVirt(m, VirtToPhys(m, a)) == a
  {
    var o := m.offset;
    if a + o < USIZE_LIMIT {
      assert PhysToVirt(m, a) == a + o;
    } else {
      assert PhysToVirt(m, a) == a + o - USIZE_LIMIT;
    }
    if a >= o {
      assert VirtToPhys(m, a) == a - o;
    } else {
      assert VirtToPhys(m, a) == a - o + USIZE_LIMIT;
    }
  }

  /** How `probe_mmio` ends: no transport at the region, a transport of another
      type, a constructor failure (the case it logs a warning for), or a device. */
  datatype Verdict = NoTransport | TypeMismatch(found: DeviceType) | InitFailed(err: DevError) | Found(dev: Device)

  /** The decision of `VirtIoDriver::<D>::probe_mmio`: probe the region at its
      virtual address; only a transport of `D`'s type is handed to `try_new`. */
  function Classify(m: Mapping, hw: MmioProbe, d: DriverMeta, base: usize, size: usize): (v: Verdict)
  {
    match hw(PhysToVirt(m, base), size)
    case None => NoTransport
    case Some((ty, transport)) =>
      if ty != d.deviceType then TypeMismatch(ty)
      else
        match d.tryNew(transport)
        case DevOk(dev) => Found(dev)
        case DevErr(e) => InitFailed(e)
  }

  /** `VirtIoDriver::<D>::probe_mmio`: the device, when one was found. */
  function ProbeMmio(m: Mapping, hw: MmioProbe, d: DriverMeta, base: usize, size: usize): (dev: Option<Device>)
  {
    match Classify(m, hw, d, base, size)
    case Found(dev) => Some(dev)
    case _ => None
  }

  /** The four outcomes of `probe_mmio` and when each happens: it yields a
      device exactly when the probe finds a transport of the driver's type and
      `try_new` accepts it, and then it is that device. */
  lemma ProbeMmioSpec(m: Mapping, hw: MmioProbe, d: DriverMeta, base: usize, size: usize)
    ensures Classify(m, hw, d, base, size).NoTransport? <==> hw(PhysToVirt(m, base), size).None?
    ensures Classify(m, hw, d, base, size).TypeMismatch? <==>
      hw(PhysToVirt(m, base), size).Some? && hw(PhysToVirt(m, base), size).value.0 != d.deviceType
    ensures Classify(m, hw, d, base, size).InitFailed? <==>
      hw(PhysToVirt(m, base), size).Some? &&
      hw(PhysToVirt(m, base), size).value.0 == d.deviceType &&
      d.tryNew(hw(PhysToVirt(m, base), size).value.1).DevErr?
    ensures ProbeMmio(m, hw, d, base, size).Some? <==>
      hw(PhysToVirt(m, base), size).Some? &&
      hw(PhysToVirt(m, base), size).value.0 == d.deviceType &&
      d.tryNew(hw(PhysToVirt(m, base), size).value.1).DevOk?
    ensures ProbeMmio(m, hw, d, base, size).Some? ==>
      ProbeMmio(m, hw, d, base, size).value == d.tryNew(hw(PhysToVirt(m, base), size).value.1).dev
  {
  }

  /** A region with no transport, or with a transport of another type, gives no
      device whatever the driver's constructor would do: `try_new` is not
      consulted. */
  lemma ProbeMmioIgnoresTryNew(m: Mapping, hw: MmioProbe, d: DriverMeta,
                               other: Transport -> DevResult, base: usize, size: usize)
    requires hw(PhysToVirt(m, base), size).None? || hw(PhysToVirt(m, base), size).value.0 != d.deviceType
    ensures ProbeMmio(m, hw, d, base, size).None?
    ensures Classify(m, hw, d.(tryNew := other), base, size) == Classify(m, hw, d, base, size)
  {
  }

  /** The inner loop of `probe_virtio_devices` for one region: the drivers in
      order, up to the first that yields a device. */
  function FirstProbe(m: Mapping, hw: MmioProbe, drivers: seq<DriverMeta>, base: usize, size: usize): (dev: Option<Device>)
  {
    if drivers == [] then None
    else
      match ProbeMmio(m, hw, drivers[0], base, size)
      case Some(dev) => Some(dev)
      case None => FirstProbe(m, hw, drivers[1..], base, size)
  }

  /** The first driver that yields a device decides, whatever the drivers after
      it would do; when none yields one the region stays empty. */
  lemma {:induction false} FirstProbeSpec(m: Mapping, hw: MmioProbe, drivers: seq<DriverMeta>,
                                          base: usize, size: usize, i: nat)
    requires i <= |drivers|
    requires forall j :: 0 <= j < i ==> ProbeMmio(m, hw, drivers[j], base, size).None?
    ensures i < |drivers| && ProbeMmio(m, hw, drivers[i], base, size).Some? ==>
      FirstProbe(m, hw, drivers, base, size) == ProbeMmio(m, hw, drivers[i], base, size)
    ensures i == |drivers| ==> FirstProbe(m, hw, drivers, base, size).None?
    decreases i
  {
    if i > 0 {
      assert ProbeMmio(m, hw, drivers[0], base, size).None?;
      forall j | 0 <= j < i - 1 ensures ProbeMmio(m, hw, drivers[1..][j], base, size).None? {
        assert drivers[1..][j] == drivers[j + 1];
      }
      FirstProbeSpec(m, hw, drivers[1..], base, size, i - 1);
      if i < |drivers| {
        assert drivers[1..][i - 1] == drivers[i];
      }
    }
  }

  predicate DistinctTypes(drivers: seq<DriverMeta>)
  {
    forall i, j :: 0 <= i < j < |drivers| ==> drivers[i].deviceType != drivers[j].deviceType
  }

  /** With one driver per device type, a region is served by the driver of the
      type found there or by none: every other driver sees a type mismatch, so
      a constructor failure leaves the region empty. */
  lemma OnlyMatchingDriver(m: Mapping, hw: MmioProbe, drivers: seq<DriverMeta>, base: usize, size: usize, i: nat)
    requires DistinctTypes(drivers) && i < |drivers|
    requires hw(PhysToVirt(m, base), size).Some? && hw(PhysToVirt(m, base), size).value.0 == drivers[i].deviceType
    ensures forall j :: 0 <= j < |drivers| && j != i ==> ProbeMmio(m, hw, drivers[j], base, size).None?
    ensures FirstProbe(m, hw, drivers, base, size) == ProbeMmio(m, hw, drivers[i], base, size)
  {
    forall j | 0 <= j < |drivers| && j != i ensures ProbeMmio(m, hw, drivers[j], base, size).None? {
      assert drivers[j].deviceType != drivers[i].deviceType;
    }
    if ProbeMmio(m, hw, drivers[i], base, size).Some? {
      FirstProbeSpec(m, hw, drivers, base, size, i);
    } else {
      FirstProbeSpec(m, hw, drivers, base, size, |drivers|);
    }
  }

  /** The devices `probe_virtio_devices` registers for a list of regions
      (base, size), in region order. */
  function ProbeAll(m: Mapping, hw: MmioProbe, drivers: seq<DriverMeta>, regions: seq<(usize, usize)>): (devs: seq<Device>)
  {
    if regions == [] then []
    else
      var last := regions[|regions| - 1];
      ProbeAll(m, hw, drivers, regions[..|regions| - 1]) +
      match FirstProbe(m, hw, drivers, last.0, last.1)
      case None => []
      case Some(dev) => [dev]
  }

  /** At most one device per region, and the regions' devices appear in the
      configured order: probing two lists of regions one after the other
      registers the same devices as probing them together. */
  lemma {:induction false} ProbeAllSpec(m: Mapping, hw: MmioProbe, drivers: seq<DriverMeta>,
                                        r1: seq<(usize, usize)>, r2: seq<(usize, usize)>)
    ensures |ProbeAll(m, hw, drivers, r1)| <= |r1|
    ensures ProbeAll(m, hw, drivers, r1 + r2) == ProbeAll(m, hw, drivers, r1) + ProbeAll(m, hw, drivers, r2)
    decreases |r1| + |r2|
  {
    if r1 != [] {
      ProbeAllSpec(m, hw, drivers, r1[..|r1| - 1], []);
    }
    if r2 == [] {
      assert r1 + r2 == r1;
    } else {
      var init := r2[..|r2| - 1];
      var last := r2[|r2| - 1];
      assert (r1 + r2)[..|r1 + r2| - 1] == r1 + init;
      ProbeAllSpec(m, hw, drivers, r1, init);
      var tail := match FirstProbe(m, hw, drivers, last.0, last.1) case None => [] case Some(dev) => [dev];
      assert ProbeAll(m, hw, drivers, r1 + r2) == (ProbeAll(m, hw, drivers, r1) + ProbeAll(m, hw, drivers, init)) + tail;
      assert ProbeAll(m, hw, drivers, r2) == ProbeAll(m, hw, drivers, init) + tail;
    }
  }

  class AllDevices {
    /** Registered devices, in registration order. */
    var devices: seq<Device>

    constructor ()
      ensures devices == []
    {
      devices := [];
    }

    /** `add_device` (not part of this model beyond registering in order). */
    method AddDevice(dev: Device)
      modifies this
      ensures devices == old(devices) + [dev]
    {
      devices := devices + [dev];
    }

    /** `probe_virtio_devices` with the `bus-mmio` feature: for each configured
        region, try the compiled-in drivers in order and register the first
        device found, then go on with the next region. */
    method ProbeVirtioDevices(m: Mapping, hw: MmioProbe, drivers: seq<DriverMeta>, regions: seq<(usize, usize)>)
      modifies this
      ensures devices == old(devices) + ProbeAll(m, hw, drivers, regions)
    {
      var r := 0;
      while r < |regions|
        invariant 0 <= r <= |regions|
        invariant devices == old(devices) + ProbeAll(m, hw, drivers, regions[..r])
      {
        var reg := regions[r];
        ghost var before := devices;
        var k := 0;
        while k < |drivers|
          invariant 0 <= k <= |drivers|
          invariant FirstProbe(m, hw, drivers, reg.0, reg.1) == FirstProbe(m, hw, drivers[k..], reg.0, reg.1)
          invariant devices == before
        {
          assert drivers[k..][0] == drivers[k];
          assert drivers[k..][1..] == drivers[k + 1..];
          var dev := ProbeMmio(m, hw, drivers[k], reg.0, reg.1);
          if dev.Some? {
            AddDevice(dev.value);
            assert devices == before + [dev.value];
            break;  // `continue` with the next region
          }
          k := k + 1;
        }
        assert regions[..r + 1][..r] == regions[..r];
        assert devices == old(devices) + ProbeAll(m, hw, drivers, regions[..r]) +
          match FirstProbe(m, hw, drivers, reg.0, reg.1) case None => [] case Some(dev) => [dev];
        r := r + 1;
      }
      assert regions[..r] == regions;
    }
  }

  /** What a HAL entry point does: return a value, or panic at an `unwrap`. */
  datatype Outcome<T> = Returns(value: T) | Panics

  /** `NonNull::<u8>::dangling()`: the alignment of `u8`. */
  const DANGLING: usize := 1

  /** `dma_alloc`, given the allocator's answer to `alloc_pages(pages, 4096)`
      (`None`: it failed): a failure yields the sentinel `(0, dangling)`;
      success yields the page's physical address and its pointer. */
  function DmaAlloc(m: Mapping, answer: Option<usize>): (r: Outcome<(usize, usize)>)
  {
    match answer
    case None => Returns((0, DANGLING))
    case Some(vaddr) =>
      if vaddr == 0 then Panics  // `NonNull::new(..).unwrap()`
      else Returns((VirtToPhys(m, vaddr), vaddr))
  }

  /** The device and the CPU see the same buffer: a successful allocation's
      physical address maps back to its pointer; a failed one is marked by
      physical address 0 and the dangling pointer. */
  lemma DmaAllocSpec(m: Mapping, answer: Option<usize>)
    ensures answer.None? ==> DmaAlloc(m, answer) == Returns((0, DANGLING))
    ensures DmaAlloc(m, answer).Panics? <==> answer == Some(0)
    ensures answer.Some? && DmaAlloc(m, answer).Returns? ==>
      DmaAlloc(m, answer).value.1 == answer.value &&
      PhysToVirt(m, DmaAlloc(m, answer).value.0) == answer.value
  {
    if answer.Some? {
      TranslationRoundTrip(m, answer.value);
    }
  }

  /** A request to the allocator's `dealloc_pages`. */
  datatype Release = Release(vaddr: usize, pages: usize)

  /** `dma_dealloc`: the status it returns and the pages it gives back. */
  function DmaDealloc(paddr: usize, vaddr: usize, pages: usize): (r: (int, Release))
  {
    (0, Release(vaddr, pages))
  }

  /** `dma_dealloc` always reports success and frees by pointer and page count;
      the physical address it is given plays no part. */
  lemma DmaDeallocSpec(paddr: usize, other: usize, vaddr: usize, pages: usize)
    ensures DmaDealloc(paddr, vaddr, pages).0 == 0
    ensures DmaDealloc(paddr, vaddr, pages).1 == Release(vaddr, pages)
    ensures DmaDealloc(paddr, vaddr, pages) == DmaDealloc(other, vaddr, pages)
  {
  }

  /** `mmio_phys_to_virt`: the mapped address, which must not be null. */
  function MmioPhysToVirt(m: Mapping, paddr: usize, size: usize): (r: Outcome<usize>)
  {
    var vaddr := PhysToVirt(m, paddr);
    if vaddr == 0 then Panics else Returns(vaddr)
  }

  /** `share`: the physical address of the buffer's first byte. */
  function Share(m: Mapping, buffer: usize): (paddr: usize)
  {
    VirtToPhys(m, buffer)
  }

  /** `unshare` does nothing: the mapping is as it was. */
  function Unshare(m: Mapping, paddr: usize, buffer: usize): (m2: Mapping)
  {
    m
  }

  /** Sharing hands the device an address that maps back to the buffer, an
      MMIO mapping is the inverse of sharing, and unsharing revokes nothing:
      the buffer can be shared again at the same address. */
  lemma ShareSpec(m: Mapping, buffer: usize, size: usize)
    ensures PhysToVirt(m, Share(m, buffer)) == buffer
    ensures buffer != 0 ==> MmioPhysToVirt(m, Share(m, buffer), size) == Returns(buffer)
    ensures MmioPhysToVirt(m, Share(m, buffer), size).Panics? <==> buffer == 0
    ensures Share(Unshare(m, Share(m, buffer), buffer), buffer) == Share(m, buffer)
  {
    TranslationRoundTrip(m, buffer);
  }
}
