/**
 * Registering a UIO device and its sysfs attributes, with rollback (uio_hv_generic/uio.c:285-400, 979-1059).
 *
 * A kobject is a number; `puts` counts the calls of `kobject_put` on each. The calls that can fail are numbered in the
 * order in which they are made, and the environment decides which of them do.
 */
module UioAttributes {

  const ENOMEM: int := 12
  const EINVAL: int := 22
  const EPROBE_DEFER: int := 517
  const EFAILED: int := 1   // stands for whatever error a callee returns

  datatype Option<T> = None | Some(value: T)

  /** Number of leading regions with a nonzero size. */
  function Prefix(sizes: seq<nat>): (n: nat)
    ensures n <= |sizes|
    ensures forall i :: 0 <= i < n ==> sizes[i] != 0
    ensures n < |sizes| ==> sizes[n] == 0
  {
    if sizes == [] || sizes[0] == 0 then 0 else 1 + Prefix(sizes[1..])
  }

  /** `puts` and `before` differ by one put on each kobject from `lo` up to but not including `hi`. */
  ghost predicate PutRange(puts: multiset<nat>, before: multiset<nat>, lo: nat, hi: nat) {
    forall id: nat :: puts[id] == before[id] + (if lo <= id < hi then 1 else 0)
  }

  /** The fallible calls that register `n` regions: one for the directory, three for each region. */
  function CallsFor(n: nat): nat {
    if n > 0 then 1 + 3 * n else 0
  }

  /** The error of the `k`-th of them: both allocations give -ENOMEM, adding and announcing what the callee returns. */
  function RegionError(k: nat): int {
    if k == 0 || k % 3 == 1 then -ENOMEM else -EFAILED
  }

  /** The error of the `k`-th call of a registration of `maps` maps and some ports. */
  function AttributesError(maps: nat, k: nat): int {
    if k < CallsFor(maps) then RegionError(k) else RegionError(k - CallsFor(maps))
  }

  /** No call from number `lo` up to but not including `hi` fails. */
  predicate NoneFails(fails: set<nat>, lo: nat, hi: nat) {
    forall i: nat :: lo <= i < hi ==> i !in fails
  }

  /** Of the calls from `lo` up to `hi` the one before `calls` was the first to fail. */
  predicate FirstFailure(fails: set<nat>, lo: nat, calls: nat, hi: nat) {
    lo < calls <= hi && calls - 1 in fails && NoneFails(fails, lo, calls - 1)
  }

  lemma NothingPutSince(puts: multiset<nat>, id: nat)
    ensures PutRange(puts, puts, id, id)
  {}

  lemma PutTwice(puts: multiset<nat>, between: multiset<nat>, before: multiset<nat>, lo: nat, middle: nat, hi: nat)
    requires lo <= middle <= hi && PutRange(puts, between, lo, middle) && PutRange(between, before, middle, hi)
    ensures PutRange(puts, before, lo, hi)
  {}

  lemma NothingPut()
    ensures PutRange(multiset{}, multiset{}, 0, 0)
  {}

  class UioDevice {
    const memSizes: seq<nat>
    const portSizes: seq<nat>
    const memMap: array<nat>       // mem[i].map
    const portPortio: array<nat>   // port[i].portio
    const fails: set<nat>          // the numbers of the calls that fail
    var calls: nat                 // fallible calls made so far
    var mapDir: Option<nat>
    var portioDir: Option<nat>
    var next: nat                  // kobjects created so far
    ghost var puts: multiset<nat>
    var minorHeld: bool            // a minor number is allocated
    var added: bool                // between device_add and device_del
    var linked: bool               // info->uio_dev points here
    var deviceRefs: nat
    ghost var freed: nat           // how often the structure was freed

    /** The regions each have a slot for their kobject. */
    ghost predicate Slots() {
      memMap != portPortio && memMap.Length == |memSizes| && portPortio.Length == |portSizes|
    }

    /** All kobjects from `base` on belong to the registered attributes, in order of creation. */
    ghost predicate Attributes(base: nat)
      reads this, memMap, portPortio
    {
      var maps, ports := Prefix(memSizes), Prefix(portSizes);
      var portBase := base + (if maps > 0 then 1 + maps else 0);
      && Slots()
      && mapDir == (if maps > 0 then Some(base) else None)
      && (forall i :: 0 <= i < maps ==> memMap[i] == base + 1 + i)
      && portioDir == (if ports > 0 then Some(portBase) else None)
      && (forall i :: 0 <= i < ports ==> portPortio[i] == portBase + 1 + i)
      && next == portBase + (if ports > 0 then 1 + ports else 0)
    }

    constructor (memSizes: seq<nat>, portSizes: seq<nat>, created: nat, fails: set<nat>)
      ensures this.fails == fails && calls == 0
      ensures Slots() && this.memSizes == memSizes && this.portSizes == portSizes
      ensures mapDir.None? && portioDir.None? && next == created && puts == multiset{}
      ensures fresh(memMap) && fresh(portPortio)
      ensures !minorHeld && !added && !linked && deviceRefs == 0 && freed == 0
    {
      this.memSizes, this.portSizes, this.fails, calls := memSizes, portSizes, fails, 0;
      memMap, portPortio := new nat[|memSizes|](_ => 0), new nat[|portSizes|](_ => 0);
      mapDir, portioDir, next, puts := None, None, created, multiset{};
      minorHeld, added, linked, deviceRefs, freed := false, false, false, 0, 0;
    }

    method KobjectPut(kobject: Option<nat>)
      modifies this`puts
      ensures puts == if kobject.Some? then old(puts) + multiset{kobject.value} else old(puts)
    {
      if kobject.Some? {
        puts := puts + multiset{kobject.value};
      }
    }

    /** Allocation of a kobject: it may fail. */
    method CreateKobject() returns (kobject: Option<nat>)
      modifies this`next, this`calls
      ensures calls == old(calls) + 1 && (kobject.None? <==> old(calls) in fails)
      ensures kobject.None? ==> next == old(next)
      ensures kobject.Some? ==> kobject.value == old(next) && next == old(next) + 1
    {
      if calls in fails {
        kobject := None;
      } else {
        kobject := Some(next);
        next := next + 1;
      }
      calls := calls + 1;
    }

    /** `kobject_add`, `kobject_uevent` and other calls that only succeed or fail. */
    method Attempt() returns (ret: int)
      modifies this`calls
      ensures calls == old(calls) + 1 && ret == if old(calls) in fails then -EFAILED else 0
    {
      ret := if calls in fails then -EFAILED else 0;
      calls := calls + 1;
    }

    /** The first loop: a directory and a kobject for each map, up to the first of size zero. `failed` is the number
        of kobjects stored in `memMap` when an error stops it. */
    method AddMaps() returns (ret: int, failed: nat)
      requires Slots() && mapDir.None?
      modifies this`mapDir, this`next, this`calls, memMap
      ensures ret == 0 <==> NoneFails(fails, old(calls), old(calls) + CallsFor(Prefix(memSizes)))
      ensures ret == 0 ==> calls == old(calls) + CallsFor(Prefix(memSizes))
      ensures ret != 0 ==> FirstFailure(fails, old(calls), calls, old(calls) + CallsFor(Prefix(memSizes)))
                           && ret == RegionError(calls - 1 - old(calls))
      ensures ret == 0 ==>
                && var n := Prefix(memSizes);
                && mapDir == (if n > 0 then Some(old(next)) else None)
                && (forall i :: 0 <= i < n ==> memMap[i] == old(next) + 1 + i)
                && failed == n && next == old(next) + (if n > 0 then 1 + n else 0)
      ensures ret != 0 ==>
                && failed <= memMap.Length
                && (mapDir.Some? ==> mapDir.value == old(next) && next == old(next) + 1 + failed)
                && (mapDir.None? ==> failed == 0 && next == old(next))
                && forall i :: 0 <= i < failed ==> memMap[i] == old(next) + 1 + i
    {
      ret := 0;
      var mapFound := false;
      var mi := 0;
      while mi < |memSizes|
        invariant 0 <= mi <= |memSizes| && ret == 0
        invariant mi <= Prefix(memSizes)
        invariant calls == old(calls) + CallsFor(mi) && NoneFails(fails, old(calls), calls)
        invariant mapFound <==> mi > 0
        invariant mapDir == (if mapFound then Some(old(next)) else None)
        invariant forall i :: 0 <= i < mi ==> memMap[i] == old(next) + 1 + i
        invariant next == old(next) + (if mapFound then 1 + mi else 0)
      {
        if memSizes[mi] == 0 {
          break;
        }
        if !mapFound {
          mapFound := true;
          mapDir := CreateKobject();
          if mapDir.None? {
            return -ENOMEM, mi;
          }
        }
        var kobject := CreateKobject();
        if kobject.None? {
          return -ENOMEM, mi;
        }
        memMap[mi] := kobject.value;
        ret := Attempt();
        if ret != 0 {
          return ret, mi + 1;
        }
        ret := Attempt();
        if ret != 0 {
          return ret, mi + 1;
        }
        mi := mi + 1;
      }
      failed := mi;
    }

    /** The second loop, for the port regions. */
    method AddPorts() returns (ret: int, failed: nat)
      requires Slots() && portioDir.None?
      modifies this`portioDir, this`next, this`calls, portPortio
      ensures ret == 0 <==> NoneFails(fails, old(calls), old(calls) + CallsFor(Prefix(portSizes)))
      ensures ret == 0 ==> calls == old(calls) + CallsFor(Prefix(portSizes))
      ensures ret != 0 ==> FirstFailure(fails, old(calls), calls, old(calls) + CallsFor(Prefix(portSizes)))
                           && ret == RegionError(calls - 1 - old(calls))
      ensures ret == 0 ==>
                && var n := Prefix(portSizes);
                && portioDir == (if n > 0 then Some(old(next)) else None)
                && (forall i :: 0 <= i < n ==> portPortio[i] == old(next) + 1 + i)
                && failed == n && next == old(next) + (if n > 0 then 1 + n else 0)
      ensures ret != 0 ==>
                && failed <= portPortio.Length
                && (portioDir.Some? ==> portioDir.value == old(next) && next == old(next) + 1 + failed)
                && (portioDir.None? ==> failed == 0 && next == old(next))
                && forall i :: 0 <= i < failed ==> portPortio[i] == old(next) + 1 + i
    {
      ret := 0;
      var portioFound := false;
      var pi := 0;
      while pi < |portSizes|
        invariant 0 <= pi <= |portSizes| && ret == 0
        invariant pi <= Prefix(portSizes)
        invariant calls == old(calls) + CallsFor(pi) && NoneFails(fails, old(calls), calls)
        invariant portioFound <==> pi > 0
        invariant portioDir == (if portioFound then Some(old(next)) else None)
        invariant forall i :: 0 <= i < pi ==> portPortio[i] == old(next) + 1 + i
        invariant next == old(next) + (if portioFound then 1 + pi else 0)
      {
        if portSizes[pi] == 0 {
          break;
        }
        if !portioFound {
          portioFound := true;
          portioDir := CreateKobject();
          if portioDir.None? {
            return -ENOMEM, pi;
          }
        }
        var kobject := CreateKobject();
        if kobject.None? {
          return -ENOMEM, pi;
        }
        portPortio[pi] := kobject.value;
        ret := Attempt();
        if ret != 0 {
          return ret, pi + 1;
        }
        ret := Attempt();
        if ret != 0 {
          return ret, pi + 1;
        }
        pi := pi + 1;
      }
      failed := pi;
    }

    /** One unwinding loop: puts the first `count` kobjects of `slots`, last first, and then the directory. */
    method Unwind(slots: array<nat>, count: nat, dir: Option<nat>, ghost base: nat)
      requires count <= slots.Length && forall i :: 0 <= i < count ==> slots[i] == base + 1 + i
      requires if dir.Some? then dir.value == base else count == 0
      modifies this`puts
      ensures PutRange(puts, old(puts), base, if dir.Some? then base + 1 + count else base)
    {
      var i := count;
      while i > 0
        invariant 0 <= i <= count
        invariant PutRange(puts, old(puts), base + 1 + i, base + 1 + count)
      {
        i := i - 1;
        KobjectPut(Some(slots[i]));
      }
      KobjectPut(dir);
    }

    /** `uio_dev_add_attributes`: all or nothing. On failure every kobject the call created is put exactly once and
        no other is; on success the longest prefixes of regions of nonzero size are registered and nothing is put. */
    method UioDevAddAttributes() returns (ret: int)
      requires Slots() && mapDir.None? && portioDir.None?
      modifies this`mapDir, this`portioDir, this`next, this`puts, this`calls, memMap, portPortio
      ensures var last := old(calls) + CallsFor(Prefix(memSizes)) + CallsFor(Prefix(portSizes));
              && (ret == 0 <==> NoneFails(fails, old(calls), last))
              && (ret == 0 ==> calls == last)
              && (ret != 0 ==> FirstFailure(fails, old(calls), calls, last)
                               && ret == AttributesError(Prefix(memSizes), calls - 1 - old(calls)))
      ensures ret == 0 ==> Attributes(old(next)) && puts == old(puts)
      ensures ret != 0 ==> PutRange(puts, old(puts), old(next), next)
    {
      hide PutRange, CallsFor, RegionError, Prefix;
      ghost var base, before := next, puts;
      NothingPutSince(before, base);
      var maps, ports;
      ret, maps := AddMaps();
      ghost var middle, end := next, next;
      if ret == 0 {
        ret, ports := AddPorts();
        end := next;
        if ret == 0 {
          return 0;
        }
        NothingPutSince(before, middle);
        Unwind(portPortio, ports, portioDir, middle);
      } else {
        NothingPutSince(before, middle);
      }
      ghost var between := puts;
      Unwind(memMap, maps, mapDir, base);
      PutTwice(puts, between, before, base, middle, end);
    }

    /** One loop of `uio_dev_del_attributes` and the put of its directory. */
    method PutRegistered(sizes: seq<nat>, slots: array<nat>, dir: Option<nat>, ghost base: nat)
      requires |sizes| == slots.Length
      requires forall i :: 0 <= i < Prefix(sizes) ==> slots[i] == base + 1 + i
      requires dir == if Prefix(sizes) > 0 then Some(base) else None
      modifies this`puts
      ensures PutRange(puts, old(puts), base, if dir.Some? then base + 1 + Prefix(sizes) else base)
    {
      var i := 0;
      while i < |sizes|
        invariant 0 <= i <= Prefix(sizes)
        invariant PutRange(puts, old(puts), base + 1, base + 1 + i)
      {
        if sizes[i] == 0 {
          break;
        }
        KobjectPut(Some(slots[i]));
        i := i + 1;
      }
      KobjectPut(dir);
    }

    /** `uio_dev_del_attributes`: puts exactly the registered kobjects, each once. */
    method UioDevDelAttributes(ghost base: nat)
      requires Attributes(base)
      modifies this`puts
      ensures PutRange(puts, old(puts), base, next)
    {
      PutRegistered(memSizes, memMap, mapDir, base);
      PutRegistered(portSizes, portPortio, portioDir, if mapDir.Some? then base + 1 + Prefix(memSizes) else base);
    }

    /** The calls of a registration that can fail: the minor, the name, adding the device, the attributes, and the
        interrupt if there is one. */
    function RegistrationCalls(irqWanted: bool): nat {
      3 + CallsFor(Prefix(memSizes)) + CallsFor(Prefix(portSizes)) + if irqWanted then 1 else 0
    }

    /** `__uio_register_device` once the device is added: the attributes and, if there is one, the interrupt. */
    method RegisterAttributes(irqWanted: bool) returns (ret: int)
      requires Slots() && mapDir.None? && portioDir.None? && next == 0 && puts == multiset{} && !linked
      modifies this`mapDir, this`portioDir, this`next, this`puts, this`calls, this`linked, memMap, portPortio
      ensures ret == 0 ==> linked && Attributes(0) && puts == multiset{}
      ensures ret != 0 ==> !linked && PutRange(puts, multiset{}, 0, next)
      ensures ret == 0 <==> NoneFails(fails, old(calls), old(calls) + RegistrationCalls(irqWanted) - 3)
      ensures ret == 0 || ret == -EFAILED || ret == -ENOMEM
    {
      hide PutRange, Prefix, CallsFor;
      ret := UioDevAddAttributes();
      if ret != 0 { return; }
      linked := true;
      if irqWanted {
        ret := Attempt();
        if ret != 0 {
          linked := false;
          UioDevDelAttributes(0);
        }
      }
    }

    /** `__uio_register_device` from `uio_get_minor` on. */
    method Register(irqWanted: bool) returns (ret: int)
      requires Slots() && mapDir.None? && portioDir.None? && next == 0 && puts == multiset{} && calls == 0
      requires !minorHeld && !added && !linked && deviceRefs == 0 && freed == 0
      modifies this, memMap, portPortio
      ensures ret == 0 <==> NoneFails(fails, 0, RegistrationCalls(irqWanted))
      ensures ret == 0 || ret == -EFAILED || ret == -ENOMEM
      ensures ret == 0 ==> minorHeld && added && linked && deviceRefs == 1 && freed == 0
      ensures ret == 0 ==> Attributes(0) && puts == multiset{}
      ensures ret != 0 ==> !minorHeld && !added && !linked && freed == 1
      ensures ret != 0 ==> PutRange(puts, multiset{}, 0, next)
    {
      hide PutRange, Prefix, CallsFor;
      NothingPut();
      ret := Attempt();
      if ret != 0 {
        freed := freed + 1;
        return;
      }
      minorHeld, deviceRefs := true, 1;
      label unwind: {
        ret := Attempt();
        if ret != 0 { break unwind; }
        ret := Attempt();
        if ret != 0 { break unwind; }
        added := true;
        ret := RegisterAttributes(irqWanted);
        if ret == 0 {
          return;
        }
        added := false;
      }
      minorHeld := false;
      PutDevice();
    }

    method PutDevice()
      requires deviceRefs > 0
      modifies this`deviceRefs, this`freed
      ensures deviceRefs == old(deviceRefs) - 1
      ensures freed == old(freed) + (if deviceRefs == 0 then 1 else 0)
    {
      deviceRefs := deviceRefs - 1;
      if deviceRefs == 0 {
        freed := freed + 1;
      }
    }
  }

  /** `__uio_register_device`. A failing registration leaves nothing behind: the minor is returned, the device is
      deleted and freed exactly once, `info->uio_dev` is unset, and every kobject created is put exactly once. */
  method UioRegisterDevice(classRegistered: bool, argumentsValid: bool, memory: bool, fails: set<nat>,
                           memSizes: seq<nat>, portSizes: seq<nat>, irqWanted: bool)
    returns (ret: int, idev: UioDevice?)
    ensures !classRegistered ==> ret == -517
    ensures classRegistered && !argumentsValid ==> ret == -22
    ensures classRegistered && argumentsValid && !memory ==> ret == -12
    ensures idev != null <==> classRegistered && argumentsValid && memory
    ensures ret == 0 <==> idev != null && NoneFails(fails, 0, idev.RegistrationCalls(irqWanted))
    ensures idev != null ==> idev.memSizes == memSizes && idev.portSizes == portSizes
    ensures ret == 0 ==> idev.minorHeld && idev.added && idev.linked && idev.deviceRefs == 1 && idev.freed == 0
    ensures ret == 0 ==> idev.Attributes(0) && idev.puts == multiset{}
    ensures ret != 0 && idev != null ==> !idev.minorHeld && !idev.added && !idev.linked && idev.freed == 1
    ensures ret != 0 && idev != null ==> PutRange(idev.puts, multiset{}, 0, idev.next)
  {
    if !classRegistered {
      return -EPROBE_DEFER, null;
    }
    if !argumentsValid {
      return -EINVAL, null;
    }
    if !memory {
      return -ENOMEM, null;
    }
    idev := new UioDevice(memSizes, portSizes, 0, fails);
    ret := idev.Register(irqWanted);
  }
}
