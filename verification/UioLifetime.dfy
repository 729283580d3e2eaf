/**
 * Opening and releasing a UIO device that `uio_hv_generic` drives: reference counts with unwinding, and the
 * connection of the ring on first use (uio_hv_generic/uio.c:476-558, uio_hv_generic/uio_hv_generic.c:207-244).
 */
module UioLifetime {

  const ENODEV: int := 19
  const ENOMEM: int := 12
  const EINVAL: int := 22

  datatype RingEvent = Connected | Disconnected

  /** The channel side: `refcnt`, and what was done to the ring so far. */
  datatype Driver = Driver(refcnt: int, ring: seq<RingEvent>)

  /** Everything an open or a release counts. */
  datatype Books = Books(
    deviceRefs: int, moduleRefs: int, driver: Driver, listeners: nat,
    infoPresent: bool, minorPresent: bool)

  /** How the environment answers during an open. */
  datatype Environment = Environment(moduleAlive: bool, memory: bool, connectResult: int)

  /** `hv_uio_open`. */
  function DriverOpen(d: Driver, connectResult: int): (Driver, int) {
    if d.refcnt + 1 != 1 then (d.(refcnt := d.refcnt + 1), 0)
    else if connectResult == 0 then (Driver(1, d.ring + [Connected]), 0)
    else (d, connectResult)
  }

  /** `hv_uio_release`. */
  function DriverRelease(d: Driver): Driver {
    if d.refcnt - 1 == 0 then Driver(0, d.ring + [Disconnected]) else d.(refcnt := d.refcnt - 1)
  }

  /** `uio_open`: a failure anywhere leaves the books as they were. */
  function Open(b: Books, e: Environment): (Books, int) {
    if !b.minorPresent then (b, -ENODEV)
    else if !e.moduleAlive then (b, -ENODEV)
    else if !e.memory then (b, -ENOMEM)
    else if !b.infoPresent then (b, -EINVAL)
    else
      var (driver, ret) := DriverOpen(b.driver, e.connectResult);
      if ret != 0 then (b, ret)
      else (b.(deviceRefs := b.deviceRefs + 1, moduleRefs := b.moduleRefs + 1, driver := driver,
               listeners := b.listeners + 1), 0)
  }

  /** `uio_release` of one of the open listeners. */
  function Release(b: Books): Books
    requires b.listeners > 0
  {
    b.(deviceRefs := b.deviceRefs - 1, moduleRefs := b.moduleRefs - 1, listeners := b.listeners - 1,
       driver := if b.infoPresent then DriverRelease(b.driver) else b.driver)
  }

  /** The objects whose fields the calls update in place. */
  class HvUioPrivateData {
    var refcnt: int
    ghost var ring: seq<RingEvent>

    constructor ()
      ensures View() == Driver(0, [])
    {
      refcnt, ring := 0, [];
    }

    ghost function View(): Driver
      reads this
    {
      Driver(refcnt, ring)
    }

    method HvUioOpen(connectResult: int) returns (ret: int)
      modifies this
      ensures (View(), ret) == DriverOpen(old(View()), connectResult)
    {
      refcnt := refcnt + 1;
      if refcnt != 1 {
        return 0;
      }
      ret := connectResult;
      if ret == 0 {
        ring := ring + [Connected];
      } else {
        refcnt := refcnt - 1;
      }
    }

    method HvUioRelease()
      modifies this
      ensures View() == DriverRelease(old(View()))
    {
      refcnt := refcnt - 1;
      if refcnt == 0 {
        ring := ring + [Disconnected];
      }
    }
  }

  class UioDevice {
    const pdata: HvUioPrivateData
    var deviceRefs: int
    var moduleRefs: int
    var infoPresent: bool
    var minorPresent: bool
    ghost var listeners: nat

    /** A registered device: the registration holds one device reference. */
    constructor (pdata: HvUioPrivateData, moduleRefs: int)
      requires pdata.View() == Driver(0, [])
      ensures this.pdata == pdata && View() == Registered(moduleRefs)
    {
      this.pdata := pdata;
      deviceRefs, this.moduleRefs, listeners := 1, moduleRefs, 0;
      infoPresent, minorPresent := true, true;
    }

    ghost function View(): Books
      reads this, pdata
    {
      Books(deviceRefs, moduleRefs, pdata.View(), listeners, infoPresent, minorPresent)
    }

    method UioOpen(e: Environment) returns (ret: int)
      modifies this, pdata
      ensures (View(), ret) == Open(old(View()), e)
      ensures ret == 0 <==> && old(minorPresent) && e.moduleAlive && e.memory && old(infoPresent)
                            && (old(pdata.refcnt) == 0 ==> e.connectResult == 0)
      ensures ret == 0 ==> deviceRefs == old(deviceRefs) + 1 && moduleRefs == old(moduleRefs) + 1
                           && pdata.refcnt == old(pdata.refcnt) + 1 && listeners == old(listeners) + 1
      ensures ret != 0 ==> View() == old(View())
    {
      if !minorPresent {
        return -ENODEV;
      }
      deviceRefs := deviceRefs + 1;
      ret := 0;
      label unwind: {
        label putModule: {
          if !e.moduleAlive {
            ret := -ENODEV;
            break putModule;
          }
          moduleRefs := moduleRefs + 1;
          label freeListener: {
            if !e.memory {
              ret := -ENOMEM;
              break freeListener;
            }
            if !infoPresent {
              ret := -EINVAL;
              break freeListener;
            }
            ret := pdata.HvUioOpen(e.connectResult);
            if ret != 0 {
              break freeListener;
            }
            listeners := listeners + 1;
            break unwind;
          }
          moduleRefs := moduleRefs - 1;
        }
        deviceRefs := deviceRefs - 1;
      }
    }

    method UioRelease()
      requires listeners > 0
      modifies this, pdata
      ensures View() == Release(old(View()))
      ensures deviceRefs == old(deviceRefs) - 1 && moduleRefs == old(moduleRefs) - 1 && listeners == old(listeners) - 1
      ensures infoPresent == old(infoPresent) && minorPresent == old(minorPresent)
      ensures pdata.refcnt == old(pdata.refcnt) - (if infoPresent then 1 else 0)
      ensures pdata.ring == old(pdata.ring) + (if infoPresent && pdata.refcnt == 0 then [Disconnected] else [])
    {
      if infoPresent {
        pdata.HvUioRelease();
      }
      moduleRefs := moduleRefs - 1;
      listeners := listeners - 1;
      deviceRefs := deviceRefs - 1;
    }
  }

  // ---------------------------------------------------------------------------------------------
  // Any sequence of calls
  // ---------------------------------------------------------------------------------------------

  /** Calls on the device; unregistering first clears `info`, later removes the minor and drops its own reference. */
  datatype Call = DoOpen(e: Environment) | DoRelease | ClearInfo | RemoveMinor

  function Perform(b: Books, c: Call): Books {
    match c
    case DoOpen(e) => Open(b, e).0
    case DoRelease => if b.listeners > 0 then Release(b) else b
    case ClearInfo => b.(infoPresent := false)
    case RemoveMinor =>
      if b.minorPresent && !b.infoPresent then b.(minorPresent := false, deviceRefs := b.deviceRefs - 1) else b
  }

  function PerformAll(b: Books, calls: seq<Call>): Books
    decreases |calls|
  {
    if calls == [] then b else PerformAll(Perform(b, calls[0]), calls[1..])
  }

  /** The state after registration, in a module that holds `moduleRefs` references of its own. */
  function Registered(moduleRefs: int): Books {
    Books(1, moduleRefs, Driver(0, []), 0, true, true)
  }

  /** Connect and disconnect take turns, connect first. */
  ghost predicate Alternates(ring: seq<RingEvent>) {
    forall i :: 0 <= i < |ring| ==> (ring[i].Connected? <==> i % 2 == 0)
  }

  ghost predicate RingConnected(ring: seq<RingEvent>) {
    ring != [] && ring[|ring| - 1].Connected?
  }

  ghost predicate Balanced(b: Books, moduleRefs: int) {
    && b.deviceRefs == b.listeners + (if b.minorPresent then 1 else 0)
    && b.moduleRefs == moduleRefs + b.listeners
    && Alternates(b.driver.ring)
    && (b.infoPresent ==>
          && b.minorPresent
          && b.driver.refcnt == b.listeners
          && (RingConnected(b.driver.ring) <==> b.listeners > 0))
  }

  lemma PerformKeepsBalance(b: Books, c: Call, moduleRefs: int)
    requires Balanced(b, moduleRefs)
    ensures Balanced(Perform(b, c), moduleRefs)
  {}

  lemma {:induction false} PerformAllKeepsBalance(b: Books, calls: seq<Call>, moduleRefs: int)
    requires Balanced(b, moduleRefs)
    ensures Balanced(PerformAll(b, calls), moduleRefs)
    decreases |calls|
  {
    hide Balanced, Perform;
    if calls != [] {
      PerformKeepsBalance(b, calls[0], moduleRefs);
      PerformAllKeepsBalance(Perform(b, calls[0]), calls[1..], moduleRefs);
    }
  }

  /** Conservation: after any sequence of opens, failing anywhere, and releases, the device and module references are
      the base plus the open listeners, connects and disconnects alternate, and while registered the driver counts
      the listeners and the ring is connected exactly when there is one. */
  lemma ReferencesAreConserved(calls: seq<Call>, moduleRefs: int)
    ensures var b := PerformAll(Registered(moduleRefs), calls);
            && b.deviceRefs == b.listeners + (if b.minorPresent then 1 else 0)
            && b.moduleRefs == moduleRefs + b.listeners
            && Alternates(b.driver.ring)
            && (b.infoPresent ==>
                  b.driver.refcnt == b.listeners && (RingConnected(b.driver.ring) <==> b.listeners > 0))
  {
    PerformAllKeepsBalance(Registered(moduleRefs), calls, moduleRefs);
  }

  /** Once `info` is gone, releases no longer reach the driver: its count and the ring stay as they were. */
  lemma {:induction false} DriverForgottenAfterUnregister(b: Books, calls: seq<Call>)
    requires !b.infoPresent
    ensures PerformAll(b, calls).driver == b.driver
    decreases |calls|
  {
    if calls != [] {
      DriverForgottenAfterUnregister(Perform(b, calls[0]), calls[1..]);
    }
  }

  // ---------------------------------------------------------------------------------------------
  // What each call does
  // ---------------------------------------------------------------------------------------------

  /** When an open succeeds, and the code of each failure; the checks are made in this order. */
  lemma OpenResult(b: Books, e: Environment)
    ensures var ret := Open(b, e).1;
            && (ret == 0 <==> && b.minorPresent && e.moduleAlive && e.memory && b.infoPresent
                              && (b.driver.refcnt == 0 ==> e.connectResult == 0))
            && (!b.minorPresent || !e.moduleAlive ==> ret == -19)
            && (b.minorPresent && e.moduleAlive && !e.memory ==> ret == -12)
            && (b.minorPresent && e.moduleAlive && e.memory && !b.infoPresent ==> ret == -22)
            && (b.minorPresent && e.moduleAlive && e.memory && b.infoPresent && ret != 0 ==> ret == e.connectResult)
  {}

  /** A successful open takes one of each, and connects the ring exactly when it is the driver's first; a failing one
      changes nothing. */
  lemma OpenEffect(b: Books, e: Environment)
    ensures var (after, ret) := Open(b, e);
            && after.infoPresent == b.infoPresent && after.minorPresent == b.minorPresent
            && (ret != 0 ==> after == b)
            && (ret == 0 ==>
                  && after.deviceRefs == b.deviceRefs + 1 && after.moduleRefs == b.moduleRefs + 1
                  && after.listeners == b.listeners + 1 && after.driver.refcnt == b.driver.refcnt + 1
                  && after.driver.ring == b.driver.ring + (if b.driver.refcnt == 0 then [Connected] else []))
  {}

  /** A release with a listener open gives back one of each, reaches the driver only while info is set, and disconnects
      the ring exactly when it is the driver's last; a release with none open changes nothing. */
  lemma ReleaseEffect(b: Books)
    ensures var after := Perform(b, DoRelease);
            && after.infoPresent == b.infoPresent && after.minorPresent == b.minorPresent
            && (b.listeners == 0 ==> after == b)
            && (b.listeners > 0 ==>
                  && after.deviceRefs == b.deviceRefs - 1 && after.moduleRefs == b.moduleRefs - 1
                  && after.listeners == b.listeners - 1
                  && after.driver.refcnt == b.driver.refcnt - (if b.infoPresent then 1 else 0)
                  && after.driver.ring == b.driver.ring
                                          + (if b.infoPresent && b.driver.refcnt == 1 then [Disconnected] else []))
  {}

  /** How many of the calls are opens that return 0. */
  function Opens(b: Books, calls: seq<Call>): nat
    decreases |calls|
  {
    if calls == [] then 0
    else (if calls[0].DoOpen? && Open(b, calls[0].e).1 == 0 then 1 else 0) + Opens(Perform(b, calls[0]), calls[1..])
  }

  /** How many of the calls are releases made while a listener is open. */
  function Releases(b: Books, calls: seq<Call>): nat
    decreases |calls|
  {
    if calls == [] then 0
    else (if calls[0].DoRelease? && b.listeners > 0 then 1 else 0) + Releases(Perform(b, calls[0]), calls[1..])
  }

  /** The open listeners are the opens that returned 0 less the releases. */
  lemma {:induction false} ListenersFollowCalls(b: Books, calls: seq<Call>)
    ensures PerformAll(b, calls).listeners == b.listeners + Opens(b, calls) - Releases(b, calls)
    decreases |calls|
  {
    hide Open, Release;
    if calls != [] {
      StepListeners(b, calls[0]);
      ListenersFollowCalls(Perform(b, calls[0]), calls[1..]);
    }
  }

  lemma StepListeners(b: Books, c: Call)
    ensures Perform(b, c).listeners
            == b.listeners + (if c.DoOpen? && Open(b, c.e).1 == 0 then 1 else 0)
               - (if c.DoRelease? && b.listeners > 0 then 1 else 0)
  {
    if c.DoOpen? { OpenEffect(b, c.e); }
    ReleaseEffect(b);
  }

  lemma {:induction false} StaysRegistered(b: Books, calls: seq<Call>)
    requires forall i :: 0 <= i < |calls| ==> calls[i].DoOpen? || calls[i].DoRelease?
    ensures PerformAll(b, calls).infoPresent == b.infoPresent
    ensures PerformAll(b, calls).minorPresent == b.minorPresent
    decreases |calls|
  {
    hide Open, Release;
    if calls != [] {
      if calls[0].DoOpen? { OpenEffect(b, calls[0].e); }
      ReleaseEffect(b);
      StaysRegistered(Perform(b, calls[0]), calls[1..]);
    }
  }

  /** A registered device after as many releases as successful opens, in any order and with any failures between, is
      back at its base counts, with as many disconnects as connects. */
  lemma BackToBase(calls: seq<Call>, moduleRefs: int)
    requires forall i :: 0 <= i < |calls| ==> calls[i].DoOpen? || calls[i].DoRelease?
    requires Opens(Registered(moduleRefs), calls) == Releases(Registered(moduleRefs), calls)
    ensures var b := PerformAll(Registered(moduleRefs), calls);
            && b.deviceRefs == 1 && b.moduleRefs == moduleRefs && b.driver.refcnt == 0 && b.listeners == 0
            && b.infoPresent && b.minorPresent
            && !RingConnected(b.driver.ring) && Alternates(b.driver.ring)
  {
    hide PerformAll, Opens, Releases;
    StaysRegistered(Registered(moduleRefs), calls);
    ListenersFollowCalls(Registered(moduleRefs), calls);
    ReferencesAreConserved(calls, moduleRefs);
  }

  /** Unregistering clears info and then drops the device reference of the registration, each once, and leaves all else
      alone; so the device is freed with its last listener. */
  lemma UnregisterEffect(calls: seq<Call>, moduleRefs: int)
    ensures var b := PerformAll(Registered(moduleRefs), calls);
            var cleared := Perform(b, ClearInfo);
            var removed := Perform(cleared, RemoveMinor);
            && cleared == b.(infoPresent := false)
            && removed == cleared.(minorPresent := false,
                                   deviceRefs := if b.minorPresent then b.deviceRefs - 1 else b.deviceRefs)
            && removed.deviceRefs == removed.listeners
            && (b.infoPresent ==> Perform(b, RemoveMinor) == b)
  {
    hide PerformAll;
    ReferencesAreConserved(calls, moduleRefs);
  }
}
