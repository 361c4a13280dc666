/** The port registry of src/port_manager.c, and the clock driver's use of it in src/rtc.c. */
module Ports {

  const SLOTS: nat := 64
  const CMOS_CONTROL: nat := 0x70
  const CMOS_DATA: nat := 0x71

  datatype Slot = Slot(port: nat, inUse: bool)

  /** A handle is a position, which need not lie in the registry, or null. */
  datatype Handle = Null | Position(i: nat)

  /** The ports granted to somebody. */
  ghost function Held(s: seq<Slot>): set<nat> {
    set i | 0 <= i < |s| && s[i].inUse :: s[i].port
  }

  /** No port is granted twice. */
  predicate Exclusive(s: seq<Slot>) {
    forall i, j :: 0 <= i < j < |s| && s[i].inUse && s[j].inUse ==> s[i].port != s[j].port
  }

  predicate Full(s: seq<Slot>) {
    forall i :: 0 <= i < |s| ==> s[i].inUse
  }

  /** `handle` is a grant of `port`. */
  predicate Grants(s: seq<Slot>, handle: Handle, port: nat) {
    handle.Position? && handle.i < |s| && s[handle.i] == Slot(port, true)
  }

  // ---------------------------------------------------------------- requests and releases

  /** The first position, from `k` on, that is not in use. */
  function FirstFree(s: seq<Slot>, k: nat): (i: nat)
    requires k <= |s|
    ensures k <= i <= |s| && (i < |s| ==> !s[i].inUse)
    ensures forall j :: k <= j < i ==> s[j].inUse
    decreases |s| - k
  {
    if k < |s| && s[k].inUse then FirstFree(s, k + 1) else k
  }

  ghost function Requested(s: seq<Slot>, port: nat): (seq<Slot>, Handle) {
    var i := FirstFree(s, 0);
    if port in Held(s) || i == |s| then (s, Null) else (s[i := Slot(port, true)], Position(i))
  }

  function Released(s: seq<Slot>, handle: Handle): seq<Slot> {
    if handle.Position? && handle.i < |s| && s[handle.i].inUse then s[handle.i := Slot(s[handle.i].port, false)] else s
  }

  /** A request fails exactly when the port is held or every slot is in use, and then changes
      nothing; otherwise it adds just that port to the held ones and returns a grant of it. No
      port is ever granted twice. */
  lemma RequestGrants(s: seq<Slot>, port: nat)
    requires Exclusive(s)
    ensures var (s', handle) := Requested(s, port);
            && |s'| == |s| && Exclusive(s')
            && (handle == Null <==> port in Held(s) || Full(s))
            && (handle == Null ==> s' == s)
            && (handle != Null ==> Grants(s', handle, port) && Held(s') == Held(s) + {port})
            && (forall h, p :: Grants(s, h, p) ==> Grants(s', h, p) && h != handle)
  {
    var (s', handle) := Requested(s, port);
    var i := FirstFree(s, 0);
    if handle != Null {
      forall j | 0 <= j < |s| && s[j].inUse
        ensures s[j].port != port
      {
        assert s[j].port in Held(s);
      }
      HeldAfterGrant(s, i, port);
    } else if i == |s| {
      assert Full(s);
    }
  }

  lemma HeldAfterGrant(s: seq<Slot>, i: nat, port: nat)
    requires i < |s| && !s[i].inUse
    ensures Held(s[i := Slot(port, true)]) == Held(s) + {port}
  {
    var s' := s[i := Slot(port, true)];
    assert s'[i].port in Held(s');
    forall p | p in Held(s)
      ensures p in Held(s')
    {
      var j :| 0 <= j < |s| && s[j].inUse && s[j].port == p;
      assert s'[j] == s[j];
    }
  }

  /** Releasing a grant removes exactly its port from the held ones; anything else is ignored. */
  lemma ReleaseRemoves(s: seq<Slot>, handle: Handle)
    requires Exclusive(s)
    ensures var s' := Released(s, handle);
            && |s'| == |s| && Exclusive(s')
            && (forall p :: Grants(s, handle, p) ==> Held(s') == Held(s) - {p})
            && ((forall p :: !Grants(s, handle, p)) ==> s' == s)
            && (forall h, p :: h != handle && Grants(s, h, p) ==> Grants(s', h, p))
  {
    var s' := Released(s, handle);
    if s' != s {
      var i := handle.i;
      assert Grants(s, handle, s[i].port);
      forall p | p in Held(s) && p != s[i].port
        ensures p in Held(s')
      {
        var j :| 0 <= j < |s| && s[j].inUse && s[j].port == p;
        assert s'[j] == s[j];
      }
      forall p | p in Held(s')
        ensures p in Held(s) && p != s[i].port
      {
        var j :| 0 <= j < |s'| && s'[j].inUse && s'[j].port == p;
        assert s'[j] == s[j];
      }
    }
  }

  // ---------------------------------------------------------------- runs

  datatype Op = Init | Request(port: nat) | Release(handle: Handle)

  datatype Registry = Registry(slots: seq<Slot>, initialized: bool)

  function Cleared(): seq<Slot> {
    seq(SLOTS, _ => Slot(0, false))
  }

  /** A later initialisation does nothing. */
  function Initialized(r: Registry): Registry {
    if r.initialized then r else Registry(Cleared(), true)
  }

  ghost function Step(r: Registry, op: Op): Registry {
    match op
    case Init => Initialized(r)
    case Request(port) => Registry(Requested(Initialized(r).slots, port).0, true)
    case Release(handle) => r.(slots := Released(r.slots, handle))
  }

  ghost function Run(r: Registry, ops: seq<Op>): Registry
    decreases |ops|
  {
    if ops == [] then r else Run(Step(r, ops[0]), ops[1..])
  }

  /** The registry has its size, grants no port twice, and grants nothing before it is set up. */
  ghost predicate Inv(r: Registry) {
    |r.slots| == SLOTS && Exclusive(r.slots) && (!r.initialized ==> Held(r.slots) == {})
  }

  lemma InitKeepsHeld(r: Registry)
    requires Inv(r)
    ensures Inv(Initialized(r)) && Held(Initialized(r).slots) == Held(r.slots)
    ensures Initialized(r).initialized && (r.initialized ==> Initialized(r) == r)
  {
  }

  lemma StepKeepsInv(r: Registry, op: Op)
    requires Inv(r)
    ensures Inv(Step(r, op))
  {
  }

  /** Exclusive ownership over every run: whatever is requested, released or initialised, no two
      slots in use ever hold the same port. */
  lemma {:induction false} RunKeepsInv(r: Registry, ops: seq<Op>)
    requires Inv(r)
    ensures Inv(Run(r, ops))
    decreases |ops|
  {
    if ops != [] {
      StepKeepsInv(r, ops[0]);
      RunKeepsInv(Step(r, ops[0]), ops[1..]);
    }
  }

  lemma GrantIsHeld(s: seq<Slot>, handle: Handle, port: nat)
    requires Grants(s, handle, port)
    ensures port in Held(s)
  {
    assert s[handle.i].port in Held(s);
  }

  /** A port is granted again only after its last grant was released: between a grant of a port and
      the next one, in every run, the first is released. */
  lemma GrantedAgainOnlyAfterRelease(r: Registry, ops: seq<Op>, handle: Handle, port: nat)
    requires Inv(r) && Grants(r.slots, handle, port)
    requires Requested(Initialized(Run(r, ops)).slots, port).1 != Null
    ensures exists i :: 0 <= i < |ops| && ops[i] == Release(handle)
  {
    if forall i :: 0 <= i < |ops| ==> ops[i] != Release(handle) {
      GrantsStand(r, ops, handle, port);
      InitKeepsHeld(Run(r, ops));
      GrantIsHeld(Run(r, ops).slots, handle, port);
    }
  }

  /** A grant made at any point stands until it is itself released, whatever else is requested,
      released or initialised meanwhile. */
  lemma {:induction false} GrantsStand(r: Registry, ops: seq<Op>, handle: Handle, port: nat)
    requires Inv(r) && Grants(r.slots, handle, port)
    requires forall i :: 0 <= i < |ops| ==> ops[i] != Release(handle)
    ensures Inv(Run(r, ops)) && Grants(Run(r, ops).slots, handle, port)
    decreases |ops|
  {
    if ops != [] {
      StepKeepsInv(r, ops[0]);
      InitKeepsHeld(r);
      assert r.initialized by {
        assert r.slots[handle.i].port in Held(r.slots);
      }
      match ops[0] {
        case Init =>
        case Request(p) => RequestGrants(r.slots, p);
        case Release(h) => ReleaseRemoves(r.slots, h);
      }
      GrantsStand(Step(r, ops[0]), ops[1..], handle, port);
    }
  }

  lemma {:induction false} HeldCounts(s: seq<Slot>)
    requires Exclusive(s)
    ensures |Held(s)| <= |s| && (|Held(s)| == |s| <==> Full(s))
    decreases |s|
  {
    hide Held;
    if s == [] {
      NoneHeld();
    } else {
      HeldCounts(s[..|s| - 1]);
      HeldLast(s);
    }
  }

  lemma NoneHeld()
    ensures Held([]) == {}
  {
  }

  lemma HeldLast(s: seq<Slot>)
    requires s != []
    ensures var n := |s| - 1;
            && Held(s) == Held(s[..n]) + (if s[n].inUse then {s[n].port} else {})
            && (Exclusive(s) && s[n].inUse ==> s[n].port !in Held(s[..n]))
  {
    var n := |s| - 1;
    var rest := Held(s[..n]);
    forall p | p in rest
      ensures p in Held(s)
    {
      var j :| 0 <= j < n && s[..n][j].inUse && s[..n][j].port == p;
      assert s[j].inUse && s[j].port == p;
    }
    forall p | p in Held(s)
      ensures p in rest || (s[n].inUse && p == s[n].port)
    {
      var j :| 0 <= j < |s| && s[j].inUse && s[j].port == p;
      assert j < n ==> s[..n][j] == s[j];
    }
    assert s[n].inUse ==> s[n].port in Held(s);
  }

  /** In every state of the registry a request fails if and only if the port is held already or 64
      ports are held; otherwise the port is held afterwards, besides those held before. */
  lemma RequestFailsExactly(r: Registry, port: nat)
    requires Inv(r)
    ensures var (s', handle) := Requested(Initialized(r).slots, port);
            && (handle == Null <==> port in Held(r.slots) || |Held(r.slots)| == 64)
            && Held(s') == Held(r.slots) + if handle == Null then {} else {port}
  {
    hide Requested, Full, Initialized;
    InitKeepsHeld(r);
    HeldCounts(Initialized(r).slots);
    RequestGrants(Initialized(r).slots, port);
  }

  // ---------------------------------------------------------------- the registry in memory

  class PortManager {
    const slots: array<Slot>
    var initialized: bool

    ghost predicate Valid()
      reads this, slots
    {
      Inv(Registry(slots[..], initialized))
    }

    constructor ()
      ensures Valid() && slots[..] == Cleared() && !initialized && fresh(slots)
    {
      slots := new Slot[SLOTS](_ => Slot(0, false));
      initialized := false;
      new;
      assert slots[..] == Cleared();
    }

    /** `init_port_manager` */
    method InitPortManager()
      requires Valid()
      modifies this, slots
      ensures Valid() && Registry(slots[..], initialized) == Initialized(old(Registry(slots[..], initialized)))
    {
      InitKeepsHeld(Registry(slots[..], initialized));
      if initialized {
        return;
      }
      for i := 0 to SLOTS
        invariant slots.Length == SLOTS && forall j :: 0 <= j < i ==> slots[j] == Slot(0, false)
      {
        slots[i] := Slot(0, false);
      }
      initialized := true;
      assert slots[..] == Cleared();
    }

    /** `is_port_in_use` */
    method IsPortInUse(port: nat) returns (found: bool)
      requires Valid()
      ensures found <==> port in Held(slots[..])
    {
      for i := 0 to SLOTS
        invariant forall j :: 0 <= j < i ==> !(slots[j].inUse && slots[j].port == port)
      {
        if slots[i].inUse && slots[i].port == port {
          assert slots[..][i].port in Held(slots[..]);
          return true;
        }
      }
      return false;
    }

    /** `request_port` */
    method RequestPort(port: nat) returns (handle: Handle)
      requires Valid()
      modifies this, slots
      ensures Valid() && initialized
      ensures (slots[..], handle) == Requested(Initialized(old(Registry(slots[..], initialized))).slots, port)
    {
      if !initialized {
        InitPortManager();
      }
      RequestGrants(slots[..], port);
      var held := IsPortInUse(port);
      if held {
        return Null;
      }
      for i := 0 to SLOTS
        invariant forall j :: 0 <= j < i ==> slots[j].inUse
        invariant slots[..] == Initialized(old(Registry(slots[..], initialized))).slots && initialized && Valid()
      {
        if !slots[i].inUse {
          ghost var s := slots[..];
          assert FirstFree(s, 0) == i;
          slots[i] := Slot(port, true);
          assert slots[..] == s[i := Slot(port, true)];
          return Position(i);
        }
      }
      assert FirstFree(slots[..], 0) == SLOTS;
      return Null;
    }

    /** `release_port` */
    method ReleasePort(handle: Handle)
      requires Valid()
      modifies slots
      ensures Valid() && slots[..] == Released(old(slots[..]), handle)
    {
      StepKeepsInv(Registry(slots[..], initialized), Release(handle));
      if handle.Position? && handle.i < SLOTS {
        if slots[handle.i].inUse {
          slots[handle.i] := Slot(slots[handle.i].port, false);
        }
      }
    }
  }

  // ---------------------------------------------------------------- the clock driver

  datatype Driver = NoDriver | Driver(control: Handle, data: Handle)

  ghost predicate TwoFree(s: seq<Slot>) {
    exists i, j :: 0 <= i < j < |s| && !s[i].inUse && !s[j].inUse
  }

  /** Both clock ports can be had. */
  ghost predicate ClockFree(s: seq<Slot>) {
    CMOS_CONTROL !in Held(s) && CMOS_DATA !in Held(s) && TwoFree(s)
  }

  lemma FullAfterGrant(s: seq<Slot>, i: nat, port: nat)
    requires i < |s| && !s[i].inUse
    ensures Full(s[i := Slot(port, true)]) <==> !TwoFree(s)
  {
    var s' := s[i := Slot(port, true)];
    if TwoFree(s) {
      var a, b :| 0 <= a < b < |s| && !s[a].inUse && !s[b].inUse;
      assert !s'[if a == i then b else a].inUse;
    }
    if !Full(s') {
      var j :| 0 <= j < |s'| && !s'[j].inUse;
      assert !s[j].inUse && j != i;
      assert TwoFree(s) by {
        if i < j {
          assert !s[i].inUse && !s[j].inUse;
        } else {
          assert !s[j].inUse && !s[i].inUse;
        }
      }
    }
  }

  /** `init_rtc` succeeds exactly when there is memory for the driver and both clock ports can be
      had. Then just these ports are newly held, by the two handles of the driver; otherwise the
      held ports are as before. */
  method InitRtc(pm: PortManager, memory: bool) returns (driver: Driver)
    requires pm.Valid()
    modifies pm, pm.slots
    ensures pm.Valid()
    ensures driver != NoDriver <==> memory && old(ClockFree(pm.slots[..]))
    ensures driver == NoDriver ==> Held(pm.slots[..]) == old(Held(pm.slots[..]))
    ensures driver != NoDriver ==>
              && Held(pm.slots[..]) == old(Held(pm.slots[..])) + {0x70, 0x71}
              && Grants(pm.slots[..], driver.control, 0x70)
              && Grants(pm.slots[..], driver.data, 0x71)
  {
    var control := Acquire(pm, CMOS_CONTROL);
    if control == Null {
      return NoDriver;
    }
    var data := Acquire(pm, CMOS_DATA);
    if data == Null {
      GiveBack(pm, control, CMOS_CONTROL);
      return NoDriver;
    }
    if !memory {
      GiveBack(pm, control, CMOS_CONTROL);
      GiveBack(pm, data, CMOS_DATA);
      return NoDriver;
    }
    return Driver(control, data);
  }

  /** `acknowledge_rtc_interrupt` always leaves the held ports as they were, and reaches the clock
      exactly when both its ports can be had. */
  method AcknowledgeRtcInterrupt(pm: PortManager) returns (reached: bool)
    requires pm.Valid()
    modifies pm, pm.slots
    ensures pm.Valid() && Held(pm.slots[..]) == old(Held(pm.slots[..]))
    ensures reached <==> old(ClockFree(pm.slots[..]))
  {
    reached := false;
    var control := Acquire(pm, CMOS_CONTROL);
    if control != Null {
      var data := Acquire(pm, CMOS_DATA);
      if data != Null {
        reached := true;
        GiveBack(pm, data, CMOS_DATA);
      }
      GiveBack(pm, control, CMOS_CONTROL);
    }
  }

  /** A request, in terms of the ports held. */
  method Acquire(pm: PortManager, port: nat) returns (handle: Handle)
    requires pm.Valid()
    modifies pm, pm.slots
    ensures pm.Valid()
    ensures handle == Null <==> old(port in Held(pm.slots[..]) || Full(pm.slots[..]))
    ensures handle == Null ==> Held(pm.slots[..]) == old(Held(pm.slots[..]))
    ensures handle != Null ==>
              && Held(pm.slots[..]) == old(Held(pm.slots[..])) + {port}
              && Grants(pm.slots[..], handle, port)
              && (Full(pm.slots[..]) <==> !old(TwoFree(pm.slots[..])))
    ensures forall h, p :: Grants(old(pm.slots[..]), h, p) ==> Grants(pm.slots[..], h, p) && h != handle
  {
    ghost var r := Registry(pm.slots[..], pm.initialized);
    ghost var s := Initialized(r).slots;
    InitKeepsHeld(r);
    RequestGrants(s, port);
    assert forall i :: 0 <= i < SLOTS ==> r.slots[i].inUse == s[i].inUse by {
      forall i | 0 <= i < SLOTS && r.slots[i].inUse
        ensures r.initialized
      {
        assert r.slots[i].port in Held(r.slots);
      }
    }
    assert TwoFree(s) <==> TwoFree(r.slots) by {
      assert forall i, j :: 0 <= i < j < SLOTS && !r.slots[i].inUse && !r.slots[j].inUse ==> !s[i].inUse && !s[j].inUse;
      assert forall i, j :: 0 <= i < j < SLOTS && !s[i].inUse && !s[j].inUse ==> !r.slots[i].inUse && !r.slots[j].inUse;
    }
    handle := pm.RequestPort(port);
    if handle != Null {
      FullAfterGrant(s, handle.i, port);
    }
  }

  /** The release of a grant, in terms of the ports held. */
  method GiveBack(pm: PortManager, handle: Handle, ghost port: nat)
    requires pm.Valid() && Grants(pm.slots[..], handle, port)
    modifies pm.slots
    ensures pm.Valid() && Held(pm.slots[..]) == old(Held(pm.slots[..])) - {port}
    ensures forall h, p :: h != handle && Grants(old(pm.slots[..]), h, p) ==> Grants(pm.slots[..], h, p)
  {
    ReleaseRemoves(pm.slots[..], handle);
    pm.ReleasePort(handle);
  }
}
