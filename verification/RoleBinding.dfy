/**
 * Roles and the services they are bound to (client/rolemgr.c), and the devices that come and go
 * beneath them (client/routing.c).
 */
module RoleBinding {
  import opened Arithmetic
  import opened Bytes

  const EXPIRES := 2_000_000

  class Service {
    const cls: nat
    const index: nat
    /** Some role is bound to this service. */
    var taken: bool

    constructor (cls: nat, index: nat)
      ensures this.cls == cls && this.index == index && !taken
    {
      this.cls, this.index, taken := cls, index, false;
    }
  }

  class Device {
    const id: seq<byte>
    const services: seq<Service>
    var flags: nat
    var expires: nat

    constructor (id: seq<byte>, services: seq<Service>, flags: nat, expires: nat)
      ensures this.id == id && this.services == services && this.flags == flags && this.expires == expires
    {
      this.id, this.services, this.flags, this.expires := id, services, flags, expires;
    }
  }

  datatype Hint = NoHint | SelfHint | AppHint

  class Role {
    const name: CString
    const cls: nat
    const hint: Hint
    const offset: nat
    var service: Service?

    constructor (name: CString, cls: nat, hint: Hint, offset: nat)
      ensures this.name == name && this.cls == cls && this.hint == hint && this.offset == offset
      ensures service == null
    {
      this.name, this.cls, this.hint, this.offset, service := name, cls, hint, offset, null;
    }
  }

  // ---------------------------------------------------------------- bindings as values

  function Opt(s: Service?): set<Service> {
    if s == null then {} else {s}
  }

  /**
   * No two roles share a service, every bound service is alive, and the flags of the live services
   * mirror the bindings.
   */
  ghost predicate Consistent(b: seq<Service?>, live: set<Service>, flagged: set<Service>) {
    && (forall i :: 0 <= i < |b| && b[i] != null ==> b[i] in live)
    && (forall i, j :: 0 <= i < j < |b| && b[i] != null ==> b[i] != b[j])
    && (forall s :: s in live ==> (s in flagged <==> s in b))
  }

  /** The flags after a role moves from one service to another. */
  function SetFlags(flagged: set<Service>, was: Service?, to: Service?): set<Service> {
    if was == to then flagged else flagged - Opt(was) + Opt(to)
  }

  /** Rebinding keeps the bindings consistent exactly when no other role has the service already. */
  lemma SetKeepsIff(b: seq<Service?>, k: nat, to: Service?, live: set<Service>, flagged: set<Service>)
    requires k < |b| && Consistent(b, live, flagged) && Opt(to) <= live
    ensures Consistent(b[k := to], live, SetFlags(flagged, b[k], to))
       <==> to == null || to !in flagged || b[k] == to
  {
    var c, f := b[k := to], SetFlags(flagged, b[k], to);
    if to != null && to in flagged && b[k] != to {
      var j :| 0 <= j < |b| && b[j] == to;
      assert c[j] == to && c[k] == to;
    } else {
      forall s | s in live
        ensures s in f <==> s in c
      {
        if s in b {
          var j :| 0 <= j < |b| && b[j] == s;
          assert j != k ==> c[j] == s;
        }
        if s in c {
          var j :| 0 <= j < |c| && c[j] == s;
          assert j != k ==> b[j] == s;
        }
        assert s == to ==> c[k] == s;
      }
    }
  }

  /** The first `n` bindings that point into `gone` are cleared, the others stay. */
  ghost predicate Without(b: seq<Service?>, c: seq<Service?>, gone: set<Service>, n: nat) {
    |b| == |c| && forall k :: 0 <= k < |b| ==> c[k] == if k < n && b[k] in gone then null else b[k]
  }

  /** Once no role is bound to the services that go, the others are still consistent. */
  lemma ConsistentWithout(b: seq<Service?>, c: seq<Service?>, gone: set<Service>, devices: seq<Device>, dev: Device,
                          f: set<Service>, g: set<Service>)
    requires Without(b, c, gone, |b|) && gone == LiveIn([dev])
    requires Consistent(c, LiveIn(devices + [dev]), f)
    requires forall s :: s in LiveIn(devices) ==> (s in f <==> s in g)
    ensures Consistent(c, LiveIn(devices), g)
  {
    forall i | 0 <= i < |c| && c[i] != null
      ensures c[i] in LiveIn(devices)
    {
      assert c[i] in LiveIn(devices + [dev]);
    }
    forall s | s in LiveIn(devices)
      ensures s in LiveIn(devices + [dev])
    {
    }
  }

  ghost predicate Extends(b: seq<Service?>, c: seq<Service?>) {
    |b| == |c| && forall k :: 0 <= k < |b| && b[k] != null ==> c[k] == b[k]
  }

  function LiveIn(devices: seq<Device>): set<Service> {
    set d, s | d in devices && s in d.services :: s
  }

  lemma LiveHas(devices: seq<Device>, d: Device, s: Service)
    requires d in devices && s in d.services
    ensures s in LiveIn(devices)
  {
  }

  /** Position of the service of class `cls` that has `off` of that class before it, from `i` on. */
  function NthOfClass(services: seq<Service>, cls: nat, off: nat, i: nat): (r: Option<nat>)
    requires i <= |services|
    ensures r.Some? ==> i <= r.value < |services| && services[r.value].cls == cls
    decreases |services| - i
  {
    if i == |services| then None
    else if services[i].cls != cls then NthOfClass(services, cls, off, i + 1)
    else if off == 0 then Some(i)
    else NthOfClass(services, cls, off - 1, i + 1)
  }

  function DeviceById(devices: seq<Device>, id: seq<byte>, i: nat): Device?
    requires i <= |devices|
    decreases |devices| - i
  {
    if i == |devices| then null else if devices[i].id == id then devices[i] else DeviceById(devices, id, i + 1)
  }

  /** The service a role's hint leads to; an empty identifier stands for none. */
  function HintTarget(role: Role, devices: seq<Device>, appId: seq<byte>, selfId: seq<byte>): Service? {
    var id := match role.hint case NoHint => [] case AppHint => appId case SelfHint => selfId;
    var d := if id == [] then null else DeviceById(devices, id, 0);
    if d == null then null else
      match NthOfClass(d.services, role.cls, role.offset, 0)
      case None => null
      case Some(i) => d.services[i]
  }

  /** Services of the class among the first `i`. */
  function CountOf(services: seq<Service>, cls: nat, i: nat): nat
    requires i <= |services|
  {
    if i == 0 then 0 else CountOf(services, cls, i - 1) + if services[i - 1].cls == cls then 1 else 0
  }

  lemma {:induction false} NthCounts(services: seq<Service>, cls: nat, off: nat, i: nat)
    requires i <= |services|
    ensures match NthOfClass(services, cls, off, i)
      case Some(r) => CountOf(services, cls, r) == CountOf(services, cls, i) + off
      case None => CountOf(services, cls, |services|) <= CountOf(services, cls, i) + off
    decreases |services| - i
  {
    if i < |services| && !(services[i].cls == cls && off == 0) {
      NthCounts(services, cls, if services[i].cls == cls then off - 1 else off, i + 1);
    }
  }

  lemma {:induction false} FirstById(devices: seq<Device>, id: seq<byte>, i: nat)
    requires i <= |devices|
    ensures match DeviceById(devices, id, i)
      case null => forall k :: i <= k < |devices| ==> devices[k].id != id
      case d => exists k :: i <= k < |devices| && devices[k] == d && d.id == id && forall j :: i <= j < k ==> devices[j].id != id
    decreases |devices| - i
  {
    if i < |devices| && devices[i].id != id {
      FirstById(devices, id, i + 1);
    }
  }

  lemma TargetIsLive(role: Role, devices: seq<Device>, appId: seq<byte>, selfId: seq<byte>)
    ensures var t := HintTarget(role, devices, appId, selfId); t != null ==> t in LiveIn(devices) && t.cls == role.cls
  {
    var id := match role.hint case NoHint => [] case AppHint => appId case SelfHint => selfId;
    FirstById(devices, id, 0);
    var d := DeviceById(devices, id, 0);
    if d != null && NthOfClass(d.services, role.cls, role.offset, 0).Some? {
      LiveHas(devices, d, d.services[NthOfClass(d.services, role.cls, role.offset, 0).value]);
    }
  }

  /**
   * Which service a hint leads to: on the application's device or this device, whichever the hint names,
   * the service of the role's class that has exactly `offset` of that class before it.
   */
  lemma HintLeadsTo(role: Role, devices: seq<Device>, appId: seq<byte>, selfId: seq<byte>, d: Device, i: nat)
    requires i < |d.services| && role.hint != NoHint
    requires d.id == (if role.hint == AppHint then appId else selfId) && d.id != []
    requires d == DeviceById(devices, d.id, 0)
    requires d.services[i].cls == role.cls && CountOf(d.services, role.cls, i) == role.offset
    ensures HintTarget(role, devices, appId, selfId) == d.services[i]
  {
    NthCounts(d.services, role.cls, role.offset, 0);
    match NthOfClass(d.services, role.cls, role.offset, 0)
    case None => CountMono(d.services, role.cls, i, |d.services|);
    case Some(k) =>
      if k < i {
        CountMono(d.services, role.cls, k, i);
      } else if i < k {
        CountMono(d.services, role.cls, i, k);
      }
  }

  lemma {:induction false} CountMono(services: seq<Service>, cls: nat, i: nat, n: nat)
    requires i < n <= |services| && services[i].cls == cls
    ensures CountOf(services, cls, i) < CountOf(services, cls, n)
    decreases n
  {
    if i + 1 < n {
      CountMono(services, cls, i, n - 1);
    }
  }

  /** And when it leads to none: without a hint, a device of that name, or enough services of the class. */
  lemma HintLeadsNowhere(role: Role, devices: seq<Device>, appId: seq<byte>, selfId: seq<byte>)
    ensures HintTarget(role, devices, appId, selfId) == null <==>
      || role.hint == NoHint || (role.hint == AppHint && appId == []) || (role.hint == SelfHint && selfId == [])
      || (var d := DeviceById(devices, if role.hint == AppHint then appId else selfId, 0);
          d == null || CountOf(d.services, role.cls, |d.services|) <= role.offset)
  {
    var d := DeviceById(devices, if role.hint == AppHint then appId else selfId, 0);
    if d != null {
      NthCounts(d.services, role.cls, role.offset, 0);
      match NthOfClass(d.services, role.cls, role.offset, 0)
      case None =>
      case Some(k) => CountMono(d.services, role.cls, k, |d.services|);
    }
  }

  /** First free service of a device of the class, from the `i`-th on. */
  ghost function FreeIn(services: seq<Service>, cls: nat, flagged: set<Service>, i: nat): Service?
    decreases |services| - i
  {
    if i >= |services| then null
    else if services[i].cls == cls && services[i] !in flagged then services[i]
    else FreeIn(services, cls, flagged, i + 1)
  }

  /** First free service of the class in the device list, control services aside. */
  ghost function FirstFree(devices: seq<Device>, cls: nat, flagged: set<Service>, j: nat): Service?
    requires j <= |devices|
    decreases |devices| - j
  {
    if j == |devices| then null
    else
      var s := FreeIn(devices[j].services, cls, flagged, 1);
      if s != null then s else FirstFree(devices, cls, flagged, j + 1)
  }

  lemma {:induction false} FirstInDevice(services: seq<Service>, cls: nat, flagged: set<Service>, i: nat)
    ensures var s := FreeIn(services, cls, flagged, i);
      if s == null then forall k :: i <= k < |services| && services[k].cls == cls ==> services[k] in flagged
      else exists k :: i <= k < |services| && services[k] == s && s.cls == cls && s !in flagged
             && forall j :: i <= j < k && services[j].cls == cls ==> services[j] in flagged
    decreases |services| - i
  {
    if i < |services| && !(services[i].cls == cls && services[i] !in flagged) {
      FirstInDevice(services, cls, flagged, i + 1);
    }
  }

  /** All services of the class are taken, in the devices from `j` to `n`, control services aside. */
  ghost predicate AllTaken(devices: seq<Device>, cls: nat, flagged: set<Service>, j: nat, n: nat)
    requires n <= |devices|
  {
    forall k :: j <= k < n ==> NoneFree([devices[k]], cls, flagged)
  }

  /**
   * It is free, of the class and not a control service, and it comes first: what comes before it of the
   * class, on its own device or on those before that in the list, is taken.
   */
  lemma {:induction false} FirstFreeIsFirst(devices: seq<Device>, cls: nat, flagged: set<Service>, j: nat)
    requires j <= |devices|
    ensures var s := FirstFree(devices, cls, flagged, j);
      if s == null then AllTaken(devices, cls, flagged, j, |devices|)
      else exists n, k :: j <= n < |devices| && 1 <= k < |devices[n].services| && devices[n].services[k] == s
             && s.cls == cls && s !in flagged && AllTaken(devices, cls, flagged, j, n)
             && forall i :: 1 <= i < k && devices[n].services[i].cls == cls ==> devices[n].services[i] in flagged
    decreases |devices| - j
  {
    if j < |devices| {
      FirstInDevice(devices[j].services, cls, flagged, 1);
      if FreeIn(devices[j].services, cls, flagged, 1) == null {
        FirstFreeIsFirst(devices, cls, flagged, j + 1);
      }
    }
  }

  /** No service of the class is free, other than the control services. */
  ghost predicate NoneFree(devices: seq<Device>, cls: nat, flagged: set<Service>) {
    forall d, i :: d in devices && 1 <= i < |d.services| && d.services[i].cls == cls ==> d.services[i] in flagged
  }

  // ---------------------------------------------------------------- order

  /** Byte order, as strcmp and memcmp compare. */
  predicate Less(a: seq<byte>, b: seq<byte>) {
    |b| > 0 && (|a| == 0 || a[0] < b[0] || (a[0] == b[0] && Less(a[1..], b[1..])))
  }

  lemma {:induction false} LessIsOrder(a: seq<byte>, b: seq<byte>, c: seq<byte>)
    ensures !Less(a, a)
    ensures Less(a, b) && Less(b, c) ==> Less(a, c)
    ensures a != b ==> (Less(a, b) <==> !Less(b, a))
  {
    if |a| > 0 {
      if |b| > 0 {
        if |c| > 0 {
          LessIsOrder(a[1..], b[1..], c[1..]);
        } else {
          LessIsOrder(a[1..], b[1..], []);
        }
        assert a == [a[0]] + a[1..] && b == [b[0]] + b[1..];
      } else {
        LessIsOrder(a[1..], [], []);
      }
    }
  }

  /** At the first byte that differs the smaller one decides; a prefix goes before what it is a prefix of. */
  lemma {:induction false} LessIsLexicographic(a: seq<byte>, b: seq<byte>)
    ensures Less(a, b) <==> exists k :: 0 <= k < |b| && k <= |a| && a[..k] == b[..k] && (k == |a| || a[k] < b[k])
  {
    if |b| > 0 && |a| > 0 {
      LessIsLexicographic(a[1..], b[1..]);
      if a[0] < b[0] {
        assert a[..0] == b[..0];
      } else if a[0] == b[0] {
        if Less(a[1..], b[1..]) {
          var k :| 0 <= k < |b[1..]| && k <= |a[1..]| && a[1..][..k] == b[1..][..k] && (k == |a[1..]| || a[1..][k] < b[1..][k]);
          assert a[..k + 1] == [a[0]] + a[1..][..k] && b[..k + 1] == [b[0]] + b[1..][..k];
        }
        if exists k :: 0 <= k < |b| && k <= |a| && a[..k] == b[..k] && (k == |a| || a[k] < b[k]) {
          var k :| 0 <= k < |b| && k <= |a| && a[..k] == b[..k] && (k == |a| || a[k] < b[k]);
          assert k > 0 && a[1..][..k - 1] == a[..k][1..] && b[1..][..k - 1] == b[..k][1..];
        }
      } else {
        forall k | 0 < k < |b| && k <= |a|
          ensures a[..k] != b[..k]
        {
          assert a[..k][0] == a[0] && b[..k][0] == b[0];
        }
      }
    } else if |b| > 0 {
      assert a[..0] == b[..0];
    }
  }

  ghost predicate RolesOrdered(roles: seq<Role>) {
    forall i, j :: 0 <= i < j < |roles| ==> Less(roles[i].name, roles[j].name)
  }

  /** Where a new role goes: before the first with a greater name. */
  function RoleSlot(roles: seq<Role>, name: CString, i: nat): (r: nat)
    requires i <= |roles|
    ensures i <= r <= |roles| && (r < |roles| ==> Less(name, roles[r].name))
    ensures forall j :: i <= j < r ==> !Less(name, roles[j].name)
    decreases |roles| - i
  {
    if i == |roles| || Less(name, roles[i].name) then i else RoleSlot(roles, name, i + 1)
  }

  function Inserted<T>(s: seq<T>, i: nat, x: T): seq<T>
    requires i <= |s|
  {
    s[..i] + [x] + s[i..]
  }

  lemma RoleInserted(roles: seq<Role>, r: Role)
    requires RolesOrdered(roles) && forall q :: q in roles ==> q.name != r.name
    ensures RolesOrdered(Inserted(roles, RoleSlot(roles, r.name, 0), r))
  {
    var at := RoleSlot(roles, r.name, 0);
    forall i | 0 <= i < |roles|
      ensures if i < at then Less(roles[i].name, r.name) else Less(r.name, roles[i].name)
    {
      LessIsOrder(roles[i].name, r.name, r.name);
      if i > at {
        LessIsOrder(r.name, roles[at].name, roles[i].name);
      }
    }
  }

  lemma LiveMoves(devices: seq<Device>, i: nat)
    requires i < |devices|
    ensures LiveIn(devices) == LiveIn(devices[..i] + devices[i + 1..] + [devices[i]])
  {
    var moved := devices[..i] + devices[i + 1..] + [devices[i]];
    forall d | d in devices
      ensures d in moved
    {
      var j :| 0 <= j < |devices| && devices[j] == d;
      assert j < i ==> moved[j] == d;
      assert j > i ==> moved[j - 1] == d;
      assert j == i ==> moved[|devices| - 1] == d;
    }
    assert forall d :: d in moved ==> d in devices;
  }

  lemma LiveInserted(devices: seq<Device>, i: nat, d: Device)
    requires i <= |devices|
    ensures LiveIn(Inserted(devices, i, d)) == LiveIn(devices) + LiveIn([d])
  {
    assert forall e :: e in Inserted(devices, i, d) <==> e in devices || e == d;
  }

  /** The order of the device list: this device first, then by the bytes of the identifiers. */
  predicate Before(selfId: seq<byte>, a: seq<byte>, b: seq<byte>) {
    if a == selfId then b != selfId else b != selfId && Less(a, b)
  }

  /** A new device fits before this one. */
  predicate FitsAt(selfId: seq<byte>, existing: Device, id: seq<byte>) {
    id == selfId || (existing.id != selfId && Less(id, existing.id))
  }

  ghost predicate DevicesOrdered(selfId: seq<byte>, devices: seq<Device>) {
    forall i, j :: 0 <= i < j < |devices| ==> Before(selfId, devices[i].id, devices[j].id)
  }

  /** In an ordered list this device comes first, and the others by their bytes. */
  lemma SelfIsFirst(selfId: seq<byte>, devices: seq<Device>, i: nat, j: nat)
    requires DevicesOrdered(selfId, devices) && i < j < |devices|
    ensures devices[j].id != selfId && (i > 0 ==> devices[i].id != selfId)
    ensures devices[i].id != selfId ==> Less(devices[i].id, devices[j].id)
  {
    assert Before(selfId, devices[i].id, devices[j].id);
    if i > 0 {
      assert Before(selfId, devices[0].id, devices[i].id);
    }
  }

  function DeviceSlot(selfId: seq<byte>, devices: seq<Device>, id: seq<byte>, i: nat): (r: nat)
    requires i <= |devices|
    ensures i <= r <= |devices| && (r < |devices| ==> FitsAt(selfId, devices[r], id))
    ensures forall j :: i <= j < r ==> !FitsAt(selfId, devices[j], id)
    decreases |devices| - i
  {
    if i == |devices| || FitsAt(selfId, devices[i], id) then i else DeviceSlot(selfId, devices, id, i + 1)
  }

  lemma DeviceInserted(selfId: seq<byte>, devices: seq<Device>, d: Device)
    requires DevicesOrdered(selfId, devices) && forall e :: e in devices ==> e.id != d.id
    ensures DevicesOrdered(selfId, Inserted(devices, DeviceSlot(selfId, devices, d.id, 0), d))
  {
    var at := DeviceSlot(selfId, devices, d.id, 0);
    forall i | 0 <= i < |devices|
      ensures if i < at then Before(selfId, devices[i].id, d.id) else Before(selfId, d.id, devices[i].id)
    {
      LessIsOrder(devices[i].id, d.id, d.id);
      if i > at {
        assert Before(selfId, devices[at].id, devices[i].id);
        LessIsOrder(d.id, devices[at].id, devices[i].id);
      }
    }
  }

  /** `left` is `was` with the new device `dev` instead of `d`, in its own place. */
  ghost predicate InPlaceOf(selfId: seq<byte>, was: seq<Device>, left: seq<Device>, d: Device, dev: Device) {
    forall i :: 0 <= i < |was| && was[i] == d ==>
      var rest := was[..i] + was[i + 1..]; left == Inserted(rest, DeviceSlot(selfId, rest, dev.id, 0), dev)
  }

  /** The services of a new device: a control service, and then those of the classes announced. */
  ghost predicate ServicesAre(services: seq<Service>, classes: seq<nat>) {
    |services| == |classes| && forall i :: 0 <= i < |classes| ==>
      services[i].index == i && services[i].cls == if i == 0 then 0 else classes[i]
  }

  lemma IdsDiffer(selfId: seq<byte>, devices: seq<Device>, i: nat)
    requires DevicesOrdered(selfId, devices) && i < |devices|
    ensures forall e :: e in devices[..i] + devices[i + 1..] ==> e.id != devices[i].id
    ensures DevicesOrdered(selfId, devices[..i] + devices[i + 1..])
  {
    LessIsOrder(devices[i].id, [], []);
    var rest := devices[..i] + devices[i + 1..];
    assert forall j :: 0 <= j < |rest| ==> rest[j] == devices[if j < i then j else j + 1];
  }

  // ---------------------------------------------------------------- which devices a collection removes

  /** The moment is at most half a timer period ago. */
  predicate InPast(moment: nat, now: nat) {
    (now - moment) % WORD < 0x8000_0000
  }

  /** The device was last announced `elapsed` microseconds before `now`; the clock wraps around at 32 bits. */
  ghost predicate SeenAgo(d: Device, now: nat, elapsed: nat)
    reads d
  {
    exists t: nat :: d.expires == ExpiryOf(t) && now == (t + elapsed) % WORD
  }

  /** What an announcement at `t` sets. */
  function ExpiryOf(t: nat): nat {
    (t + 2_000_000) % WORD
  }

  lemma SeenWhenAnnounced(d: Device, t: nat, elapsed: nat)
    requires d.expires == ExpiryOf(t % WORD)
    ensures SeenAgo(d, (t + elapsed) % WORD, elapsed)
  {
    var r := t % WORD;
    SameRemainder(t + elapsed, r + elapsed, t / WORD, WORD);
    assert d.expires == ExpiryOf(r) && (t + elapsed) % WORD == (r + elapsed) % WORD;
  }

  /** A device lives for two seconds; after that it counts as expired for half a period of the timer. */
  lemma LivesTwoSeconds(t: nat, elapsed: nat, now: nat)
    requires now == (t + elapsed) % WORD && elapsed < 2_000_000 + 0x8000_0000
    ensures InPast(ExpiryOf(t), now) <==> elapsed >= 2_000_000
  {
    var a, b := t + elapsed, t + 2_000_000;
    var q := b / WORD - a / WORD;
    assert a % WORD - b % WORD == elapsed - 2_000_000 + WORD * q;
    ShiftedRemainder(elapsed - 2_000_000, q);
  }

  lemma ShiftedRemainder(x: int, q: int)
    ensures (x + WORD * q) % WORD == x % WORD
  {
    SameRemainder(x + WORD * q, x, q, WORD);
  }

  /**
   * Devices that were announced less than two seconds ago are left; if it was longer ago, they count as expired
   * and are gone if they were first in the list.
   */
  ghost predicate GoesByAge(was: seq<Device>, left: seq<Device>, expired: set<Device>, now: nat)
    reads was
  {
    forall d: Device, elapsed: nat :: d in was && SeenAgo(d, now, elapsed) ==>
      && (elapsed < 2_000_000 ==> d in left)
      && (2_000_000 <= elapsed < 2_000_000 + 0x8000_0000 ==> d in expired && (d == was[0] && Distinct(was) ==> d !in left))
  }

  /** The list without the expired devices at its head. */
  function DropLead(ds: seq<Device>, expired: set<Device>): (r: seq<Device>)
    ensures |r| <= |ds| && (r != [] ==> r[0] !in expired)
  {
    if ds == [] || ds[0] !in expired then ds else DropLead(ds[1..], expired)
  }

  /** The walk over the rest: it steps over the neighbour of what it removes without looking at it. */
  function Sweep(ds: seq<Device>, expired: set<Device>): (r: seq<Device>)
    ensures |r| <= |ds|
  {
    if |ds| < 2 then ds
    else if ds[1] in expired then [ds[0]] + Sweep(ds[2..], expired)
    else [ds[0]] + Sweep(ds[1..], expired)
  }

  function Collected(ds: seq<Device>, expired: set<Device>): seq<Device> {
    Sweep(DropLead(ds, expired), expired)
  }

  lemma {:induction false} DropLeadKeeps(ds: seq<Device>, expired: set<Device>)
    ensures forall d :: d in ds && d !in expired ==> d in DropLead(ds, expired)
    ensures forall d :: d in DropLead(ds, expired) ==> d in ds
    ensures DropLead(ds, expired) == ds[|ds| - |DropLead(ds, expired)|..]
  {
    if ds != [] && ds[0] in expired {
      DropLeadKeeps(ds[1..], expired);
      assert ds == [ds[0]] + ds[1..];
    }
  }

  lemma {:induction false} SweepKeeps(ds: seq<Device>, expired: set<Device>)
    ensures forall d :: d in ds && d !in expired ==> d in Sweep(ds, expired)
    ensures forall d :: d in Sweep(ds, expired) ==> d in ds
    ensures ds != [] ==> Sweep(ds, expired) != [] && Sweep(ds, expired)[0] == ds[0]
    ensures |Sweep(ds, expired)| == |ds| <==> forall i :: 1 <= i < |ds| ==> ds[i] !in expired
  {
    if |ds| >= 2 {
      if ds[1] in expired {
        SweepKeeps(ds[2..], expired);
        assert ds == [ds[0], ds[1]] + ds[2..];
      } else {
        SweepKeeps(ds[1..], expired);
        assert ds == [ds[0]] + ds[1..];
        assert forall i :: 2 <= i < |ds| ==> ds[i] == ds[1..][i - 1];
      }
    }
  }

  ghost predicate Distinct<T>(s: seq<T>) {
    forall i, j :: 0 <= i < j < |s| ==> s[i] != s[j]
  }

  /** The walk removes an expired device exactly if it does not remove the one before. */
  lemma {:induction false} SweepIff(ds: seq<Device>, expired: set<Device>, j: nat)
    requires Distinct(ds) && 1 <= j < |ds|
    ensures ds[j] in Sweep(ds, expired) <==> ds[j] !in expired || ds[j - 1] !in Sweep(ds, expired)
    decreases |ds|
  {
    var n := if ds[1] in expired then 2 else 1;
    var rest := ds[n..];
    SweepKeeps(rest, expired);
    assert forall i :: 0 <= i < |rest| ==> rest[i] == ds[n + i];
    if j > n {
      SweepIff(rest, expired, j - n);
    }
  }

  /** No two devices share a service. */
  ghost predicate Own(devices: seq<Device>) {
    forall i, j, s :: 0 <= i < j < |devices| && s in devices[i].services ==> s !in devices[j].services
  }

  lemma {:induction false} DistinctCounts<T>(s: seq<T>, x: T)
    requires Distinct(s)
    ensures multiset(s)[x] <= 1
  {
    if s != [] {
      DistinctCounts(s[1..], x);
      assert s == [s[0]] + s[1..];
      if s[0] == x {
        assert x !in s[1..];
      }
    }
  }

  lemma StaysOrGoes(was: seq<Device>, stay: seq<Device>, gone: seq<Device>, d: Device, e: Device)
    requires multiset(stay) + multiset(gone) == multiset(was) && Distinct(was) && d in stay && e in gone
    ensures d != e && d in was && e in was
  {
    DistinctCounts(was, d);
    assert d in multiset(stay) && e in multiset(gone) && d in multiset(was) && e in multiset(was);
    assert multiset(was)[d] == multiset(stay)[d] + multiset(gone)[d];
  }

  lemma OneHome(devices: seq<Device>, d: Device, e: Device, s: Service)
    requires Own(devices) && d in devices && e in devices && d != e && s in d.services
    ensures s !in e.services
  {
    var i :| 0 <= i < |devices| && devices[i] == d;
    var j :| 0 <= j < |devices| && devices[j] == e;
  }

  /** The services of a device that stays are none of those of the devices that go. */
  lemma StaysWithServices(was: seq<Device>, stay: seq<Device>, gone: seq<Device>, d: Device, s: Service)
    requires multiset(stay) + multiset(gone) == multiset(was) && Distinct(was) && Own(was)
    requires d in stay && s in d.services
    ensures s !in LiveIn(gone)
  {
    forall e | e in gone
      ensures s !in e.services
    {
      StaysOrGoes(was, stay, gone, d, e);
      OneHome(was, d, e, s);
    }
  }

  lemma OrderedIsDistinct(selfId: seq<byte>, devices: seq<Device>)
    requires DevicesOrdered(selfId, devices)
    ensures Distinct(devices)
  {
    forall i, j | 0 <= i < j < |devices|
      ensures devices[i] != devices[j]
    {
      LessIsOrder(devices[i].id, [], []);
    }
  }

  lemma {:induction false} LeadIsExpired(ds: seq<Device>, expired: set<Device>, j: nat)
    requires j < |ds| - |DropLead(ds, expired)|
    ensures ds[j] in expired
  {
    if j > 0 {
      LeadIsExpired(ds[1..], expired, j - 1);
    }
  }

  /**
   * Exactly which devices a collection leaves: those that have not expired, and behind the first of these
   * every expired one whose predecessor in the list was removed.
   */
  lemma CollectedIff(ds: seq<Device>, expired: set<Device>, j: nat)
    requires Distinct(ds) && j < |ds|
    ensures ds[j] in Collected(ds, expired) <==>
      || ds[j] !in expired
      || (j > 0 && ds[j - 1] !in Collected(ds, expired) && exists i :: 0 <= i < j && ds[i] !in expired)
  {
    var rest := DropLead(ds, expired);
    var m := |ds| - |rest|;
    DropLeadKeeps(ds, expired);
    if j < m {
      LeadGoes(ds, expired, j, m);
    } else {
      BehindLead(ds, expired, rest, m, j);
    }
  }

  lemma BehindLead(ds: seq<Device>, expired: set<Device>, rest: seq<Device>, m: nat, j: nat)
    requires Distinct(ds) && m <= j < |ds| && rest == ds[m..] && rest[0] !in expired
    ensures ds[j] in Sweep(rest, expired) <==>
      ds[j] !in expired || (j > m && ds[j - 1] !in Sweep(rest, expired) && ds[m] !in expired)
  {
    assert rest[0] == ds[m] && rest[j - m] == ds[j];
    SweepKeeps(rest, expired);
    if j > m {
      assert rest[j - m - 1] == ds[j - 1];
      SweepIff(rest, expired, j - m);
    }
  }

  lemma LeadGoes(ds: seq<Device>, expired: set<Device>, j: nat, m: nat)
    requires Distinct(ds) && j < m <= |ds| && DropLead(ds, expired) == ds[m..] && m == |ds| - |DropLead(ds, expired)|
    ensures ds[j] !in Collected(ds, expired) && forall i :: 0 <= i <= j ==> ds[i] in expired
  {
    forall i | 0 <= i <= j
      ensures ds[i] in expired
    {
      LeadIsExpired(ds, expired, i);
    }
    SweepKeeps(ds[m..], expired);
    assert forall i :: 0 <= i < |ds[m..]| ==> ds[m..][i] == ds[m + i];
  }

  /** A collection removes nothing live, and it removes something whenever something has expired. */
  lemma CollectedKeeps(ds: seq<Device>, expired: set<Device>)
    ensures forall d :: d in ds && d !in expired ==> d in Collected(ds, expired)
    ensures forall d :: d in Collected(ds, expired) ==> d in ds
    ensures |Collected(ds, expired)| == |ds| <==> forall d :: d in ds ==> d !in expired
  {
    DropLeadKeeps(ds, expired);
    var rest := DropLead(ds, expired);
    SweepKeeps(rest, expired);
    if forall i :: 1 <= i < |rest| ==> rest[i] !in expired {
      assert forall d :: d in rest ==> d !in expired;
    }
  }

  /** A collection goes by the age of devices. */
  lemma CollectedByAge(ds: seq<Device>, expired: set<Device>, now: nat)
    requires forall d :: d in ds ==> (d in expired <==> InPast(d.expires, now))
    ensures GoesByAge(ds, Collected(ds, expired), expired, now)
  {
    CollectedKeeps(ds, expired);
    forall d: Device, elapsed: nat | d in ds && SeenAgo(d, now, elapsed) && elapsed < 2_000_000 + 0x8000_0000
      ensures if elapsed < 2_000_000 then d in Collected(ds, expired)
              else d in expired && (d == ds[0] && Distinct(ds) ==> d !in Collected(ds, expired))
    {
      var t: nat :| d.expires == ExpiryOf(t) && now == (t + elapsed) % WORD;
      LivesTwoSeconds(t, elapsed, now);
      if d == ds[0] && Distinct(ds) {
        CollectedIff(ds, expired, 0);
      }
    }
  }

  lemma HeadFirst(selfId: seq<byte>, d: Device, ds: seq<Device>)
    requires DevicesOrdered(selfId, ds) && forall e :: e in ds ==> Before(selfId, d.id, e.id)
    ensures DevicesOrdered(selfId, [d] + ds)
  {
  }

  lemma {:induction false} SweepOrdered(selfId: seq<byte>, ds: seq<Device>, expired: set<Device>)
    requires DevicesOrdered(selfId, ds)
    ensures DevicesOrdered(selfId, Sweep(ds, expired))
  {
    if |ds| >= 2 {
      var rest := if ds[1] in expired then ds[2..] else ds[1..];
      SweepOrdered(selfId, rest, expired);
      SweepKeeps(rest, expired);
      HeadFirst(selfId, ds[0], Sweep(rest, expired));
    }
  }

  /** The list stays in order. */
  lemma CollectedOrdered(selfId: seq<byte>, ds: seq<Device>, expired: set<Device>)
    requires DevicesOrdered(selfId, ds)
    ensures DevicesOrdered(selfId, Collected(ds, expired))
  {
    DropLeadKeeps(ds, expired);
    SweepOrdered(selfId, DropLead(ds, expired), expired);
  }
}
