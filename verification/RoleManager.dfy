/** The role manager: every operation keeps the bindings consistent, and binding is maximal. */
module RoleManager {
  import opened Bytes
  import opened RoleBinding

  ghost function BindingsOf(roles: seq<Role>): (b: seq<Service?>)
    reads roles
    ensures |b| == |roles| && forall i :: 0 <= i < |b| ==> b[i] == roles[i].service
  {
    seq(|roles|, i requires 0 <= i < |roles| reads roles => roles[i].service)
  }

  ghost function FlaggedIn(live: set<Service>): (f: set<Service>)
    reads live
    ensures f <= live && forall s :: s in live ==> (s in f <==> s.taken)
  {
    set s | s in live && s.taken
  }

  /** Every eligible role without a service finds none free. */
  ghost predicate Maximal(roles: seq<Role>, b: seq<Service?>, devices: seq<Device>, flagged: set<Service>,
                          force: bool, n: nat)
    requires n <= |roles| == |b|
  {
    forall k :: 0 <= k < n && b[k] == null && !(roles[k].hint != NoHint && force) ==>
      NoneFree(devices, roles[k].cls, flagged)
  }

  /**
   * What following the hints of all roles makes of the bindings `b`: a role without a service gets the one its
   * hint leads to if that was free and no earlier role without a service has a hint that leads there.
   */
  ghost function Hinted(roles: seq<Role>, targets: seq<Service?>, b: seq<Service?>, k: nat): Service?
    requires k < |roles| == |b| == |targets|
  {
    if b[k] != null then b[k]
    else if targets[k] != null && targets[k] !in b && (forall j :: 0 <= j < k && b[j] == null ==> targets[j] != targets[k])
      then targets[k]
    else null
  }

  /** Where the hints of the roles lead. */
  ghost function Targets(roles: seq<Role>, devices: seq<Device>, appId: seq<byte>, selfId: seq<byte>): (ts: seq<Service?>)
    ensures |ts| == |roles| && forall k :: 0 <= k < |ts| ==> ts[k] == HintTarget(roles[k], devices, appId, selfId)
  {
    seq(|roles|, k requires 0 <= k < |roles| => HintTarget(roles[k], devices, appId, selfId))
  }

  /** The first `k` bindings of `c` are those that hints make of `b`, the others are still those of `b`. */
  ghost predicate HintedUpTo(roles: seq<Role>, targets: seq<Service?>, b: seq<Service?>, c: seq<Service?>, k: nat) {
    && |roles| == |b| == |targets| == |c|
    && forall j :: 0 <= j < |b| ==> c[j] == if j < k then Hinted(roles, targets, b, j) else b[j]
  }

  /** The target of role `k` is still free exactly if it was, and no role before it took it. */
  lemma StillFree(roles: seq<Role>, targets: seq<Service?>, b: seq<Service?>, c: seq<Service?>, k: nat)
    requires k < |roles| && HintedUpTo(roles, targets, b, c, k) && b[k] == null && targets[k] != null
    ensures targets[k] !in c <==>
      targets[k] !in b && forall j :: 0 <= j < k && b[j] == null ==> targets[j] != targets[k]
  {
    var t := targets[k];
    if t in b {
      var i :| 0 <= i < |b| && b[i] == t;
      assert c[i] == t;
    } else if j :| 0 <= j < k && b[j] == null && targets[j] == t {
      FirstTakes(roles, targets, b, c, k, j);
    } else {
      forall i | 0 <= i < |c|
        ensures c[i] != t
      {
      }
    }
  }

  /** One more role whose hint is followed, when a service is taken exactly if it is flagged. */
  lemma HintedNext(roles: seq<Role>, targets: seq<Service?>, b: seq<Service?>, c: seq<Service?>, k: nat,
                   flagged: set<Service>, live: set<Service>)
    requires k < |roles| && HintedUpTo(roles, targets, b, c, k) && Consistent(c, live, flagged)
    requires targets[k] != null ==> targets[k] in live
    ensures var to := if b[k] != null then b[k] else if targets[k] != null && targets[k] !in flagged then targets[k] else null;
      HintedUpTo(roles, targets, b, c[k := to], k + 1)
  {
    if b[k] == null && targets[k] != null {
      StillFree(roles, targets, b, c, k);
    }
  }

  lemma {:induction false} FirstTakes(roles: seq<Role>, targets: seq<Service?>, b: seq<Service?>, c: seq<Service?>, k: nat, j: nat)
    requires k <= |roles| && j < k && HintedUpTo(roles, targets, b, c, k)
    requires b[j] == null && targets[j] != null && targets[j] !in b
    ensures targets[j] in c
    decreases j
  {
    if i :| 0 <= i < j && b[i] == null && targets[i] == targets[j] {
      FirstTakes(roles, targets, b, c, k, i);
    } else {
      assert c[j] == targets[j];
    }
  }

  /** The services among `live` that are bound. */
  ghost function BoundIn(live: set<Service>, b: seq<Service?>): set<Service> {
    set s | s in live && s in b
  }

  lemma FlagsTellBound(b: seq<Service?>, live: set<Service>, flagged: set<Service>)
    requires Consistent(b, live, flagged) && flagged <= live
    ensures flagged == BoundIn(live, b)
  {
  }

  /**
   * Role `k` has kept its service or, if it may get one, has the first that is free after the hints and after
   * what the roles before it got.
   */
  ghost predicate Served(roles: seq<Role>, devices: seq<Device>, force: bool, hinted: seq<Service?>, c: seq<Service?>, k: nat)
    requires k < |roles| == |hinted| == |c|
  {
    c[k] ==
      if hinted[k] != null || (roles[k].hint != NoHint && force) then hinted[k]
      else FirstFree(devices, roles[k].cls, BoundIn(LiveIn(devices), c[..k] + hinted[k..]), 0)
  }

  ghost predicate ServedUpTo(roles: seq<Role>, devices: seq<Device>, force: bool, hinted: seq<Service?>, c: seq<Service?>, k: nat) {
    && |roles| == |hinted| == |c| && k <= |c| && c[k..] == hinted[k..]
    && forall j :: 0 <= j < k ==> Served(roles, devices, force, hinted, c, j)
  }

  lemma ServedNext(roles: seq<Role>, devices: seq<Device>, force: bool, hinted: seq<Service?>, c: seq<Service?>, k: nat, to: Service?)
    requires ServedUpTo(roles, devices, force, hinted, c, k) && k < |c|
    requires to ==
      if c[k] != null || (roles[k].hint != NoHint && force) then c[k]
      else FirstFree(devices, roles[k].cls, BoundIn(LiveIn(devices), c), 0)
    ensures ServedUpTo(roles, devices, force, hinted, c[k := to], k + 1)
  {
    var d := c[k := to];
    assert c[k] == c[k..][0] == hinted[k..][0] == hinted[k];
    assert d[..k] == c[..k] && c == c[..k] + c[k..];
    forall j | 0 <= j < k
      ensures Served(roles, devices, force, hinted, d, j)
    {
      assert d[..j] == c[..j] && Served(roles, devices, force, hinted, c, j);
    }
    assert d[k + 1..] == c[k..][1..] == hinted[k..][1..] == hinted[k + 1..];
  }

  /** Earlier roles go first: when a later one gets a service of the same class, they have one. */
  lemma EarlierFirst(roles: seq<Role>, devices: seq<Device>, force: bool, hinted: seq<Service?>, c: seq<Service?>, i: nat, k: nat)
    requires ServedUpTo(roles, devices, force, hinted, c, |c|) && i < k < |c| && roles[i].cls == roles[k].cls
    requires hinted[i] == null && hinted[k] == null && !(roles[i].hint != NoHint && force) && c[k] != null
    ensures c[i] != null
  {
    assert Served(roles, devices, force, hinted, c, i) && Served(roles, devices, force, hinted, c, k);
    var f, g := BoundIn(LiveIn(devices), c[..i] + hinted[i..]), BoundIn(LiveIn(devices), c[..k] + hinted[k..]);
    FirstFreeIsFirst(devices, roles[i].cls, f, 0);
    FirstFreeIsFirst(devices, roles[k].cls, g, 0);
    if c[i] == null {
      forall j | 0 <= j < |c| && hinted[j] != null
        ensures c[j] == hinted[j]
      {
        assert Served(roles, devices, force, hinted, c, j);
      }
      BoundMore(devices, hinted, c, i, k);
    }
  }

  lemma BoundMore(devices: seq<Device>, hinted: seq<Service?>, c: seq<Service?>, i: nat, k: nat)
    requires i <= k <= |c| == |hinted| && forall j :: 0 <= j < |c| && hinted[j] != null ==> c[j] == hinted[j]
    ensures BoundIn(LiveIn(devices), c[..i] + hinted[i..]) <= BoundIn(LiveIn(devices), c[..k] + hinted[k..])
  {
    var x, y := c[..i] + hinted[i..], c[..k] + hinted[k..];
    forall s: Service | s in x
      ensures s in y
    {
      var j :| 0 <= j < |x| && x[j] == s;
      assert y[j] == s;
    }
  }

  /** Bindings and flags after some free roles were given services of their class. */
  ghost predicate Grown(roles: seq<Role>, b: seq<Service?>, c: seq<Service?>, f: set<Service>, g: set<Service>) {
    && |roles| == |b| && Extends(b, c) && f <= g
    && (forall k :: 0 <= k < |b| && b[k] == null && c[k] != null ==> c[k].cls == roles[k].cls)
  }

  lemma GrowsOn(roles: seq<Role>, b: seq<Service?>, c: seq<Service?>, k: nat, to: Service?,
                f: set<Service>, g: set<Service>, h: set<Service>)
    requires Grown(roles, b, c, f, g) && k < |c| && g <= h
    requires if c[k] == null then to == null || to.cls == roles[k].cls else to == c[k]
    ensures Grown(roles, b, c[k := to], f, h)
  {
  }

  lemma MaximalKept(roles: seq<Role>, b: seq<Service?>, devices: seq<Device>, f: set<Service>, g: set<Service>,
                    force: bool, n: nat, to: Service?)
    requires n < |roles| == |b| && f <= g && Maximal(roles, b, devices, f, force, n)
    requires to == null && !(roles[n].hint != NoHint && force) ==> NoneFree(devices, roles[n].cls, g)
    ensures Maximal(roles, b[n := to], devices, g, force, n + 1)
  {
    var c := b[n := to];
    forall k | 0 <= k < n + 1 && c[k] == null && !(roles[k].hint != NoHint && force)
      ensures NoneFree(devices, roles[k].cls, g)
    {
      assert k < n ==> NoneFree(devices, roles[k].cls, f);
    }
  }

  lemma InsertKeeps(b: seq<Service?>, at: nat, live: set<Service>, flagged: set<Service>)
    requires at <= |b| && Consistent(b, live, flagged)
    ensures Consistent(Inserted(b, at, null), live, flagged)
  {
    var c := Inserted(b, at, null);
    assert forall i :: 0 <= i < |c| && c[i] != null ==> c[i] == b[if i < at then i else i - 1];
    forall s | s in live
      ensures s in b <==> s in c
    {
      if s in b {
        var i :| 0 <= i < |b| && b[i] == s;
        assert c[if i < at then i else i + 1] == s;
      }
    }
  }

  lemma RemoveKeeps(b: seq<Service?>, k: nat, live: set<Service>, flagged: set<Service>)
    requires k < |b| && b[k] == null && Consistent(b, live, flagged)
    ensures Consistent(b[..k] + b[k + 1..], live, flagged)
  {
    var c := b[..k] + b[k + 1..];
    assert forall i :: 0 <= i < |c| ==> c[i] == b[if i < k then i else i + 1];
    forall s | s in live
      ensures s in b <==> s in c
    {
      if s in b {
        var i :| 0 <= i < |b| && b[i] == s;
        assert c[if i < k then i else i - 1] == s;
      }
    }
  }

  lemma AppendAssoc(a: seq<Device>, b: seq<Device>, c: seq<Device>)
    ensures a + (b + c) == (a + b) + c
  {
  }

  lemma SweepStep(ds: seq<Device>, p: nat, expired: set<Device>)
    requires p + 1 < |ds|
    ensures ds[..p] + Sweep(ds[p..], expired)
         == ds[..p + 1] + Sweep(if ds[p + 1] in expired then ds[p + 2..] else ds[p + 1..], expired)
  {
    var rest := ds[p..];
    assert rest[1..] == ds[p + 1..] && rest[2..] == ds[p + 2..] && rest[0] == ds[p] && rest[1] == ds[p + 1];
    var more := Sweep(if ds[p + 1] in expired then ds[p + 2..] else ds[p + 1..], expired);
    assert Sweep(rest, expired) == [ds[p]] + more;
    assert ds[..p + 1] == ds[..p] + [ds[p]];
    AppendAssoc(ds[..p], [ds[p]], more);
  }

  lemma NewServices(b: seq<Service?>, live: set<Service>, more: set<Service>)
    requires live !! more
    requires forall s :: s in more ==> !s.taken
    requires Consistent(b, live, FlaggedIn(live))
    ensures Consistent(b, live + more, FlaggedIn(live + more))
  {
    forall s | s in live + more
      ensures s in FlaggedIn(live + more) <==> s in b
    {
      assert s in b ==> s in live;
    }
  }

  class Manager {
    var roles: seq<Role>
    var devices: seq<Device>
    var autoBind: bool
    var force: bool
    var appId: seq<byte>
    const selfId: seq<byte>
    var changed: bool

    ghost predicate Sound(live: set<Service>)
      reads this, roles, live
    {
      Distinct(roles) && Consistent(BindingsOf(roles), live, FlaggedIn(live))
    }

    ghost predicate Valid()
      reads this, roles, LiveIn(devices)
    {
      Sound(LiveIn(devices))
    }

    /** A change of the bindings is noted, to be told by an event. */
    twostate predicate ChangeNoted()
      reads this, roles
    {
      (old(changed) ==> changed) && (BindingsOf(roles) != old(BindingsOf(roles)) ==> changed)
    }

    /** Binds a role to a service, or to none. */
    method Set(role: Role, to: Service?, ghost k: nat, ghost live: set<Service>)
      requires k < |roles| && roles[k] == role && Distinct(roles) && Opt(to) <= live && Opt(role.service) <= live
      modifies role`service, live`taken, this`changed
      ensures BindingsOf(roles) == old(BindingsOf(roles))[k := to]
      ensures FlaggedIn(live) == SetFlags(old(FlaggedIn(live)), old(role.service), to)
      ensures changed == (old(changed) || old(role.service) != to)
    {
      if role.service != to {
        if role.service != null {
          role.service.taken := false;
        }
        if to != null {
          to.taken := true;
        }
        role.service := to;
        changed := true;
      }
    }

    /** The same, where no other role has the service. */
    method Bind(role: Role, to: Service?, ghost k: nat, ghost live: set<Service>)
      requires k < |roles| && roles[k] == role && Sound(live) && Opt(to) <= live
      requires to == null || !to.taken || role.service == to
      modifies role`service, live`taken, this`changed
      ensures Sound(live) && BindingsOf(roles) == old(BindingsOf(roles))[k := to]
      ensures FlaggedIn(live) == SetFlags(old(FlaggedIn(live)), old(role.service), to)
      ensures ChangeNoted()
    {
      SetKeepsIff(BindingsOf(roles), k, to, live, FlaggedIn(live));
      assert BindingsOf(roles)[k] == role.service;
      Set(role, to, k, live);
    }

    /** First device with this identifier. */
    method LookupDevice(id: seq<byte>) returns (d: Device?)
      ensures d == DeviceById(devices, id, 0)
      ensures d != null ==> d in devices && d.id == id
      ensures d == null ==> forall e :: e in devices ==> e.id != id
    {
      for i := 0 to |devices|
        invariant DeviceById(devices, id, 0) == DeviceById(devices, id, i)
        invariant forall j :: 0 <= j < i ==> devices[j].id != id
      {
        if devices[i].id == id {
          return devices[i];
        }
      }
      d := null;
    }

    /** Follows a role's hint, if it has one that leads to a free service. */
    method UseHint(role: Role, ghost k: nat)
      requires k < |roles| && roles[k] == role && Valid()
      modifies role`service, LiveIn(devices)`taken, this`changed
      ensures Valid()
      ensures var target := HintTarget(role, devices, appId, selfId);
        role.service == if old(role.service) != null then old(role.service)
                        else if target != null && old(target in LiveIn(devices) && !target.taken) then target else null
      ensures BindingsOf(roles) == old(BindingsOf(roles))[k := role.service]
      ensures FlaggedIn(LiveIn(devices)) == old(FlaggedIn(LiveIn(devices))) + Opt(role.service)
      ensures ChangeNoted()
    {
      assert BindingsOf(roles)[k] == role.service;
      if role.service != null || role.hint == NoHint {
        return;
      }
      var dev := if role.hint == AppHint then appId else selfId;
      if dev == [] {
        return;
      }
      var d := LookupDevice(dev);
      if d == null {
        return;
      }
      var off: nat := role.offset;
      for i := 0 to |d.services|
        invariant ChangeNoted()
        invariant NthOfClass(d.services, role.cls, role.offset, 0) == NthOfClass(d.services, role.cls, off, i)
        invariant role.service == null
      {
        var serv := d.services[i];
        if serv.cls == role.cls {
          if off == 0 {
            assert HintTarget(role, devices, appId, selfId) == serv;
            LiveHas(devices, d, serv);
            if !serv.taken {
              Bind(role, serv, k, LiveIn(devices));
            }
            return;
          }
          off := off - 1;
        }
      }
    }

    /** The first free service of the class, not looking at the control services. */
    method FindFree(cls: nat) returns (s: Service?)
      ensures s == FirstFree(devices, cls, FlaggedIn(LiveIn(devices)), 0)
      ensures s != null ==> s in LiveIn(devices) && !s.taken && s.cls == cls
      ensures s == null ==> NoneFree(devices, cls, FlaggedIn(LiveIn(devices)))
    {
      ghost var flagged := FlaggedIn(LiveIn(devices));
      for j := 0 to |devices|
        invariant NoneFree(devices[..j], cls, flagged)
        invariant FirstFree(devices, cls, flagged, 0) == FirstFree(devices, cls, flagged, j)
      {
        s := FindFreeIn(devices[j], cls);
        if s != null {
          return;
        }
        assert devices[..j + 1] == devices[..j] + [devices[j]];
      }
      s := null;
      assert devices[..|devices|] == devices;
    }

    method FindFreeIn(d: Device, cls: nat) returns (s: Service?)
      requires d in devices
      ensures s == FreeIn(d.services, cls, FlaggedIn(LiveIn(devices)), 1)
      ensures s != null ==> s in LiveIn(devices) && !s.taken && s.cls == cls
      ensures s == null ==> NoneFree([d], cls, FlaggedIn(LiveIn(devices)))
    {
      ghost var flagged := FlaggedIn(LiveIn(devices));
      var i := 1;
      while i < |d.services|
        invariant 1 <= i
        invariant FreeIn(d.services, cls, flagged, 1) == FreeIn(d.services, cls, flagged, i)
        invariant forall k :: 1 <= k < i && k < |d.services| && d.services[k].cls == cls ==> d.services[k] in flagged
      {
        var serv := d.services[i];
        LiveHas(devices, d, serv);
        if serv.cls == cls && !serv.taken {
          return serv;
        }
        i := i + 1;
      }
      s := null;
    }

    /** Follows the hints of all roles. */
    method UseHints()
      requires Valid()
      modifies roles`service, LiveIn(devices)`taken, this`changed
      ensures Valid()
      ensures Grown(roles, old(BindingsOf(roles)), BindingsOf(roles),
                    old(FlaggedIn(LiveIn(devices))), FlaggedIn(LiveIn(devices)))
      ensures HintedUpTo(roles, Targets(roles, devices, appId, selfId), old(BindingsOf(roles)), BindingsOf(roles), |roles|)
      ensures ChangeNoted()
    {
      ghost var b, f := BindingsOf(roles), FlaggedIn(LiveIn(devices));
      ghost var targets := Targets(roles, devices, appId, selfId);
      for k := 0 to |roles|
        invariant ChangeNoted()
        invariant Valid() && Grown(roles, b, BindingsOf(roles), f, FlaggedIn(LiveIn(devices)))
        invariant HintedUpTo(roles, targets, b, BindingsOf(roles), k)
      {
        UseNextHint(k, b, f, targets);
      }
    }

    /** Follows the hint of role `k`, the roles before it having had their turn. */
    method UseNextHint(k: nat, ghost b: seq<Service?>, ghost f: set<Service>, ghost targets: seq<Service?>)
      requires Valid() && k < |roles| && Grown(roles, b, BindingsOf(roles), f, FlaggedIn(LiveIn(devices)))
      requires targets == Targets(roles, devices, appId, selfId) && HintedUpTo(roles, targets, b, BindingsOf(roles), k)
      modifies roles`service, LiveIn(devices)`taken, this`changed
      ensures Valid() && Grown(roles, b, BindingsOf(roles), f, FlaggedIn(LiveIn(devices)))
      ensures HintedUpTo(roles, targets, b, BindingsOf(roles), k + 1)
      ensures ChangeNoted()
    {
      ghost var c, g := BindingsOf(roles), FlaggedIn(LiveIn(devices));
      assert c[k] == roles[k].service == b[k];
      TargetIsLive(roles[k], devices, appId, selfId);
      HintedNext(roles, targets, b, c, k, g, LiveIn(devices));
      UseHint(roles[k], k);
      GrowsOn(roles, b, c, k, roles[k].service, f, g, FlaggedIn(LiveIn(devices)));
    }

    /** Gives role `k` the first free service of its class. */
    method AutobindRole(k: nat, ghost b: seq<Service?>, ghost f: set<Service>)
      requires Valid() && k < |roles| && Grown(roles, b, BindingsOf(roles), f, FlaggedIn(LiveIn(devices)))
      requires Maximal(roles, BindingsOf(roles), devices, FlaggedIn(LiveIn(devices)), force, k)
      modifies roles`service, LiveIn(devices)`taken, this`changed
      ensures Valid() && Grown(roles, b, BindingsOf(roles), f, FlaggedIn(LiveIn(devices)))
      ensures Maximal(roles, BindingsOf(roles), devices, FlaggedIn(LiveIn(devices)), force, k + 1)
      ensures BindingsOf(roles) == old(BindingsOf(roles))[k :=
        if old(roles[k].service) != null || (roles[k].hint != NoHint && force) then old(roles[k].service)
        else old(FirstFree(devices, roles[k].cls, FlaggedIn(LiveIn(devices)), 0))]
      ensures ChangeNoted()
    {
      var r := roles[k];
      ghost var c, g := BindingsOf(roles), FlaggedIn(LiveIn(devices));
      if r.service == null && !(r.hint != NoHint && force) {
        var serv := FindFree(r.cls);
        if serv != null {
          Bind(r, serv, k, LiveIn(devices));
        }
      }
      assert BindingsOf(roles) == c[k := r.service];
      GrowsOn(roles, b, c, k, r.service, f, g, FlaggedIn(LiveIn(devices)));
      MaximalKept(roles, c, devices, g, FlaggedIn(LiveIn(devices)), force, k, r.service);
    }

    /**
     * Binds what can be bound: first by hints, giving `hinted`, and then each role in the order of their names
     * to the first free service of its class. No free role and free service of its class are left.
     */
    method Autobind() returns (ghost hinted: seq<Service?>)
      requires Valid()
      modifies roles`service, LiveIn(devices)`taken, this`changed
      ensures Valid()
      ensures Grown(roles, old(BindingsOf(roles)), BindingsOf(roles),
                    old(FlaggedIn(LiveIn(devices))), FlaggedIn(LiveIn(devices)))
      ensures autoBind ==>
        Maximal(roles, BindingsOf(roles), devices, FlaggedIn(LiveIn(devices)), force, |roles|)
      ensures !autoBind ==> BindingsOf(roles) == old(BindingsOf(roles))
      ensures autoBind ==> HintedUpTo(roles, Targets(roles, devices, appId, selfId), old(BindingsOf(roles)), hinted, |roles|)
      ensures autoBind ==> ServedUpTo(roles, devices, force, hinted, BindingsOf(roles), |roles|)
      ensures ChangeNoted()
    {
      hinted := BindingsOf(roles);
      if autoBind {
        hinted := BindAll();
      }
    }

    method BindAll() returns (ghost hinted: seq<Service?>)
      requires Valid()
      modifies roles`service, LiveIn(devices)`taken, this`changed
      ensures Valid() && ChangeNoted()
      ensures Grown(roles, old(BindingsOf(roles)), BindingsOf(roles),
                    old(FlaggedIn(LiveIn(devices))), FlaggedIn(LiveIn(devices)))
      ensures Maximal(roles, BindingsOf(roles), devices, FlaggedIn(LiveIn(devices)), force, |roles|)
      ensures HintedUpTo(roles, Targets(roles, devices, appId, selfId), old(BindingsOf(roles)), hinted, |roles|)
      ensures ServedUpTo(roles, devices, force, hinted, BindingsOf(roles), |roles|)
    {
      UseHints();
      hinted := BindingsOf(roles);
      ServeRoles(old(BindingsOf(roles)), old(FlaggedIn(LiveIn(devices))));
    }

    /** The pass over the roles, after the hints. */
    method ServeRoles(ghost b: seq<Service?>, ghost f: set<Service>)
      requires Valid() && Grown(roles, b, BindingsOf(roles), f, FlaggedIn(LiveIn(devices)))
      modifies roles`service, LiveIn(devices)`taken, this`changed
      ensures Valid() && Grown(roles, b, BindingsOf(roles), f, FlaggedIn(LiveIn(devices)))
      ensures Maximal(roles, BindingsOf(roles), devices, FlaggedIn(LiveIn(devices)), force, |roles|)
      ensures ServedUpTo(roles, devices, force, old(BindingsOf(roles)), BindingsOf(roles), |roles|)
      ensures ChangeNoted()
    {
      ghost var hinted := BindingsOf(roles);
      for k := 0 to |roles|
        invariant ChangeNoted()
        invariant Valid() && Grown(roles, b, BindingsOf(roles), f, FlaggedIn(LiveIn(devices)))
        invariant Maximal(roles, BindingsOf(roles), devices, FlaggedIn(LiveIn(devices)), force, k)
        invariant ServedUpTo(roles, devices, force, hinted, BindingsOf(roles), k)
      {
        ServeRole(k, b, f, hinted);
      }
    }

    /** The same as a step of the whole pass over the roles. */
    method ServeRole(k: nat, ghost b: seq<Service?>, ghost f: set<Service>, ghost hinted: seq<Service?>)
      requires Valid() && k < |roles| && Grown(roles, b, BindingsOf(roles), f, FlaggedIn(LiveIn(devices)))
      requires Maximal(roles, BindingsOf(roles), devices, FlaggedIn(LiveIn(devices)), force, k)
      requires ServedUpTo(roles, devices, force, hinted, BindingsOf(roles), k)
      modifies roles`service, LiveIn(devices)`taken, this`changed
      ensures Valid() && Grown(roles, b, BindingsOf(roles), f, FlaggedIn(LiveIn(devices)))
      ensures Maximal(roles, BindingsOf(roles), devices, FlaggedIn(LiveIn(devices)), force, k + 1)
      ensures ServedUpTo(roles, devices, force, hinted, BindingsOf(roles), k + 1)
      ensures ChangeNoted()
    {
      ghost var c, g := BindingsOf(roles), FlaggedIn(LiveIn(devices));
      FlagsTellBound(c, LiveIn(devices), g);
      assert c[k] == roles[k].service;
      AutobindRole(k, b, f);
      ServedNext(roles, devices, force, hinted, c, k, BindingsOf(roles)[k]);
    }

    /** Clears the bindings of all roles. */
    method ClearAll()
      requires Valid()
      modifies roles`service, LiveIn(devices)`taken, this`changed
      ensures Valid() && FlaggedIn(LiveIn(devices)) == {}
      ensures forall k :: 0 <= k < |roles| ==> BindingsOf(roles)[k] == null
      ensures ChangeNoted()
    {
      for k := 0 to |roles|
        invariant ChangeNoted()
        invariant Valid() && forall j :: 0 <= j < k ==> BindingsOf(roles)[j] == null
      {
        Bind(roles[k], null, k, LiveIn(devices));
      }
    }

    /** Unbinds the roles that are bound to services of a device that is going away. */
    method DeviceDestroyed(dev: Device)
      requires Sound(LiveIn(devices + [dev]))
      modifies roles`service, LiveIn(devices + [dev])`taken, this`changed
      ensures Valid()
      ensures Without(old(BindingsOf(roles)), BindingsOf(roles), LiveIn([dev]), |roles|)
      ensures ChangeNoted()
    {
      ghost var b, live := BindingsOf(roles), LiveIn(devices + [dev]);
      for k := 0 to |roles|
        invariant ChangeNoted()
        invariant Sound(live)
        invariant Without(b, BindingsOf(roles), LiveIn([dev]), k)
      {
        assert BindingsOf(roles)[k] == b[k];
        if roles[k].service != null && roles[k].service in dev.services {
          Bind(roles[k], null, k, live);
        }
      }
      ghost var c := BindingsOf(roles);
      assert forall s :: s in LiveIn(devices) ==> s in LiveIn(devices + [dev]);
      ConsistentWithout(b, c, LiveIn([dev]), devices, dev, FlaggedIn(live), FlaggedIn(LiveIn(devices)));
    }

    // -------------------------------------------------------------- roles

    /** Names are compared up to their end. */
    method Lookup(name: CString) returns (k: Option<nat>)
      ensures match k
        case Some(k) => k < |roles| && roles[k].name == name
        case None => forall r :: r in roles ==> r.name != name
    {
      for i := 0 to |roles|
        invariant forall j :: 0 <= j < i ==> roles[j].name != name
      {
        if roles[i].name == name {
          return Some(i);
        }
      }
      k := None;
    }

    /**
     * The set-role command. It does not look at the service's flag, so it keeps the bindings
     * consistent exactly when the service is free or already bound to this role.
     */
    method SetRole(name: CString, id: seq<byte>, index: nat) returns (done: Option<(nat, Service?)>)
      requires Valid()
      modifies roles`service, LiveIn(devices)`taken, this`changed
      ensures done == None ==>
        Valid() && BindingsOf(roles) == old(BindingsOf(roles))
      ensures done == None <==>
        || (forall r :: r in roles ==> r.name != name)
        || (id != [] && (DeviceById(devices, id, 0) == null || index >= |DeviceById(devices, id, 0).services|))
      ensures done.Some? ==> var (k, to) := done.value;
        && k < |roles| && roles[k].name == name
        && (if id == [] then to == null else to != null && to == DeviceById(devices, id, 0).services[index])
        && BindingsOf(roles) == old(BindingsOf(roles))[k := to]
        && (Valid() <==> to == null || old(allocated(to) && !to.taken) || old(BindingsOf(roles))[k] == to)
      ensures ChangeNoted()
    {
      var found := Lookup(name);
      if found == None {
        return None;
      }
      var k := found.value;
      ghost var b, live := BindingsOf(roles), LiveIn(devices);
      if id == [] {
        SetKeepsIff(b, k, null, live, FlaggedIn(live));
        Set(roles[k], null, k, live);
        return Some((k, null));
      }
      var d := LookupDevice(id);
      if d == null || index >= |d.services| {
        return None;
      }
      var serv := d.services[index];
      LiveHas(devices, d, serv);
      SetKeepsIff(b, k, serv, live, FlaggedIn(live));
      Set(roles[k], serv, k, live);
      done := Some((k, serv));
    }

    /** A new role, kept in the order of names. */
    method AllocRole(name: CString, cls: nat, hint: Hint, offset: nat) returns (r: Role)
      requires Valid() && RolesOrdered(roles) && forall q :: q in roles ==> q.name != name
      modifies this`roles, this`changed
      ensures Valid() && RolesOrdered(roles) && fresh(r) && changed
      ensures r.name == name && r.cls == cls && r.hint == hint && r.offset == offset && r.service == null
      ensures var at := RoleSlot(old(roles), name, 0);
        && roles == Inserted(old(roles), at, r)
        && BindingsOf(roles) == Inserted(old(BindingsOf(roles)), at, null)
    {
      r := new Role(name, cls, hint, offset);
      var at := 0;
      while at < |roles| && !Less(name, roles[at].name)
        invariant at <= |roles| && RoleSlot(roles, name, 0) == RoleSlot(roles, name, at)
      {
        at := at + 1;
      }
      RoleInserted(roles, r);
      LinkRole(r, at);
      changed := true;
    }

    method LinkRole(r: Role, at: nat)
      requires Valid() && at <= |roles| && r !in roles && r.service == null
      modifies this`roles
      ensures Valid() && roles == Inserted(old(roles), at, r)
      ensures BindingsOf(roles) == Inserted(old(BindingsOf(roles)), at, null)
    {
      ghost var b := BindingsOf(roles);
      InsertKeeps(b, at, LiveIn(devices), FlaggedIn(LiveIn(devices)));
      roles := Inserted(roles, at, r);
      assert BindingsOf(roles) == Inserted(b, at, null);
    }

    method UnlinkRole(k: nat)
      requires Valid() && k < |roles| && roles[k].service == null
      modifies this`roles
      ensures Valid() && roles == old(roles[..k] + roles[k + 1..])
      ensures BindingsOf(roles) == old(BindingsOf(roles)[..k] + BindingsOf(roles)[k + 1..])
    {
      ghost var b := BindingsOf(roles);
      RemoveKeeps(b, k, LiveIn(devices), FlaggedIn(LiveIn(devices)));
      roles := roles[..k] + roles[k + 1..];
      assert BindingsOf(roles) == b[..k] + b[k + 1..];
    }

    /** Unbinds a role and drops it. */
    method FreeRole(role: Role, ghost k: nat)
      requires Valid() && k < |roles| && roles[k] == role
      modifies this`roles, this`changed, role`service, LiveIn(devices)`taken
      ensures Valid() && roles == old(roles[..k] + roles[k + 1..])
      ensures BindingsOf(roles) == old(BindingsOf(roles)[..k] + BindingsOf(roles)[k + 1..])
      ensures RolesOrdered(old(roles)) ==> RolesOrdered(roles)
      ensures (old(changed) ==> changed) && (old(role.service) != null ==> changed)
    {
      Bind(role, null, k, LiveIn(devices));
      var i := 0;
      while roles[i] != role
        invariant ChangeNoted()
        invariant i <= k
        decreases k - i
      {
        i := i + 1;
      }
      UnlinkRole(i);
    }

    /** Unbinds and drops all roles. */
    method FreeAllRoles()
      requires Valid()
      modifies this`roles, this`changed, roles`service, LiveIn(devices)`taken
      ensures Valid() && roles == [] && FlaggedIn(LiveIn(devices)) == {} && changed
    {
      ClearAll();
      while roles != []
        invariant Valid() && FlaggedIn(LiveIn(devices)) == {}
        invariant forall k :: 0 <= k < |roles| ==> BindingsOf(roles)[k] == null
        decreases |roles|
      {
        assert BindingsOf(roles)[0] == null;
        UnlinkRole(0);
      }
      changed := true;
    }

    /** The role that has a service, if one has. */
    method RoleByService(s: Service) returns (r: Role?)
      requires Valid() && s in LiveIn(devices)
      ensures r != null <==> s.taken
      ensures r != null ==> r in roles && r.service == s && forall q :: q in roles && q.service == s ==> q == r
    {
      for i := 0 to |roles|
        invariant forall j :: 0 <= j < i ==> roles[j].service != s
      {
        assert BindingsOf(roles)[i] == roles[i].service;
        if roles[i].service == s {
          assert forall q :: q in roles && q.service == s ==> exists j :: 0 <= j < |roles| && roles[j] == q && BindingsOf(roles)[j] == s;
          return roles[i];
        }
      }
      r := null;
      assert s !in BindingsOf(roles);
    }

    // -------------------------------------------------------------- devices

    /** Unlinks device `i` and unbinds its services. */
    method RemoveDevice(i: nat)
      requires Valid() && i < |devices|
      modifies this`devices, roles`service, LiveIn(devices)`taken, this`changed
      ensures Valid() && devices == old(devices)[..i] + old(devices)[i + 1..]
      ensures Without(old(BindingsOf(roles)), BindingsOf(roles), LiveIn([old(devices)[i]]), |roles|)
      ensures DevicesOrdered(selfId, old(devices)) ==> DevicesOrdered(selfId, devices)
      ensures ChangeNoted()
    {
      var dev := devices[i];
      LiveMoves(devices, i);
      ghost var all := LiveIn(devices);
      devices := devices[..i] + devices[i + 1..];
      assert Sound(all);
      DeviceDestroyed(dev);
    }

    /** A collection over `was` has removed the devices in `gone`, and cleared their bindings only. */
    ghost predicate Collecting(was: seq<Device>, b: seq<Service?>, gone: seq<Device>, expired: set<Device>)
      reads this, roles
    {
      && multiset(devices) + multiset(gone) == multiset(was)
      && LiveIn(devices) <= LiveIn(was)
      && (forall d :: d in gone ==> d in expired)
      && Without(b, BindingsOf(roles), LiveIn(gone), |b|)
    }

    /** `expired` tells which devices have expired. */
    ghost predicate Tells(expired: set<Device>, now: nat)
      reads this, devices
    {
      forall d :: d in devices ==> (d in expired <==> InPast(d.expires, now))
    }

    /** One more device removed by a collection. */
    method CollectDevice(i: nat, ghost was: seq<Device>, ghost b: seq<Service?>, ghost gone: seq<Device>,
                         ghost expired: set<Device>, ghost now: nat)
      requires Valid() && i < |devices| && devices[i] in expired
      requires Collecting(was, b, gone, expired) && Tells(expired, now)
      modifies this`devices, roles`service, LiveIn(devices)`taken, this`changed
      ensures Valid() && devices == old(devices)[..i] + old(devices)[i + 1..]
      ensures Collecting(was, b, gone + [old(devices)[i]], expired) && Tells(expired, now)
      ensures ChangeNoted()
    {
      ghost var dev := devices[i];
      LiveMoves(devices, i);
      assert devices == devices[..i] + [dev] + devices[i + 1..];
      RemoveDevice(i);
      assert LiveIn(gone + [dev]) == LiveIn(gone) + LiveIn([dev]);
      assert LiveIn(devices) <= LiveIn(devices + [dev]);
    }

    method CollectLead(now: nat, ghost was: seq<Device>, ghost b: seq<Service?>, ghost expired: set<Device>)
      returns (ghost gone: seq<Device>)
      requires Valid() && Collecting(was, b, [], expired) && Tells(expired, now)
      modifies this`devices, roles`service, LiveIn(devices)`taken, this`changed
      ensures Valid() && Collecting(was, b, gone, expired) && Tells(expired, now)
      ensures devices == DropLead(old(devices), expired) && LiveIn(devices) <= LiveIn(old(devices))
      ensures ChangeNoted()
    {
      gone := [];
      ghost var live := LiveIn(devices);
      while devices != [] && InPast(devices[0].expires, now)
        invariant ChangeNoted()
        invariant Valid() && Collecting(was, b, gone, expired) && Tells(expired, now)
        invariant LiveIn(devices) <= live
        invariant DropLead(old(devices), expired) == DropLead(devices, expired)
        decreases |devices|
      {
        ghost var all := devices;
        CollectDevice(0, was, b, gone, expired, now);
        gone := gone + [all[0]];
        assert devices == all[1..];
      }
    }

    method CollectRest(now: nat, ghost was: seq<Device>, ghost b: seq<Service?>, ghost before: seq<Device>,
                       ghost expired: set<Device>) returns (ghost gone: seq<Device>)
      requires Valid() && Collecting(was, b, before, expired) && Tells(expired, now)
      modifies this`devices, roles`service, LiveIn(devices)`taken, this`changed
      ensures Valid() && Collecting(was, b, gone, expired)
      ensures devices == Sweep(old(devices), expired)
      ensures ChangeNoted()
    {
      gone := before;
      ghost var live := LiveIn(devices);
      var p := 0;
      while p + 1 < |devices|
        invariant ChangeNoted()
        invariant Valid() && Collecting(was, b, gone, expired) && Tells(expired, now)
        invariant LiveIn(devices) <= live
        invariant p <= |devices|
        invariant devices[..p] + Sweep(devices[p..], expired) == Sweep(old(devices), expired)
        decreases |devices| - p
      {
        ghost var all := devices;
        SweepStep(all, p, expired);
        if InPast(devices[p + 1].expires, now) {
          CollectDevice(p + 1, was, b, gone, expired, now);
          gone := gone + [all[p + 1]];
          assert devices[..p + 1] == all[..p + 1] && devices[p + 1..] == all[p + 2..];
        }
        p := p + 1;
      }
      assert devices[..p] + devices[p..] == devices;
    }

    /** Removes expired devices, and clears the roles that were bound to them. */
    method CollectDevices(now: nat) returns (ghost gone: seq<Device>, ghost expired: set<Device>)
      requires Valid()
      modifies this`devices, roles`service, LiveIn(devices)`taken, this`changed
      ensures Valid() && expired == old(set d | d in devices && InPast(d.expires, now))
      ensures devices == Collected(old(devices), expired)
      ensures Collecting(old(devices), old(BindingsOf(roles)), gone, expired)
      ensures DevicesOrdered(selfId, old(devices)) ==> DevicesOrdered(selfId, devices)
      ensures GoesByAge(old(devices), devices, expired, now)
      ensures Distinct(old(devices)) && Own(old(devices)) ==>
        forall d, k :: d in devices && 0 <= k < |roles| && old(BindingsOf(roles))[k] in LiveIn([d]) ==>
          BindingsOf(roles)[k] == old(BindingsOf(roles))[k]
      ensures ChangeNoted()
    {
      expired := set d | d in devices && InPast(d.expires, now);
      ghost var was, b := devices, BindingsOf(roles);
      gone := CollectLead(now, was, b, expired);
      gone := CollectRest(now, was, b, gone, expired);
      if DevicesOrdered(selfId, was) {
        CollectedOrdered(selfId, was, expired);
      }
      CollectedByAge(was, expired, now);
      if Distinct(was) && Own(was) {
        BindingsStay(was, b, gone, expired);
      }
    }

    /** The bindings to devices that are still there are what they were. */
    lemma BindingsStay(was: seq<Device>, b: seq<Service?>, gone: seq<Device>, expired: set<Device>)
      requires Collecting(was, b, gone, expired) && Distinct(was) && Own(was) && |b| == |roles|
      ensures forall d, k :: d in devices && 0 <= k < |roles| && b[k] in LiveIn([d]) ==> BindingsOf(roles)[k] == b[k]
    {
      forall d, k | d in devices && 0 <= k < |roles| && b[k] in LiveIn([d])
        ensures BindingsOf(roles)[k] == b[k]
      {
        StaysWithServices(was, devices, gone, d, b[k]);
      }
    }

    /** Links a device that has no bound services. */
    method LinkDevice(d: Device, at: nat)
      requires Valid() && at <= |devices|
      requires forall s :: s in d.services ==> s !in LiveIn(devices) && !s.taken
      modifies this`devices
      ensures Valid() && devices == Inserted(old(devices), at, d)
    {
      LiveInserted(devices, at, d);
      NewServices(BindingsOf(roles), LiveIn(devices), LiveIn([d]));
      devices := Inserted(devices, at, d);
    }

    method FreshServices(classes: seq<nat>) returns (services: seq<Service>)
      ensures |services| == |classes| && forall j :: 0 <= j < |services| ==>
        && fresh(services[j]) && !services[j].taken && services[j].index == j
        && services[j].cls == if j == 0 then 0 else classes[j]
    {
      services := [];
      for i := 0 to |classes|
        invariant |services| == i && forall j :: 0 <= j < i ==>
          && fresh(services[j]) && !services[j].taken && services[j].index == j
          && services[j].cls == if j == 0 then 0 else classes[j]
      {
        var s := new Service(if i == 0 then 0 else classes[i], i);
        services := services + [s];
      }
    }

    /** A device seen for the first time, put in its place. */
    method AllocDevice(id: seq<byte>, classes: seq<nat>, flags: nat, now: nat) returns (d: Device)
      requires Valid() && DevicesOrdered(selfId, devices) && forall e :: e in devices ==> e.id != id
      modifies this`devices
      ensures Valid() && DevicesOrdered(selfId, devices) && fresh(d)
      ensures devices == Inserted(old(devices), DeviceSlot(selfId, old(devices), id, 0), d)
      ensures d.id == id && d.flags == flags && d.expires == (now + EXPIRES) % WORD
      ensures |d.services| == |classes| && forall i :: 0 <= i < |classes| ==>
        fresh(d.services[i]) && d.services[i].index == i && d.services[i].cls == if i == 0 then 0 else classes[i]
    {
      var services := FreshServices(classes);
      d := new Device(id, services, flags, (now + EXPIRES) % WORD);
      var at := 0;
      while at < |devices| && !FitsAt(selfId, devices[at], id)
        invariant at <= |devices| && DeviceSlot(selfId, devices, id, 0) == DeviceSlot(selfId, devices, id, at)
      {
        at := at + 1;
      }
      DeviceInserted(selfId, devices, d);
      LinkDevice(d, at);
    }

    /** A device that restarted: its old record goes, with the bindings to it, and a new one comes. */
    method ReplaceDevice(d: Device, classes: seq<nat>, flags: nat, now: nat) returns (dev: Device)
      requires Valid() && DevicesOrdered(selfId, devices) && d in devices
      modifies this`devices, this`changed, roles`service, LiveIn(devices)`taken
      ensures Valid() && DevicesOrdered(selfId, devices) && fresh(dev)
      ensures dev in devices && dev.id == d.id && dev.flags == flags && |dev.services| == |classes|
      ensures InPlaceOf(selfId, old(devices), devices, d, dev) && ServicesAre(dev.services, classes)
      ensures Without(old(BindingsOf(roles)), BindingsOf(roles), LiveIn([d]), |roles|)
      ensures ChangeNoted()
    {
      OrderedIsDistinct(selfId, devices);
      var i := 0;
      while devices[i] != d
        invariant ChangeNoted()
        invariant i < |devices| && d in devices[i..]
        decreases |devices| - i
      {
        i := i + 1;
      }
      IdsDiffer(selfId, devices, i);
      RemoveDevice(i);
      dev := AllocDevice(d.id, classes, flags, now);
    }

    /** The record of a device that is announced: a new one, the replacement of the old one `d`, or `d` with new flags. */
    method Recognize(d: Device?, id: seq<byte>, classes: seq<nat>, flags: nat, now: nat) returns (dev: Device)
      requires Valid() && DevicesOrdered(selfId, devices)
      requires if d == null then forall e :: e in devices ==> e.id != id else d in devices && d.id == id
      modifies this`devices, this`changed, roles`service, LiveIn(devices)`taken, devices`flags
      ensures Valid() && DevicesOrdered(selfId, devices)
      ensures dev in devices && dev.id == id && dev.flags == flags
      ensures forall e :: e in old(devices) && e != dev ==> e.flags == old(e.flags)
      ensures dev == d <==> d != null && !old(d.flags % 16 > flags % 16)
      ensures if dev == d then devices == old(devices) else fresh(dev) && ServicesAre(dev.services, classes)
      ensures d == null ==> devices == Inserted(old(devices), DeviceSlot(selfId, old(devices), id, 0), dev)
      ensures d != null && dev != d ==>
        InPlaceOf(selfId, old(devices), devices, d, dev) && Without(old(BindingsOf(roles)), BindingsOf(roles), LiveIn([d]), |roles|)
      ensures d == null || dev == d ==> BindingsOf(roles) == old(BindingsOf(roles))
      ensures ChangeNoted()
    {
      if d == null {
        dev := AllocDevice(id, classes, flags, now);
      } else if d.flags % 16 > flags % 16 {
        dev := ReplaceDevice(d, classes, flags, now);
      } else {
        dev := d;
        dev.flags := flags;
      }
    }

    /**
     * An announcement: a new device is added, one whose restart counter went back is replaced,
     * and any other is kept with its new flags. The device's time to live starts anew.
     */
    method Announce(id: seq<byte>, classes: seq<nat>, flags: nat, now: nat) returns (dev: Device)
      requires Valid() && DevicesOrdered(selfId, devices)
      modifies this`devices, this`changed, roles`service, LiveIn(devices)`taken, devices`flags, devices`expires
      ensures Valid() && DevicesOrdered(selfId, devices)
      ensures dev in devices && dev.id == id && dev.flags == flags && dev.expires == ExpiryOf(now)
      ensures forall e :: e in old(devices) && e != dev ==> e.flags == old(e.flags) && e.expires == old(e.expires)
      ensures var was := DeviceById(old(devices), id, 0);
        var restarted := was != null && old(allocated(was) && was.flags % 16 > flags % 16);
        && (dev == was <==> was != null && !restarted)
        && (if dev == was then devices == old(devices) else fresh(dev) && ServicesAre(dev.services, classes))
        && (was == null ==> devices == Inserted(old(devices), DeviceSlot(selfId, old(devices), id, 0), dev))
        && (restarted ==> InPlaceOf(selfId, old(devices), devices, was, dev))
        && (if restarted then Without(old(BindingsOf(roles)), BindingsOf(roles), LiveIn([was]), |roles|)
            else BindingsOf(roles) == old(BindingsOf(roles)))
      ensures ChangeNoted()
    {
      var d := LookupDevice(id);
      dev := Recognize(d, id, classes, flags, now);
      dev.expires := (now + EXPIRES) % WORD;
    }
  }
}
