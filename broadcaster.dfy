/** The zone broadcaster (Code/ZoneBroadcaster.py): the roster of zones, looked up by name
 *  and by position, and the broadcast that collects the zones' offers for a task. */
module Broadcasting {
  import opened Wrappers
  import opened Entities
  import opened Zones

  /** The first zone named `name`, or none. */
  function Named(zones: seq<Zone>, name: string): (z: Zone?)
    ensures z == null <==> forall w :: w in zones ==> w.name != name
    ensures z != null ==> z in zones && z.name == name
    ensures z != null ==> exists k :: 0 <= k < |zones| && zones[k] == z && z.name == name
                                       && forall j :: 0 <= j < k ==> zones[j].name != name
  {
    if |zones| == 0 then null
    else if zones[0].name == name then
      assert zones[0] == zones[0];
      zones[0]
    else
      var z := Named(zones[1..], name);
      assert forall w :: w in zones ==> w == zones[0] || w in zones[1..];
      if z != null then
        var k :| 0 <= k < |zones[1..]| && zones[1..][k] == z && z.name == name
                 && forall j :: 0 <= j < k ==> zones[1..][j].name != name;
        assert zones[k + 1] == z && forall j :: 0 <= j < k + 1 ==> zones[j].name != name;
        z
      else z
  }

  /** The zones covering (x, y), in roster order. */
  function Covering(zones: seq<Zone>, x: real, y: real): (r: seq<Zone>)
    ensures |r| <= |zones|
    ensures forall z :: z in r ==> z in zones && z.IsWithinCoverage(x, y)
    ensures forall z :: z in zones && z.IsWithinCoverage(x, y) ==> z in r
    decreases |zones|
  {
    if |zones| == 0 then []
    else
      var last := zones[|zones| - 1];
      assert forall w :: w in zones ==> w in zones[..|zones| - 1] || w == last;
      Covering(zones[..|zones| - 1], x, y) + (if last.IsWithinCoverage(x, y) then [last] else [])
  }

  /** The filter keeps the order: filtering a concatenation concatenates the filters. */
  lemma {:induction false} CoveringConcat(a: seq<Zone>, b: seq<Zone>, x: real, y: real)
    ensures Covering(a + b, x, y) == Covering(a, x, y) + Covering(b, x, y)
    decreases |b|
  {
    if |b| == 0 {
      assert a + b == a;
    } else {
      var b' := b[..|b| - 1];
      assert (a + b)[..|a + b| - 1] == a + b' && (a + b)[|a + b| - 1] == b[|b| - 1];
      CoveringConcat(a, b', x, y);
    }
  }

  /** The members of the zones. */
  function MembersOf(zones: seq<Zone>): set<Node>
    reads zones
  {
    set z, n | z in zones && n in z.fogNodes :: n
  }

  /** The targets that make an offer for the task, in target order. */
  function Offering(targets: seq<Zone>, task: Task, user: Node): (r: seq<Zone>)
    reads targets, MembersOf(targets), user
    ensures |r| <= |targets|
    ensures forall z :: z in r ==> z in targets && z.Offers(task, user)
    decreases |targets|
  {
    if |targets| == 0 then []
    else
      var last := targets[|targets| - 1];
      assert forall n :: n in last.fogNodes ==> n in MembersOf(targets);
      Offering(targets[..|targets| - 1], task, user) + (if last.Offers(task, user) then [last] else [])
  }

  /** No target that offers is left out. */
  lemma {:induction false} OfferingComplete(targets: seq<Zone>, task: Task, user: Node, z: Zone)
    requires z in targets && z.Offers(task, user)
    ensures z in Offering(targets, task, user)
    decreases |targets|
  {
    var last := targets[|targets| - 1];
    if z != last {
      assert z in targets[..|targets| - 1] by {
        var k :| 0 <= k < |targets| && targets[k] == z;
        assert k < |targets| - 1;
        assert targets[..|targets| - 1][k] == z;
      }
      OfferingComplete(targets[..|targets| - 1], task, user, z);
    }
  }

  /** Each zone's members. */
  function Rosters(zs: seq<Zone>): (r: seq<seq<Node>>)
    reads zs
    ensures |r| == |zs| && forall k :: 0 <= k < |zs| ==> r[k] == zs[k].fogNodes
  {
    seq(|zs|, k requires 0 <= k < |zs| reads zs => zs[k].fogNodes)
  }

  /** What one broadcast asks: its target zones, the task and the user. */
  datatype Asked = Asked(targets: seq<Zone>, task: Task, user: Node)

  /** Which targets offer, and their members, do not change while nothing they read does. */
  twostate lemma OfferingKept(q: Asked)
    requires unchanged(q.user) && unchanged(q.targets) && unchanged(old(MembersOf(q.targets)))
    ensures Offering(q.targets, q.task, q.user) == old(Offering(q.targets, q.task, q.user))
  {
    var targets := q.targets;
    var j := 0;
    while j < |targets|
      invariant j <= |targets|
      invariant Offering(targets[..j], q.task, q.user) == old(Offering(targets[..j], q.task, q.user))
    {
      assert targets[..j + 1][..j] == targets[..j];
      assert forall n :: n in old(targets[j].fogNodes) ==> n in old(MembersOf(targets));
      j := j + 1;
    }
    assert targets[..j] == targets;
  }

  /** Nor do the members of the targets that offer. */
  twostate lemma RostersKept(q: Asked)
    requires unchanged(q.user) && unchanged(q.targets) && unchanged(old(MembersOf(q.targets)))
    ensures Rosters(Offering(q.targets, q.task, q.user)) == old(Rosters(Offering(q.targets, q.task, q.user)))
  {
    OfferingKept(q);
    var zs := Offering(q.targets, q.task, q.user);
    assert forall k :: 0 <= k < |zs| ==> zs[k] in q.targets;
  }

  /** `offers` are those of the zones `zs`, one each and in the same order: the zone's name
   *  and one of its members as listed in `members`. */
  predicate OffersOf(offers: seq<Offer>, zs: seq<Zone>, members: seq<seq<Node>>)
  {
    |offers| == |zs| == |members|
    && forall k :: 0 <= k < |offers| ==> offers[k].zoneName == zs[k].name && offers[k].node in members[k]
  }

  /** `broadcast_to_zones`: ask every target for an offer and keep the offers made, in
   *  target order. Target `i` draws `roll(i)` and `choice(i)`. The offers are those of the
   *  targets that offer when the broadcast starts, each naming one of that zone's members. */
  method BroadcastToZones(targets: seq<Zone>, user: Node, task: Task, roll: nat -> real, choice: nat -> nat,
                          cost: Node -> real) returns (offers: seq<Offer>)
    requires AllValid(targets)
    modifies LearnersOf(targets)
    ensures AllValid(targets)
    ensures |offers| <= |targets|
    ensures OffersOf(offers, old(Offering(targets, task, user)), old(Rosters(Offering(targets, task, user))))
  {
    offers := [];
    for i := 0 to |targets|
      invariant AllValid(targets)
      invariant OffersOf(offers, old(Offering(targets[..i], task, user)), old(Rosters(Offering(targets[..i], task, user))))
    {
      assert targets[..i + 1][..i] == targets[..i];
      var zone := targets[i];
      assert zone.Offers(task, user) == old(zone.Offers(task, user));
      assert zone.fogNodes == old(zone.fogNodes);
      var offer := OfferOf(zone, user, task, roll(i), choice(i), cost);
      if offer.Some? {
        offers := offers + [offer.value];
      }
    }
    assert targets[..|targets|] == targets;
  }

  /** A zone's offer, as far as the broadcast relies on it: made exactly when the zone
   *  offers, by that zone, for one of its members. */
  method OfferOf(zone: Zone, user: Node, task: Task, roll: real, choice: nat, cost: Node -> real)
    returns (offer: Option<Offer>)
    requires zone.Valid()
    modifies zone.learner
    ensures zone.Valid()
    ensures offer.Some? <==> old(zone.Offers(task, user))
    ensures offer.Some? ==> offer.value.zoneName == zone.name && offer.value.node in old(zone.fogNodes)
    ensures offer.Some? ==> offer.value.node == old(zone.Pick(user, task, roll, choice, cost))
  {
    offer := zone.CreateOffer(user, task, roll, choice, cost);
  }

  class ZoneBroadcaster {
    var zones: seq<Zone>

    constructor ()
      ensures zones == []
    {
      zones := [];
    }

    /** `set_zones`: the roster is replaced as a whole. */
    method SetZones(zones: seq<Zone>)
      modifies this
      ensures this.zones == zones
    {
      this.zones := zones;
    }

    /** `get_zone`. */
    method GetZone(name: string) returns (zone: Zone?)
      ensures zone == Named(zones, name)
    {
      for i := 0 to |zones|
        invariant Named(zones, name) == Named(zones[i..], name)
      {
        if zones[i].name == name {
          return zones[i];
        }
        assert zones[i..][1..] == zones[i + 1..];
      }
      return null;
    }

    /** `get_zones_by_position`. */
    method GetZonesByPosition(x: real, y: real) returns (r: seq<Zone>)
      ensures r == Covering(zones, x, y)
    {
      r := [];
      for i := 0 to |zones|
        invariant r == Covering(zones[..i], x, y)
      {
        assert zones[..i + 1][..i] == zones[..i];
        if zones[i].IsWithinCoverage(x, y) {
          r := r + [zones[i]];
        }
      }
      assert zones[..|zones|] == zones;
    }
  }
}
