/**
 * IEntity's children: a std::map from z-order to a vector of children ("z-levels"),
 * addChild, the default getLocalBounds, and the order in which update visits the tree.
 * A z-level map is a sequence of tiers kept in strictly ascending z, the order in which
 * std::map iterates.
 */
module SceneTree {
  import opened Geometry

  datatype Node = Node(id: nat, zOrder: int, levels: seq<Tier>)

  /** One z-level: its z value and its children in insertion order. */
  datatype Tier = Tier(z: int, members: seq<Node>)

  /** One step of the children loop: the z-level being walked and the child visited. */
  datatype Slot = Slot(z: int, child: Node)

  /** Result of addChild: the returned flag, the parent afterwards and the child afterwards. */
  datatype AddResult = AddResult(added: bool, parent: Node, child: Node)

  /** IEntity::getLocalBounds default: a default-constructed FloatRect. */
  function DefaultLocalBounds(): (r: Rect)
    ensures forall p :: !Contains(r, p)
  {
    Rect(0.0, 0.0, 0.0, 0.0)
  }

  ghost predicate SortedTiers(ts: seq<Tier>)
  {
    forall i, j :: 0 <= i < j < |ts| ==> ts[i].z < ts[j].z
  }

  function Ids(ms: seq<Node>): seq<nat>
  {
    if ms == [] then [] else [ms[0].id] + Ids(ms[1..])
  }

  /** The children at z-level z, or none when the level is missing. */
  function Members(ts: seq<Tier>, z: int): seq<Node>
  {
    if ts == [] then [] else if ts[0].z == z then ts[0].members else Members(ts[1..], z)
  }

  predicate HasTier(ts: seq<Tier>, z: int)
  {
    exists i :: 0 <= i < |ts| && ts[i].z == z
  }

  /** The tiers after appending c at level z, creating the level in order if it is missing. */
  function Place(ts: seq<Tier>, z: int, c: Node): seq<Tier>
  {
    if ts == [] then [Tier(z, [c])]
    else if ts[0].z == z then [Tier(z, ts[0].members + [c])] + ts[1..]
    else if z < ts[0].z then [Tier(z, [c])] + ts
    else [ts[0]] + Place(ts[1..], z, c)
  }

  /**
   * IEntity::addChild(child, zOrder): the child's zOrder is always set; the level is
   * created if missing; the child is appended to it unless it is already there.
   */
  function AddChild(parent: Node, child: Node, z: int): (r: AddResult)
    ensures r.child == child.(zOrder := z)
    ensures r.added <==> child.id !in Ids(Members(parent.levels, z))
    ensures !r.added ==> r.parent == parent
  {
    var c := child.(zOrder := z);
    if child.id in Ids(Members(parent.levels, z)) then
      AddResult(false, parent, c)
    else
      AddResult(true, parent.(levels := Place(parent.levels, z, c)), c)
  }

  lemma {:induction false} PlaceSorted(ts: seq<Tier>, z: int, c: Node)
    requires SortedTiers(ts)
    ensures SortedTiers(Place(ts, z, c))
    ensures |Place(ts, z, c)| > 0 && (Place(ts, z, c)[0].z == z || (ts != [] && Place(ts, z, c)[0].z == ts[0].z))
  {
    if ts != [] && ts[0].z != z {
      var r := Place(ts, z, c);
      if z < ts[0].z {
        assert r[1..] == ts;
        forall j | 1 <= j < |r|
          ensures r[0].z < r[j].z
        {
          assert r[j] == ts[j - 1];
          assert ts[0].z <= ts[j - 1].z;
        }
      } else {
        PlaceSorted(ts[1..], z, c);
        assert r[1..] == Place(ts[1..], z, c);
        forall j | 1 < j < |r|
          ensures r[1].z < r[j].z
        {
        }
      }
    }
  }

  lemma {:induction false} PlaceMembers(ts: seq<Tier>, z: int, c: Node)
    requires SortedTiers(ts)
    ensures Members(Place(ts, z, c), z) == Members(ts, z) + [c]
    ensures forall y :: y != z ==> Members(Place(ts, z, c), y) == Members(ts, y)
    ensures HasTier(Place(ts, z, c), z)
  {
    var r := Place(ts, z, c);
    if ts == [] {
      assert r[0].z == z;
    } else if ts[0].z == z {
      assert r[0].z == z;
      assert r[1..] == ts[1..];
    } else if z < ts[0].z {
      assert r[0].z == z;
      assert r[1..] == ts;
      MembersAbsent(ts, z);
    } else {
      PlaceMembers(ts[1..], z, c);
      assert r[1..] == Place(ts[1..], z, c);
      var i :| 0 <= i < |r[1..]| && r[1..][i].z == z;
      assert r[i + 1].z == z;
    }
  }

  /**
   * addChild keeps the levels in ascending z order, and changes only level z: by
   * appending the child when it returns true, not at all when it returns false.
   */
  lemma AddChildLevels(parent: Node, child: Node, z: int)
    requires SortedTiers(parent.levels)
    ensures SortedTiers(AddChild(parent, child, z).parent.levels)
    ensures HasTier(AddChild(parent, child, z).parent.levels, z)
    ensures AddChild(parent, child, z).added ==>
              Members(AddChild(parent, child, z).parent.levels, z) == Members(parent.levels, z) + [child.(zOrder := z)]
    ensures forall y :: y != z ==> Members(AddChild(parent, child, z).parent.levels, y) == Members(parent.levels, y)
  {
    var r := AddChild(parent, child, z);
    var c := child.(zOrder := z);
    PlaceSorted(parent.levels, z, c);
    PlaceMembers(parent.levels, z, c);
    if !r.added {
      assert Members(parent.levels, z) != [];
      MembersMeansTier(parent.levels, z);
    }
  }

  lemma {:induction false} MembersAbsent(ts: seq<Tier>, z: int)
    requires SortedTiers(ts) && ts != [] && z < ts[0].z
    ensures Members(ts, z) == []
  {
    if |ts| > 1 {
      MembersAbsent(ts[1..], z);
    }
  }

  lemma {:induction false} MembersMeansTier(ts: seq<Tier>, z: int)
    requires Members(ts, z) != []
    ensures HasTier(ts, z)
  {
    if ts[0].z != z {
      MembersMeansTier(ts[1..], z);
      var i :| 0 <= i < |ts[1..]| && ts[1..][i].z == z;
      assert ts[i + 1].z == z;
    }
  }

  /** A child may sit at several levels: the duplicate check looks at one level only. */
  lemma DuplicatesCheckedPerLevel(parent: Node, child: Node)
    requires parent.levels == []
    ensures AddChild(parent, child, 1).added
    ensures AddChild(AddChild(parent, child, 1).parent, child, 2).added
    ensures child.id in Ids(Members(AddChild(AddChild(parent, child, 1).parent, child, 2).parent.levels, 1))
    ensures child.id in Ids(Members(AddChild(AddChild(parent, child, 1).parent, child, 2).parent.levels, 2))
  {
    var c1 := child.(zOrder := 1);
    var r1 := AddChild(parent, child, 1);
    assert r1.parent.levels == [Tier(1, [c1])];
    assert Members(r1.parent.levels, 2) == [];
    assert [Tier(1, [c1])][1..] == [];
    assert Members(r1.parent.levels, 2) == Members([], 2) == [];
    assert Ids([]) == [];
    var c2 := child.(zOrder := 2);
    assert Place(r1.parent.levels, 2, c2) == [Tier(1, [c1])] + Place([], 2, c2);
    var r2 := AddChild(r1.parent, child, 2);
    assert r2.parent.levels == [Tier(1, [c1]), Tier(2, [child.(zOrder := 2)])];
    assert Members(r2.parent.levels, 1) == [c1];
    assert Members(r2.parent.levels, 2) == [child.(zOrder := 2)];
  }

  function Tag(z: int, ms: seq<Node>): (r: seq<Slot>)
    ensures |r| == |ms|
    ensures forall i :: 0 <= i < |r| ==> r[i] == Slot(z, ms[i])
  {
    if ms == [] then [] else [Slot(z, ms[0])] + Tag(z, ms[1..])
  }

  /** The children in the order updateChildren visits them: level by level, then insertion order. */
  function Schedule(ts: seq<Tier>): seq<Slot>
  {
    if ts == [] then [] else Tag(ts[0].z, ts[0].members) + Schedule(ts[1..])
  }

  /** Every slot of Schedule(ts) carries the z of a tier of ts. */
  lemma {:induction false} ScheduleBounds(ts: seq<Tier>, lo: int)
    requires forall i :: 0 <= i < |ts| ==> ts[i].z > lo
    ensures forall k :: 0 <= k < |Schedule(ts)| ==> Schedule(ts)[k].z > lo
  {
    if ts != [] {
      ScheduleBounds(ts[1..], lo);
    }
  }

  /** With sorted levels, children are visited in ascending z-order. */
  lemma {:induction false} ScheduleAscending(ts: seq<Tier>)
    requires SortedTiers(ts)
    ensures forall a, b :: 0 <= a < b < |Schedule(ts)| ==> Schedule(ts)[a].z <= Schedule(ts)[b].z
  {
    if ts != [] {
      ScheduleAscending(ts[1..]);
      ScheduleBounds(ts[1..], ts[0].z);
      var head := Tag(ts[0].z, ts[0].members);
      var s := Schedule(ts);
      assert s == head + Schedule(ts[1..]);
      forall a, b | 0 <= a < b < |s|
        ensures s[a].z <= s[b].z
      {
        if b < |head| {
        } else if a < |head| {
          assert s[b] == Schedule(ts[1..])[b - |head|];
        } else {
          assert s[a] == Schedule(ts[1..])[a - |head|] && s[b] == Schedule(ts[1..])[b - |head|];
        }
      }
    }
  }

  /** The insertion point of a new slot at level z: the length of the slots at levels up to z. */
  predicate InsertedAt(ts: seq<Tier>, z: int, c: Node, k: nat)
  {
    k <= |Schedule(ts)|
    && Schedule(Place(ts, z, c)) == Schedule(ts)[..k] + [Slot(z, c)] + Schedule(ts)[k..]
    && (forall i :: 0 <= i < k ==> Schedule(ts)[i].z <= z)
    && (forall i :: k <= i < |Schedule(ts)| ==> Schedule(ts)[i].z > z)
  }

  lemma PlaceScheduleHere(ts: seq<Tier>, z: int, c: Node)
    requires SortedTiers(ts) && ts != [] && ts[0].z == z
    ensures InsertedAt(ts, z, c, |ts[0].members|)
  {
    var head := Tag(z, ts[0].members);
    var k := |head|;
    var s := Schedule(ts);
    ScheduleBounds(ts[1..], z);
    assert Tag(z, ts[0].members + [c]) == head + [Slot(z, c)];
    assert Place(ts, z, c)[1..] == ts[1..];
    assert s == head + Schedule(ts[1..]);
    assert s[..k] == head && s[k..] == Schedule(ts[1..]);
  }

  lemma PlaceScheduleBefore(ts: seq<Tier>, z: int, c: Node)
    requires SortedTiers(ts) && ts != [] && z < ts[0].z
    ensures InsertedAt(ts, z, c, 0)
  {
    ScheduleBounds(ts, z);
    assert Place(ts, z, c)[1..] == ts;
    assert Tag(z, [c]) == [Slot(z, c)];
  }

  lemma PlaceScheduleAfter(ts: seq<Tier>, z: int, c: Node, k': nat)
    requires SortedTiers(ts) && ts != [] && ts[0].z < z
    requires InsertedAt(ts[1..], z, c, k')
    ensures InsertedAt(ts, z, c, |ts[0].members| + k')
  {
    var head := Tag(ts[0].z, ts[0].members);
    var k := |head| + k';
    var s := Schedule(ts);
    var rest := Schedule(ts[1..]);
    assert Place(ts, z, c)[1..] == Place(ts[1..], z, c);
    assert Place(ts, z, c) == [ts[0]] + Place(ts[1..], z, c);
    assert Schedule(Place(ts, z, c)) == head + Schedule(Place(ts[1..], z, c));
    assert s == head + rest;
    assert s[..k] == head + rest[..k'];
    assert s[k..] == rest[k'..];
    forall i | 0 <= i < k
      ensures s[i].z <= z
    {
      if i >= |head| {
        assert s[i] == rest[i - |head|];
      }
    }
    forall i | k <= i < |s|
      ensures s[i].z > z
    {
      assert s[i] == rest[i - |head|];
    }
  }

  /**
   * Adding a child to sorted levels inserts exactly one slot into the visiting order,
   * after every child of a level at or below z and before every child of a level above z.
   */
  lemma {:induction false} PlaceSchedule(ts: seq<Tier>, z: int, c: Node) returns (k: nat)
    requires SortedTiers(ts)
    ensures k <= |Schedule(ts)|
    ensures Schedule(Place(ts, z, c)) == Schedule(ts)[..k] + [Slot(z, c)] + Schedule(ts)[k..]
    ensures forall i :: 0 <= i < k ==> Schedule(ts)[i].z <= z
    ensures forall i :: k <= i < |Schedule(ts)| ==> Schedule(ts)[i].z > z
  {
    if ts == [] {
      k := 0;
      assert Tag(z, [c]) == [Slot(z, c)];
    } else if ts[0].z == z {
      k := |ts[0].members|;
      PlaceScheduleHere(ts, z, c);
    } else if z < ts[0].z {
      k := 0;
      PlaceScheduleBefore(ts, z, c);
    } else {
      var k' := PlaceSchedule(ts[1..], z, c);
      k := |ts[0].members| + k';
      PlaceScheduleAfter(ts, z, c, k');
    }
  }

  /**
   * IEntity::update: updateThis on the entity first, then every child's update in the
   * order of Schedule. The result lists the ids in the order their updateThis runs.
   */
  function UpdateTrace(n: Node): (r: seq<nat>)
    ensures |r| > 0 && r[0] == n.id
    decreases n, 2
  {
    [n.id] + TiersTrace(n.levels)
  }

  /** The trace of the children loop: every visited child runs at least its own updateThis. */
  function TiersTrace(ts: seq<Tier>): (r: seq<nat>)
    ensures |r| >= |Schedule(ts)|
    decreases ts, 1
  {
    if ts == [] then [] else MembersTrace(ts[0].members) + TiersTrace(ts[1..])
  }

  /** The trace of one level's children, in insertion order. */
  function MembersTrace(ms: seq<Node>): (r: seq<nat>)
    ensures |r| >= |ms|
    decreases ms, 0
  {
    if ms == [] then [] else UpdateTrace(ms[0]) + MembersTrace(ms[1..])
  }

  /** The update trace of the children visited in the order of ss. */
  function SlotsTrace(ss: seq<Slot>): seq<nat>
  {
    if ss == [] then [] else UpdateTrace(ss[0].child) + SlotsTrace(ss[1..])
  }

  lemma {:induction false} SlotsTraceAppend(a: seq<Slot>, b: seq<Slot>)
    ensures SlotsTrace(a + b) == SlotsTrace(a) + SlotsTrace(b)
  {
    if a != [] {
      assert (a + b)[0] == a[0];
      assert (a + b)[1..] == a[1..] + b;
      SlotsTraceAppend(a[1..], b);
    } else {
      assert a + b == b;
    }
  }

  lemma {:induction false} MembersTraceTagged(z: int, ms: seq<Node>)
    ensures MembersTrace(ms) == SlotsTrace(Tag(z, ms))
  {
    if ms != [] {
      MembersTraceTagged(z, ms[1..]);
    }
  }

  lemma {:induction false} TiersTraceScheduled(ts: seq<Tier>)
    ensures TiersTrace(ts) == SlotsTrace(Schedule(ts))
  {
    if ts != [] {
      TiersTraceScheduled(ts[1..]);
      MembersTraceTagged(ts[0].z, ts[0].members);
      SlotsTraceAppend(Tag(ts[0].z, ts[0].members), Schedule(ts[1..]));
    }
  }

  /**
   * update runs updateThis on the entity before anything else, then updates each child,
   * whole subtree by whole subtree, in the visiting order of Schedule.
   */
  lemma UpdateOrder(n: Node)
    ensures UpdateTrace(n)[0] == n.id
    ensures UpdateTrace(n) == [n.id] + SlotsTrace(Schedule(n.levels))
  {
    TiersTraceScheduled(n.levels);
  }

  /**
   * A child added at a level above all others is updated last: its subtree's trace
   * is appended to the parent's.
   */
  lemma AddOnTopUpdatesLast(parent: Node, child: Node, z: int)
    requires forall i :: 0 <= i < |parent.levels| ==> parent.levels[i].z < z
    ensures AddChild(parent, child, z).added
    ensures UpdateTrace(AddChild(parent, child, z).parent) == UpdateTrace(parent) + UpdateTrace(child.(zOrder := z))
  {
    var c := child.(zOrder := z);
    MembersNoTier(parent.levels, z);
    var r := AddChild(parent, child, z);
    assert r.parent.levels == Place(parent.levels, z, c);
    OnTopSchedule(parent.levels, z, c);
    UpdateOrder(parent);
    UpdateOrder(r.parent);
    SlotsTraceSnoc(Schedule(parent.levels), Slot(z, c));
  }

  lemma SlotsTraceSnoc(ss: seq<Slot>, t: Slot)
    ensures SlotsTrace(ss + [t]) == SlotsTrace(ss) + UpdateTrace(t.child)
  {
    SlotsTraceAppend(ss, [t]);
    assert SlotsTrace([t]) == UpdateTrace(t.child) + SlotsTrace([]);
  }

  lemma OnTopSchedule(ts: seq<Tier>, z: int, c: Node)
    requires forall i :: 0 <= i < |ts| ==> ts[i].z < z
    ensures Schedule(Place(ts, z, c)) == Schedule(ts) + [Slot(z, c)]
  {
    PlaceOnTop(ts, z, c);
    ScheduleAppend(ts, Tier(z, [c]));
    assert Schedule([Tier(z, [c])]) == [Slot(z, c)];
  }

  lemma {:induction false} PlaceOnTop(ts: seq<Tier>, z: int, c: Node)
    requires forall i :: 0 <= i < |ts| ==> ts[i].z < z
    ensures Place(ts, z, c) == ts + [Tier(z, [c])]
  {
    if ts != [] {
      PlaceOnTop(ts[1..], z, c);
      assert ts == [ts[0]] + ts[1..];
    }
  }

  lemma {:induction false} ScheduleAppend(ts: seq<Tier>, t: Tier)
    ensures Schedule(ts + [t]) == Schedule(ts) + Schedule([t])
  {
    if ts != [] {
      assert (ts + [t])[0] == ts[0];
      assert (ts + [t])[1..] == ts[1..] + [t];
      ScheduleAppend(ts[1..], t);
    } else {
      assert ts + [t] == [t];
    }
  }

  lemma {:induction false} MembersNoTier(ts: seq<Tier>, z: int)
    requires forall i :: 0 <= i < |ts| ==> ts[i].z != z
    ensures Members(ts, z) == []
  {
    if ts != [] {
      MembersNoTier(ts[1..], z);
    }
  }
}
