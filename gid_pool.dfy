/**
 * The global-id pool: every registered top-level object (a structure or a
 * volume) owns a contiguous half-open range of ids, which the picking
 * colour scheme encodes as a 24-bit colour.
 *
 * The pure functions below (Add, Remove, Update, GidOf) state what each
 * operation does to the pool's three fields; the class GidPool is the
 * mutable pool itself and its methods are proved to follow them.
 */
module GidPool {
  import opened Wrappers

  /** 2^24: the number of distinct picking colours. */
  const GidCeiling: int := 0x100_0000

  /** What an object contributes to the id space at the time of a call. */
  datatype ObjectKind =
    | StructureObject(atomCount: nat, bondCount: nat)
    | VolumeObject(dataLength: nat)
    | UnknownObject

  /** A registered object: its identity (compared like JavaScript object identity) and its current contents. */
  datatype PoolObject = PoolObject(id: nat, kind: ObjectKind)

  /** The half-open id range [start, stop). */
  datatype GidRange = GidRange(start: int, stop: int)

  datatype PoolState = PoolState(nextGid: int, objectList: seq<nat>, rangeList: seq<GidRange>)

  /** Atoms plus bonds for a structure, samples for a volume, nothing for anything else. */
  function GidCount(o: PoolObject): nat
  {
    match o.kind
    case StructureObject(atoms, bonds) => atoms + bonds
    case VolumeObject(len) => len
    case UnknownObject => 0
  }

  /** Array.prototype.indexOf: the first position of x, or -1. */
  function IndexOf(s: seq<nat>, x: nat): (i: int)
    ensures -1 <= i < |s|
    ensures i == -1 <==> x !in s
    ensures 0 <= i ==> s[i] == x && forall k :: 0 <= k < i ==> s[k] != x
  {
    if |s| == 0 then -1
    else if s[0] == x then 0
    else
      var j := IndexOf(s[1..], x);
      if j == -1 then -1 else j + 1
  }

  function Len(r: GidRange): int { r.stop - r.start }

  predicate NonEmpty(r: GidRange) { r.start < r.stop }

  predicate Disjoint(r1: GidRange, r2: GidRange) { r1.stop <= r2.start || r2.stop <= r1.start }

  /** The pool invariant: the two lists stay parallel, every range starts at 1 or above,
      and the non-empty ranges lie below nextGid and do not overlap. */
  ghost predicate Inv(s: PoolState)
  {
    && |s.objectList| == |s.rangeList|
    && 1 <= s.nextGid
    && (forall i :: 0 <= i < |s.rangeList| ==> 1 <= s.rangeList[i].start <= s.rangeList[i].stop)
    && (forall i :: 0 <= i < |s.rangeList| && NonEmpty(s.rangeList[i]) ==> s.rangeList[i].stop <= s.nextGid)
    && (forall i, j ::
          0 <= i < |s.rangeList| && 0 <= j < |s.rangeList| && i != j && NonEmpty(s.rangeList[i]) && NonEmpty(s.rangeList[j])
          ==> Disjoint(s.rangeList[i], s.rangeList[j]))
  }

  /** allocateGidRange: the error condition it reports. */
  predicate Overflows(nextGid: int, count: nat) { nextGid + count > GidCeiling }

  /** addObject */
  function Add(s: PoolState, o: PoolObject): PoolState
  {
    PoolState(s.nextGid + GidCount(o), s.objectList + [o.id], s.rangeList + [GidRange(s.nextGid, s.nextGid + GidCount(o))])
  }

  /** removeObject */
  function Remove(s: PoolState, o: PoolObject): PoolState
    requires |s.objectList| == |s.rangeList|
  {
    var idx := IndexOf(s.objectList, o.id);
    if idx == -1 then s
    else
      var objs := s.objectList[..idx] + s.objectList[idx + 1..];
      var ranges := s.rangeList[..idx] + s.rangeList[idx + 1..];
      PoolState(if |objs| == 0 then 1 else s.nextGid, objs, ranges)
  }

  /** updateObject: resize in place when the object's range ends at nextGid, otherwise allocate afresh. */
  function Update(s: PoolState, o: PoolObject): PoolState
    requires |s.objectList| == |s.rangeList|
  {
    var idx := IndexOf(s.objectList, o.id);
    if idx == -1 then s
    else
      var r := s.rangeList[idx];
      if r.stop == s.nextGid then
        var next := s.nextGid + GidCount(o) - Len(r);
        PoolState(next, s.objectList, s.rangeList[idx := GidRange(r.start, next)])
      else
        var next := s.nextGid + GidCount(o);
        PoolState(next, s.objectList, s.rangeList[idx := GidRange(s.nextGid, next)])
  }

  /** Whether updateObject reports an overflow: only its fresh-allocation branch checks the ceiling. */
  function UpdateOverflows(s: PoolState, o: PoolObject): bool
    requires |s.objectList| == |s.rangeList|
  {
    var idx := IndexOf(s.objectList, o.id);
    idx != -1 && s.rangeList[idx].stop != s.nextGid && Overflows(s.nextGid, GidCount(o))
  }

  /** getGid: the start of the object's range plus the offset (a falsy offset counts as 0),
      or 0 for an object that is not registered. */
  function GidOf(s: PoolState, id: nat, offset: Option<int>): int
    requires |s.objectList| == |s.rangeList|
  {
    var k := if offset.Some? then offset.value else 0;
    var idx := IndexOf(s.objectList, id);
    if idx == -1 then 0 else s.rangeList[idx].start + k
  }

  // ---------------------------------------------------------------------
  // Properties of the operations

  lemma {:induction false} AddPreservesInv(s: PoolState, o: PoolObject)
    requires Inv(s)
    ensures Inv(Add(s, o))
    ensures Add(s, o).nextGid == s.nextGid + GidCount(o)
    ensures Add(s, o).rangeList[|s.rangeList|] == GidRange(s.nextGid, s.nextGid + GidCount(o))
  {
    var t := Add(s, o);
    var n := |s.rangeList|;
    forall i, j | 0 <= i < |t.rangeList| && 0 <= j < |t.rangeList| && i != j
        && NonEmpty(t.rangeList[i]) && NonEmpty(t.rangeList[j])
      ensures Disjoint(t.rangeList[i], t.rangeList[j])
    {
      if i < n && j < n {
        assert t.rangeList[i] == s.rangeList[i] && t.rangeList[j] == s.rangeList[j];
      } else if i < n {
        assert t.rangeList[i].stop <= s.nextGid;
      } else {
        assert t.rangeList[j].stop <= s.nextGid;
      }
    }
  }

  /** Removing an unregistered object changes nothing; removing a registered one
      drops its entry from both lists and resets nextGid to 1 exactly when the pool empties. */
  lemma {:induction false} RemoveEffect(s: PoolState, o: PoolObject)
    requires Inv(s)
    ensures o.id !in s.objectList ==> Remove(s, o) == s
    ensures o.id in s.objectList ==>
      && |Remove(s, o).objectList| == |s.objectList| - 1
      && (|s.objectList| == 1 ==> Remove(s, o).nextGid == 1)
      && (|s.objectList| > 1 ==> Remove(s, o).nextGid == s.nextGid)
    ensures Inv(Remove(s, o))
  {
    var idx := IndexOf(s.objectList, o.id);
    if idx != -1 {
      var t := Remove(s, o);
      var r := s.rangeList;
      assert |t.rangeList| == |r| - 1;
      forall i | 0 <= i < |t.rangeList|
        ensures t.rangeList[i] == r[if i < idx then i else i + 1]
      {
      }
      if |t.objectList| != 0 {
        forall i, j | 0 <= i < |t.rangeList| && 0 <= j < |t.rangeList| && i != j
            && NonEmpty(t.rangeList[i]) && NonEmpty(t.rangeList[j])
          ensures Disjoint(t.rangeList[i], t.rangeList[j])
        {
          var i' := if i < idx then i else i + 1;
          var j' := if j < idx then j else j + 1;
          assert t.rangeList[i] == r[i'] && t.rangeList[j] == r[j'];
        }
      }
    }
  }

  /** updateObject keeps the invariant, touches only the object's own range, and leaves
      the new range exactly as long as the object's current id count. */
  lemma {:induction false} UpdatePreservesInv(s: PoolState, o: PoolObject)
    requires Inv(s)
    ensures Inv(Update(s, o))
    ensures Update(s, o).objectList == s.objectList
    ensures forall i :: 0 <= i < |s.rangeList| && s.objectList[i] != o.id ==> Update(s, o).rangeList[i] == s.rangeList[i]
    ensures o.id in s.objectList ==>
      var idx := IndexOf(s.objectList, o.id);
      && Len(Update(s, o).rangeList[idx]) == GidCount(o)
      && Update(s, o).rangeList[idx].stop == Update(s, o).nextGid
    ensures o.id !in s.objectList ==> Update(s, o) == s
  {
    var idx := IndexOf(s.objectList, o.id);
    if idx != -1 {
      var t := Update(s, o);
      var r := s.rangeList[idx];
      var nr := t.rangeList[idx];
      forall i | 0 <= i < |s.rangeList| && s.objectList[i] != o.id
        ensures t.rangeList[i] == s.rangeList[i]
      {
        assert i != idx;
      }
      forall i | 0 <= i < |t.rangeList| && i != idx && NonEmpty(t.rangeList[i])
        ensures t.rangeList[i].stop <= nr.start
      {
        assert t.rangeList[i] == s.rangeList[i];
        if r.stop == s.nextGid && NonEmpty(r) {
          assert Disjoint(s.rangeList[i], r);
        }
      }
      forall i, j | 0 <= i < |t.rangeList| && 0 <= j < |t.rangeList| && i != j
          && NonEmpty(t.rangeList[i]) && NonEmpty(t.rangeList[j])
        ensures Disjoint(t.rangeList[i], t.rangeList[j])
      {
        if i != idx && j != idx {
          assert t.rangeList[i] == s.rangeList[i] && t.rangeList[j] == s.rangeList[j];
        }
      }
    }
  }

  /** The picking property: ids handed to two different registered objects never coincide,
      and every id handed out lies in [1, nextGid). */
  lemma {:induction false} GidsAreUnique(s: PoolState, a: nat, ka: nat, b: nat, kb: nat)
    requires Inv(s)
    requires a in s.objectList && b in s.objectList && a != b
    requires ka < Len(s.rangeList[IndexOf(s.objectList, a)])
    requires kb < Len(s.rangeList[IndexOf(s.objectList, b)])
    ensures GidOf(s, a, Some(ka)) != GidOf(s, b, Some(kb))
    ensures 1 <= GidOf(s, a, Some(ka)) < s.nextGid
  {
    var ia := IndexOf(s.objectList, a);
    var ib := IndexOf(s.objectList, b);
    assert ia != ib;
    assert Disjoint(s.rangeList[ia], s.rangeList[ib]);
  }

  /** A freshly added object's ids start at the old nextGid. */
  lemma {:induction false} GidAfterAdd(s: PoolState, o: PoolObject, k: nat)
    requires Inv(s) && o.id !in s.objectList
    ensures GidOf(Add(s, o), o.id, Some(k)) == s.nextGid + k
    ensures GidOf(Add(s, o), o.id, None) == s.nextGid
  {
    var t := Add(s, o);
    assert t.objectList[|s.objectList|] == o.id;
    assert IndexOf(t.objectList, o.id) == |s.objectList| by {
      assert forall k :: 0 <= k < |s.objectList| ==> t.objectList[k] == s.objectList[k];
    }
  }

  /** An unregistered object has gid 0, which no registered object can be given. */
  lemma GidOfUnregistered(s: PoolState, id: nat, k: Option<int>)
    requires Inv(s) && id !in s.objectList
    ensures GidOf(s, id, k) == 0
  {
  }

  // ---------------------------------------------------------------------
  // The pool object

  class GidPool {
    var nextGid: int
    var objectList: seq<nat>
    var rangeList: seq<GidRange>

    function State(): PoolState
      reads this
    {
      PoolState(nextGid, objectList, rangeList)
    }

    ghost predicate Valid()
      reads this
    {
      Inv(State())
    }

    constructor ()
      ensures Valid() && State() == PoolState(1, [], [])
    {
      nextGid := 1;
      objectList := [];
      rangeList := [];
    }

    /** allocateGidRange: hands out [nextGid, nextGid + count) and reports the overflow of the 2^24 ceiling. */
    method AllocateGidRange(o: PoolObject) returns (range: GidRange, overflow: bool)
      modifies this
      ensures range == GidRange(old(nextGid), old(nextGid) + GidCount(o))
      ensures nextGid == old(nextGid) + GidCount(o)
      ensures overflow <==> nextGid > GidCeiling
      ensures objectList == old(objectList) && rangeList == old(rangeList)
    {
      var firstGid := nextGid;
      nextGid := nextGid + GidCount(o);
      overflow := nextGid > GidCeiling;
      range := GidRange(firstGid, nextGid);
    }

    /** addObject; the overflow is reported but the range is still recorded. */
    method AddObject(o: PoolObject) returns (overflow: bool)
      requires Valid()
      modifies this
      ensures Valid()
      ensures State() == Add(old(State()), o)
      ensures overflow <==> Overflows(old(nextGid), GidCount(o))
    {
      AddPreservesInv(State(), o);
      objectList := objectList + [o.id];
      var range;
      range, overflow := AllocateGidRange(o);
      rangeList := rangeList + [range];
    }

    /** removeObject */
    method RemoveObject(o: PoolObject)
      requires Valid()
      modifies this
      ensures Valid()
      ensures State() == Remove(old(State()), o)
    {
      RemoveEffect(State(), o);
      var idx := IndexOf(objectList, o.id);
      if idx != -1 {
        objectList := objectList[..idx] + objectList[idx + 1..];
        rangeList := rangeList[..idx] + rangeList[idx + 1..];
        if |objectList| == 0 {
          nextGid := 1;
        }
      }
    }

    /** updateObject; `warned` is the "object not found" warning, suppressed when silent. */
    method UpdateObject(o: PoolObject, silent: bool) returns (warned: bool, overflow: bool)
      requires Valid()
      modifies this
      ensures Valid()
      ensures State() == Update(old(State()), o)
      ensures warned <==> o.id !in old(objectList) && !silent
      ensures overflow == UpdateOverflows(old(State()), o)
    {
      ghost var s := State();
      UpdatePreservesInv(s, o);
      var idx := IndexOf(objectList, o.id);
      warned, overflow := false, false;
      if idx != -1 {
        var range := rangeList[idx];
        if range.stop == nextGid {
          var count := GidCount(o);
          nextGid := nextGid + count - (range.stop - range.start);
          rangeList := rangeList[idx := GidRange(range.start, nextGid)];
        } else {
          var newRange;
          newRange, overflow := AllocateGidRange(o);
          rangeList := rangeList[idx := newRange];
        }
      } else {
        warned := !silent;
      }
      assert State() == Update(s, o);
    }

    /** getNextGid: hands out a single id and advances the counter. */
    method GetNextGid() returns (gid: int)
      requires Valid()
      modifies this
      ensures Valid()
      ensures gid == old(nextGid) && nextGid == old(nextGid) + 1
      ensures objectList == old(objectList) && rangeList == old(rangeList)
    {
      gid := nextGid;
      nextGid := nextGid + 1;
    }

    /** getGid; `warned` is the "object not found" warning. */
    method GetGid(o: PoolObject, offset: Option<int>) returns (gid: int, warned: bool)
      requires Valid()
      ensures warned <==> o.id !in objectList
      ensures warned ==> gid == 0
      ensures !warned ==> gid == rangeList[IndexOf(objectList, o.id)].start + (if offset.Some? then offset.value else 0)
      ensures gid == GidOf(State(), o.id, offset)
    {
      var k := if offset.Some? then offset.value else 0;
      gid := 0;
      var idx := IndexOf(objectList, o.id);
      warned := idx == -1;
      if idx != -1 {
        gid := rangeList[idx].start + k;
      }
    }
  }
}
