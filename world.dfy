/** The scene: a list of objects, and the nearest-hit search over them. */
module Worlds {
  import opened Rays
  import opened Visible

  /** What object `o` answers when the search asks it: the full interval `(tMin, tMax)` and a
      fresh default record. */
  function Probe(o: HitOracle, ray: Ray, tMin: real, tMax: real): (bool, HitRecord) {
    o(ray, tMin, tMax, DefaultRecord())
  }

  /** `o` reports a hit whose parameter is below `bound`. */
  predicate HitsBelow(o: HitOracle, ray: Ray, tMin: real, tMax: real, bound: real) {
    Probe(o, ray, tMin, tMax).0 && Probe(o, ray, tMin, tMax).1.t < bound
  }

  /** Among the first `n` objects, object `k` reports a hit below `tMax`, no object reports a hit
      nearer than it, and every object before it that reports a hit is strictly farther. */
  ghost predicate WinsAmong(objs: seq<HitOracle>, n: int, ray: Ray, tMin: real, tMax: real, k: int) {
    0 <= k < n <= |objs| &&
    HitsBelow(objs[k], ray, tMin, tMax, tMax) &&
    (forall j :: 0 <= j < n && Probe(objs[j], ray, tMin, tMax).0 ==>
       Probe(objs[k], ray, tMin, tMax).1.t <= Probe(objs[j], ray, tMin, tMax).1.t) &&
    (forall j :: 0 <= j < k && Probe(objs[j], ray, tMin, tMax).0 ==>
       Probe(objs[k], ray, tMin, tMax).1.t < Probe(objs[j], ray, tMin, tMax).1.t)
  }

  /** The nearest hit is decided by at most one object. */
  lemma WinnerUnique(objs: seq<HitOracle>, ray: Ray, tMin: real, tMax: real, k1: int, k2: int)
    requires WinsAmong(objs, |objs|, ray, tMin, tMax, k1)
    requires WinsAmong(objs, |objs|, ray, tMin, tMax, k2)
    ensures k1 == k2
  {
  }

  class World {
    var objList: seq<HitOracle>

    /** `World::default()`: an empty scene. */
    constructor ()
      ensures objList == []
    {
      objList := [];
    }

    method Add(obj: HitOracle)
      modifies this
      ensures objList == old(objList) + [obj]
    {
      objList := objList + [obj];
    }

    /** Asks every object in turn and keeps the nearest hit so far; `rec` is the record passed
        in through `&mut` and `out` what it holds afterwards. */
    method Hit(ray: Ray, tMin: real, tMax: real, rec: HitRecord) returns (hitAnything: bool, out: HitRecord)
      ensures hitAnything <==> exists k :: 0 <= k < |objList| && HitsBelow(objList[k], ray, tMin, tMax, tMax)
      ensures !hitAnything ==> out == rec
      // when every object keeps its hits below tMax, the scene is hit exactly when some object is
      ensures (forall k :: 0 <= k < |objList| && Probe(objList[k], ray, tMin, tMax).0 ==> Probe(objList[k], ray, tMin, tMax).1.t < tMax) ==>
                (hitAnything <==> exists k :: 0 <= k < |objList| && Probe(objList[k], ray, tMin, tMax).0)
      ensures hitAnything ==> exists k :: WinsAmong(objList, |objList|, ray, tMin, tMax, k) &&
                                          out == Probe(objList[k], ray, tMin, tMax).1
    {
      hitAnything := false;
      out := rec;
      var closest := tMax;
      ghost var winner := 0;
      for i := 0 to |objList|
        invariant !hitAnything ==> closest == tMax && out == rec
        invariant !hitAnything ==> forall k :: 0 <= k < i ==> !HitsBelow(objList[k], ray, tMin, tMax, tMax)
        invariant hitAnything ==> WinsAmong(objList, i, ray, tMin, tMax, winner)
        invariant hitAnything ==> out == Probe(objList[winner], ray, tMin, tMax).1 && closest == out.t
      {
        var tmp := objList[i](ray, tMin, tMax, DefaultRecord());
        if tmp.0 && tmp.1.t < closest {
          hitAnything := true;
          closest := tmp.1.t;
          out := tmp.1;
          winner := i;
        }
      }
    }
  }
}
