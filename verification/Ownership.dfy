/** Which heap object belongs to which part of a structure. */
module Ownership {
  /** The objects at one place. */
  ghost function At<P(!new)>(places: map<object, P>, p: P): (objects: set<object>)
    ensures objects <= places.Keys
  {
    set o | o in places && places[o] == p
  }

  /** `places` with some objects added at one place. */
  ghost function Placed<P(!new)>(places: map<object, P>, objects: set<object>, p: P): map<object, P> {
    places + map o | o in objects :: p
  }

  /** What belongs elsewhere is not affected. */
  lemma PlacedElsewhere<P(!new)>(places: map<object, P>, objects: set<object>, p: P, q: P)
    requires objects !! places.Keys
    ensures Placed(places, objects, p).Keys == places.Keys + objects
    ensures At(Placed(places, objects, p), q) == if p == q then At(places, q) + objects else At(places, q)
  {
    assert forall o :: o in Placed(places, objects, p) <==> o in places || o in objects;
  }
}
