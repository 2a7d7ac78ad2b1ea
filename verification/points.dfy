/**
 The `Point` class: two `long` coordinates with value equality and a hash that
 combines the component hashes. The hash of a single `long` comes from the
 runtime and is a parameter here.
 */
module Points {
  import opened Exceptions

  /** A point of the board; its coordinates are never changed once it is built. */
  datatype Point = Point(X: int, Y: int)

  /** What `Equals` can be handed: no object, a `Point`, or an object of some other class. */
  datatype Object = Null | PointObject(point: Point) | OtherObject

  /**
   Value equality. A null argument is unequal; an argument of another class
   makes the cast yield null, and reading its `X` throws.
   */
  function Equals(self: Point, obj: Object): (r: Result<bool>)
    ensures r.Success? <==> !obj.OtherObject?
    ensures r == Success(true) <==> obj == PointObject(self)
  {
    match obj
    case Null => Success(false)
    case PointObject(q) => Success(q.X == self.X && q.Y == self.Y)
    case OtherObject => Throws(NullReference)
  }

  /** The exclusive or of the two coordinate hashes. */
  function GetHashCode(p: Point, longHash: int -> bv32): (h: bv32)
    ensures h ^ longHash(p.X) == longHash(p.Y)
    ensures p.X == p.Y ==> h == 0
  {
    longHash(p.X) ^ longHash(p.Y)
  }

  /** Null is never equal to a point. */
  lemma EqualsNullIsFalse(p: Point)
    ensures Equals(p, Null) == Success(false)
  {
  }

  lemma EqualsReflexive(p: Point)
    ensures Equals(p, PointObject(p)) == Success(true)
  {
  }

  lemma EqualsSymmetric(p: Point, q: Point)
    ensures Equals(p, PointObject(q)) == Equals(q, PointObject(p))
  {
  }

  /** Points that are `Equals` have the same hash, whatever the coordinate hash. */
  lemma EqualPointsHashAlike(p: Point, q: Point, longHash: int -> bv32)
    requires Equals(p, PointObject(q)) == Success(true)
    ensures GetHashCode(p, longHash) == GetHashCode(q, longHash)
  {
  }

  /** Swapping the coordinates keeps the hash, although the points differ unless they lie on the diagonal. */
  lemma MirrorCollides(x: int, y: int, longHash: int -> bv32)
    ensures GetHashCode(Point(x, y), longHash) == GetHashCode(Point(y, x), longHash)
    ensures Equals(Point(x, y), PointObject(Point(y, x))) == Success(x == y)
  {
  }

  /** As written, comparing a point with an object of another class throws instead of answering false. */
  lemma EqualsThrowsOnOtherClass(p: Point)
    ensures Equals(p, OtherObject) == Throws(NullReference)
  {
  }

  /** Value equality that answers false for an object of another class, as an equality test should. */
  function EqualsChecked(self: Point, obj: Object): (r: Result<bool>)
    ensures r.Success?
    ensures r.value <==> obj == PointObject(self)
  {
    match obj
    case PointObject(q) => Success(q.X == self.X && q.Y == self.Y)
    case _ => Success(false)
  }

  /** The two agree wherever the written one does not throw, in particular on every point. */
  lemma EqualsCheckedAgrees(p: Point, obj: Object)
    ensures !obj.OtherObject? ==> EqualsChecked(p, obj) == Equals(p, obj)
    ensures EqualsChecked(p, obj) != Equals(p, obj) <==> obj.OtherObject?
  {
  }
}
