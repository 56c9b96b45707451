/** Small facts about finite sets that the other modules share. */
module Sets {

  /** An element of a non-empty set. */
  lemma Pick<T>(s: set<T>) returns (x: T)
    requires s != {}
    ensures x in s
  {
    var empty: set<T> := {};
    assert !(forall y :: y in s <==> y in empty);
    x :| x in s;
  }

  /** Some element of a non-empty set, in compiled code (which one is immaterial). */
  method Choose<T(==)>(s: set<T>) returns (x: T)
    requires s != {}
    ensures x in s
  {
    ghost var w := Pick(s);
    x :| x in s;
  }

  /** Taking `x` off the pending part of `all` adds it to the done part. */
  lemma MoveOne<T>(all: set<T>, pending: set<T>, x: T)
    requires pending <= all && x in pending
    ensures all - (pending - {x}) == (all - pending) + {x}
  {
  }

  /** The elements of a sequence. */
  function Elems<T>(s: seq<T>): set<T>
  {
    set x | x in s
  }
}
