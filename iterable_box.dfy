/** A non-owning range over zero or one item (include/mope_game_engine/iterable_box.hxx). */
module IterableBox {
  import opened Wrappers

  /** The box: a pointer that is either null (empty range) or points at the one item. */
  datatype Box<T> = Box(t: Ptr<T>)
  {
    /** `begin()`: an iterator at the boxed pointer. */
    method Begin() returns (it: Iterator<T>)
      ensures fresh(it) && it.t == t
    {
      it := new Iterator(t);
    }

    /** `end()`: an iterator at null. */
    method End() returns (it: Iterator<T>)
      ensures fresh(it) && it.t == Null
    {
      it := new Iterator(Null);
    }

    /** `size()`, which the range interface computes as `end() - begin()`,
        here with the corrected `operator-` (`Difference`). */
    function Size(): (n: int)
      ensures n == |Elements()|
      ensures n == 0 || n == 1
      ensures n == 0 <==> t.Null?
    {
      Difference(Null, t)
    }

    /** The items the range yields, from `begin()` up to `end()`. */
    function Elements(): (s: seq<T>)
      ensures |s| <= 1
      ensures t.Ref? <==> |s| == 1
      ensures t.Ref? ==> s[0] == t.target
    {
      if t.Ref? then [t.target] else []
    }
  }

  /** The position of an iterator inside its box: 0 at the item, 1 past it (null). */
  function Position<T>(p: Ptr<T>): nat { if p.Null? then 1 else 0 }

  /** `operator-` on the pointers of two iterators of the same box, as the
      source writes it: 0 when equal, -1 when the left one is null, else 1.
      (Two such pointers are equal exactly when both or neither are null,
      which is how the comparison is written here.) */
  function DifferenceAsWritten<T>(a: Ptr<T>, b: Ptr<T>): (d: int)
    requires a == b || a.Null? || b.Null?
    ensures d == 0 <==> a == b
  {
    if a.Null? == b.Null? then 0 else if a.Null? then -1 else 1
  }

  /** As written, `end() - begin()` of a non-empty box is -1, not 1: the
      distance has the sign of `begin() - end()`. */
  lemma {:induction false} DifferenceAsWrittenHasWrongSign<T>(x: T)
    ensures DifferenceAsWritten(Null, Ref(x)) == -1
    ensures DifferenceAsWritten(Null, Ref(x)) != Position(Ptr<T>.Null) - Position(Ref(x))
  {
  }

  /** `operator-` with the sign the range interface expects: the difference
      of the two iterators' positions, so `end() - begin()` is the size. */
  function Difference<T>(a: Ptr<T>, b: Ptr<T>): (d: int)
    requires a == b || a.Null? || b.Null?
    ensures d == Position(a) - Position(b)
    ensures d == 0 <==> a == b
    ensures d == -DifferenceAsWritten(a, b)
  {
    if a.Null? == b.Null? then 0 else if a.Null? then 1 else -1
  }

  class Iterator<T> {
    var t: Ptr<T>

    /** A default iterator is at null; otherwise at the given pointer. */
    constructor (t: Ptr<T>)
      ensures this.t == t
    {
      this.t := t;
    }

    /** `operator*`: the pointee. */
    function Deref(): (x: T)
      reads this
      requires t.Ref?
      ensures Ptr.Ref(x) == t
    {
      t.target
    }

    /** `operator++` (prefix): after one step the iterator is at the end. */
    method Increment()
      modifies this
      ensures t == Null
    {
      t := Null;
    }

    /** `operator++(int)`: returns a copy of the prior iterator, then advances. */
    method PostIncrement() returns (prev: Iterator<T>)
      modifies this
      ensures fresh(prev) && prev.t == old(t)
      ensures t == Null
    {
      prev := new Iterator(t);
      Increment();
    }

    /** `operator-`, with the corrected sign (`Difference`): two iterators of
        one box are equal, or one of them is at the end. */
    function Minus(that: Iterator<T>): (d: int)
      reads this, that
      requires t == that.t || t.Null? || that.t.Null?
      ensures d == Position(t) - Position(that.t)
      ensures d == 0 <==> t == that.t
      ensures d == 1 <==> t.Null? && that.t.Ref?
      ensures d == -1 <==> t.Ref? && that.t.Null?
    {
      Difference(t, that.t)
    }

    /** `operator==`: pointer equality, which for two iterators of one box
        is a difference of 0 and puts both at the same position. */
    ghost function Equals(that: Iterator<T>): (b: bool)
      reads this, that
      ensures (t == that.t || t.Null? || that.t.Null?) ==> (b <==> Minus(that) == 0)
      ensures b ==> Position(t) == Position(that.t)
    {
      t == that.t
    }
  }

  /** `begin() == end()` exactly when the boxed pointer is null, and one
      increment of `begin()` reaches `end()`. */
  method BeginEndAgree<T>(b: Box<T>) returns (emptyAtStart: bool, endAfterOne: bool)
    ensures emptyAtStart <==> b.t.Null?
    ensures endAfterOne
  {
    var first := b.Begin();
    var last := b.End();
    emptyAtStart := first.Minus(last) == 0;
    first.Increment();
    endAfterOne := first.Minus(last) == 0;
  }
}
