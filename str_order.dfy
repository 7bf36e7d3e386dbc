/**
  The total order Rust puts on strings (`Ord for str`, used by `String::cmp`).
  Rust compares the UTF-8 bytes lexicographically; since UTF-8 preserves the
  order of code points, that is the same as comparing the sequences of
  characters lexicographically, which is what `Cmp` does.
 */
module StrOrder {

  /** Rust's `std::cmp::Ordering`. */
  datatype Ordering = Less | Equal | Greater {
    /** The answer of the comparison with its operands swapped. */
    function Reverse(): Ordering {
      match this
      case Less => Greater
      case Equal => Equal
      case Greater => Less
    }
  }

  /** Lexicographic comparison: the first differing character decides, and a proper prefix comes first. */
  function Cmp(a: string, b: string): (o: Ordering)
    ensures o == Equal <==> a == b
  {
    if a == [] then (if b == [] then Equal else Less)
    else if b == [] then Greater
    else if a[0] < b[0] then Less
    else if b[0] < a[0] then Greater
    else
      assert a == [a[0]] + a[1..] && b == [b[0]] + b[1..];
      Cmp(a[1..], b[1..])
  }

  /** `a` sorts no later than `b`. */
  predicate Le(a: string, b: string) {
    Cmp(a, b) != Greater
  }

  /** Swapping the operands reverses the answer. */
  lemma {:induction false} CmpReverse(a: string, b: string)
    ensures Cmp(b, a) == Cmp(a, b).Reverse()
  {
    if a != [] && b != [] && a[0] == b[0] {
      CmpReverse(a[1..], b[1..]);
    }
  }

  /** `Le` is transitive. */
  lemma {:induction false} LeTransitive(a: string, b: string, c: string)
    requires Le(a, b) && Le(b, c)
    ensures Le(a, c)
  {
    if a != [] && b != [] && c != [] && a[0] == b[0] == c[0] {
      LeTransitive(a[1..], b[1..], c[1..]);
    }
  }

  /** `Le` is antisymmetric: two strings that each sort no later than the other are equal. */
  lemma LeAntisymmetric(a: string, b: string)
    requires Le(a, b) && Le(b, a)
    ensures a == b
  {
    CmpReverse(a, b);
  }

  /** `Le` is total. */
  lemma LeTotal(a: string, b: string)
    ensures Le(a, b) || Le(b, a)
  {
    CmpReverse(a, b);
  }
}
