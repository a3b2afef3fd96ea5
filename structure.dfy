/**
 * The graph-structure enumerations the core uses: edge directions and the
 * `Order` family of comparators (ascending, descending, by entry key, by entry
 * value, and random).
 */
module Structure {

  /** Which endpoint(s) of an edge a step concerns. */
  datatype Direction = Out | In | Both {

    /** Out and In swap; Both is its own opposite, and the only direction that is. */
    function Opposite(): (d: Direction)
      ensures d == this <==> this == Both
    {
      match this
      case Out => In
      case In => Out
      case Both => Both
    }
  }

  /**
   * What a comparator is applied to: a directly comparable value, or a map
   * entry whose key or value is compared. Keys and values are integers here.
   */
  datatype Item = Scalar(n: int) | Entry(key: int, value: int)

  /** The part of an item an order looks at. */
  datatype SortKey = Whole | Key | Value

  /** Integer.compareTo: -1, 0 or 1 by the natural order of the integers. */
  function NaturalCompare(x: int, y: int): int {
    if x < y then -1 else if x == y then 0 else 1
  }

  /** The part of an item that a sort key selects. */
  function SortedPart(k: SortKey, x: Item): int
    requires k == Whole ==> x.Scalar?
    requires k != Whole ==> x.Entry?
  {
    match k
    case Whole => x.n
    case Key => x.key
    case Value => x.value
  }

  datatype Order = Incr | Decr | KeyIncr | ValueIncr | KeyDecr | ValueDecr | Shuffle {

    /**
     * Each variant's `opposite()`: the variant that sorts the same part of an
     * item the other way round; shuffle, and only shuffle, is its own opposite.
     */
    function Opposite(): (r: Order)
      ensures r == this <==> this == Shuffle
      ensures this != Shuffle ==> r.Sorts() == Sorts() && r.Descending() == !Descending()
    {
      match this
      case Incr => Decr
      case Decr => Incr
      case KeyIncr => KeyDecr
      case ValueIncr => ValueDecr
      case KeyDecr => KeyIncr
      case ValueDecr => ValueIncr
      case Shuffle => Shuffle
    }

    /** The part of an item this order compares (meaningless for Shuffle). */
    function Sorts(): SortKey {
      match this
      case Incr | Decr | Shuffle => Whole
      case KeyIncr | KeyDecr => Key
      case ValueIncr | ValueDecr => Value
    }

    /** True for the variants built on `reverseOrder()`. */
    predicate Descending() {
      this == Decr || this == KeyDecr || this == ValueDecr
    }

    /**
     * The argument shapes each variant's casts accept: plain comparables for
     * incr/decr, map entries for the key and value variants, anything for shuffle.
     */
    predicate Accepts(a: Item, b: Item) {
      match this
      case Incr | Decr => a.Scalar? && b.Scalar?
      case KeyIncr | KeyDecr | ValueIncr | ValueDecr => a.Entry? && b.Entry?
      case Shuffle => true
    }

    /**
     * Each variant's `compare(first, second)`. `coin` stands for the
     * `RANDOM.nextBoolean()` draw that only Shuffle consults.
     */
    function Compare(a: Item, b: Item, coin: bool): (r: int)
      requires Accepts(a, b)
      ensures r == -1 || r == 0 || r == 1
      ensures this != Shuffle && a == b ==> r == 0
      ensures this == Shuffle ==> r != 0
    {
      match this
      case Incr => NaturalCompare(a.n, b.n)
      case Decr => NaturalCompare(b.n, a.n)
      case KeyIncr => NaturalCompare(a.key, b.key)
      case ValueIncr => NaturalCompare(a.value, b.value)
      case KeyDecr => NaturalCompare(b.key, a.key)
      case ValueDecr => NaturalCompare(b.value, a.value)
      case Shuffle => if coin then -1 else 1
    }
  }

  /** `opposite()` undoes itself on every variant. */
  lemma OppositeInvolution(o: Order)
    ensures o.Opposite().Opposite() == o
  {
  }

  /** `Direction.opposite()` undoes itself. */
  lemma DirectionOppositeInvolution(d: Direction)
    ensures d.Opposite().Opposite() == d
  {
  }

  /**
   * Every ordered variant compares the part of the items it `Sorts()` by
   * their natural order, with the arguments swapped when it is `Descending()`.
   */
  lemma CompareBySortedPart(o: Order, a: Item, b: Item, coin: bool)
    requires o != Shuffle && o.Accepts(a, b)
    ensures o.Sorts() == Whole ==> a.Scalar? && b.Scalar?
    ensures o.Sorts() != Whole ==> a.Entry? && b.Entry?
    ensures o.Compare(a, b, coin) == if o.Descending()
      then NaturalCompare(SortedPart(o.Sorts(), b), SortedPart(o.Sorts(), a))
      else NaturalCompare(SortedPart(o.Sorts(), a), SortedPart(o.Sorts(), b))
  {
  }

  /** `incr` has the sign of the natural order of its arguments. */
  lemma IncrIsNaturalOrder(x: int, y: int, coin: bool)
    ensures Incr.Compare(Scalar(x), Scalar(y), coin) < 0 <==> x < y
    ensures Incr.Compare(Scalar(x), Scalar(y), coin) == 0 <==> x == y
    ensures Incr.Compare(Scalar(x), Scalar(y), coin) > 0 <==> x > y
  {
  }

  /** `decr.compare(a, b)` is `incr.compare(b, a)`. */
  lemma DecrSwapsIncr(a: Item, b: Item, coin: bool)
    requires Incr.Accepts(a, b)
    ensures Decr.Compare(a, b, coin) == Incr.Compare(b, a, coin)
  {
  }

  /** keyIncr and keyDecr look at the entries' keys only: changing the values changes nothing. */
  lemma KeyOrdersIgnoreValues(o: Order, k1: int, v1: int, k2: int, v2: int, w1: int, w2: int, coin: bool)
    requires o == KeyIncr || o == KeyDecr
    ensures o.Compare(Entry(k1, v1), Entry(k2, v2), coin) == o.Compare(Entry(k1, w1), Entry(k2, w2), coin)
    ensures o.Compare(Entry(k1, v1), Entry(k2, v2), coin) == 0 <==> k1 == k2
  {
  }

  /** valueIncr and valueDecr look at the entries' values only: changing the keys changes nothing. */
  lemma ValueOrdersIgnoreKeys(o: Order, k1: int, v1: int, k2: int, v2: int, j1: int, j2: int, coin: bool)
    requires o == ValueIncr || o == ValueDecr
    ensures o.Compare(Entry(k1, v1), Entry(k2, v2), coin) == o.Compare(Entry(j1, v1), Entry(j2, v2), coin)
    ensures o.Compare(Entry(k1, v1), Entry(k2, v2), coin) == 0 <==> v1 == v2
  {
  }

  /**
   * For every variant but shuffle, the opposite order compares the swapped
   * arguments, which is the same as negating the comparison.
   */
  lemma OppositeSwapsArguments(o: Order, a: Item, b: Item, coin: bool)
    requires o != Shuffle && o.Accepts(a, b)
    ensures o.Opposite().Accepts(a, b) && o.Accepts(b, a)
    ensures o.Opposite().Compare(a, b, coin) == o.Compare(b, a, coin)
    ensures o.Opposite().Compare(a, b, coin) == -o.Compare(a, b, coin)
  {
  }

  /** Every ordered variant is a consistent comparator: reflexive, antisymmetric in sign, transitive. */
  lemma OrderedVariantsAreComparators(o: Order, a: Item, b: Item, c: Item, coin: bool)
    requires o != Shuffle && o.Accepts(a, b) && o.Accepts(b, c)
    ensures o.Accepts(a, a) && o.Compare(a, a, coin) == 0
    ensures o.Accepts(b, a) && o.Compare(a, b, coin) == -o.Compare(b, a, coin)
    ensures o.Accepts(a, c) && (o.Compare(a, b, coin) <= 0 && o.Compare(b, c, coin) <= 0 ==> o.Compare(a, c, coin) <= 0)
  {
  }
}
