/**
 * A derived ordering, as Rust's `#[derive(PartialOrd, Ord)]` produces it.
 * Values are encoded as trees of integers, and trees compare
 * lexicographically: a leaf before a node, leaves by their number, nodes
 * child by child, and a node whose children are a prefix of another's first.
 * An enum variant encodes as a node whose first child is the variant index,
 * so variants compare first and their fields after, in declaration order;
 * a `Vec` or `String` encodes as a node of its elements. This is exactly the
 * order a derived `Ord` gives.
 */
module DerivedOrd {

  datatype Val = Leaf(n: int) | Node(kids: seq<Val>)

  /** Three-way comparison: -1 (less), 0 (equal) or 1 (greater). */
  function Cmp(a: Val, b: Val): (c: int)
    ensures -1 <= c <= 1
    decreases a
  {
    match (a, b)
    case (Leaf(x), Leaf(y)) => if x < y then -1 else if x == y then 0 else 1
    case (Leaf(_), Node(_)) => -1
    case (Node(_), Leaf(_)) => 1
    case (Node(xs), Node(ys)) => CmpSeq(xs, ys)
  }

  /** Lexicographic comparison of two sequences of trees. */
  function CmpSeq(xs: seq<Val>, ys: seq<Val>): (c: int)
    ensures -1 <= c <= 1
    decreases xs
  {
    if |xs| == 0 then (if |ys| == 0 then 0 else -1)
    else if |ys| == 0 then 1
    else
      var c := Cmp(xs[0], ys[0]);
      if c != 0 then c else CmpSeq(xs[1..], ys[1..])
  }

  /** The non-strict order induced by `Cmp`. */
  predicate Le(a: Val, b: Val) {
    Cmp(a, b) <= 0
  }

  /** Comparison answers "equal" exactly for equal trees. */
  lemma {:induction false} CmpZeroIffEqual(a: Val, b: Val)
    ensures Cmp(a, b) == 0 <==> a == b
    decreases a
  {
    match (a, b)
    case (Leaf(_), Leaf(_)) =>
    case (Leaf(_), Node(_)) =>
    case (Node(_), Leaf(_)) =>
    case (Node(xs), Node(ys)) => CmpSeqZeroIffEqual(xs, ys);
  }

  lemma {:induction false} CmpSeqZeroIffEqual(xs: seq<Val>, ys: seq<Val>)
    ensures CmpSeq(xs, ys) == 0 <==> xs == ys
    decreases xs
  {
    if |xs| == 0 || |ys| == 0 {
    } else {
      CmpZeroIffEqual(xs[0], ys[0]);
      CmpSeqZeroIffEqual(xs[1..], ys[1..]);
      if xs[0] == ys[0] && xs[1..] == ys[1..] {
        assert xs == [xs[0]] + xs[1..] && ys == [ys[0]] + ys[1..];
      }
    }
  }

  /** Swapping the operands negates the comparison. */
  lemma {:induction false} CmpFlip(a: Val, b: Val)
    ensures Cmp(b, a) == -Cmp(a, b)
    decreases a
  {
    match (a, b)
    case (Leaf(_), Leaf(_)) =>
    case (Leaf(_), Node(_)) =>
    case (Node(_), Leaf(_)) =>
    case (Node(xs), Node(ys)) => CmpSeqFlip(xs, ys);
  }

  lemma {:induction false} CmpSeqFlip(xs: seq<Val>, ys: seq<Val>)
    ensures CmpSeq(ys, xs) == -CmpSeq(xs, ys)
    decreases xs
  {
    if |xs| != 0 && |ys| != 0 {
      CmpFlip(xs[0], ys[0]);
      CmpSeqFlip(xs[1..], ys[1..]);
    }
  }

  /** The induced order is transitive. */
  lemma {:induction false} CmpTrans(a: Val, b: Val, c: Val)
    requires Le(a, b) && Le(b, c)
    ensures Le(a, c)
    decreases a
  {
    match (a, b, c)
    case (Node(xs), Node(ys), Node(zs)) => CmpSeqTrans(xs, ys, zs);
    case (_, _, _) =>
  }

  lemma {:induction false} CmpSeqTrans(xs: seq<Val>, ys: seq<Val>, zs: seq<Val>)
    requires CmpSeq(xs, ys) <= 0 && CmpSeq(ys, zs) <= 0
    ensures CmpSeq(xs, zs) <= 0
    decreases xs
  {
    if |xs| != 0 && |ys| != 0 && |zs| != 0 {
      var c1 := Cmp(xs[0], ys[0]);
      var c2 := Cmp(ys[0], zs[0]);
      CmpZeroIffEqual(xs[0], ys[0]);
      CmpZeroIffEqual(ys[0], zs[0]);
      CmpZeroIffEqual(xs[0], zs[0]);
      if c1 == 0 && c2 == 0 {
        CmpSeqTrans(xs[1..], ys[1..], zs[1..]);
      } else if c1 == 0 || c2 == 0 {
      } else {
        CmpTrans(xs[0], ys[0], zs[0]);
        if Cmp(xs[0], zs[0]) == 0 {
          // xs[0] == zs[0], so ys[0] sits between equal ends and equals them
          CmpFlip(ys[0], zs[0]);
        }
      }
    }
  }

  /** Any two trees are comparable. */
  lemma CmpTotal(a: Val, b: Val)
    ensures Le(a, b) || Le(b, a)
  {
    CmpFlip(a, b);
  }

  /** The induced order is antisymmetric. */
  lemma CmpAntisymmetric(a: Val, b: Val)
    requires Le(a, b) && Le(b, a)
    ensures a == b
  {
    CmpFlip(a, b);
    CmpZeroIffEqual(a, b);
  }

  // ---- encodings of the building blocks of derived orders ----

  function Bool(b: bool): Val {
    Leaf(if b then 1 else 0)
  }

  /** A `String`: code points in order, compared lexicographically. */
  function Str(s: string): (v: Val)
    ensures v.Node? && |v.kids| == |s|
    ensures forall i :: 0 <= i < |s| ==> v.kids[i] == Leaf(s[i] as int)
  {
    Node(seq(|s|, i requires 0 <= i < |s| => Leaf(s[i] as int)))
  }

  lemma StrInjective(s: string, t: string)
    requires Str(s) == Str(t)
    ensures s == t
  {
    assert |s| == |t|;
    forall i | 0 <= i < |s|
      ensures s[i] == t[i]
    {
      assert Str(s).kids[i] == Str(t).kids[i];
    }
  }

  /** A `Vec<T>` whose elements encode through `f`. */
  function Many<T>(xs: seq<T>, f: T -> Val): (v: Val)
    ensures v.Node? && |v.kids| == |xs|
    ensures forall i :: 0 <= i < |xs| ==> v.kids[i] == f(xs[i])
  {
    Node(seq(|xs|, i requires 0 <= i < |xs| => f(xs[i])))
  }

  /** Encoding a vector is injective when encoding its elements is. */
  lemma ManyInjective<T>(xs: seq<T>, ys: seq<T>, f: T -> Val)
    requires Many(xs, f) == Many(ys, f)
    requires forall x, y :: f(x) == f(y) ==> x == y
    ensures xs == ys
  {
    assert |xs| == |ys|;
    forall i | 0 <= i < |xs|
      ensures xs[i] == ys[i]
    {
      assert Many(xs, f).kids[i] == Many(ys, f).kids[i];
    }
  }
}
