/** The ranking of heat records: `Nodes.Less` of the min-heap, and the byte order of Go strings. */
module Order {

  type uint32 = x: int | 0 <= x < 0x1_0000_0000

  /** One heat record, as the heap and the checkpoint see it. */
  datatype Item = Item(key: string, count: uint32)

  /** Go's `a < b` on strings. */
  predicate StrLess(a: string, b: string) {
    b != [] && (a == [] || a[0] < b[0] || (a[0] == b[0] && StrLess(a[1..], b[1..])))
  }

  /** `Nodes.Less`: a smaller count first, and among equal counts the larger key first. */
  predicate Less(a: Item, b: Item) {
    a.count < b.count || (a.count == b.count && StrLess(b.key, a.key))
  }

  predicate Le(a: Item, b: Item) {
    !Less(b, a)
  }

  lemma {:induction false} StrLessTransitive(a: string, b: string, c: string)
    requires StrLess(a, b) && StrLess(b, c)
    ensures StrLess(a, c)
  {
    if a != [] && a[0] == b[0] && b[0] == c[0] {
      StrLessTransitive(a[1..], b[1..], c[1..]);
    }
  }

  lemma {:induction false} StrLessTotal(a: string, b: string)
    ensures !(StrLess(a, b) && StrLess(b, a))
    ensures StrLess(a, b) || StrLess(b, a) <==> a != b
  {
    if a != [] && b != [] && a[0] == b[0] {
      StrLessTotal(a[1..], b[1..]);
      assert a == [a[0]] + a[1..] && b == [b[0]] + b[1..];
    }
  }

  /** The strings agree up to position `n`, where `a` ends first or has the smaller character. */
  ghost predicate DiffersAt(a: string, b: string, n: nat) {
    && n <= |a| && n < |b| && a[..n] == b[..n]
    && (n == |a| || a[n] < b[n])
  }

  /** String order is decided at the first difference, or by being a proper prefix. */
  lemma {:induction false} StrLessIsLexical(a: string, b: string)
    ensures StrLess(a, b) <==> exists n: nat :: DiffersAt(a, b, n)
  {
    if a != [] && b != [] && a[0] == b[0] {
      StrLessIsLexical(a[1..], b[1..]);
      if n: nat :| DiffersAt(a[1..], b[1..], n) {
        assert a[..n + 1] == [a[0]] + a[1..][..n] && b[..n + 1] == [b[0]] + b[1..][..n];
        assert DiffersAt(a, b, n + 1);
      }
      if n: nat :| DiffersAt(a, b, n) {
        assert n > 0;
        assert a[1..][..n - 1] == a[..n][1..] && b[1..][..n - 1] == b[..n][1..];
        assert DiffersAt(a[1..], b[1..], n - 1);
      }
    } else if StrLess(a, b) {
      assert DiffersAt(a, b, 0);
    }
  }

  /** The ranking is a strict total order. */
  lemma LessTotal(a: Item, b: Item)
    ensures !(Less(a, b) && Less(b, a))
    ensures Less(a, b) || Less(b, a) <==> a != b
  {
    StrLessTotal(a.key, b.key);
  }

  lemma LessTransitive(a: Item, b: Item, c: Item)
    requires Less(a, b) && Less(b, c)
    ensures Less(a, c)
  {
    if a.count == b.count == c.count {
      StrLessTransitive(c.key, b.key, a.key);
    }
  }

  lemma LeTransitive(a: Item, b: Item, c: Item)
    requires Le(a, b) && Le(b, c)
    ensures Le(a, c)
  {
    LessTotal(a, b);
    LessTotal(b, c);
    LessTotal(a, c);
    if Less(a, b) && Less(b, c) {
      LessTransitive(a, b, c);
    }
  }
}
