/**
 The order of struct field names. How a struct literal stores its fields
 (`struct_data_t`) is not part of this model; the model takes its fields to be
 visited in increasing lexicographic order of their names, as an ordered map
 keyed by name would give. `Least` picks the first of a set of names.
 */
module FieldOrder {

  /** Lexicographic order on names, character by character. */
  predicate LexLe(a: string, b: string) {
    |a| == 0 || (|b| > 0 && (a[0] < b[0] || (a[0] == b[0] && LexLe(a[1..], b[1..]))))
  }

  lemma {:induction false} LexLeReflexive(a: string)
    ensures LexLe(a, a)
  {
    if |a| > 0 { LexLeReflexive(a[1..]); }
  }

  lemma {:induction false} LexLeTotal(a: string, b: string)
    ensures LexLe(a, b) || LexLe(b, a)
  {
    if |a| > 0 && |b| > 0 && a[0] == b[0] { LexLeTotal(a[1..], b[1..]); }
  }

  lemma {:induction false} LexLeAntisymmetric(a: string, b: string)
    requires LexLe(a, b) && LexLe(b, a)
    ensures a == b
  {
    if |a| > 0 {
      LexLeAntisymmetric(a[1..], b[1..]);
      assert a == [a[0]] + a[1..] && b == [b[0]] + b[1..];
    }
  }

  lemma {:induction false} LexLeTransitive(a: string, b: string, c: string)
    requires LexLe(a, b) && LexLe(b, c)
    ensures LexLe(a, c)
  {
    if |a| > 0 && a[0] == b[0] && b[0] == c[0] {
      LexLeTransitive(a[1..], b[1..], c[1..]);
    }
  }

  /** `k` is the first of `keys`. */
  predicate IsLeast(k: string, keys: set<string>) {
    k in keys && forall k2 :: k2 in keys ==> LexLe(k, k2)
  }

  /** Every non-empty finite set of names has a first element. */
  lemma {:induction false} LeastExists(keys: set<string>)
    requires keys != {}
    ensures exists k :: IsLeast(k, keys)
    decreases |keys|
  {
    var x :| x in keys;
    var rest := keys - {x};
    LexLeReflexive(x);
    if rest == {} {
      assert keys == {x};
      assert IsLeast(x, keys);
    } else {
      LeastExists(rest);
      var m :| IsLeast(m, rest);
      LexLeTotal(x, m);
      if LexLe(x, m) {
        forall k2 | k2 in keys ensures LexLe(x, k2) {
          if k2 != x { LexLeTransitive(x, m, k2); }
        }
        assert IsLeast(x, keys);
      } else {
        assert IsLeast(m, keys);
      }
    }
  }

  /** The first element of a set of names is unique. */
  lemma LeastUnique(keys: set<string>)
    ensures forall k1, k2 :: IsLeast(k1, keys) && IsLeast(k2, keys) ==> k1 == k2
  {
    forall k1, k2 | IsLeast(k1, keys) && IsLeast(k2, keys) ensures k1 == k2 {
      LexLeAntisymmetric(k1, k2);
    }
  }

  /** The first of a non-empty set of names. */
  function Least(keys: set<string>): (k: string)
    requires keys != {}
    ensures k in keys
    ensures forall k2 :: k2 in keys ==> LexLe(k, k2)
  {
    LeastExists(keys);
    LeastUnique(keys);
    var k :| k in keys && IsLeast(k, keys);
    k
  }
}
